/** Two families of files whose column names mislead the footer-statistics level, each carried from the
    covering's judgement to the level's outcome. */
module MisleadingNames {
  import opened Options
  import opened Floats
  import opened Boxes
  import opened SchemaTree
  import opened CoveringPaths
  import opened FooterNames
  import opened CoveringStatistics

  const LEAVES := ["xmin", "ymin", "xmax", "ymax"]

  function Leaf(side: Side): string {
    match side
    case XMin => LEAVES[0]
    case YMin => LEAVES[1]
    case XMax => LEAVES[2]
    case YMax => LEAVES[3]
  }

  function CoveringIn(column: string): Covering {
    Covering([column, Leaf(XMin)], [column, Leaf(YMin)], [column, Leaf(XMax)], [column, Leaf(YMax)])
  }

  /** A top-level column spelled like the path of the covering's first leaf. */
  function DecoyName(column: string): string { Key([column, Leaf(XMin)]) }

  /** A file with a covering in `column` and the decoy beside it. */
  function FileWith(column: string): NameNode {
    Node("schema", [Node(column, seq(4, i requires 0 <= i < 4 => Node(LEAVES[i], []))), Node(DecoyName(column), [])])
  }

  function SchemaOf(column: string): seq<Field> {
    [Field(column, Struct(seq(4, i requires 0 <= i < 4 => Field(LEAVES[i], OtherType, None))), None),
     Field(DecoyName(column), OtherType, None)]
  }

  /** One row, well inside the domain. */
  const ROWS := [[RawBox(Num(0.0), Num(0.0), Num(1.0), Num(1.0))]]

  const PLACES := Places([0], [1], [2], [3])

  function ChunkOf(column: string, side: Side): Chunk {
    Chunk(0, [column, Leaf(side)], Some(Bound(ROWS[0][0], side)), Some(Bound(ROWS[0][0], side)))
  }

  function OwnChunks(column: string): seq<Chunk> {
    [ChunkOf(column, XMin), ChunkOf(column, YMin), ChunkOf(column, XMax), ChunkOf(column, YMax)]
  }

  function Decoy(column: string): Chunk { Chunk(0, [DecoyName(column)], Some(Num(-5000.0)), Some(Num(0.0))) }

  // ---------------------------------------------------------------- the covering is usable

  lemma {:induction false} LeavesDiffer(i: nat, j: nat)
    requires i < 4 && j < 4
    ensures SameFold(LEAVES[i], LEAVES[j]) <==> i == j
  {
    assert Lower(LEAVES[i])[0] == LEAVES[i][0] && Lower(LEAVES[j])[0] == LEAVES[j][0];
    assert Lower(LEAVES[i])[2] == LEAVES[i][2] && Lower(LEAVES[j])[2] == LEAVES[j][2];
  }

  lemma {:induction false} LeafLevel(column: string, i: nat)
    requires i < 4
    ensures AlignedAt(FileWith(column).children[0].children, SchemaOf(column)[0].dtype.children, [LEAVES[i]], [i])
  {
    forall j: nat | j < 4
      ensures SameFold(LEAVES[j], LEAVES[i]) <==> j == i
    {
      LeavesDiffer(j, i);
    }
  }

  /** The column in any ASCII case and a leaf name resolve. */
  lemma {:induction false} LeafResolves(column: string, declared: string, i: nat)
    requires i < 4 && SameFold(column, declared)
    ensures Verdict(FileWith(column), SchemaOf(column), [declared, LEAVES[i]]).Resolves?
  {
    var path, nodes, fields := [declared, LEAVES[i]], FileWith(column).children, SchemaOf(column);
    LeafLevel(column, i);
    assert |Lower(column)| == |Lower(declared)|;
    assert [column, Leaf(XMin)][1..] == [Leaf(XMin)];
    assert |DecoyName(column)| > |declared|;
    assert path[1..] == [LEAVES[i]] && [0, i][1..] == [i];
    assert AlignedAt(nodes, fields, path, [0, i]);
    AlignedResolves(nodes, fields, path, [], [], [0, i]);
  }

  lemma {:induction false} PathsResolve(column: string, declared: string, i: nat)
    requires SameFold(column, declared) && '\0' !in declared && i < 4
    ensures var paths := CoveringIn(declared).Paths();
            Verdict(FileWith(column), SchemaOf(column), paths[i]).Resolves? && !HasNul(paths[i])
  {
    var path := CoveringIn(declared).Paths()[i];
    assert path == [declared, LEAVES[i]];
    LeafResolves(column, declared, i);
    assert '\0' !in LEAVES[i];
  }

  method JudgeHere(column: string, declared: string) returns (j: Judgement)
    requires SameFold(column, declared) && '\0' !in declared
    ensures j.Usable?
  {
    var c := CoveringIn(declared);
    j := JudgeCovering(Some(c), SchemaOf(column), FileWith(column));
    ghost var paths := c.Paths();
    ghost var ws := Verdicts(FileWith(column), SchemaOf(column), paths);
    forall i | 0 <= i < 4
      ensures ws[i].Resolves? && !HasNul(paths[i])
    {
      PathsResolve(column, declared, i);
    }
    JudgementsAreExact(j, paths, ws);
  }

  // ---------------------------------------------------------------- a foreign column

  lemma {:induction false} PlainLeaf(side: Side)
    ensures Plain(Leaf(side)) && |Leaf(side)| == 4
  {
  }

  lemma {:induction false} LeafIsOnes(side: Side, other: Side)
    ensures Leaf(side) == Leaf(other) <==> side == other
  {
    assert LEAVES[0][0] != LEAVES[1][0] && LEAVES[2][0] != LEAVES[3][0];
    assert LEAVES[0][2] != LEAVES[2][2] && LEAVES[0][2] != LEAVES[3][2];
    assert LEAVES[1][2] != LEAVES[2][2] && LEAVES[1][2] != LEAVES[3][2];
  }

  function SideAt(k: nat): Side {
    if k == 0 then XMin else if k == 1 then YMin else if k == 2 then XMax else YMax
  }

  lemma {:induction false} OwnColumn(column: string, chunks: seq<Chunk>, side: Side)
    requires chunks == OwnChunks(column) || chunks == OwnChunks(column) + [Decoy(column)]
    ensures DescribesColumn(chunks, [column, Leaf(side)], side, ROWS, PLACES.Of(side))
  {
    var own, at := [column, Leaf(side)], PLACES.Of(side);
    assert chunks[at[0]] == ChunkOf(column, side);
    assert Bound(ROWS[0][0], side) == Bound(ROWS[0][0], side) && Attains(ROWS[0], side, Bound(ROWS[0][0], side));
    forall k | 0 <= k < |chunks| && chunks[k].path == own
      ensures chunks[k].group == 0 && at[0] == k
    {
      assert |chunks[k].path| == 2;
      assert k < 4 && chunks[k] == ChunkOf(column, SideAt(k));
      assert chunks[k].path[1] == Leaf(SideAt(k)) && own[1] == Leaf(side);
      LeafIsOnes(side, SideAt(k));
    }
  }

  lemma {:induction false} OwnIsDescribed(column: string, chunks: seq<Chunk>)
    requires chunks == OwnChunks(column) || chunks == OwnChunks(column) + [Decoy(column)]
    ensures Describes(chunks, CoveringIn(column), ROWS, PLACES)
  {
    forall side: Side
      ensures DescribesColumn(chunks, PathOf(CoveringIn(column), side), side, ROWS, PLACES.Of(side))
    {
      OwnColumn(column, chunks, side);
      assert PathOf(CoveringIn(column), side) == [column, Leaf(side)];
    }
    assert forall k :: 0 <= k < |chunks| ==> chunks[k].group == 0;
  }

  lemma {:induction false} OwnIsFound(column: string, side: Side)
    requires Plain(column)
    ensures TakenFor([column, Leaf(side)], [column, Leaf(side)])
  {
    PlainLeaf(side);
    FoundWhenPlain([column, Leaf(side)]);
  }

  lemma {:induction false} BoxIsFolded(column: string, side: Side)
    requires Plain(column)
    ensures var c := CoveringIn(column);
            && TakenFor(PathOf(c, side), PathOf(c, side))
            && !Lacks(FooterRows(OwnChunks(column) + [Decoy(column)]), c, side)
  {
    var chunks, c := OwnChunks(column) + [Decoy(column)], CoveringIn(column);
    assert PathOf(c, side) == [column, Leaf(side)];
    OwnIsFound(column, side);
    assert chunks[PLACES.Of(side)[0]] == ChunkOf(column, side);
    NothingLacks(chunks, c, side, PLACES.Of(side)[0]);
  }

  lemma {:induction false} DecoyConvicts(column: string)
    requires Plain(column)
    ensures var c := CoveringIn(column); Convicts(OwnChunks(column) + [Decoy(column)], c, c, ROWS)
  {
    var c, chunks := CoveringIn(column), OwnChunks(column) + [Decoy(column)];
    PlainLeaf(XMin);
    DottedNameIsTaken([column, Leaf(XMin)]);
    assert chunks[4] == Decoy(column);
    assert |chunks[4].path| == 1 && |PathOf(c, XMin)| == 2;
    assert Foreign(chunks, c, c, XMin, 4) && BeyondAt(chunks, XMin, 4);
    assert SideConvicts(chunks, c, c, ROWS, XMin);
  }

  lemma {:induction false} TheRowIsInside()
    ensures RowsInside(ROWS) && RowsOriented(ROWS)
  {
  }

  method DecoyedOutcome(column: string) returns (outcome: SanityOutcome)
    requires Plain(column)
    ensures outcome.FormatDefaultContradicted?
  {
    var c, chunks := CoveringIn(column), OwnChunks(column) + [Decoy(column)];
    var b := FoldStatistics(FooterRows(chunks), c);
    forall side: Side
      ensures !Lacks(FooterRows(chunks), c, side) && TakenFor(PathOf(c, side), PathOf(c, side))
    {
      BoxIsFolded(column, side);
    }
    OwnIsDescribed(column, chunks);
    DecoyConvicts(column);
    ConvictedExactlyWhen(chunks, c, c, ROWS, PLACES, b.value);
    outcome := ConvictOrRecord(b.value, true);
  }

  /** For every covering column whose name holds no comma, blank or NUL: the covering is usable, the only
      row is inside the domain, and the open is refused, because the statistics of the column spelled
      like the path are taken for the path. */
  method DecoyRun(column: string) returns (judged: Judgement, outcome: SanityOutcome)
    requires Plain(column) && '\0' !in column
    ensures judged.Usable? && outcome.FormatDefaultContradicted?
    ensures Describes(OwnChunks(column) + [Decoy(column)], CoveringIn(column), ROWS, PLACES)
    ensures RowsInside(ROWS) && RowsOriented(ROWS)
  {
    judged := JudgeHere(column, column);
    outcome := DecoyedOutcome(column);
    OwnIsDescribed(column, OwnChunks(column) + [Decoy(column)]);
    TheRowIsInside();
  }

  // ---------------------------------------------------------------- another spelling

  lemma {:induction false} NoneIsTaken(column: string, declared: string, side: Side)
    requires SameFold(column, declared) && column != declared && Plain(column)
    ensures forall k :: !Taken(OwnChunks(column), CoveringIn(declared), side, k)
  {
    var chunks, c := OwnChunks(column), CoveringIn(declared);
    forall k | 0 <= k < 4
      ensures !TakenFor(chunks[k].path, PathOf(c, side))
    {
      var other := if k == 0 then XMin else if k == 1 then YMin else if k == 2 then XMax else YMax;
      assert chunks[k].path == [column, Leaf(other)] && PathOf(c, side) == [declared, Leaf(side)];
      PlainLeaf(other);
      PlainLeaf(side);
      assert |Lower(column)| == |Lower(declared)|;
      PlainSameShape(chunks[k].path, PathOf(c, side));
      assert chunks[k].path[0] != PathOf(c, side)[0];
    }
  }

  /** For every covering column and every other ASCII case of its name: the covering is usable and every
      row group carries its statistics, yet no box is folded. */
  method RespelledRun(column: string, declared: string) returns (judged: Judgement, b: Option<RawBox>)
    requires SameFold(column, declared) && column != declared && Plain(column) && '\0' !in declared
    ensures judged.Usable? && b.None?
    ensures Describes(OwnChunks(column), CoveringIn(column), ROWS, PLACES)
  {
    judged := JudgeHere(column, declared);
    b := FoldStatistics(FooterRows(OwnChunks(column)), CoveringIn(declared));
    OwnIsDescribed(column, OwnChunks(column));
    NoneIsTaken(column, declared, XMin);
    NoneTakenLacks(OwnChunks(column), CoveringIn(declared), XMin);
  }
}
