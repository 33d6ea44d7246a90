/** Which footer rows `covering_statistics` takes for a covering column: DuckDB's rendering of a leaf
    column's path, the text normalisation of it, and the key it is compared with byte for byte. */
module FooterNames {
  import SchemaTree
  import opened CoveringPaths

  /** `replace(',', ".").replace(' ', "")` on one character. */
  function NormalChar(c: char): string { if c == ' ' then "" else if c == ',' then "." else [c] }

  function Normalize(s: string): string {
    if s == "" then "" else NormalChar(s[0]) + Normalize(s[1..])
  }

  /** `join(sep)`. */
  function Join(p: seq<string>, sep: string): string {
    if p == [] then "" else if |p| == 1 then p[0] else p[0] + sep + Join(p[1..], sep)
  }

  /** A leaf column's `path_in_schema`. */
  function Rendered(leaf: FieldPath): string { Join(leaf, ", ") }

  /** What a declared path is looked up by. */
  function Key(declared: FieldPath): string { Join(declared, ".") }

  /** The footer rows of `leaf` are taken for the declared path. */
  predicate TakenFor(leaf: FieldPath, declared: FieldPath) { Normalize(Rendered(leaf)) == Key(declared) }

  /** No comma and no blank. */
  predicate Plain(s: string) { ',' !in s && ' ' !in s }

  predicate AllPlain(p: FieldPath) { forall i :: 0 <= i < |p| ==> Plain(p[i]) }

  predicate AllDotless(p: FieldPath) { forall i :: 0 <= i < |p| ==> '.' !in p[i] }

  // ---------------------------------------------------------------- normalisation

  lemma {:induction false} NormalizeAppend(a: string, b: string)
    ensures Normalize(a + b) == Normalize(a) + Normalize(b)
  {
    if a == "" {
      assert a + b == b;
    } else {
      assert (a + b)[1..] == a[1..] + b;
      NormalizeAppend(a[1..], b);
    }
  }

  lemma {:induction false} NormalizedIsPlain(s: string)
    ensures Plain(Normalize(s))
  {
    if s != "" {
      NormalizedIsPlain(s[1..]);
    }
  }

  lemma {:induction false} PlainIsNormal(s: string)
    requires Plain(s)
    ensures Normalize(s) == s
  {
    if s != "" {
      assert s == [s[0]] + s[1..] && s[0] in s;
      PlainIsNormal(s[1..]);
    }
  }

  function NormalizeEach(p: FieldPath): (r: FieldPath)
    ensures |r| == |p| && forall i :: 0 <= i < |p| ==> r[i] == Normalize(p[i])
  {
    seq(|p|, i requires 0 <= i < |p| => Normalize(p[i]))
  }

  lemma {:induction false} SeparatorBecomesDot()
    ensures Normalize(", ") == "."
  {
    assert ", "[1..] == " " && " "[1..] == "";
    assert Normalize(" ") == "";
  }

  /** Normalising a rendering joins the normalised segments with dots. */
  lemma {:induction false} NormalizedRendering(p: FieldPath)
    ensures Normalize(Rendered(p)) == Key(NormalizeEach(p))
  {
    if |p| > 1 {
      var rest := p[1..];
      NormalizedRendering(rest);
      NormalizeAppend(p[0] + ", ", Rendered(rest));
      NormalizeAppend(p[0], ", ");
      SeparatorBecomesDot();
      assert NormalizeEach(p)[1..] == NormalizeEach(rest);
    }
  }

  // ---------------------------------------------------------------- joined paths

  lemma {:induction false} SegmentsInJoin(p: seq<string>, sep: string, i: nat, c: char)
    requires i < |p| && c in p[i]
    ensures c in Join(p, sep)
  {
    if |p| > 1 && i > 0 {
      SegmentsInJoin(p[1..], sep, i - 1, c);
    }
  }

  /** Equal joins of segments of equal lengths are of equal segments. */
  lemma {:induction false} SameShapeJoins(p: FieldPath, q: FieldPath)
    requires |p| == |q| && forall i :: 0 <= i < |p| ==> |p[i]| == |q[i]|
    requires Key(p) == Key(q)
    ensures p == q
    decreases |p|
  {
    if |p| > 1 {
      SameFirst(p, q);
      SameShapeJoins(p[1..], q[1..]);
      assert p == [p[0]] + p[1..] && q == [q[0]] + q[1..];
    }
  }

  lemma {:induction false} SameFirst(p: FieldPath, q: FieldPath)
    requires |p| > 1 && |q| > 1 && |p[0]| == |q[0]| && Key(p) == Key(q)
    ensures p[0] == q[0] && Key(p[1..]) == Key(q[1..])
  {
    var n := |p[0]|;
    assert Key(p)[..n] == p[0] && Key(q)[..n] == q[0];
    assert Key(p)[n + 1..] == Key(p[1..]) && Key(q)[n + 1..] == Key(q[1..]);
  }

  /** A key starts with its first segment, and goes on with a dot if there is a second. */
  lemma {:induction false} KeyShape(p: FieldPath)
    requires p != []
    ensures |Key(p)| >= |p[0]| && forall i :: 0 <= i < |p[0]| ==> Key(p)[i] == p[0][i]
    ensures |p| == 1 <==> |Key(p)| == |p[0]|
    ensures |p| > 1 ==> Key(p)[|p[0]|] == '.'
  {
  }

  /** So the first dot ends the first segment. */
  lemma {:induction false} FirstNoLonger(p: FieldPath, q: FieldPath)
    requires p != [] && q != [] && '.' !in q[0] && Key(p) == Key(q)
    ensures |p[0]| >= |q[0]|
  {
    KeyShape(p);
    KeyShape(q);
  }

  /** Dotless paths are determined by their keys. */
  lemma {:induction false} DotlessKeysDiffer(p: FieldPath, q: FieldPath)
    requires p != [] && q != [] && AllDotless(p) && AllDotless(q) && Key(p) == Key(q)
    ensures p == q
    decreases |p|
  {
    FirstNoLonger(p, q);
    FirstNoLonger(q, p);
    KeyShape(p);
    KeyShape(q);
    if |p| > 1 {
      SameFirst(p, q);
      DotlessKeysDiffer(p[1..], q[1..]);
      assert p == [p[0]] + p[1..] && q == [q[0]] + q[1..];
    }
  }

  // ---------------------------------------------------------------- which columns are taken

  /** A column declared exactly as the file spells it is found exactly when no segment holds a comma
      or a blank. */
  lemma {:induction false} FoundWhenPlain(p: FieldPath)
    ensures TakenFor(p, p) <==> AllPlain(p)
  {
    NormalizedRendering(p);
    if AllPlain(p) {
      forall i | 0 <= i < |p|
        ensures Normalize(p[i]) == p[i]
      {
        PlainIsNormal(p[i]);
      }
      assert NormalizeEach(p) == p;
    }
    if TakenFor(p, p) {
      KeysAreOfPlainPaths(p, p);
    }
  }

  lemma {:induction false} KeysAreOfPlainPaths(leaf: FieldPath, declared: FieldPath)
    requires TakenFor(leaf, declared)
    ensures AllPlain(declared)
  {
    NormalizedIsPlain(Rendered(leaf));
    forall i | 0 <= i < |declared|
      ensures Plain(declared[i])
    {
      if ',' in declared[i] {
        SegmentsInJoin(declared, ".", i, ',');
      }
      if ' ' in declared[i] {
        SegmentsInJoin(declared, ".", i, ' ');
      }
    }
  }

  lemma {:induction false} FoldKeepsPlain(a: string, b: string)
    requires SameFold(a, b) && Plain(b)
    ensures |a| == |b| && Plain(a)
  {
    forall i | 0 <= i < |a|
      ensures a[i] != ',' && a[i] != ' '
    {
      assert Lower(a)[i] == Lower(b)[i] && b[i] in b;
    }
  }

  lemma {:induction false} PlainSameShape(leaf: FieldPath, declared: FieldPath)
    requires AllPlain(leaf) && |leaf| == |declared| && forall i :: 0 <= i < |leaf| ==> |leaf[i]| == |declared[i]|
    ensures TakenFor(leaf, declared) <==> leaf == declared
  {
    FoundWhenPlain(leaf);
    if TakenFor(leaf, declared) {
      SameShapeJoins(leaf, declared);
    }
  }

  /** The walk resolves a covering path ignoring ASCII case, the lookup does not: the column `own` that
      a declared path resolves to has its statistics found exactly when the declaration spells it
      letter for letter and no segment holds a comma or a blank. */
  lemma {:induction false} OwnIsFoundWhen(own: FieldPath, declared: FieldPath)
    requires SamePathFold(own, declared)
    ensures TakenFor(own, declared) <==> own == declared && AllPlain(declared)
  {
    FoundWhenPlain(declared);
    if TakenFor(own, declared) {
      KeysAreOfPlainPaths(own, declared);
      forall i | 0 <= i < |own|
        ensures |own[i]| == |declared[i]| && Plain(own[i])
      {
        FoldKeepsPlain(own[i], declared[i]);
      }
      PlainSameShape(own, declared);
    }
  }

  /** Every column whose name spells a path with dots is taken for that path. */
  lemma {:induction false} DottedNameIsTaken(p: FieldPath)
    ensures TakenFor([Key(p)], p) <==> AllPlain(p)
  {
    FoundWhenPlain(p);
    if AllPlain(p) {
      NormalizedRendering(p);
      NormalizedIsPlain(Rendered(p));
      PlainIsNormal(Key(p));
    }
    if TakenFor([Key(p)], p) {
      KeysAreOfPlainPaths([Key(p)], p);
    }
  }

  /** No other column is taken for a declared path where neither spells a dot, a comma or a blank in a
      segment. */
  lemma {:induction false} NoOtherIsTakenWhen(leaf: FieldPath, declared: FieldPath)
    requires leaf != [] && declared != [] && AllPlain(leaf) && AllDotless(leaf) && AllDotless(declared)
    ensures TakenFor(leaf, declared) ==> leaf == declared
  {
    if TakenFor(leaf, declared) {
      FoundWhenPlain(leaf);
      DotlessKeysDiffer(leaf, declared);
    }
  }

  // ---------------------------------------------------------------- the column a path resolves to

  lemma {:induction false} ResolvedColumnFolds(nodes: seq<SchemaTree.NameNode>, path: FieldPath, at: seq<nat>)
    requires NamesInFile(nodes, path, at)
    ensures SamePathFold(FilePath(nodes, at), path)
    decreases |path|
  {
    if path != [] {
      var rest := FilePath(nodes[at[0]].children, at[1..]);
      ResolvedColumnFolds(nodes[at[0]].children, path[1..], at[1..]);
      forall i | 0 <= i < |path|
        ensures SameFold(FilePath(nodes, at)[i], path[i])
      {
        assert i > 0 ==> SameFold(rest[i - 1], path[1..][i - 1]);
      }
    }
  }

  /** For a covering path that resolves, its column's statistics are found exactly when the declared
      spelling is the file's and holds no comma and no blank. */
  lemma {:induction false} ResolvedIsFoundWhen(file: SchemaTree.NameNode, schema: seq<Field>, declared: FieldPath)
    returns (at: seq<nat>)
    requires |file.children| <= |schema| && Verdict(file, schema, declared).Resolves?
    ensures NamesInFile(file.children, declared, at)
    ensures var own := FilePath(file.children, at);
            TakenFor(own, declared) <==> own == declared && AllPlain(declared)
  {
    at := ResolvesNamesOneColumn(file.children, schema, declared, [], []);
    ResolvedColumnFolds(file.children, declared, at);
    OwnIsFoundWhen(FilePath(file.children, at), declared);
  }
}
