/** Resolving declared names against the file's own name tree and, by position, against the resident
    schema: the covering's four paths and the geometry column. */
module CoveringPaths {
  import opened Options
  import opened Columns
  import opened SchemaTree

  datatype DataType = Struct(children: seq<Field>) | Binary | LargeBinary | BinaryView | OtherType

  /** A resident field; `exported` is DuckDB's Arrow-export name where the probe recorded one. */
  datatype Field = Field(name: string, dtype: DataType, exported: Option<string>)

  type FieldPath = seq<string>

  // ---------------------------------------------------------------- ASCII case

  function LowerChar(c: char): char {
    if 'A' <= c <= 'Z' then ((c as int - 'A' as int) + 'a' as int) as char else c
  }

  function Lower(s: string): (r: string)
    ensures |r| == |s| && forall i :: 0 <= i < |s| ==> r[i] == LowerChar(s[i])
  {
    seq(|s|, i requires 0 <= i < |s| => LowerChar(s[i]))
  }

  /** `eq_ignore_ascii_case`. */
  predicate SameFold(a: string, b: string) { Lower(a) == Lower(b) }

  /** Two characters agree, or are one ASCII letter in its two cases. */
  predicate SameLetter(a: char, b: char) {
    || a == b
    || ('A' <= a <= 'Z' && 'a' <= b <= 'z' && b as int - a as int == 32)
    || ('a' <= a <= 'z' && 'A' <= b <= 'Z' && a as int - b as int == 32)
  }

  /** What ignoring ASCII case means, letter by letter. */
  lemma {:induction false} FoldsAlikeWhen(a: string, b: string)
    ensures SameFold(a, b) <==> |a| == |b| && forall i :: 0 <= i < |a| ==> SameLetter(a[i], b[i])
  {
    if |a| == |b| {
      forall i | 0 <= i < |a|
        ensures Lower(a)[i] == Lower(b)[i] <==> SameLetter(a[i], b[i])
      {
      }
      if forall i :: 0 <= i < |a| ==> SameLetter(a[i], b[i]) {
        assert forall i :: 0 <= i < |a| ==> Lower(a)[i] == Lower(b)[i];
      }
      if SameFold(a, b) {
        assert forall i :: 0 <= i < |a| ==> Lower(a)[i] == Lower(b)[i];
      }
    }
  }

  /** The positions whose name matches, in order. */
  function CaseMatches(nodes: seq<NameNode>, name: string): (r: seq<nat>)
    ensures forall k :: 0 <= k < |r| ==> r[k] < |nodes| && SameFold(nodes[r[k]].name, name)
  {
    if nodes == [] then []
    else
      var n := |nodes| - 1;
      CaseMatches(nodes[..n], name) + (if SameFold(nodes[n].name, name) then [n] else [])
  }

  lemma {:induction false} MatchesAreAll(nodes: seq<NameNode>, name: string, i: nat)
    ensures i in CaseMatches(nodes, name) <==> i < |nodes| && SameFold(nodes[i].name, name)
  {
    if nodes != [] {
      var n := |nodes| - 1;
      MatchesAreAll(nodes[..n], name, i);
      var last: seq<nat> := if SameFold(nodes[n].name, name) then [n] else [];
      assert CaseMatches(nodes, name) == CaseMatches(nodes[..n], name) + last;
    }
  }

  lemma {:induction false} MatchesIgnoreCase(nodes: seq<NameNode>, a: string, b: string)
    requires SameFold(a, b)
    ensures CaseMatches(nodes, a) == CaseMatches(nodes, b)
  {
    if nodes != [] {
      MatchesIgnoreCase(nodes[..|nodes| - 1], a, b);
    }
  }

  // ---------------------------------------------------------------- one path

  /** What a walk found; paths are name lists. */
  datatype PathWalk =
    | Resolves
    | Absent
    | Ambiguous(matches: seq<FieldPath>)
    | Misbound(filePath: FieldPath, residentPath: FieldPath)
    | Inconsistent(filePath: FieldPath, fileCount: nat, residentCount: nat)

  predicate Refuses(w: PathWalk) { w.Ambiguous? || w.Misbound? || w.Inconsistent? }

  function Spelled(prefix: FieldPath, nodes: seq<NameNode>, at: seq<nat>): seq<FieldPath>
    requires forall k :: 0 <= k < |at| ==> at[k] < |nodes|
  {
    seq(|at|, k requires 0 <= k < |at| => prefix + [nodes[at[k]].name])
  }

  /** The walk from one level on, `fp` and `rp` being the names passed so far. */
  function Walk(nodes: seq<NameNode>, fields: seq<Field>, path: FieldPath, fp: FieldPath, rp: FieldPath): PathWalk
    requires |nodes| <= |fields|
    decreases |path|
  {
    if path == [] then Resolves
    else
      var found := CaseMatches(nodes, path[0]);
      if |found| == 0 then Absent
      else if |found| > 1 then Ambiguous(Spelled(fp, nodes, found))
      else
        var (node, field) := (nodes[found[0]], fields[found[0]]);
        var (fp', rp') := (fp + [node.name], rp + [field.name]);
        if !SameFold(field.name, path[0]) then Misbound(fp', rp')
        else if |path| == 1 then Resolves
        else if !field.dtype.Struct? then Absent
        else if |field.dtype.children| != |node.children|
        then Inconsistent(fp', |node.children|, |field.dtype.children|)
        else Walk(node.children, field.dtype.children, path[1..], fp', rp')
  }

  /** `field_path_exists`: the two cursors stay aligned, so every index into the resident level is in
      bounds once the top level is. */
  method FieldPathExists(file: NameNode, schema: seq<Field>, path: FieldPath) returns (w: PathWalk)
    requires |file.children| <= |schema|
    ensures w == Walk(file.children, schema, path, [], [])
  {
    var fileLevel, residentLevel := file.children, schema;
    var fp, rp: FieldPath := [], [];
    for depth := 0 to |path|
      invariant |fileLevel| <= |residentLevel|
      invariant Walk(file.children, schema, path, [], []) == Walk(fileLevel, residentLevel, path[depth..], fp, rp)
    {
      var segment := path[depth];
      assert path[depth..][0] == segment && path[depth..][1..] == path[depth + 1..];
      var found := CaseMatches(fileLevel, segment);
      if |found| == 0 {
        return Absent;
      }
      if |found| > 1 {
        return Ambiguous(Spelled(fp, fileLevel, found));
      }
      var node, field := fileLevel[found[0]], residentLevel[found[0]];
      fp, rp := fp + [node.name], rp + [field.name];
      if !SameFold(field.name, segment) {
        return Misbound(fp, rp);
      }
      if depth + 1 == |path| {
        return Resolves;
      }
      if !field.dtype.Struct? {
        return Absent;
      }
      if |field.dtype.children| != |node.children| {
        return Inconsistent(fp, |node.children|, |field.dtype.children|);
      }
      fileLevel, residentLevel := node.children, field.dtype.children;
    }
    return Resolves;
  }

  // ---------------------------------------------------------------- what a path names

  /** In the file, the node reached by positions `at` spells `path` up to ASCII case. */
  predicate NamesInFile(nodes: seq<NameNode>, path: FieldPath, at: seq<nat>)
    decreases |path|
  {
    && |at| == |path|
    && (path != [] ==>
          && at[0] < |nodes| && SameFold(nodes[at[0]].name, path[0])
          && NamesInFile(nodes[at[0]].children, path[1..], at[1..]))
  }

  /** In the resident schema, the same positions spell `path` too, through structs. */
  predicate NamesInSchema(fields: seq<Field>, path: FieldPath, at: seq<nat>)
    decreases |path|
  {
    && |at| == |path|
    && (path != [] ==>
          && at[0] < |fields| && SameFold(fields[at[0]].name, path[0])
          && (|path| > 1 ==>
                fields[at[0]].dtype.Struct? &&
                NamesInSchema(fields[at[0]].dtype.children, path[1..], at[1..])))
  }

  lemma {:induction false} OnlyMatch(nodes: seq<NameNode>, name: string, j: nat)
    requires CaseMatches(nodes, name) == [j]
    ensures j < |nodes| && SameFold(nodes[j].name, name)
    ensures forall i :: 0 <= i < |nodes| && SameFold(nodes[i].name, name) ==> i == j
  {
    assert CaseMatches(nodes, name)[0] == j;
    forall i | 0 <= i < |nodes| && SameFold(nodes[i].name, name)
      ensures i == j
    {
      MatchesAreAll(nodes, name, i);
    }
  }

  /** A resolving path names exactly one node of the whole file tree, and the resident schema reads
      that very node under the same names. */
  lemma {:induction false} ResolvesNamesOneColumn(
    nodes: seq<NameNode>, fields: seq<Field>, path: FieldPath, fp: FieldPath, rp: FieldPath)
    returns (at: seq<nat>)
    requires |nodes| <= |fields| && Walk(nodes, fields, path, fp, rp).Resolves?
    ensures NamesInFile(nodes, path, at) && NamesInSchema(fields, path, at)
    ensures forall other :: NamesInFile(nodes, path, other) ==> other == at
    decreases |path|
  {
    if path == [] {
      at := [];
    } else {
      var j := CaseMatches(nodes, path[0])[0];
      assert CaseMatches(nodes, path[0]) == [j];
      OnlyMatch(nodes, path[0], j);
      var rest: seq<nat> := [];
      if |path| == 1 {
        assert path[1..] == [];
      } else {
        rest := ResolvesNamesOneColumn(nodes[j].children, fields[j].dtype.children, path[1..],
                                       fp + [nodes[j].name], rp + [fields[j].name]);
      }
      at := [j] + rest;
      assert at[1..] == rest;
      forall other | NamesInFile(nodes, path, other)
        ensures other == at
      {
        assert other[0] == j;
        assert NamesInFile(nodes[j].children, path[1..], other[1..]);
        assert |other[1..]| == |path| - 1;
        assert other[1..] == rest;
        assert other == [other[0]] + other[1..];
      }
    }
  }

  /** Positions `at` spell `path` at every level: in the file as the only match, in the schema by the
      same name, and between two levels through a struct with as many children as the file's node. */
  ghost predicate AlignedAt(nodes: seq<NameNode>, fields: seq<Field>, path: FieldPath, at: seq<nat>)
    decreases |path|
  {
    && |at| == |path|
    && (path != [] ==>
          && at[0] < |nodes| <= |fields|
          && (forall i :: 0 <= i < |nodes| ==> (SameFold(nodes[i].name, path[0]) <==> i == at[0]))
          && SameFold(fields[at[0]].name, path[0])
          && (|path| > 1 ==>
                && fields[at[0]].dtype.Struct?
                && |fields[at[0]].dtype.children| == |nodes[at[0]].children|
                && AlignedAt(nodes[at[0]].children, fields[at[0]].dtype.children, path[1..], at[1..])))
  }

  /** A path that names one column of the file, read under the same names. */
  ghost predicate Readable(nodes: seq<NameNode>, fields: seq<Field>, path: FieldPath) {
    exists at: seq<nat> :: AlignedAt(nodes, fields, path, at)
  }

  lemma {:induction false} OnlyMatchIsFound(nodes: seq<NameNode>, name: string, j: nat)
    requires j < |nodes| && forall i :: 0 <= i < |nodes| ==> (SameFold(nodes[i].name, name) <==> i == j)
    ensures CaseMatches(nodes, name) == [j]
  {
    var found := CaseMatches(nodes, name);
    MatchesAreAll(nodes, name, j);
    MatchesAreDistinct(nodes, name);
    assert |found| > 1 ==> found[0] < found[1];
    assert forall k :: 0 <= k < |found| ==> found[k] == j;
  }

  lemma {:induction false} AlignedResolves(
    nodes: seq<NameNode>, fields: seq<Field>, path: FieldPath, fp: FieldPath, rp: FieldPath, at: seq<nat>)
    requires |nodes| <= |fields| && AlignedAt(nodes, fields, path, at)
    ensures Walk(nodes, fields, path, fp, rp).Resolves?
    decreases |path|
  {
    if path != [] {
      var j := at[0];
      OnlyMatchIsFound(nodes, path[0], j);
      if |path| > 1 {
        AlignedResolves(nodes[j].children, fields[j].dtype.children, path[1..],
                        fp + [nodes[j].name], rp + [fields[j].name], at[1..]);
      }
    }
  }

  lemma {:induction false} ResolvesAligned(
    nodes: seq<NameNode>, fields: seq<Field>, path: FieldPath, fp: FieldPath, rp: FieldPath)
    returns (at: seq<nat>)
    requires |nodes| <= |fields| && Walk(nodes, fields, path, fp, rp).Resolves?
    ensures AlignedAt(nodes, fields, path, at)
    decreases |path|
  {
    if path == [] {
      at := [];
    } else {
      var j := CaseMatches(nodes, path[0])[0];
      assert CaseMatches(nodes, path[0]) == [j];
      OnlyMatch(nodes, path[0], j);
      if |path| > 1 {
        var rest := ResolvesAligned(nodes[j].children, fields[j].dtype.children, path[1..],
                                fp + [nodes[j].name], rp + [fields[j].name]);
        at := [j] + rest;
        assert at[1..] == rest;
      } else {
        at := [j];
      }
    }
  }

  /** A path resolves exactly when, level by level, one file name matches it, the field at that
      position carries the name too, and every step down is through a struct that mirrors the node. */
  lemma {:induction false} ResolvesExactlyWhen(
    nodes: seq<NameNode>, fields: seq<Field>, path: FieldPath, fp: FieldPath, rp: FieldPath)
    requires |nodes| <= |fields|
    ensures Walk(nodes, fields, path, fp, rp).Resolves? <==> Readable(nodes, fields, path)
  {
    if Walk(nodes, fields, path, fp, rp).Resolves? {
      var at := ResolvesAligned(nodes, fields, path, fp, rp);
      assert AlignedAt(nodes, fields, path, at);
    }
    forall at: seq<nat> | AlignedAt(nodes, fields, path, at)
      ensures Walk(nodes, fields, path, fp, rp).Resolves?
    {
      AlignedResolves(nodes, fields, path, fp, rp, at);
    }
  }

  // ---------------------------------------------------------------- every verdict, over positions

  /** The one name of a level that matches is at `j`. */
  ghost predicate OnlyAt(nodes: seq<NameNode>, name: string, j: int) {
    0 <= j < |nodes| && forall i :: 0 <= i < |nodes| ==> (SameFold(nodes[i].name, name) <==> i == j)
  }

  /** The matching positions of a level, in order. */
  ghost predicate AllMatches(nodes: seq<NameNode>, name: string, at: seq<nat>) {
    && (forall k :: 0 <= k < |at| ==> at[k] < |nodes|)
    && (forall k, l :: 0 <= k < l < |at| ==> at[k] < at[l])
    && (forall i: nat :: i in at <==> i < |nodes| && SameFold(nodes[i].name, name))
  }

  /** A walk comes through positions `at`: each the only match of its level, read under the name it was
      asked for, and a struct that mirrors the node. */
  ghost predicate StepsTo(nodes: seq<NameNode>, fields: seq<Field>, path: FieldPath, at: seq<nat>)
    decreases |path|
  {
    && |at| < |path|
    && (at != [] ==>
          && OnlyAt(nodes, path[0], at[0]) && at[0] < |fields| && SameFold(fields[at[0]].name, path[0])
          && fields[at[0]].dtype.Struct? && |fields[at[0]].dtype.children| == |nodes[at[0]].children|
          && StepsTo(nodes[at[0]].children, fields[at[0]].dtype.children, path[1..], at[1..]))
  }

  /** The levels below positions `at`. */
  function NodesAt(nodes: seq<NameNode>, at: seq<nat>): seq<NameNode>
    decreases |at|
  {
    if at == [] then nodes else if at[0] < |nodes| then NodesAt(nodes[at[0]].children, at[1..]) else []
  }

  function FieldsAt(fields: seq<Field>, at: seq<nat>): seq<Field>
    decreases |at|
  {
    if at == [] then fields
    else if at[0] < |fields| && fields[at[0]].dtype.Struct? then FieldsAt(fields[at[0]].dtype.children, at[1..])
    else []
  }

  /** The file's, and the schema's, own spelling of the path through positions `at`. */
  function FilePath(nodes: seq<NameNode>, at: seq<nat>): FieldPath
    decreases |at|
  {
    if at == [] || at[0] >= |nodes| then [] else [nodes[at[0]].name] + FilePath(nodes[at[0]].children, at[1..])
  }

  function SchemaPath(fields: seq<Field>, at: seq<nat>): FieldPath
    decreases |at|
  {
    if at == [] || at[0] >= |fields| then []
    else [fields[at[0]].name] +
         (if fields[at[0]].dtype.Struct? then SchemaPath(fields[at[0]].dtype.children, at[1..]) else [])
  }

  /** What a level says about the first segment of `rest`, `fp` and `rp` being the spellings so far. */
  ghost predicate SaysHere(
    nodes: seq<NameNode>, fields: seq<Field>, rest: FieldPath, fp: FieldPath, rp: FieldPath, w: PathWalk)
    requires |nodes| <= |fields| && rest != []
  {
    match w
    case Resolves => |rest| == 1 && exists j :: OnlyAt(nodes, rest[0], j) && SameFold(fields[j].name, rest[0])
    case Absent =>
      || (forall i :: 0 <= i < |nodes| ==> !SameFold(nodes[i].name, rest[0]))
      || (|rest| > 1 &&
          exists j :: OnlyAt(nodes, rest[0], j) && SameFold(fields[j].name, rest[0]) && !fields[j].dtype.Struct?)
    case Ambiguous(matches) =>
      exists at: seq<nat> :: AllMatches(nodes, rest[0], at) && |at| > 1 && matches == Spelled(fp, nodes, at)
    case Misbound(file, resident) =>
      exists j :: OnlyAt(nodes, rest[0], j) && !SameFold(fields[j].name, rest[0]) &&
                  file == fp + [nodes[j].name] && resident == rp + [fields[j].name]
    case Inconsistent(file, fileCount, residentCount) =>
      |rest| > 1 &&
      exists j :: OnlyAt(nodes, rest[0], j) && SameFold(fields[j].name, rest[0]) && fields[j].dtype.Struct? &&
                  fileCount == |nodes[j].children| != |fields[j].dtype.children| == residentCount &&
                  file == fp + [nodes[j].name]
  }

  lemma {:induction false} IncreasingSame(a: seq<nat>, b: seq<nat>)
    requires (forall k, l :: 0 <= k < l < |a| ==> a[k] < a[l]) && (forall k, l :: 0 <= k < l < |b| ==> b[k] < b[l])
    requires forall i: nat :: i in a <==> i in b
    ensures a == b
    decreases |a|
  {
    assert b != [] ==> b[0] in b;
    if a != [] {
      assert a[|a| - 1] in b && b[|b| - 1] in a;
      var x, y := a[|a| - 1], b[|b| - 1];
      assert x == y;
      var a', b' := a[..|a| - 1], b[..|b| - 1];
      forall i: nat
        ensures i in a' <==> i in b'
      {
        assert i in a' <==> i in a && i != x;
        assert i in b' <==> i in b && i != x;
      }
      IncreasingSame(a', b');
      assert a == a' + [x] && b == b' + [x];
    }
  }

  lemma {:induction false} FoundAreAllMatches(nodes: seq<NameNode>, name: string, at: seq<nat>)
    ensures AllMatches(nodes, name, at) <==> at == CaseMatches(nodes, name)
  {
    var found := CaseMatches(nodes, name);
    MatchesAreDistinct(nodes, name);
    forall i: nat
      ensures i in found <==> i < |nodes| && SameFold(nodes[i].name, name)
    {
      MatchesAreAll(nodes, name, i);
    }
    if AllMatches(nodes, name, at) {
      IncreasingSame(at, found);
    }
  }

  lemma {:induction false} OneFound(nodes: seq<NameNode>, name: string)
    requires |CaseMatches(nodes, name)| == 1
    ensures OnlyAt(nodes, name, CaseMatches(nodes, name)[0])
  {
    var j := CaseMatches(nodes, name)[0];
    assert CaseMatches(nodes, name) == [j];
    OnlyMatch(nodes, name, j);
  }

  lemma {:induction false} OnlyOne(nodes: seq<NameNode>, name: string, j: int)
    requires OnlyAt(nodes, name, j)
    ensures forall i :: OnlyAt(nodes, name, i) ==> i == j
  {
    forall i | OnlyAt(nodes, name, i)
      ensures i == j
    {
      assert SameFold(nodes[i].name, name);
    }
  }

  lemma {:induction false} NoneFound(nodes: seq<NameNode>, name: string)
    ensures CaseMatches(nodes, name) == [] <==> forall i :: 0 <= i < |nodes| ==> !SameFold(nodes[i].name, name)
  {
    forall i: nat | i < |nodes|
      ensures i in CaseMatches(nodes, name) <==> SameFold(nodes[i].name, name)
    {
      MatchesAreAll(nodes, name, i);
    }
    if CaseMatches(nodes, name) != [] {
      var j := CaseMatches(nodes, name)[0];
      assert j in CaseMatches(nodes, name);
    }
  }

  /** The walk goes on below `j`. */
  ghost predicate GoesOn(nodes: seq<NameNode>, fields: seq<Field>, path: FieldPath, j: int)
    requires |nodes| <= |fields|
  {
    && |path| > 1 && OnlyAt(nodes, path[0], j) && SameFold(fields[j].name, path[0])
    && fields[j].dtype.Struct? && |fields[j].dtype.children| == |nodes[j].children|
  }

  lemma {:induction false} WalkGoesOn(
    nodes: seq<NameNode>, fields: seq<Field>, path: FieldPath, fp: FieldPath, rp: FieldPath, j: nat)
    requires |nodes| <= |fields| && GoesOn(nodes, fields, path, j)
    ensures Walk(nodes, fields, path, fp, rp) ==
            Walk(nodes[j].children, fields[j].dtype.children, path[1..], fp + [nodes[j].name], rp + [fields[j].name])
  {
    OnlyMatchIsFound(nodes, path[0], j);
  }

  /** Where the walk does not go on, it says what the level says. */
  lemma {:induction false} WalkStopsHere(
    nodes: seq<NameNode>, fields: seq<Field>, path: FieldPath, fp: FieldPath, rp: FieldPath, w: PathWalk)
    requires |nodes| <= |fields| && path != [] && forall j :: !GoesOn(nodes, fields, path, j)
    ensures Walk(nodes, fields, path, fp, rp) == w <==> SaysHere(nodes, fields, path, fp, rp, w)
  {
    var found := CaseMatches(nodes, path[0]);
    NoneFound(nodes, path[0]);
    FoundAreAllMatches(nodes, path[0], found);
    if |found| == 1 {
      OneFound(nodes, path[0]);
      StopsAtOne(nodes, fields, path, fp, rp, found[0], w);
    } else {
      StopsAtNotOne(nodes, fields, path, fp, rp, w);
    }
  }

  lemma {:induction false} StopsAtOne(
    nodes: seq<NameNode>, fields: seq<Field>, path: FieldPath, fp: FieldPath, rp: FieldPath, j: nat, w: PathWalk)
    requires |nodes| <= |fields| && path != [] && !GoesOn(nodes, fields, path, j)
    requires CaseMatches(nodes, path[0]) == [j] && OnlyAt(nodes, path[0], j)
    ensures Walk(nodes, fields, path, fp, rp) == w <==> SaysHere(nodes, fields, path, fp, rp, w)
  {
    OnlyOne(nodes, path[0], j);
    if w.Ambiguous? {
      forall at: seq<nat> | AllMatches(nodes, path[0], at)
        ensures at == [j]
      {
        FoundAreAllMatches(nodes, path[0], at);
      }
    }
  }

  lemma {:induction false} StopsAtNotOne(
    nodes: seq<NameNode>, fields: seq<Field>, path: FieldPath, fp: FieldPath, rp: FieldPath, w: PathWalk)
    requires |nodes| <= |fields| && path != [] && |CaseMatches(nodes, path[0])| != 1
    ensures Walk(nodes, fields, path, fp, rp) == w <==> SaysHere(nodes, fields, path, fp, rp, w)
  {
    var found := CaseMatches(nodes, path[0]);
    NoneFound(nodes, path[0]);
    NoOnly(nodes, path[0]);
    FoundAreAllMatches(nodes, path[0], found);
    forall at: seq<nat> | AllMatches(nodes, path[0], at)
      ensures at == found
    {
      FoundAreAllMatches(nodes, path[0], at);
    }
  }

  /** At positions `at` the walk comes to a level that says `w`. */
  ghost predicate StopsAt(
    nodes: seq<NameNode>, fields: seq<Field>, path: FieldPath, fp: FieldPath, rp: FieldPath, at: seq<nat>, w: PathWalk)
  {
    && StepsTo(nodes, fields, path, at) && |NodesAt(nodes, at)| <= |FieldsAt(fields, at)|
    && (forall j :: !GoesOn(NodesAt(nodes, at), FieldsAt(fields, at), path[|at|..], j))
    && SaysHere(NodesAt(nodes, at), FieldsAt(fields, at), path[|at|..], fp + FilePath(nodes, at),
                rp + SchemaPath(fields, at), w)
  }

  lemma {:induction false} StopsBelow(
    nodes: seq<NameNode>, fields: seq<Field>, path: FieldPath, fp: FieldPath, rp: FieldPath, j: nat, at: seq<nat>,
    w: PathWalk)
    requires |nodes| <= |fields| && GoesOn(nodes, fields, path, j)
    ensures StopsAt(nodes[j].children, fields[j].dtype.children, path[1..], fp + [nodes[j].name], rp + [fields[j].name],
                    at, w) <==>
            StopsAt(nodes, fields, path, fp, rp, [j] + at, w)
  {
    var below := [j] + at;
    assert below[1..] == at;
    if |below| < |path| {
      OneLevelMore(nodes, fields, path, fp, rp, below);
    }
  }

  lemma {:induction false} WalkStops(
    nodes: seq<NameNode>, fields: seq<Field>, path: FieldPath, fp: FieldPath, rp: FieldPath) returns (at: seq<nat>)
    requires |nodes| <= |fields| && path != []
    ensures StopsAt(nodes, fields, path, fp, rp, at, Walk(nodes, fields, path, fp, rp))
    decreases |path|
  {
    if j: nat :| GoesOn(nodes, fields, path, j) {
      WalkGoesOn(nodes, fields, path, fp, rp, j);
      var rest := WalkStops(nodes[j].children, fields[j].dtype.children, path[1..], fp + [nodes[j].name],
                            rp + [fields[j].name]);
      at := [j] + rest;
      StopsBelow(nodes, fields, path, fp, rp, j, rest, Walk(nodes, fields, path, fp, rp));
    } else {
      at := [];
      assert path[0..] == path && fp + [] == fp && rp + [] == rp;
      WalkStopsHere(nodes, fields, path, fp, rp, Walk(nodes, fields, path, fp, rp));
    }
  }

  lemma {:induction false} StopsIsWalk(
    nodes: seq<NameNode>, fields: seq<Field>, path: FieldPath, fp: FieldPath, rp: FieldPath, at: seq<nat>, w: PathWalk)
    requires |nodes| <= |fields| && path != [] && StopsAt(nodes, fields, path, fp, rp, at, w)
    ensures Walk(nodes, fields, path, fp, rp) == w
    decreases |path|
  {
    if at == [] {
      assert path[0..] == path && fp + [] == fp && rp + [] == rp;
      WalkStopsHere(nodes, fields, path, fp, rp, w);
    } else {
      var j := at[0];
      assert at == [j] + at[1..];
      StopsBelow(nodes, fields, path, fp, rp, j, at[1..], w);
      WalkGoesOn(nodes, fields, path, fp, rp, j);
      StopsIsWalk(nodes[j].children, fields[j].dtype.children, path[1..], fp + [nodes[j].name], rp + [fields[j].name],
                  at[1..], w);
    }
  }

  /** Each verdict, with what it reports, over positions alone: along a prefix whose every level has one
      match, read under its own name through a struct that mirrors the node, the walk comes to a level
      where it cannot go on, and answers what that level says. No name, or a step not through a struct, is
      `Absent`; several names are `Ambiguous`; one name whose field carries another is `Misbound`; a
      struct with another number of children is `Inconsistent`. */
  lemma {:induction false} WalkSaysExactly(
    nodes: seq<NameNode>, fields: seq<Field>, path: FieldPath, fp: FieldPath, rp: FieldPath, w: PathWalk)
    requires |nodes| <= |fields| && path != []
    ensures Walk(nodes, fields, path, fp, rp) == w <==>
            exists at: seq<nat> :: StopsAt(nodes, fields, path, fp, rp, at, w)
  {
    var stop := WalkStops(nodes, fields, path, fp, rp);
    forall at: seq<nat> | StopsAt(nodes, fields, path, fp, rp, at, w)
      ensures Walk(nodes, fields, path, fp, rp) == w
    {
      StopsIsWalk(nodes, fields, path, fp, rp, at, w);
    }
  }

  /** A level that must refuse the open: several matches, a field of another name, or a struct that does
      not mirror the node. */
  ghost predicate RefusesHere(nodes: seq<NameNode>, fields: seq<Field>, rest: FieldPath)
    requires |nodes| <= |fields| && rest != []
  {
    || (exists i, j :: 0 <= i < j < |nodes| && SameFold(nodes[i].name, rest[0]) && SameFold(nodes[j].name, rest[0]))
    || (exists j :: OnlyAt(nodes, rest[0], j) && !SameFold(fields[j].name, rest[0]))
    || (|rest| > 1 && exists j :: OnlyAt(nodes, rest[0], j) && SameFold(fields[j].name, rest[0]) &&
                                  fields[j].dtype.Struct? && |fields[j].dtype.children| != |nodes[j].children|)
  }

  /** A path that leads to such a level. */
  ghost predicate Unreadable(nodes: seq<NameNode>, fields: seq<Field>, path: FieldPath) {
    exists at: seq<nat> ::
      && StepsTo(nodes, fields, path, at) && |NodesAt(nodes, at)| <= |FieldsAt(fields, at)|
      && RefusesHere(NodesAt(nodes, at), FieldsAt(fields, at), path[|at|..])
  }

  lemma {:induction false} TwoMatch(nodes: seq<NameNode>, name: string)
    ensures |CaseMatches(nodes, name)| > 1 <==>
            exists i, j :: 0 <= i < j < |nodes| && SameFold(nodes[i].name, name) && SameFold(nodes[j].name, name)
  {
    var found := CaseMatches(nodes, name);
    if |found| > 1 {
      MatchesAreDistinct(nodes, name);
      assert found[0] < found[1];
    }
    forall i: nat, j: nat | i < j < |nodes| && SameFold(nodes[i].name, name) && SameFold(nodes[j].name, name)
      ensures |found| > 1
    {
      MatchesAreAll(nodes, name, i);
      MatchesAreAll(nodes, name, j);
      var k :| 0 <= k < |found| && found[k] == i;
      var l :| 0 <= l < |found| && found[l] == j;
      assert k != l;
    }
  }

  /** The one match of a level makes it refuse. */
  ghost predicate OneRefuses(nodes: seq<NameNode>, fields: seq<Field>, rest: FieldPath, j: nat)
    requires j < |nodes| <= |fields| && rest != []
  {
    || !SameFold(fields[j].name, rest[0])
    || (|rest| > 1 && fields[j].dtype.Struct? && |fields[j].dtype.children| != |nodes[j].children|)
  }

  lemma {:induction false} OneMatchRefuses(nodes: seq<NameNode>, fields: seq<Field>, rest: FieldPath, j: nat)
    requires |nodes| <= |fields| && rest != [] && OnlyAt(nodes, rest[0], j)
    ensures RefusesHere(nodes, fields, rest) <==> OneRefuses(nodes, fields, rest, j)
    ensures (forall i :: !GoesOn(nodes, fields, rest, i)) <==> !GoesOn(nodes, fields, rest, j)
  {
    OnlyOne(nodes, rest[0], j);
  }

  lemma {:induction false} OneMatchWalks(
    nodes: seq<NameNode>, fields: seq<Field>, rest: FieldPath, fp: FieldPath, rp: FieldPath, j: nat)
    requires |nodes| <= |fields| && rest != [] && CaseMatches(nodes, rest[0]) == [j] && OnlyAt(nodes, rest[0], j)
    ensures OneRefuses(nodes, fields, rest, j) <==>
            !GoesOn(nodes, fields, rest, j) && Refuses(Walk(nodes, fields, rest, fp, rp))
  {
  }

  lemma {:induction false} NoOnly(nodes: seq<NameNode>, name: string)
    requires |CaseMatches(nodes, name)| != 1
    ensures forall j :: !OnlyAt(nodes, name, j)
  {
    forall j | OnlyAt(nodes, name, j)
      ensures false
    {
      OnlyMatchIsFound(nodes, name, j);
    }
  }

  lemma {:induction false} NotOneRefuses(nodes: seq<NameNode>, fields: seq<Field>, rest: FieldPath)
    requires |nodes| <= |fields| && rest != [] && |CaseMatches(nodes, rest[0])| != 1
    ensures RefusesHere(nodes, fields, rest) <==> |CaseMatches(nodes, rest[0])| > 1
    ensures forall j :: !GoesOn(nodes, fields, rest, j)
  {
    TwoMatch(nodes, rest[0]);
    NoOnly(nodes, rest[0]);
  }

  lemma {:induction false} NotOneWalks(
    nodes: seq<NameNode>, fields: seq<Field>, rest: FieldPath, fp: FieldPath, rp: FieldPath)
    requires |nodes| <= |fields| && rest != [] && |CaseMatches(nodes, rest[0])| != 1
    ensures Refuses(Walk(nodes, fields, rest, fp, rp)) <==> |CaseMatches(nodes, rest[0])| > 1
  {
  }

  /** A level that refuses ends the walk, and ends it in a refusing verdict; no other level does. */
  lemma {:induction false} RefusingLevel(
    nodes: seq<NameNode>, fields: seq<Field>, rest: FieldPath, fp: FieldPath, rp: FieldPath)
    requires |nodes| <= |fields| && rest != []
    ensures RefusesHere(nodes, fields, rest) <==>
            (forall j :: !GoesOn(nodes, fields, rest, j)) && Refuses(Walk(nodes, fields, rest, fp, rp))
  {
    var found := CaseMatches(nodes, rest[0]);
    if |found| == 1 {
      OneFound(nodes, rest[0]);
      assert found == [found[0]];
      OneMatchRefuses(nodes, fields, rest, found[0]);
      OneMatchWalks(nodes, fields, rest, fp, rp, found[0]);
    } else {
      NotOneRefuses(nodes, fields, rest);
      NotOneWalks(nodes, fields, rest, fp, rp);
    }
  }

  lemma {:induction false} WalkFrom(
    nodes: seq<NameNode>, fields: seq<Field>, path: FieldPath, fp: FieldPath, rp: FieldPath, at: seq<nat>)
    requires |nodes| <= |fields| && StepsTo(nodes, fields, path, at)
    ensures |NodesAt(nodes, at)| <= |FieldsAt(fields, at)|
    ensures Walk(nodes, fields, path, fp, rp) ==
            Walk(NodesAt(nodes, at), FieldsAt(fields, at), path[|at|..], fp + FilePath(nodes, at),
                 rp + SchemaPath(fields, at))
    decreases |path|
  {
    if at == [] {
      assert path[0..] == path && fp + [] == fp && rp + [] == rp;
    } else {
      var j, rest := at[0], at[1..];
      assert GoesOn(nodes, fields, path, j);
      WalkGoesOn(nodes, fields, path, fp, rp, j);
      WalkFrom(nodes[j].children, fields[j].dtype.children, path[1..], fp + [nodes[j].name], rp + [fields[j].name],
               rest);
      OneLevelMore(nodes, fields, path, fp, rp, at);
    }
  }

  lemma {:induction false} OneLevelMore(
    nodes: seq<NameNode>, fields: seq<Field>, path: FieldPath, fp: FieldPath, rp: FieldPath, at: seq<nat>)
    requires 0 < |at| < |path| && at[0] < |nodes| <= |fields| && fields[at[0]].dtype.Struct?
    ensures var (node, field, rest) := (nodes[at[0]], fields[at[0]], at[1..]);
            && NodesAt(nodes, at) == NodesAt(node.children, rest)
            && FieldsAt(fields, at) == FieldsAt(field.dtype.children, rest)
            && path[|at|..] == path[1..][|rest|..]
            && fp + FilePath(nodes, at) == fp + [node.name] + FilePath(node.children, rest)
            && rp + SchemaPath(fields, at) == rp + [field.name] + SchemaPath(field.dtype.children, rest)
  {
  }

  /** A path refuses the open exactly when it leads to such a level. */
  lemma {:induction false} RefusesExactlyWhen(
    nodes: seq<NameNode>, fields: seq<Field>, path: FieldPath, fp: FieldPath, rp: FieldPath)
    requires |nodes| <= |fields|
    ensures Refuses(Walk(nodes, fields, path, fp, rp)) <==> Unreadable(nodes, fields, path)
  {
    if path == [] {
      return;
    }
    var stop := WalkStops(nodes, fields, path, fp, rp);
    WalkFrom(nodes, fields, path, fp, rp, stop);
    RefusingLevel(NodesAt(nodes, stop), FieldsAt(fields, stop), path[|stop|..], fp + FilePath(nodes, stop),
                  rp + SchemaPath(fields, stop));
    forall at: seq<nat> | StepsTo(nodes, fields, path, at) && |NodesAt(nodes, at)| <= |FieldsAt(fields, at)| &&
                          RefusesHere(NodesAt(nodes, at), FieldsAt(fields, at), path[|at|..])
      ensures Refuses(Walk(nodes, fields, path, fp, rp))
    {
      WalkFrom(nodes, fields, path, fp, rp, at);
      RefusingLevel(NodesAt(nodes, at), FieldsAt(fields, at), path[|at|..], fp + FilePath(nodes, at),
                    rp + SchemaPath(fields, at));
    }
  }

  /** Nothing readable is reported absent: if some positions spell the path on both sides, the walk
      resolves or refuses. */
  lemma {:induction false} AbsentNamesNothing(
    nodes: seq<NameNode>, fields: seq<Field>, path: FieldPath, fp: FieldPath, rp: FieldPath, at: seq<nat>)
    requires |nodes| <= |fields| && Walk(nodes, fields, path, fp, rp).Absent?
    ensures !(NamesInFile(nodes, path, at) && NamesInSchema(fields, path, at))
    decreases |path|
  {
    if NamesInFile(nodes, path, at) && NamesInSchema(fields, path, at) {
      var found := CaseMatches(nodes, path[0]);
      MatchesAreAll(nodes, path[0], at[0]);
      assert found == [at[0]];
      AbsentNamesNothing(nodes[at[0]].children, fields[at[0]].dtype.children, path[1..],
                         fp + [nodes[at[0]].name], rp + [fields[at[0]].name], at[1..]);
    }
  }

  predicate SamePathFold(a: FieldPath, b: FieldPath) {
    |a| == |b| && forall i :: 0 <= i < |a| ==> SameFold(a[i], b[i])
  }

  /** Respelling a declared path in other ASCII case changes nothing at all about the verdict. */
  lemma {:induction false} WalkIgnoresCase(
    nodes: seq<NameNode>, fields: seq<Field>, a: FieldPath, b: FieldPath, fp: FieldPath, rp: FieldPath)
    requires |nodes| <= |fields| && SamePathFold(a, b)
    ensures Walk(nodes, fields, a, fp, rp) == Walk(nodes, fields, b, fp, rp)
    decreases |a|
  {
    if a != [] {
      MatchesIgnoreCase(nodes, a[0], b[0]);
      var found := CaseMatches(nodes, a[0]);
      if |found| == 1 && |a| > 1 && fields[found[0]].dtype.Struct? {
        var j := found[0];
        if |fields[j].dtype.children| == |nodes[j].children| {
          WalkIgnoresCase(nodes[j].children, fields[j].dtype.children, a[1..], b[1..],
                          fp + [nodes[j].name], rp + [fields[j].name]);
        }
      }
    }
  }

  // ---------------------------------------------------------------- the covering

  predicate HasNul(path: FieldPath) { exists i :: 0 <= i < |path| && NotAddressable(path[i], None) }

  datatype Covering = Covering(xmin: FieldPath, ymin: FieldPath, xmax: FieldPath, ymax: FieldPath) {
    function Paths(): seq<FieldPath> { [xmin, ymin, xmax, ymax] }
  }

  datatype Judgement =
    | NoCovering
    | Usable
    | Unaddressable(path: FieldPath)
    | Missing(path: FieldPath)
    | Refused(declared: FieldPath, why: PathWalk)

  function Verdict(file: NameNode, schema: seq<Field>, path: FieldPath): PathWalk
    requires |file.children| <= |schema|
  {
    Walk(file.children, schema, path, [], [])
  }

  ghost predicate FirstNul(paths: seq<FieldPath>, i: nat) {
    i < |paths| && HasNul(paths[i]) && forall k :: 0 <= k < i ==> !HasNul(paths[k])
  }

  /** The four verdicts, in path order. */
  function Verdicts(file: NameNode, schema: seq<Field>, paths: seq<FieldPath>): (ws: seq<PathWalk>)
    requires |file.children| <= |schema|
    ensures |ws| == |paths| && forall i :: 0 <= i < |ws| ==> ws[i] == Verdict(file, schema, paths[i])
  {
    seq(|paths|, i requires 0 <= i < |paths| => Verdict(file, schema, paths[i]))
  }

  ghost predicate FirstRefusal(ws: seq<PathWalk>, i: nat) {
    i < |ws| && Refuses(ws[i]) && forall k :: 0 <= k < i ==> !Refuses(ws[k])
  }

  /** The first absent path of a list in which nothing refuses. */
  ghost predicate FirstAbsent(ws: seq<PathWalk>, i: nat) {
    && i < |ws| && ws[i].Absent? && (forall k :: 0 <= k < i ==> ws[k].Resolves?)
    && (forall k :: 0 <= k < |ws| ==> !Refuses(ws[k]))
  }

  /** What a judgement says about the declared paths and their verdicts. */
  ghost predicate Justified(j: Judgement, paths: seq<FieldPath>, ws: seq<PathWalk>)
    requires |ws| == |paths|
  {
    match j
    case NoCovering => false
    case Unaddressable(p) => exists i: nat :: FirstNul(paths, i) && p == paths[i]
    case Refused(p, w) => exists i: nat :: FirstRefusal(ws, i) && p == paths[i] && w == ws[i]
    case Missing(p) => exists i: nat :: FirstAbsent(ws, i) && p == paths[i]
    case Usable => forall i :: 0 <= i < |ws| ==> ws[i].Resolves?
  }

  method FindNul(paths: seq<FieldPath>) returns (r: Option<nat>)
    ensures r.Some? ==> FirstNul(paths, r.value)
    ensures r.None? ==> forall k :: 0 <= k < |paths| ==> !HasNul(paths[k])
  {
    for i := 0 to |paths|
      invariant forall k :: 0 <= k < i ==> !HasNul(paths[k])
    {
      if exists s :: 0 <= s < |paths[i]| && NotAddressable(paths[i][s], None) {
        return Some(i);
      }
    }
    return None;
  }

  /** What the loop knows after its first `i` paths: nothing refused, and `absent` is the first absent
      one. */
  ghost predicate SoFar(paths: seq<FieldPath>, ws: seq<PathWalk>, i: nat, absent: Option<nat>)
    requires i <= |ws| == |paths|
  {
    && (forall k :: 0 <= k < i ==> !Refuses(ws[k]))
    && (absent.None? ==> forall k :: 0 <= k < i ==> ws[k].Resolves?)
    && (absent.Some? ==>
          absent.value < i && ws[absent.value].Absent? && forall k :: 0 <= k < absent.value ==> ws[k].Resolves?)
  }

  lemma {:induction false} OneMorePath(paths: seq<FieldPath>, ws: seq<PathWalk>, i: nat, absent: Option<nat>)
    requires i < |ws| == |paths| && SoFar(paths, ws, i, absent) && !Refuses(ws[i])
    ensures SoFar(paths, ws, i + 1, if ws[i].Absent? && absent.None? then Some(i) else absent)
  {
  }

  lemma {:induction false} AllPaths(paths: seq<FieldPath>, ws: seq<PathWalk>, absent: Option<nat>)
    requires |ws| == |paths| && SoFar(paths, ws, |ws|, absent)
    ensures Justified(if absent.Some? then Missing(paths[absent.value]) else Usable, paths, ws)
  {
    if absent.Some? {
      assert FirstAbsent(ws, absent.value);
    }
  }

  /** The loop over the four paths: a refusing path ends it, an absent one is only remembered. */
  method JudgePaths(paths: seq<FieldPath>, schema: seq<Field>, file: NameNode) returns (j: Judgement)
    requires |file.children| <= |schema|
    ensures Justified(j, paths, Verdicts(file, schema, paths)) && !j.Unaddressable?
  {
    var absent: Option<nat> := None;
    ghost var ws := Verdicts(file, schema, paths);
    for i := 0 to |paths|
      invariant SoFar(paths, ws, i, absent)
    {
      var w := FieldPathExists(file, schema, paths[i]);
      assert w == ws[i];
      if Refuses(w) {
        assert FirstRefusal(ws, i);
        return Refused(paths[i], w);
      }
      OneMorePath(paths, ws, i, absent);
      if w.Absent? && absent.None? {
        absent := Some(i);
      }
    }
    AllPaths(paths, ws, absent);
    return if absent.Some? then Missing(paths[absent.value]) else Usable;
  }

  /** `judge_covering`: U+0000 first; then the first refusing path, whatever is absent before it; then
      the first absent path; and only then is the covering usable. */
  method JudgeCovering(covering: Option<Covering>, schema: seq<Field>, file: NameNode) returns (j: Judgement)
    requires |file.children| <= |schema|
    ensures j.NoCovering? <==> covering.None?
    ensures covering.Some? ==>
              && Justified(j, covering.value.Paths(), Verdicts(file, schema, covering.value.Paths()))
              && (j.Unaddressable? <==> AnyNul(covering.value.Paths()))
    ensures covering.Some? && !AnyNul(covering.value.Paths()) ==>
              var paths := covering.value.Paths();
              && (j.Refused? <==> exists i :: 0 <= i < 4 && Unreadable(file.children, schema, paths[i]))
              && (j.Usable? <==> forall i :: 0 <= i < 4 ==> Readable(file.children, schema, paths[i]))
  {
    if covering.None? {
      return NoCovering;
    }
    var paths := covering.value.Paths();
    var nul := FindNul(paths);
    if nul.Some? {
      return Unaddressable(paths[nul.value]);
    }
    j := JudgePaths(paths, schema, file);
    JudgedOverPositions(j, paths, schema, file);
  }

  lemma {:induction false} VerdictMeans(file: NameNode, schema: seq<Field>, path: FieldPath)
    requires |file.children| <= |schema|
    ensures Refuses(Verdict(file, schema, path)) <==> Unreadable(file.children, schema, path)
    ensures Verdict(file, schema, path).Resolves? <==> Readable(file.children, schema, path)
  {
    RefusesExactlyWhen(file.children, schema, path, [], []);
    ResolvesExactlyWhen(file.children, schema, path, [], []);
  }

  /** Outside U+0000 a covering refuses the open exactly when one of its paths is unreadable, and is usable
      exactly when all are readable. */
  lemma {:induction false} JudgedOverPositions(
    j: Judgement, paths: seq<FieldPath>, schema: seq<Field>, file: NameNode)
    requires |file.children| <= |schema| && Justified(j, paths, Verdicts(file, schema, paths)) && !j.Unaddressable?
    ensures j.Refused? <==> exists i :: 0 <= i < |paths| && Unreadable(file.children, schema, paths[i])
    ensures j.Usable? <==> forall i :: 0 <= i < |paths| ==> Readable(file.children, schema, paths[i])
  {
    var ws := Verdicts(file, schema, paths);
    JudgementsAreExact(j, paths, ws);
    forall i | 0 <= i < |paths|
      ensures Refuses(ws[i]) <==> Unreadable(file.children, schema, paths[i])
      ensures ws[i].Resolves? <==> Readable(file.children, schema, paths[i])
    {
      VerdictMeans(file, schema, paths[i]);
    }
  }

  /** Some segment of some path holds U+0000. */
  ghost predicate AnyNul(paths: seq<FieldPath>) {
    exists i, s :: 0 <= i < |paths| && 0 <= s < |paths[i]| && '\0' in paths[i][s]
  }

  /** Outside U+0000, a covering with an ambiguous, misbound or inconsistent path refuses the open,
      whichever other paths are absent, and an admitted one resolves in all four. */
  lemma {:induction false} JudgementsAreExact(j: Judgement, paths: seq<FieldPath>, ws: seq<PathWalk>)
    requires |ws| == |paths| && Justified(j, paths, ws) && !j.Unaddressable?
    ensures j.Refused? <==> exists i :: 0 <= i < |ws| && Refuses(ws[i])
    ensures j.Usable? <==> forall i :: 0 <= i < |ws| ==> ws[i].Resolves?
  {
  }

  // ---------------------------------------------------------------- the geometry column

  datatype GeometryCheck =
    | GeometryOk | AmbiguousName | NotInFile | ReadUnderAnotherName | NotAddressableName | NotBinary

  /** `position(|n| n.name == name)`. */
  function ExactPosition(nodes: seq<NameNode>, name: string): (r: Option<nat>)
    ensures r.Some? ==> r.value < |nodes| && nodes[r.value].name == name
    ensures r.None? ==> forall i :: 0 <= i < |nodes| ==> nodes[i].name != name
  {
    if nodes == [] then None
    else
      match ExactPosition(nodes[..|nodes| - 1], name)
      case Some(j) => Some(j)
      case None => if nodes[|nodes| - 1].name == name then Some(|nodes| - 1) else None
  }

  function CheckGeometryColumn(schema: seq<Field>, file: NameNode, column: string): GeometryCheck
    requires |file.children| <= |schema|
  {
    if |CaseMatches(file.children, column)| > 1 then AmbiguousName
    else
      match ExactPosition(file.children, column)
      case None => NotInFile
      case Some(j) =>
        var field := schema[j];
        if field.name != column then ReadUnderAnotherName
        else if NotAddressable(field.name, field.exported) then NotAddressableName
        else if field.dtype.Binary? || field.dtype.LargeBinary? || field.dtype.BinaryView? then GeometryOk
        else NotBinary
  }

  predicate IsGeometryField(f: Field, column: string) {
    && f.name == column && !NotAddressable(f.name, f.exported)
    && (f.dtype.Binary? || f.dtype.LargeBinary? || f.dtype.BinaryView?)
  }

  lemma {:induction false} MatchesAreDistinct(nodes: seq<NameNode>, name: string)
    ensures forall k, l :: 0 <= k < l < |CaseMatches(nodes, name)| ==>
              CaseMatches(nodes, name)[k] < CaseMatches(nodes, name)[l]
  {
    if nodes != [] {
      MatchesAreDistinct(nodes[..|nodes| - 1], name);
    }
  }

  /** Column `j` is the only one that spells `column`, and it is read as the geometry. */
  ghost predicate GeometryAt(schema: seq<Field>, file: NameNode, column: string, j: nat) {
    && j < |file.children| <= |schema| && file.children[j].name == column && IsGeometryField(schema[j], column)
    && forall i :: 0 <= i < |file.children| && SameFold(file.children[i].name, column) ==> i == j
  }

  lemma {:induction false} AcceptedIsGeometry(schema: seq<Field>, file: NameNode, column: string)
    requires |file.children| <= |schema| && CheckGeometryColumn(schema, file, column).GeometryOk?
    ensures GeometryAt(schema, file, column, ExactPosition(file.children, column).value)
  {
    var found, j := CaseMatches(file.children, column), ExactPosition(file.children, column).value;
    MatchesAreAll(file.children, column, j);
    forall i | 0 <= i < |file.children| && SameFold(file.children[i].name, column)
      ensures i == j
    {
      MatchesAreAll(file.children, column, i);
      assert i in found && j in found && |found| == 1;
    }
  }

  lemma {:induction false} GeometryIsAccepted(schema: seq<Field>, file: NameNode, column: string, j: nat)
    requires GeometryAt(schema, file, column, j)
    ensures CheckGeometryColumn(schema, file, column).GeometryOk?
  {
    var found := CaseMatches(file.children, column);
    MatchesAreDistinct(file.children, column);
    assert |found| > 1 ==> found[0] != found[1];
    assert forall k :: 0 <= k < |found| ==> found[k] == j;
    assert |found| <= 1;
    assert file.children[j].name == column;
    assert ExactPosition(file.children, column).Some?;
  }

  /** The geometry column is accepted exactly when one file column spells it, no other does even
      ignoring case, and the field at that column's position is an addressable binary field of
      exactly that name. */
  lemma {:induction false} GeometryIsAcceptedWhen(schema: seq<Field>, file: NameNode, column: string)
    requires |file.children| <= |schema|
    ensures CheckGeometryColumn(schema, file, column).GeometryOk? <==>
            exists j: nat :: GeometryAt(schema, file, column, j)
  {
    if CheckGeometryColumn(schema, file, column).GeometryOk? {
      AcceptedIsGeometry(schema, file, column);
    }
    forall j: nat | GeometryAt(schema, file, column, j)
      ensures CheckGeometryColumn(schema, file, column).GeometryOk?
    {
      GeometryIsAccepted(schema, file, column, j);
    }
  }

  /** Each refusal of the geometry column, over the names of the file and the schema. */
  lemma {:induction false} GeometryIsRefusedWhen(schema: seq<Field>, file: NameNode, column: string)
    requires |file.children| <= |schema|
    ensures var r := CheckGeometryColumn(schema, file, column); var nodes := file.children;
            && (r.AmbiguousName? <==>
                exists i, j :: 0 <= i < j < |nodes| &&
                               SameFold(nodes[i].name, column) && SameFold(nodes[j].name, column))
            && (r.NotInFile? ==> forall i :: 0 <= i < |nodes| ==> nodes[i].name != column)
            && (r.ReadUnderAnotherName? ==>
                exists j :: OnlyAt(nodes, column, j) && nodes[j].name == column && schema[j].name != column)
            && (r.NotAddressableName? ==>
                exists j :: OnlyAt(nodes, column, j) && schema[j].name == column &&
                            ('\0' in column || (schema[j].exported.Some? && schema[j].exported.value != column)))
            && (r.NotBinary? ==>
                exists j :: OnlyAt(nodes, column, j) && schema[j].name == column &&
                            (schema[j].dtype.Struct? || schema[j].dtype.OtherType?))
            && (r.GeometryOk? ==>
                exists j :: OnlyAt(nodes, column, j) && nodes[j].name == schema[j].name == column && '\0' !in column &&
                            (schema[j].exported.None? || schema[j].exported.value == column) &&
                            !schema[j].dtype.Struct? && !schema[j].dtype.OtherType?)
  {
    var nodes := file.children;
    TwoMatch(nodes, column);
    if |CaseMatches(nodes, column)| <= 1 && ExactPosition(nodes, column).Some? {
      var j := ExactPosition(nodes, column).value;
      MatchesAreAll(nodes, column, j);
      assert CaseMatches(nodes, column) == [j];
      OneFound(nodes, column);
    }
  }

  datatype NamesResult = Misaligned | BadGeometry(check: GeometryCheck) | Judged(covering: Judgement)

  /** The names part of an open: no input drives an index out of bounds, because the alignment check
      runs first. */
  method CheckNames(schema: seq<Field>, file: NameNode, geometry: string, covering: Option<Covering>)
    returns (r: NamesResult)
    ensures r.Misaligned? <==> |schema| < |file.children|
    ensures r.BadGeometry? ==>
              && |file.children| <= |schema|
              && r.check == CheckGeometryColumn(schema, file, geometry) && !r.check.GeometryOk?
    ensures r.Judged? ==>
              && |file.children| <= |schema| && CheckGeometryColumn(schema, file, geometry).GeometryOk?
              && (r.covering.NoCovering? <==> covering.None?)
              && (covering.Some? ==>
                    Justified(r.covering, covering.value.Paths(), Verdicts(file, schema, covering.value.Paths())))
  {
    if |schema| < |file.children| {
      return Misaligned;
    }
    var check := CheckGeometryColumn(schema, file, geometry);
    if !check.GeometryOk? {
      return BadGeometry(check);
    }
    var j := JudgeCovering(covering, schema, file);
    return Judged(j);
  }
}
