/** Rebuilding the file's name tree from the pre-order rows of `parquet_schema`. */
module SchemaTree {
  import opened Options

  /** One node of the file's own schema tree. */
  datatype NameNode = Node(name: string, children: seq<NameNode>)

  /** One row: a name and a nullable child count. */
  datatype SchemaRow = SchemaRow(name: string, count: Option<int>)

  /** A row with the null count read as 0. */
  datatype Entry = Entry(name: string, left: int)

  function Left(row: SchemaRow): int { if row.count.Some? then row.count.value else 0 }

  function EntriesOf(rows: seq<SchemaRow>): (r: seq<Entry>)
    ensures |r| == |rows| && forall i :: 0 <= i < |r| ==> r[i] == Entry(rows[i].name, Left(rows[i]))
  {
    seq(|rows|, i requires 0 <= i < |rows| => Entry(rows[i].name, Left(rows[i])))
  }

  /** The pre-order listing of a tree. */
  function Flatten(t: NameNode): seq<Entry>
    decreases t, 1
  {
    [Entry(t.name, |t.children|)] + FlattenAll(t.children)
  }

  function FlattenAll(ts: seq<NameNode>): seq<Entry>
    decreases ts, 0
  {
    if ts == [] then [] else Flatten(ts[0]) + FlattenAll(ts[1..])
  }

  lemma {:induction false} FlattenAllAppend(ts: seq<NameNode>, t: NameNode)
    ensures FlattenAll(ts + [t]) == FlattenAll(ts) + Flatten(t)
  {
    if ts == [] {
      assert FlattenAll([t]) == Flatten(t) + FlattenAll([t][1..]);
    } else {
      assert (ts + [t])[1..] == ts[1..] + [t];
      FlattenAllAppend(ts[1..], t);
    }
  }

  // ---------------------------------------------------------------- the loop's stack

  /** A node whose subtree is not complete yet, with the children still owed. */
  datatype Frame = Frame(node: NameNode, left: int)

  /** The rows consumed by the open nodes, outermost first. */
  function OpenRows(open: seq<Frame>): seq<Entry> {
    if open == [] then []
    else
      var top := open[|open| - 1];
      OpenRows(open[..|open| - 1]) + [Entry(top.node.name, |top.node.children| + top.left)] +
      FlattenAll(top.node.children)
  }

  predicate AllOwed(open: seq<Frame>) { forall i :: 0 <= i < |open| ==> open[i].left > 0 }

  /** The stack, or the finished root, stands for the same rows as `pushed`, and nothing is left to
      close. */
  ghost predicate ClosesTo(pushed: seq<Frame>, stack: seq<Frame>, root: Option<NameNode>) {
    && AllOwed(stack)
    && (match root
        case None => stack != [] && OpenRows(stack) == OpenRows(pushed)
        case Some(t) => stack == [] && Flatten(t) == OpenRows(pushed))
  }

  /** The inner loop: close every node that owes nothing more. */
  method CloseComplete(pushed: seq<Frame>) returns (stack: seq<Frame>, root: Option<NameNode>)
    requires pushed != [] && pushed[|pushed| - 1].left >= 0 && AllOwed(pushed[..|pushed| - 1])
    ensures ClosesTo(pushed, stack, root)
  {
    stack, root := pushed, None;
    while stack != [] && stack[|stack| - 1].left == 0
      invariant root.Some? <==> stack == []
      invariant stack != [] ==> stack[|stack| - 1].left >= 0 && AllOwed(stack[..|stack| - 1])
      invariant root.None? ==> OpenRows(stack) == OpenRows(pushed)
      invariant root.Some? ==> Flatten(root.value) == OpenRows(pushed)
      decreases |stack|
    {
      var node := stack[|stack| - 1].node;
      ghost var was := stack;
      stack := stack[..|stack| - 1];
      if stack == [] {
        root := Some(node);
        FinishedRows(was, node);
      } else {
        var parent := stack[|stack| - 1];
        ghost var below := stack[..|stack| - 1];
        stack := stack[..|stack| - 1] + [Frame(Node(parent.node.name, parent.node.children + [node]), parent.left - 1)];
        assert was == below + [parent, Frame(node, 0)];
        assert stack[..|stack| - 1] == below;
        ClosedRows(below, parent, node, was);
      }
    }
  }

  lemma {:induction false} FinishedRows(was: seq<Frame>, node: NameNode)
    requires was == [Frame(node, 0)]
    ensures OpenRows(was) == Flatten(node)
  {
    assert was[..0] == [];
    assert OpenRows([]) == [];
  }

  lemma {:induction false} ClosedRows(below: seq<Frame>, parent: Frame, node: NameNode, was: seq<Frame>)
    requires was == below + [parent, Frame(node, 0)]
    ensures OpenRows(below + [Frame(Node(parent.node.name, parent.node.children + [node]), parent.left - 1)]) ==
            OpenRows(was)
  {
    var closed := below + [Frame(Node(parent.node.name, parent.node.children + [node]), parent.left - 1)];
    assert closed[..|closed| - 1] == below;
    assert was[..|was| - 1] == below + [parent];
    assert (below + [parent])[..|below|] == below;
    FlattenAllAppend(parent.node.children, node);
  }

  // ---------------------------------------------------------------- one listing, one tree

  /** A listing decodes in one way, whatever follows it. */
  lemma {:induction false} FlattenDecodesOnce(t: NameNode, x: seq<Entry>, u: NameNode, y: seq<Entry>)
    requires Flatten(t) + x == Flatten(u) + y
    ensures t == u && x == y
    decreases t, 1
  {
    var left, right := Flatten(t) + x, Flatten(u) + y;
    assert left[0] == Entry(t.name, |t.children|) && right[0] == Entry(u.name, |u.children|);
    assert left[1..] == FlattenAll(t.children) + x;
    assert right[1..] == FlattenAll(u.children) + y;
    FlattenAllDecodesOnce(t.children, x, u.children, y);
  }

  lemma {:induction false} FlattenAllDecodesOnce(ts: seq<NameNode>, x: seq<Entry>, us: seq<NameNode>, y: seq<Entry>)
    requires |ts| == |us| && FlattenAll(ts) + x == FlattenAll(us) + y
    ensures ts == us && x == y
    decreases ts, 0
  {
    if ts == [] {
      assert FlattenAll(ts) + x == x && FlattenAll(us) + y == y;
    } else {
      assert FlattenAll(ts) + x == Flatten(ts[0]) + (FlattenAll(ts[1..]) + x);
      assert FlattenAll(us) + y == Flatten(us[0]) + (FlattenAll(us[1..]) + y);
      FlattenDecodesOnce(ts[0], FlattenAll(ts[1..]) + x, us[0], FlattenAll(us[1..]) + y);
      FlattenAllDecodesOnce(ts[1..], x, us[1..], y);
      assert ts == [ts[0]] + ts[1..] && us == [us[0]] + us[1..];
    }
  }

  /** Children announced minus nodes listed. */
  function Balance(es: seq<Entry>): int {
    if es == [] then 0 else es[0].left - 1 + Balance(es[1..])
  }

  lemma {:induction false} BalanceAppend(a: seq<Entry>, b: seq<Entry>)
    ensures Balance(a + b) == Balance(a) + Balance(b)
  {
    if a == [] {
      assert a + b == b;
    } else {
      assert (a + b)[1..] == a[1..] + b;
      BalanceAppend(a[1..], b);
    }
  }

  lemma {:induction false} TreesBalance(t: NameNode)
    ensures Balance(Flatten(t)) == -1
    decreases t, 1
  {
    var head := [Entry(t.name, |t.children|)];
    BalanceAppend(head, FlattenAll(t.children));
    ForestsBalance(t.children);
    assert head[1..] == [];
    assert Balance(head) == |t.children| - 1;
  }

  lemma {:induction false} ForestsBalance(ts: seq<NameNode>)
    ensures Balance(FlattenAll(ts)) == -|ts|
    decreases ts, 0
  {
    if ts != [] {
      TreesBalance(ts[0]);
      ForestsBalance(ts[1..]);
      BalanceAppend(Flatten(ts[0]), FlattenAll(ts[1..]));
    }
  }

  /** Rows that leave a node owing children are not the listing of any tree. */
  lemma {:induction false} OwedRowsBalance(open: seq<Frame>)
    requires AllOwed(open)
    ensures Balance(OpenRows(open)) >= 0
  {
    if open != [] {
      var top := open[|open| - 1];
      var below := OpenRows(open[..|open| - 1]);
      var head := [Entry(top.node.name, |top.node.children| + top.left)];
      OwedRowsBalance(open[..|open| - 1]);
      BalanceAppend(below + head, FlattenAll(top.node.children));
      BalanceAppend(below, head);
      ForestsBalance(top.node.children);
      assert head[1..] == [];
      assert Balance(head) == |top.node.children| + top.left - 1;
    }
  }

  lemma {:induction false} NoNegativeCounts(t: NameNode, i: nat)
    requires i < |Flatten(t)|
    ensures Flatten(t)[i].left >= 0
    decreases t, 1
  {
    if i > 0 {
      NoNegativeCountsIn(t.children, i - 1);
    }
  }

  lemma {:induction false} NoNegativeCountsIn(ts: seq<NameNode>, i: nat)
    requires i < |FlattenAll(ts)|
    ensures FlattenAll(ts)[i].left >= 0
    decreases ts, 0
  {
    var n := |Flatten(ts[0])|;
    if i < n {
      NoNegativeCounts(ts[0], i);
    } else {
      NoNegativeCountsIn(ts[1..], i - n);
    }
  }

  /** The rows list exactly this tree. */
  predicate Lists(rows: seq<SchemaRow>, t: NameNode) { Flatten(t) == EntriesOf(rows) }

  // ---------------------------------------------------------------- the rows of a tree

  /** A child count as `parquet_schema` may report it: the number itself, or NULL for a leaf. */
  predicate Counts(count: Option<int>, children: nat) { count == Some(children) || (children == 0 && count == None) }

  function Size(t: NameNode): nat
    decreases t, 1
  {
    1 + SizeAll(t.children)
  }

  function SizeAll(ts: seq<NameNode>): nat
    decreases ts, 0
  {
    if ts == [] then 0 else Size(ts[0]) + SizeAll(ts[1..])
  }

  /** The rows of a tree: its own row, then those of its children in order. */
  predicate AreRowsOf(rows: seq<SchemaRow>, t: NameNode)
    decreases t, 1
  {
    && rows != [] && rows[0].name == t.name && Counts(rows[0].count, |t.children|)
    && AreRowsOfAll(rows[1..], t.children)
  }

  predicate AreRowsOfAll(rows: seq<SchemaRow>, ts: seq<NameNode>)
    decreases ts, 0
  {
    if ts == [] then rows == []
    else
      var n := Size(ts[0]);
      n <= |rows| && AreRowsOf(rows[..n], ts[0]) && AreRowsOfAll(rows[n..], ts[1..])
  }

  /** The plainest rows of a tree: NULL for every leaf. */
  function RowsOf(t: NameNode): seq<SchemaRow>
    decreases t, 1
  {
    [SchemaRow(t.name, if t.children == [] then None else Some(|t.children|))] + RowsOfAll(t.children)
  }

  function RowsOfAll(ts: seq<NameNode>): seq<SchemaRow>
    decreases ts, 0
  {
    if ts == [] then [] else RowsOf(ts[0]) + RowsOfAll(ts[1..])
  }

  lemma {:induction false} ListingSize(t: NameNode)
    ensures |Flatten(t)| == Size(t)
    decreases t, 1
  {
    ListingSizeAll(t.children);
  }

  lemma {:induction false} ListingSizeAll(ts: seq<NameNode>)
    ensures |FlattenAll(ts)| == SizeAll(ts)
    decreases ts, 0
  {
    if ts != [] {
      ListingSize(ts[0]);
      ListingSizeAll(ts[1..]);
    }
  }

  lemma {:induction false} CountsAsRead(row: SchemaRow, children: nat)
    ensures Counts(row.count, children) <==> Left(row) == children && (row.count.None? ==> children == 0)
  {
  }

  /** Being a tree's rows is listing it, once a NULL count reads as 0. */
  lemma {:induction false} RowsAreTheListing(rows: seq<SchemaRow>, t: NameNode)
    ensures AreRowsOf(rows, t) <==> Lists(rows, t)
    decreases t, 1
  {
    var es := EntriesOf(rows);
    if rows != [] {
      RowsAreTheListingAll(rows[1..], t.children);
      CountsAsRead(rows[0], |t.children|);
      assert es == [es[0]] + EntriesOf(rows[1..]);
      assert Flatten(t)[0] == Entry(t.name, |t.children|) && Flatten(t)[1..] == FlattenAll(t.children);
      assert es[1..] == EntriesOf(rows[1..]);
    }
  }

  lemma {:induction false} RowsAreTheListingAll(rows: seq<SchemaRow>, ts: seq<NameNode>)
    ensures AreRowsOfAll(rows, ts) <==> FlattenAll(ts) == EntriesOf(rows)
    decreases ts, 0
  {
    if ts != [] {
      var n := Size(ts[0]);
      ListingSize(ts[0]);
      if n <= |rows| {
        RowsAreTheListing(rows[..n], ts[0]);
        RowsAreTheListingAll(rows[n..], ts[1..]);
        var es := EntriesOf(rows);
        assert EntriesOf(rows[..n]) == es[..n] && EntriesOf(rows[n..]) == es[n..];
        assert FlattenAll(ts)[..n] == Flatten(ts[0]) && FlattenAll(ts)[n..] == FlattenAll(ts[1..]);
        assert es == es[..n] + es[n..];
      }
    }
  }

  /** Every tree comes back from its own rows, the leaves' counts NULL. */
  lemma {:induction false} RowsOfAreRows(t: NameNode)
    ensures AreRowsOf(RowsOf(t), t)
    decreases t, 1
  {
    RowsOfAllAreRows(t.children);
    assert RowsOf(t)[1..] == RowsOfAll(t.children);
  }

  lemma {:induction false} RowsOfAllAreRows(ts: seq<NameNode>)
    ensures AreRowsOfAll(RowsOfAll(ts), ts)
    ensures |RowsOfAll(ts)| == SizeAll(ts)
    decreases ts, 0
  {
    if ts != [] {
      RowsOfAreRows(ts[0]);
      RowsOfAllAreRows(ts[0].children);
      RowsOfAllAreRows(ts[1..]);
      var n := Size(ts[0]);
      assert RowsOfAll(ts)[..n] == RowsOf(ts[0]) && RowsOfAll(ts)[n..] == RowsOfAll(ts[1..]);
    }
  }

  lemma {:induction false} RowsAfterATree(rows: seq<SchemaRow>, root: NameNode, i: nat, t: NameNode)
    requires i < |rows| && Flatten(root) == EntriesOf(rows)[..i]
    ensures !Lists(rows, t)
  {
    var es := EntriesOf(rows);
    if Lists(rows, t) {
      assert Flatten(t) + [] == Flatten(root) + es[i..];
      FlattenDecodesOnce(root, es[i..], t, []);
    }
  }

  lemma {:induction false} NegativeRow(rows: seq<SchemaRow>, i: nat, t: NameNode)
    requires i < |rows| && Left(rows[i]) < 0
    ensures !Lists(rows, t)
  {
    if Lists(rows, t) {
      NoNegativeCounts(t, i);
    }
  }

  lemma {:induction false} RowsStillOwed(rows: seq<SchemaRow>, open: seq<Frame>, t: NameNode)
    requires AllOwed(open) && OpenRows(open) == EntriesOf(rows)
    ensures !Lists(rows, t)
  {
    TreesBalance(t);
    OwedRowsBalance(open);
  }

  /** What the outer loop keeps after `i` rows. */
  predicate Consumed(es: seq<Entry>, i: nat, open: seq<Frame>, root: Option<NameNode>)
    requires i <= |es|
  {
    && AllOwed(open)
    && (match root
        case None => OpenRows(open) == es[..i]
        case Some(t) => open == [] && Flatten(t) == es[..i])
  }

  lemma {:induction false} PushedRows(es: seq<Entry>, i: nat, open: seq<Frame>, f: Frame)
    requires i < |es| && OpenRows(open) == es[..i] && f == Frame(Node(es[i].name, []), es[i].left)
    ensures OpenRows(open + [f]) == es[..i + 1]
  {
    assert (open + [f])[..|open|] == open;
    assert es[..i + 1] == es[..i] + [es[i]];
  }

  /** `read_file_names` after its query: rows are accepted exactly when they are the rows of a tree, and
      the tree returned is that one. */
  method Rebuild(rows: seq<SchemaRow>) returns (r: Option<NameNode>)
    ensures forall t :: r == Some(t) <==> AreRowsOf(rows, t)
  {
    r := RebuildListed(rows);
    forall t
      ensures AreRowsOf(rows, t) <==> Lists(rows, t)
    {
      RowsAreTheListing(rows, t);
    }
  }

  method RebuildListed(rows: seq<SchemaRow>) returns (r: Option<NameNode>)
    ensures r.Some? ==> Lists(rows, r.value)
    ensures forall t :: Lists(rows, t) ==> r == Some(t)
  {
    ghost var es := EntriesOf(rows);
    var open: seq<Frame> := [];
    var root: Option<NameNode> := None;
    for i := 0 to |rows|
      invariant Consumed(es, i, open, root)
    {
      var left := Left(rows[i]);
      if root.Some? {
        forall t { RowsAfterATree(rows, root.value, i, t); }
        return None;
      }
      if left < 0 {
        forall t { NegativeRow(rows, i, t); }
        return None;
      }
      var f := Frame(Node(rows[i].name, []), left);
      PushedRows(es, i, open, f);
      assert (open + [f])[..|open|] == open;
      open, root := CloseComplete(open + [f]);
    }
    assert es[..|rows|] == es;
    if root.Some? {
      forall t | Lists(rows, t)
        ensures root == Some(t)
      {
        FlattenDecodesOnce(root.value, [], t, []);
      }
      return root;
    }
    forall t { RowsStillOwed(rows, open, t); }
    r := None;
  }

  /** A tree's rows are no other tree's. */
  lemma {:induction false} ListingIsInjective(rows: seq<SchemaRow>, t: NameNode, u: NameNode)
    requires AreRowsOf(rows, t)
    ensures AreRowsOf(rows, u) <==> t == u
  {
    RowsAreTheListing(rows, t);
    RowsAreTheListing(rows, u);
    if Lists(rows, u) {
      FlattenDecodesOnce(t, [], u, []);
    }
  }
}
