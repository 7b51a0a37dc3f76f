/** The sorted binary tree on values: what insertion and the two traversals do to a tree. */
module TreeModel {
  /** A char of a C string as strcmp compares it. */
  type Char = c: int | 0 < c <= 255 witness 1

  type Str = seq<Char>

  /** The order of strcmp: negative, zero or positive. */
  function Compare(a: Str, b: Str): int {
    if a == [] then (if b == [] then 0 else -b[0])
    else if b == [] then a[0]
    else if a[0] != b[0] then a[0] - b[0]
    else Compare(a[1..], b[1..])
  }

  predicate Less(a: Str, b: Str) { Compare(a, b) < 0 }

  lemma {:induction false} CompareOrders(a: Str, b: Str)
    ensures Compare(a, b) == 0 <==> a == b
    ensures Compare(a, b) < 0 <==> Compare(b, a) > 0
  {
    if a != [] && b != [] && a[0] == b[0] {
      CompareOrders(a[1..], b[1..]);
      assert a == [a[0]] + a[1..] && b == [b[0]] + b[1..];
    }
  }

  /** At k, where the two strings first part, a ends or has the lower char. */
  ghost predicate PartsLower(a: Str, b: Str, k: nat) {
    k <= |a| && k < |b| && a[..k] == b[..k] && (k == |a| || a[k] < b[k])
  }

  /** The lexicographic order by unsigned chars, a prefix before what extends it. */
  ghost predicate Precedes(a: Str, b: Str) { exists k: nat :: PartsLower(a, b, k) }

  /** The order of the comparison is the lexicographic one. */
  lemma {:induction false} LessIsLexicographic(a: Str, b: Str)
    ensures Less(a, b) <==> Precedes(a, b)
  {
    if a == [] || b == [] || a[0] != b[0] {
      assert Less(a, b) ==> PartsLower(a, b, 0);
      forall k: nat
        ensures PartsLower(a, b, k) ==> k == 0
      {
        if 0 < k <= |a| && k < |b| { assert a[..k][0] == a[0] && b[..k][0] == b[0]; }
      }
    } else {
      LessIsLexicographic(a[1..], b[1..]);
      if k: nat :| PartsLower(a[1..], b[1..], k) {
        assert a[..k + 1] == [a[0]] + a[1..][..k] && b[..k + 1] == [b[0]] + b[1..][..k];
        assert PartsLower(a, b, k + 1);
      }
      if k: nat :| PartsLower(a, b, k) {
        assert k > 0;
        assert a[1..][..k - 1] == a[..k][1..] && b[1..][..k - 1] == b[..k][1..];
        assert PartsLower(a[1..], b[1..], k - 1);
      }
    }
  }

  lemma {:induction false} LessTransitive(a: Str, b: Str, c: Str)
    requires Less(a, b) && Less(b, c)
    ensures Less(a, c)
  {
    if a != [] && b != [] && c != [] && a[0] == b[0] == c[0] {
      LessTransitive(a[1..], b[1..], c[1..]);
    }
  }

  datatype Tree = Leaf | Node(left: Tree, value: Str, right: Tree)

  function Elements(t: Tree): set<Str> {
    if t == Leaf then {} else Elements(t.left) + {t.value} + Elements(t.right)
  }

  ghost predicate Below(t: Tree, v: Str) { forall x :: x in Elements(t) ==> Less(x, v) }

  ghost predicate Above(t: Tree, v: Str) { forall x :: x in Elements(t) ==> Less(v, x) }

  ghost predicate Ordered(t: Tree) {
    t == Leaf || (Ordered(t.left) && Ordered(t.right) && Below(t.left, t.value) && Above(t.right, t.value))
  }

  function Inserted(t: Tree, s: Str): (r: (Tree, int))
    ensures r.0.Node?
  {
    if t == Leaf then (Node(Leaf, s, Leaf), 0)
    else if Compare(t.value, s) > 0 then var (l, r) := Inserted(t.left, s); (t.(left := l), r)
    else if Compare(t.value, s) < 0 then var (l, r) := Inserted(t.right, s); (t.(right := l), r)
    else (t, 1)
  }

  function Preorder(t: Tree): seq<Str> {
    if t == Leaf then [] else [t.value] + Preorder(t.left) + Preorder(t.right)
  }

  function Inorder(t: Tree): seq<Str> {
    if t == Leaf then [] else Inorder(t.left) + [t.value] + Inorder(t.right)
  }

  function InsertedAll(t: Tree, xs: seq<Str>): Tree
    decreases xs
  {
    if xs == [] then t else InsertedAll(Inserted(t, xs[0]).0, xs[1..])
  }

  lemma NotAmong(t: Tree, v: Str, s: Str)
    requires Above(t, v) && Less(s, v)
    ensures s !in Elements(t)
  {
    CompareOrders(s, v);
  }

  lemma NotUnder(t: Tree, v: Str, s: Str)
    requires Below(t, v) && Less(v, s)
    ensures s !in Elements(t)
  {
    CompareOrders(s, v);
  }

  /** Insertion keeps the order and adds the string; it answers 1 and changes nothing exactly
      when the string is already there. */
  lemma {:induction false} InsertedExactly(t: Tree, s: Str)
    requires Ordered(t)
    ensures var (now, r) := Inserted(t, s);
      && Ordered(now)
      && Elements(now) == Elements(t) + {s}
      && r == (if s in Elements(t) then 1 else 0)
      && (r == 1 ==> now == t)
  {
    if t != Leaf {
      CompareOrders(t.value, s);
      CompareOrders(s, t.value);
      if Less(s, t.value) {
        InsertedExactly(t.left, s);
        NotAmong(t.right, t.value, s);
      } else if Less(t.value, s) {
        InsertedExactly(t.right, s);
        NotUnder(t.left, t.value, s);
      }
    }
  }

  // ----- inserting many -----

  lemma {:induction false} InsertedAllExactly(t: Tree, xs: seq<Str>)
    requires Ordered(t)
    ensures Ordered(InsertedAll(t, xs))
    ensures Elements(InsertedAll(t, xs)) == Elements(t) + set x | x in xs
    decreases xs
  {
    if xs != [] {
      InsertedExactly(t, xs[0]);
      InsertedAllExactly(Inserted(t, xs[0]).0, xs[1..]);
      assert xs == [xs[0]] + xs[1..];
    }
  }

  /** The i-th of a run of insertions into an empty tree answers 1 exactly when its string came
      before. */
  lemma AnswersRepeats(xs: seq<Str>, i: nat)
    requires i < |xs|
    ensures Inserted(InsertedAll(Leaf, xs[..i]), xs[i]).1 == if xs[i] in xs[..i] then 1 else 0
  {
    InsertedAllExactly(Leaf, xs[..i]);
    InsertedExactly(InsertedAll(Leaf, xs[..i]), xs[i]);
  }

  lemma {:induction false} InsertedConcat(t: Tree, xs: seq<Str>, ys: seq<Str>)
    ensures InsertedAll(t, xs + ys) == InsertedAll(InsertedAll(t, xs), ys)
    decreases xs
  {
    if xs == [] {
      assert xs + ys == ys;
    } else {
      assert (xs + ys)[1..] == xs[1..] + ys;
      InsertedConcat(Inserted(t, xs[0]).0, xs[1..], ys);
    }
  }

  lemma InsertedMore(xs: seq<Str>, i: nat)
    requires i < |xs|
    ensures InsertedAll(Leaf, xs[..i + 1]) == Inserted(InsertedAll(Leaf, xs[..i]), xs[i]).0
  {
    InsertedConcat(Leaf, xs[..i], [xs[i]]);
    assert xs[..i + 1] == xs[..i] + [xs[i]];
    assert [xs[i]][1..] == xs[..0];
  }

  /** Strings below the root's go into the left subtree. */
  lemma {:induction false} AllLeft(l: Tree, v: Str, r: Tree, xs: seq<Str>)
    requires forall x :: x in xs ==> Less(x, v)
    ensures InsertedAll(Node(l, v, r), xs) == Node(InsertedAll(l, xs), v, r)
    decreases xs
  {
    if xs != [] {
      assert Less(xs[0], v);
      CompareOrders(xs[0], v);
      assert Inserted(Node(l, v, r), xs[0]).0 == Node(Inserted(l, xs[0]).0, v, r);
      AllLeft(Inserted(l, xs[0]).0, v, r, xs[1..]);
    }
  }

  lemma {:induction false} AllRight(l: Tree, v: Str, r: Tree, xs: seq<Str>)
    requires forall x :: x in xs ==> Less(v, x)
    ensures InsertedAll(Node(l, v, r), xs) == Node(l, v, InsertedAll(r, xs))
    decreases xs
  {
    if xs != [] {
      assert Less(v, xs[0]);
      assert Inserted(Node(l, v, r), xs[0]).0 == Node(l, v, Inserted(r, xs[0]).0);
      AllRight(l, v, Inserted(r, xs[0]).0, xs[1..]);
    }
  }

  lemma {:induction false} PreorderElements(t: Tree, x: Str)
    ensures x in Preorder(t) <==> x in Elements(t)
  {
    if t != Leaf {
      PreorderElements(t.left, x);
      PreorderElements(t.right, x);
    }
  }

  /** Inserting the preorder listing of a tree, in order, into an empty one rebuilds the tree. */
  lemma {:induction false} PreorderRebuilds(t: Tree)
    requires Ordered(t)
    ensures InsertedAll(Leaf, Preorder(t)) == t
  {
    if t != Leaf {
      var l, v, r := Preorder(t.left), t.value, Preorder(t.right);
      PreorderRebuilds(t.left);
      PreorderRebuilds(t.right);
      assert InsertedAll(Leaf, [v]) == Node(Leaf, v, Leaf) by {
        var none: seq<Str> := [];
        assert [v][1..] == none;
      }
      InsertedConcat(Leaf, [v] + l, r);
      InsertedConcat(Leaf, [v], l);
      forall x
        ensures (x in l ==> Less(x, v)) && (x in r ==> Less(v, x))
      {
        PreorderElements(t.left, x);
        PreorderElements(t.right, x);
      }
      AllLeft(Leaf, v, Leaf, l);
      AllRight(t.left, v, Leaf, r);
    }
  }

  /** In this listing, once a string above the i-th has come, none below the i-th comes any more:
      left subtrees are listed before right ones. */
  ghost predicate LeftFirst(p: seq<Str>) {
    forall i, j, k :: 0 <= i < j < k < |p| && Less(p[i], p[j]) ==> !Less(p[k], p[i])
  }

  lemma LeftFirstNode(v: Str, l: seq<Str>, r: seq<Str>)
    requires LeftFirst(l) && LeftFirst(r)
    requires (forall x :: x in l ==> Less(x, v)) && (forall x :: x in r ==> Less(v, x))
    ensures LeftFirst([v] + l + r)
  {
    var p := [v] + l + r;
    forall i, j, k | 0 <= i < j < k < |p| && Less(p[i], p[j])
      ensures !Less(p[k], p[i])
    {
      var a, b, c := p[i], p[j], p[k];
      assert if i == 0 then a == v else if i <= |l| then a == l[i - 1] && a in l else a == r[i - 1 - |l|] && a in r;
      assert if j <= |l| then b == l[j - 1] && b in l else b == r[j - 1 - |l|] && b in r;
      assert if k <= |l| then c == l[k - 1] && c in l else c == r[k - 1 - |l|] && c in r;
      CompareOrders(a, v);
      CompareOrders(b, v);
      CompareOrders(c, v);
      CompareOrders(c, a);
      if i > 0 && i <= |l| < k {
        LessTransitive(a, v, c);
      }
    }
  }

  /** The preorder listing begins with the root and lists what is below a string before what is
      above it. */
  lemma {:induction false} PreorderLeftFirst(t: Tree)
    requires Ordered(t)
    ensures LeftFirst(Preorder(t))
    ensures t != Leaf ==> Preorder(t)[0] == t.value
    ensures forall x :: x in Preorder(t) <==> x in Elements(t)
  {
    forall x
      ensures x in Preorder(t) <==> x in Elements(t)
    {
      PreorderElements(t, x);
    }
    if t != Leaf {
      PreorderLeftFirst(t.left);
      PreorderLeftFirst(t.right);
      LeftFirstNode(t.value, Preorder(t.left), Preorder(t.right));
    }
  }

  lemma {:induction false} InorderElements(t: Tree, x: Str)
    ensures x in Inorder(t) <==> x in Elements(t)
  {
    if t != Leaf {
      InorderElements(t.left, x);
      InorderElements(t.right, x);
    }
  }

  lemma {:induction false} InorderAscends(t: Tree)
    requires Ordered(t)
    ensures forall i, j :: 0 <= i < j < |Inorder(t)| ==> Less(Inorder(t)[i], Inorder(t)[j])
  {
    if t != Leaf {
      forall x
        ensures (x in Inorder(t.left) ==> Less(x, t.value)) && (x in Inorder(t.right) ==> Less(t.value, x))
      {
        InorderElements(t.left, x);
        InorderElements(t.right, x);
      }
      InorderAscends(t.left);
      InorderAscends(t.right);
      var l, v, r := Inorder(t.left), t.value, Inorder(t.right);
      forall i, j | 0 <= i < j < |Inorder(t)|
        ensures Less(Inorder(t)[i], Inorder(t)[j])
      {
        var a, b := Inorder(t)[i], Inorder(t)[j];
        assert i < |l| ==> a == l[i] && a in l;
        assert j < |l| ==> b == l[j];
        assert i > |l| ==> a == r[i - |l| - 1];
        assert j > |l| ==> b == r[j - |l| - 1] && b in r;
        if i < |l| < j {
          LessTransitive(a, v, b);
        }
      }
    }
  }

  /** The inorder listing ascends strictly in lexicographic order and lists the tree's strings. */
  lemma InorderSorted(t: Tree)
    requires Ordered(t)
    ensures forall i, j :: 0 <= i < j < |Inorder(t)| ==> Precedes(Inorder(t)[i], Inorder(t)[j])
    ensures forall x :: x in Inorder(t) <==> x in Elements(t)
  {
    InorderAscends(t);
    forall i, j | 0 <= i < j < |Inorder(t)|
      ensures Precedes(Inorder(t)[i], Inorder(t)[j])
    {
      LessIsLexicographic(Inorder(t)[i], Inorder(t)[j]);
    }
    forall x
      ensures x in Inorder(t) <==> x in Elements(t)
    {
      InorderElements(t, x);
    }
  }

  lemma InorderOfInsertions(xs: seq<Str>)
    ensures var l := Inorder(InsertedAll(Leaf, xs));
      && (forall i, j :: 0 <= i < j < |l| ==> Precedes(l[i], l[j]))
      && (forall x :: x in l <==> x in xs)
  {
    InsertedAllExactly(Leaf, xs);
    InorderSorted(InsertedAll(Leaf, xs));
  }

  // ----- an inorder traversal that stops entering nodes at a limit -----

  /** What the traversal writes when room cells lie before the limit: it looks at the limit only on
      entering a node. */
  function Reached(t: Tree, room: int): seq<Str> {
    if t == Leaf || room <= 0 then [] else
      var l := Reached(t.left, room);
      l + [t.value] + Reached(t.right, room - |l| - 1)
  }

  /** With the listing starting at cell start, some node lies at or past the limit while its left
      subtree starts before it. */
  predicate Straddled(t: Tree, start: int, max: int) {
    && t.Node?
    && (|| start < max <= start + |Inorder(t.left)|
        || Straddled(t.left, start, max)
        || Straddled(t.right, start + |Inorder(t.left)| + 1, max))
  }

  lemma {:induction false} NotPastLimit(t: Tree, start: int, max: int)
    requires start >= max
    ensures !Straddled(t, start, max)
  {
    if t != Leaf {
      NotPastLimit(t.left, start, max);
      NotPastLimit(t.right, start + |Inorder(t.left)| + 1, max);
    }
  }

  /** The traversal writes past the limit exactly when some node is straddled; otherwise it writes
      the listing as far as that goes. */
  lemma {:induction false} OverrunExactly(t: Tree, start: int, max: int)
    requires start <= max
    ensures |Reached(t, max - start)| > max - start <==> Straddled(t, start, max)
    ensures !Straddled(t, start, max) ==> Reached(t, max - start) <= Inorder(t)
    ensures !Straddled(t, start, max) && |Inorder(t)| <= max - start ==> Reached(t, max - start) == Inorder(t)
    ensures !Straddled(t, start, max) && |Inorder(t)| > max - start ==> |Reached(t, max - start)| == max - start
  {
    if t != Leaf && start < max {
      var next := start + |Inorder(t.left)| + 1;
      OverrunExactly(t.left, start, max);
      if next <= max {
        OverrunExactly(t.right, next, max);
      } else {
        NotPastLimit(t.right, next, max);
      }
    } else if t != Leaf {
      NotPastLimit(t, start, max);
    }
  }

  /** The nodes that a traversal visits when it enters those whose subtree starts, in the listing,
      before the limit. */
  function Visited(t: Tree, start: int, max: int): seq<Str> {
    if t == Leaf || start >= max then []
    else Visited(t.left, start, max) + [t.value] + Visited(t.right, start + |Inorder(t.left)| + 1, max)
  }

  /** With room for the whole listing no node is straddled. */
  lemma {:induction false} InorderFits(t: Tree, start: int, max: int)
    ensures start + |Inorder(t)| <= max ==> !Straddled(t, start, max)
  {
    if t != Leaf {
      InorderFits(t.left, start, max);
      InorderFits(t.right, start + |Inorder(t.left)| + 1, max);
    }
  }

  /** The traversal writes exactly those nodes, although it counts the cells it has written and not
      the places in the listing. */
  lemma {:induction false} ReachedExactly(t: Tree, start: int, max: int)
    requires start <= max
    ensures Reached(t, max - start) == Visited(t, start, max)
  {
    if t != Leaf && start < max {
      var next := start + |Inorder(t.left)| + 1;
      ReachedExactly(t.left, start, max);
      OverrunExactly(t.left, start, max);
      if next <= max {
        InorderFits(t.left, start, max);
        ReachedExactly(t.right, next, max);
      }
    }
  }

  /** A tree of two strings that overruns a limit of one cell. */
  lemma TwoInOne(a: Str, b: Str)
    requires Less(a, b)
    ensures var t := Node(Node(Leaf, a, Leaf), b, Leaf);
      Ordered(t) && Straddled(t, 0, 1) && Reached(t, 1) == [a, b]
  {
    var l := Node(Leaf, a, Leaf);
    assert Ordered(Leaf) && Elements(Leaf) == {} && Ordered(l) && Elements(l) == {a};
    assert Inorder(l) == [a];
    assert Reached(l, 1) == [a];
  }
}

/** The tree in place. */
module SearchTree {
  import opened TreeModel

  datatype Option<T> = None | Some(value: T)
  type Cell = Option<Str>

  class TNode {
    var str: Cell
    var left: TNode?
    var right: TNode?
    ghost var nodes: set<TNode>
    ghost var tree: Tree

    ghost predicate Valid()
      reads this, nodes
      decreases nodes
    {
      && this in nodes
      && (left != null ==> left in nodes && left.nodes <= nodes - {this} && left.Valid() && left.tree.Node?)
      && (right != null ==> right in nodes && right.nodes <= nodes - {this} && right.Valid() && right.tree.Node?)
      && (left != null && right != null ==> left.nodes !! right.nodes)
      && (str.None? ==> tree == Leaf)
      && (str.Some? ==> tree == Node(if left == null then Leaf else left.tree, str.value,
                                     if right == null then Leaf else right.tree))
      && (str.None? ==> left == null && right == null)
    }

    constructor Init()
      ensures Valid() && tree == Leaf && nodes == {this}
    {
      str, left, right := None, null, null;
      nodes, tree := {this}, Leaf;
    }

    constructor Alloc(s: Str)
      ensures Valid() && tree == Node(Leaf, s, Leaf) && nodes == {this}
    {
      str, left, right := Some(s), null, null;
      nodes, tree := {this}, Node(Leaf, s, Leaf);
    }

    /** Below a node whose string is greater. */
    method InsertLeft(s: Str) returns (r: int)
      requires Valid() && str.Some? && Compare(str.value, s) > 0
      modifies nodes
      ensures Valid() && fresh(nodes - old(nodes))
      ensures tree == Inserted(old(tree), s).0 && r == Inserted(old(tree), s).1
      decreases nodes, 0
    {
      if left == null {
        left := new TNode.Alloc(s);
        r := 0;
      } else {
        r := left.Insert(s);
      }
      nodes := nodes + left.nodes;
      tree := tree.(left := left.tree);
    }

    /** Below a node whose string is less. */
    method InsertRight(s: Str) returns (r: int)
      requires Valid() && str.Some? && Compare(str.value, s) < 0
      modifies nodes
      ensures Valid() && fresh(nodes - old(nodes))
      ensures tree == Inserted(old(tree), s).0 && r == Inserted(old(tree), s).1
      decreases nodes, 0
    {
      if right == null {
        right := new TNode.Alloc(s);
        r := 0;
      } else {
        r := right.Insert(s);
      }
      nodes := nodes + right.nodes;
      tree := tree.(right := right.tree);
    }

    method Insert(s: Str) returns (r: int)
      requires Valid()
      modifies nodes
      ensures Valid() && fresh(nodes - old(nodes))
      ensures tree == Inserted(old(tree), s).0 && r == Inserted(old(tree), s).1
      decreases nodes, 1
    {
      if str.None? {
        str := Some(s);
        tree := Node(Leaf, s, Leaf);
        return 0;
      }
      var path := Compare(str.value, s);
      if path > 0 {
        r := InsertLeft(s);
        return;
      }
      if path < 0 {
        r := InsertRight(s);
        return;
      }
      return 1;
    }
  }

  // ----- traversals -----

  function Cells(xs: seq<Str>): (r: seq<Cell>)
    ensures |r| == |xs|
  {
    if xs == [] then [] else [Some(xs[0])] + Cells(xs[1..])
  }

  /** What a traversal lists: the tree's strings, or the null string of an empty root. */
  function Listed(t: Tree, order: seq<Str>): seq<Cell> {
    if t == Leaf then [None] else Cells(order)
  }

  /** Starting at cur, xs were written over the cells as far as max allowed, up to pos. */
  ghost predicate Wrote(was: seq<Cell>, now: seq<Cell>, cur: nat, xs: seq<Cell>, max: nat, pos: nat)
    requires max <= |was|
    decreases xs
  {
    if xs == [] || cur >= max then now == was && pos == cur
    else Wrote(was[cur := xs[0]], now, cur + 1, xs[1..], max, pos)
  }

  /** The longest prefix of xs that fits is in place, and nothing else changed. */
  lemma {:induction false} WroteExactly(was: seq<Cell>, now: seq<Cell>, cur: nat, xs: seq<Cell>, max: nat, pos: nat)
    requires max <= |was| && Wrote(was, now, cur, xs, max, pos)
    ensures pos == if cur >= max then cur else if cur + |xs| <= max then cur + |xs| else max
    ensures |now| == |was|
    ensures forall i :: 0 <= i < |was| ==> now[i] == if cur <= i < pos then xs[i - cur] else was[i]
    decreases xs
  {
    if xs != [] && cur < max {
      WroteExactly(was[cur := xs[0]], now, cur + 1, xs[1..], max, pos);
    }
  }

  lemma {:induction false} WroteThen(a: seq<Cell>, b: seq<Cell>, c: seq<Cell>, cur: nat, mid: nat, pos: nat,
                                     max: nat, xs: seq<Cell>, ys: seq<Cell>)
    requires max <= |a| && |a| == |b|
    requires Wrote(a, b, cur, xs, max, mid) && Wrote(b, c, mid, ys, max, pos)
    ensures Wrote(a, c, cur, xs + ys, max, pos)
    decreases xs
  {
    if xs == [] {
      assert xs + ys == ys;
    } else if cur < max {
      assert (xs + ys)[1..] == xs[1..] + ys;
      WroteThen(a[cur := xs[0]], b, c, cur + 1, mid, pos, max, xs[1..], ys);
    }
  }

  lemma WroteOne(cells: seq<Cell>, cur: nat, max: nat, x: Cell)
    requires cur < max <= |cells|
    ensures Wrote(cells, cells[cur := x], cur, [x], max, cur + 1)
  {
    assert [x][1..] == [];
  }

  lemma WroteParts(a: seq<Cell>, b: seq<Cell>, c: seq<Cell>, d: seq<Cell>, cur: nat, p: nat, q: nat,
                   pos: nat, max: nat, xs: seq<Cell>, ys: seq<Cell>, zs: seq<Cell>)
    requires max <= |a| && |a| == |b| == |c|
    requires Wrote(a, b, cur, xs, max, p) && Wrote(b, c, p, ys, max, q) && Wrote(c, d, q, zs, max, pos)
    ensures Wrote(a, d, cur, xs + ys + zs, max, pos)
  {
    WroteThen(a, b, c, cur, p, q, max, xs, ys);
    WroteThen(a, c, d, cur, q, pos, max, xs + ys, zs);
  }

  lemma {:induction false} CellAt(xs: seq<Str>, i: nat)
    requires i < |xs|
    ensures Cells(xs)[i] == Some(xs[i])
  {
    if i > 0 {
      CellAt(xs[1..], i - 1);
    }
  }

  lemma {:induction false} CellsConcat(xs: seq<Str>, ys: seq<Str>)
    ensures Cells(xs + ys) == Cells(xs) + Cells(ys)
  {
    if xs == [] {
      assert xs + ys == ys;
    } else {
      assert (xs + ys)[1..] == xs[1..] + ys;
      CellsConcat(xs[1..], ys);
    }
  }

  ghost function Subtree(node: TNode?): Tree
    reads node
  {
    if node == null then Leaf else node.tree
  }

  lemma CellsOne(s: Str)
    ensures Cells([s]) == [Some(s)]
  {
  }

  lemma PreorderParts(node: TNode)
    requires node.Valid()
    ensures Listed(node.tree, Preorder(node.tree))
         == [node.str] + Cells(Preorder(Subtree(node.left))) + Cells(Preorder(Subtree(node.right)))
  {
    if node.str.Some? {
      CellsConcat([node.str.value] + Preorder(node.tree.left), Preorder(node.tree.right));
      CellsConcat([node.str.value], Preorder(node.tree.left));
      CellsOne(node.str.value);
    }
  }

  /** What an inorder traversal writes, likewise, with room cells before its limit. */
  function Spread(t: Tree, room: int): seq<Cell> {
    if t != Leaf then Cells(Reached(t, room)) else if room > 0 then [None] else []
  }

  lemma SpreadParts(node: TNode, cur: nat, max: nat)
    returns (ls: seq<Cell>, rs: seq<Cell>, p: nat)
    requires node.Valid() && cur < max
    ensures ls == Cells(Reached(Subtree(node.left), max - cur)) && p == cur + |ls|
    ensures rs == Cells(Reached(Subtree(node.right), max - (p + 1)))
    ensures Spread(node.tree, max - cur) == ls + [node.str] + rs
    ensures cur + |Spread(node.tree, max - cur)| == p + 1 + |rs|
  {
    var l := Reached(Subtree(node.left), max - cur);
    var r := Reached(Subtree(node.right), max - cur - |l| - 1);
    ls, rs, p := Cells(l), Cells(r), cur + |l|;
    assert max - cur - |l| - 1 == max - (p + 1);
    if node.str.Some? {
      CellsConcat(l + [node.str.value], r);
      CellsConcat(l, [node.str.value]);
      CellsOne(node.str.value);
    }
  }

  method PreorderDo(node: TNode, result: array<Cell>, cur: nat, max: nat) returns (pos: nat)
    requires node.Valid() && max <= result.Length
    modifies result
    ensures Wrote(old(result[..]), result[..], cur, old(Listed(node.tree, Preorder(node.tree))), max, pos)
    decreases node.nodes
  {
    if cur >= max {
      return cur;
    }
    PreorderParts(node);
    ghost var ls, rs := Cells(Preorder(Subtree(node.left))), Cells(Preorder(Subtree(node.right)));
    ghost var w0 := result[..];
    result[cur] := node.str;
    pos := cur + 1;
    ghost var w1 := result[..];
    WroteOne(w0, cur, max, node.str);
    if node.left != null {
      pos := PreorderDo(node.left, result, pos, max);
    }
    ghost var p, w2 := pos, result[..];
    if node.right != null {
      pos := PreorderDo(node.right, result, pos, max);
    }
    WroteParts(w0, w1, w2, result[..], cur, cur + 1, p, pos, max, [node.str], ls, rs);
  }

  method PreorderInto(root: TNode, result: array<Cell>, max: nat) returns (n: nat)
    requires root.Valid() && max <= result.Length
    modifies result
    ensures Wrote(old(result[..]), result[..], 0, old(Listed(root.tree, Preorder(root.tree))), max, n)
  {
    n := PreorderDo(root, result, 0, max);
  }

  method WriteCell(result: array<Cell>, cur: nat, x: Cell) returns (pos: nat)
    requires cur < result.Length
    modifies result
    ensures pos == cur + 1 && Wrote(old(result[..]), result[..], cur, [x], result.Length, pos)
  {
    ghost var was := result[..];
    result[cur] := x;
    assert result[..] == was[cur := x];
    WroteOne(was, cur, result.Length, x);
    pos := cur + 1;
  }

  /** One child of a node, if it has it. */
  method InorderUnder(child: TNode?, ghost t: Tree, ghost above: set<TNode>, ghost xs: seq<Cell>,
                      result: array<Cell>, cur: nat, max: nat)
    returns (pos: nat)
    requires t == Subtree(child) && (child != null ==> child.Valid() && child.nodes < above && t.Node?)
    requires xs == Cells(Reached(t, max - cur)) && cur + |xs| <= result.Length
    modifies result
    ensures Wrote(old(result[..]), result[..], cur, xs, result.Length, pos) && pos == cur + |xs|
    decreases above, 0
  {
    pos := cur;
    if child != null {
      pos := InorderDo(child, xs, result, pos, max);
    }
  }

  /** The limit is looked at on entry only; past a full left subtree the node is written all the
      same, so the array must have room for what is written. */
  method InorderDo(node: TNode, ghost all: seq<Cell>, result: array<Cell>, cur: nat, max: nat)
    returns (pos: nat)
    requires node.Valid() && all == Spread(node.tree, max - cur) && cur + |all| <= result.Length
    modifies result
    ensures Wrote(old(result[..]), result[..], cur, all, result.Length, pos) && pos == cur + |all|
    decreases node.nodes, 1
  {
    if cur >= max {
      assert all == [];
      return cur;
    }
    ghost var lt, rt, x, w0 := Subtree(node.left), Subtree(node.right), node.str, result[..];
    ghost var ls, rs, p := SpreadParts(node, cur, max);
    pos := InorderUnder(node.left, lt, node.nodes, ls, result, cur, max);
    ghost var w1 := result[..];
    pos := WriteCell(result, pos, node.str);
    ghost var w2 := result[..];
    pos := InorderUnder(node.right, rt, node.nodes, rs, result, pos, max);
    WroteParts(w0, w1, w2, result[..], cur, p, p + 1, pos, result.Length, ls, [x], rs);
  }

  method InorderInto(root: TNode, result: array<Cell>, max: nat) returns (n: nat)
    requires root.Valid() && |Spread(root.tree, max)| <= result.Length
    modifies result
    ensures Wrote(old(result[..]), result[..], 0, old(Spread(root.tree, max)), result.Length, n)
    ensures n == |old(Spread(root.tree, max))|
    ensures n > max <==> old(Straddled(root.tree, 0, max))
    ensures old(|Inorder(root.tree)| <= max && root.tree.Node?) ==>
      old(Spread(root.tree, max)) == old(Cells(Inorder(root.tree)))
  {
    OverrunExactly(root.tree, 0, max);
    InorderFits(root.tree, 0, max);
    n := InorderDo(root, Spread(root.tree, max), result, 0, max);
  }

  // ----- the round trip -----

  /** Inserts the strings of the first n cells into a fresh root. */
  method Refill(result: array<Cell>, n: nat, ghost xs: seq<Str>) returns (copy: TNode)
    requires n <= result.Length && n == |xs| && forall k :: 0 <= k < n ==> result[k] == Some(xs[k])
    ensures fresh(copy) && copy.Valid() && copy.tree == InsertedAll(Leaf, xs)
  {
    copy := new TNode.Init();
    for i := 0 to n
      invariant copy.Valid() && fresh(copy) && fresh(copy.nodes)
      invariant copy.tree == InsertedAll(Leaf, xs[..i])
    {
      InsertedMore(xs, i);
      var _ := copy.Insert(result[i].value);
    }
    assert xs[..n] == xs;
  }

  /** A tree's preorder listing, inserted cell by cell into a fresh root, makes the same tree. */
  method Rebuild(root: TNode, result: array<Cell>, max: nat) returns (copy: TNode)
    requires root.Valid() && root.tree.Node? && Ordered(root.tree)
    requires |Preorder(root.tree)| <= max <= result.Length
    modifies result
    ensures root.Valid() && root.tree == old(root.tree)
    ensures fresh(copy) && copy.Valid() && copy.tree == root.tree
  {
    ghost var xs, was := Preorder(root.tree), result[..];
    var n := PreorderInto(root, result, max);
    WroteExactly(was, result[..], 0, Cells(xs), max, n);
    forall k | 0 <= k < n
      ensures result[k] == Some(xs[k])
    {
      assert result[..][k] == Cells(xs)[k];
      CellAt(xs, k);
    }
    copy := Refill(result, n, xs);
    PreorderRebuilds(root.tree);
  }
}
