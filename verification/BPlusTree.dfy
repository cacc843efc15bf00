/** The B+ tree of `index/bptree.c` on the heap: nodes with fixed-size arrays that are
    shifted and split in place, linked leaves, and a root pointer.  A ghost skeleton
    (`Shape`) names the nodes a subtree is made of; `Rep` says which value of
    `BPlusTreeModel.Tree` those nodes represent and where the leaf chain leads. */
module BPlusTree {
  import opened Basics
  import M = BPlusTreeModel

  class Node {
    const isLeaf: bool
    var keyCount: nat
    const keys: array<int>
    const values: array<int>
    const children: array<Node?>
    var next: Node?

    constructor (isLeaf: bool)
      ensures this.isLeaf == isLeaf && keyCount == 0 && next == null
      ensures Layout(this) && fresh(keys) && fresh(values) && fresh(children)
    {
      this.isLeaf := isLeaf;
      keyCount, next := 0, null;
      keys := new int[M.MAX_KEYS + 1](_ => 0);
      values := new int[M.MAX_KEYS + 1](_ => 0);
      children := new Node?[M.MAX_KEYS + 2](_ => null);
    }
  }

  ghost predicate Layout(n: Node) {
    n.keys.Length == n.values.Length == M.MAX_KEYS + 1 && n.children.Length == M.MAX_KEYS + 2 && n.keys != n.values
  }

  // ----- array helpers ---------------------------------------------------------

  /** Shifts the items from `at` on one place right and stores `x` at `at`. */
  method InsertAt<T>(a: array<T>, count: nat, at: nat, x: T)
    requires at <= count < a.Length
    modifies a
    ensures a[..count + 1] == Spliced(old(a[..count]), at, x)
    ensures forall j :: 0 <= j <= count ==> a[j] == if j < at then old(a[j]) else if j == at then x else old(a[j - 1])
  {
    var i := count;
    while i > at
      invariant at <= i <= count
      invariant forall j :: 0 <= j < i ==> a[j] == old(a[j])
      invariant forall j :: i < j <= count ==> a[j] == old(a[j - 1])
    {
      a[i] := a[i - 1];
      i := i - 1;
    }
    a[at] := x;
    SplicedIs(old(a[..count]), at, x, a[..count + 1]);
  }

  lemma SplicedIs<T>(s: seq<T>, at: nat, x: T, r: seq<T>)
    requires at <= |s| && |r| == |s| + 1
    requires (forall j :: 0 <= j < at ==> r[j] == s[j]) && r[at] == x && forall j :: at <= j < |s| ==> r[j + 1] == s[j]
    ensures r == Spliced(s, at, x)
  {
    assert r[..at] == s[..at];
    assert r[at + 1..] == s[at..];
    assert r == r[..at] + [r[at]] + r[at + 1..];
  }

  /** Copies `n` items of `src`, starting at `from`, to the front of `dst`. */
  method CopyTail<T>(src: array<T>, from: nat, dst: array<T>, n: nat)
    requires src != dst && from + n <= src.Length && n <= dst.Length
    modifies dst
    ensures dst[..n] == src[from..from + n]
  {
    var i := 0;
    while i < n
      invariant 0 <= i <= n
      invariant forall j :: 0 <= j < i ==> dst[j] == src[from + j]
    {
      dst[i] := src[from + i];
      i := i + 1;
    }
  }

  // ----- what a set of nodes represents ---------------------------------------

  datatype Shape = AtLeaf(node: Node) | AtInner(node: Node, kids: seq<Shape>)

  ghost function Cells(n: Node): set<object> { {n, n.keys, n.values, n.children} }

  ghost function Footprint(s: Shape): set<object>
    decreases s, 1
  {
    Cells(s.node) + if s.AtLeaf? then {} else KidsFootprint(s.kids)
  }

  ghost function KidsFootprint(kids: seq<Shape>): set<object>
    decreases kids, 0
  {
    set k, o | k in kids && o in Footprint(k) :: o
  }

  lemma KidInside(kids: seq<Shape>, i: nat)
    requires i < |kids|
    ensures Footprint(kids[i]) <= KidsFootprint(kids)
  {
  }

  ghost predicate Apart(kids: seq<Shape>) {
    forall i, j :: 0 <= i < j < |kids| ==> Footprint(kids[i]) !! Footprint(kids[j])
  }

  /** No node or array is used twice. */
  ghost predicate Separated(s: Shape)
    decreases s
  {
    s.AtInner? ==>
      && Cells(s.node) !! KidsFootprint(s.kids)
      && Apart(s.kids)
      && forall k <- s.kids :: Separated(k)
  }

  ghost function FirstLeaf(s: Shape): Node
    decreases s
  {
    if s.AtLeaf? || s.kids == [] then s.node else FirstLeaf(s.kids[0])
  }

  /** The leaf that follows the subtree of child `i`. */
  ghost function After(kids: seq<Shape>, i: nat, succ: Node?): Node?
    requires i < |kids|
  {
    if i + 1 < |kids| then FirstLeaf(kids[i + 1]) else succ
  }

  /** An internal node with these keys and these children. */
  ghost predicate InnerNode(n: Node, keys: seq<int>, kids: seq<Shape>)
    reads Cells(n)
  {
    && Layout(n) && !n.isLeaf && n.keyCount <= M.MAX_KEYS + 1
    && n.keys[..n.keyCount] == keys
    && |kids| == n.keyCount + 1
    && (forall i :: 0 <= i < |kids| ==> n.children[i] == kids[i].node)
  }

  /** A leaf with these keys and values, linked to `succ`. */
  ghost predicate LeafNode(n: Node, keys: seq<int>, vals: seq<int>, succ: Node?)
    reads Cells(n)
  {
    && Layout(n) && n.isLeaf && n.keyCount <= M.MAX_KEYS + 1
    && n.keys[..n.keyCount] == keys && n.values[..n.keyCount] == vals
    && n.next == succ
  }

  /** The nodes of `s` represent `t`, and its last leaf is linked to `succ`. */
  ghost predicate Rep(s: Shape, t: M.Tree, succ: Node?)
    reads Footprint(s)
    decreases s, 1
  {
    match s
    case AtLeaf(n) => t.Leaf? && LeafNode(n, t.keys, t.vals, succ)
    case AtInner(n, kids) => t.Inner? && InnerNode(n, t.keys, kids) && RepFan(kids, t.kids, succ)
  }

  ghost predicate RepFan(kids: seq<Shape>, trees: seq<M.Tree>, succ: Node?)
    reads KidsFootprint(kids)
    decreases kids, 0
  {
    |kids| == |trees| && forall i :: 0 <= i < |kids| ==> (KidInside(kids, i); RepKid(kids, trees, succ, i))
  }

  ghost predicate RepKid(kids: seq<Shape>, trees: seq<M.Tree>, succ: Node?, i: nat)
    requires i < |kids| == |trees|
    reads Footprint(kids[i])
    decreases kids, 0, 0
  {
    Rep(kids[i], trees[i], After(kids, i, succ))
  }

  lemma RepByKind(s: Shape, t: M.Tree, succ: Node?)
    requires Rep(s, t, succ)
    ensures s.node.isLeaf <==> s.AtLeaf?
    ensures s.AtLeaf? ==> t.Leaf? && LeafNode(s.node, t.keys, t.vals, succ)
    ensures s.AtInner? ==> t.Inner? && InnerNode(s.node, t.keys, s.kids) && RepFan(s.kids, t.kids, succ)
  {
  }

  /** `s` with item `i` replaced by the items of `mid`. */
  ghost function Replaced<T>(s: seq<T>, i: nat, mid: seq<T>): seq<T>
    requires i < |s|
  {
    s[..i] + mid + s[i + 1..]
  }

  /** Where item `j` of a fan with child `i` replaced comes from, and which leaf follows it. */
  lemma {:induction false} ReplacedAfter(kids: seq<Shape>, succ: Node?, i: nat, mid: seq<Shape>, j: nat)
    requires i < |kids| && |mid| > 0 && FirstLeaf(mid[0]) == FirstLeaf(kids[i])
    requires j < |Replaced(kids, i, mid)|
    ensures var after := After(Replaced(kids, i, mid), j, succ);
            if j < i then after == After(kids, j, succ)
            else if j < i + |mid| then after == After(mid, j - i, After(kids, i, succ))
            else after == After(kids, j - |mid| + 1, succ)
  {
    var kids' := Replaced(kids, i, mid);
    if j + 1 < |kids'| {
      assert kids'[j + 1] == if j + 1 < i then kids[j + 1] else if j + 1 < i + |mid| then mid[j + 1 - i]
          else kids[j - |mid| + 2];
    }
  }

  /** Replacing one child by subtrees that start with the same leaf keeps the fan linked. */
  lemma {:induction false} ReplacedRep(kids: seq<Shape>, trees: seq<M.Tree>, succ: Node?, i: nat, mid: seq<Shape>,
      midTrees: seq<M.Tree>)
    requires i < |kids| == |trees| && |mid| > 0
    requires forall j :: 0 <= j < |kids| && j != i ==> RepKid(kids, trees, succ, j)
    requires RepFan(mid, midTrees, After(kids, i, succ))
    requires FirstLeaf(mid[0]) == FirstLeaf(kids[i])
    ensures RepFan(Replaced(kids, i, mid), Replaced(trees, i, midTrees), succ)
  {
    var kids', trees' := Replaced(kids, i, mid), Replaced(trees, i, midTrees);
    forall j | 0 <= j < |kids'| ensures RepKid(kids', trees', succ, j) {
      ReplacedAfter(kids, succ, i, mid, j);
      if j < i {
        assert RepKid(kids, trees, succ, j);
      } else if j < i + |mid| {
        assert RepKid(mid, midTrees, After(kids, i, succ), j - i);
      } else {
        assert RepKid(kids, trees, succ, j - |mid| + 1);
      }
    }
  }

  /** A sibling lies inside the parent's footprint but outside child `i`'s. */
  lemma SiblingInside(node: Node, kids: seq<Shape>, i: nat, j: nat)
    requires Separated(AtInner(node, kids)) && i < |kids| && j < |kids| && i != j
    ensures Footprint(kids[j]) <= Footprint(AtInner(node, kids)) - Footprint(kids[i])
  {
    KidInside(kids, j);
    assert i < j ==> Footprint(kids[i]) !! Footprint(kids[j]);
    assert j < i ==> Footprint(kids[j]) !! Footprint(kids[i]);
  }

  /** Replacing one child by fresh or reused subtrees keeps all nodes apart. */
  lemma {:induction false} ReplacedSeparated(node: Node, kids: seq<Shape>, i: nat, mid: seq<Shape>)
    requires Separated(AtInner(node, kids)) && i < |kids|
    requires Apart(mid) && forall m <- mid :: Separated(m)
    requires forall m <- mid :: Footprint(m) !! Footprint(AtInner(node, kids)) - Footprint(kids[i])
    ensures Separated(AtInner(node, Replaced(kids, i, mid)))
  {
    var kids' := Replaced(kids, i, mid);
    forall j, k | 0 <= j < k < |kids'| ensures Footprint(kids'[j]) !! Footprint(kids'[k]) {
      ReplacedApart(node, kids, i, mid, j, k);
    }
    KidInside(kids, i);
    assert forall k <- kids' :: k in kids || k in mid;
    assert Cells(node) <= Footprint(AtInner(node, kids)) - Footprint(kids[i]);
  }

  lemma {:induction false} ReplacedApart(node: Node, kids: seq<Shape>, i: nat, mid: seq<Shape>, j: nat, k: nat)
    requires Separated(AtInner(node, kids)) && i < |kids| && Apart(mid)
    requires forall m <- mid :: Footprint(m) !! Footprint(AtInner(node, kids)) - Footprint(kids[i])
    requires j < k < |Replaced(kids, i, mid)|
    ensures Footprint(Replaced(kids, i, mid)[j]) !! Footprint(Replaced(kids, i, mid)[k])
  {
    var n := |mid|;
    var j0, k0 := if j < i then j else j - n + 1, if k < i then k else k - n + 1;
    if i <= j < i + n && i <= k < i + n {
      assert Footprint(mid[j - i]) !! Footprint(mid[k - i]);
    } else if i <= j < i + n {
      SiblingInside(node, kids, i, k0);
      assert mid[j - i] in mid;
    } else if i <= k < i + n {
      SiblingInside(node, kids, i, j0);
      assert mid[k - i] in mid;
    } else {
      assert Footprint(kids[j0]) !! Footprint(kids[k0]);
    }
  }

  lemma ReplacedFirstLeaf(node: Node, kids: seq<Shape>, i: nat, mid: seq<Shape>)
    requires i < |kids| && |mid| > 0 && FirstLeaf(mid[0]) == FirstLeaf(kids[i])
    ensures FirstLeaf(AtInner(node, Replaced(kids, i, mid))) == FirstLeaf(AtInner(node, kids))
  {
    assert Replaced(kids, i, mid)[0] == if i == 0 then mid[0] else kids[0];
  }

  /** Cutting a fan in two at `m`: both parts stay linked, the left one to the right one. */
  lemma {:induction false} CutRep(kids: seq<Shape>, trees: seq<M.Tree>, succ: Node?, m: nat)
    requires RepFan(kids, trees, succ) && 0 < m < |kids|
    ensures RepFan(kids[..m], trees[..m], FirstLeaf(kids[m])) && RepFan(kids[m..], trees[m..], succ)
  {
    forall j | 0 <= j < m ensures RepKid(kids[..m], trees[..m], FirstLeaf(kids[m]), j) {
      assert RepKid(kids, trees, succ, j);
    }
    forall j | 0 <= j < |kids| - m ensures RepKid(kids[m..], trees[m..], succ, j) {
      assert RepKid(kids, trees, succ, m + j);
      assert After(kids[m..], j, succ) == After(kids, m + j, succ);
    }
  }

  lemma {:induction false} CutSeparated(node: Node, right: Node, kids: seq<Shape>, m: nat)
    requires Separated(AtInner(node, kids)) && 0 < m < |kids|
    requires Cells(right) !! Footprint(AtInner(node, kids))
    ensures Separated(AtInner(node, kids[..m])) && Separated(AtInner(right, kids[m..]))
    ensures Footprint(AtInner(node, kids[..m])) !! Footprint(AtInner(right, kids[m..]))
    ensures KidsFootprint(kids[..m]) <= KidsFootprint(kids) && KidsFootprint(kids[m..]) <= KidsFootprint(kids)
  {
    CutApart(kids, m);
    assert forall k <- kids[..m] :: k in kids;
    assert forall k <- kids[m..] :: k in kids;
  }

  lemma {:induction false} CutApart(kids: seq<Shape>, m: nat)
    requires Apart(kids) && 0 < m < |kids|
    ensures Apart(kids[..m]) && Apart(kids[m..])
    ensures KidsFootprint(kids[..m]) !! KidsFootprint(kids[m..])
    ensures KidsFootprint(kids[..m]) <= KidsFootprint(kids) && KidsFootprint(kids[m..]) <= KidsFootprint(kids)
  {
    assert forall i :: 0 <= i < |kids| - m ==> kids[m..][i] == kids[m + i];
    forall k, l | k in kids[..m] && l in kids[m..] ensures Footprint(k) !! Footprint(l) {
      var i :| 0 <= i < m && kids[i] == k;
      var j :| m <= j < |kids| && kids[j] == l;
    }
    assert forall k <- kids[..m] :: k in kids;
    assert forall k <- kids[m..] :: k in kids;
  }

  // ----- insertion --------------------------------------------------------------

  datatype InsertState =
    | Failed
    | Kept
    | Split(promotedKey: int, rightNode: Node)

  /** How the outcome of an in-place insertion matches the insertion on values. */
  ghost predicate Outcome(state: InsertState, spec: M.Insertion, node: Node, first: Node, s: Shape, r: Shape,
      succ: Node?)
    reads Footprint(s), Footprint(r)
  {
    match state
    case Failed => spec.Duplicate?
    case Kept => spec.Whole? && s.node == node && FirstLeaf(s) == first && Separated(s) && Rep(s, spec.tree, succ)
    case Split(k, rightNode) =>
      && spec.Halves? && k == spec.separator && s.node == node && r.node == rightNode
      && FirstLeaf(s) == first && Separated(s) && Separated(r) && Footprint(s) !! Footprint(r)
      && Rep(s, spec.left, FirstLeaf(r)) && Rep(r, spec.right, succ)
  }

  method FindLeafIndex(node: Node, key: int) returns (i: nat)
    requires Layout(node) && node.keyCount <= M.MAX_KEYS
    ensures i == M.LowerBound(node.keys[..node.keyCount], key)
  {
    ghost var keys := node.keys[..node.keyCount];
    i := 0;
    while i < node.keyCount && node.keys[i] < key
      invariant 0 <= i <= node.keyCount
      invariant M.LowerBound(keys, key) == i + M.LowerBound(keys[i..], key)
    {
      assert keys[i..][1..] == keys[i + 1..];
      i := i + 1;
    }
  }

  method FindChildIndex(node: Node, key: int) returns (i: nat)
    requires Layout(node) && node.keyCount <= M.MAX_KEYS + 1
    ensures i == M.ChildIndex(node.keys[..node.keyCount], key)
  {
    ghost var keys := node.keys[..node.keyCount];
    i := 0;
    while i < node.keyCount && key >= node.keys[i]
      invariant 0 <= i <= node.keyCount
      invariant M.ChildIndex(keys, key) == i + M.ChildIndex(keys[i..], key)
    {
      assert keys[i..][1..] == keys[i + 1..];
      i := i + 1;
    }
  }

  /** Moves the upper half of an overfull leaf to a new right sibling and links it in. */
  method SplitLeaf(node: Node, ghost keys: seq<int>, ghost vals: seq<int>, ghost succ: Node?) returns (right: Node)
    requires LeafNode(node, keys, vals, succ) && |keys| == M.MAX_KEYS + 1
    modifies node
    ensures fresh(Cells(right)) && right.keyCount == 2
    ensures LeafNode(node, keys[..2], vals[..2], right) && LeafNode(right, keys[2..], vals[2..], succ)
  {
    right := new Node(true);
    var splitIndex := node.keyCount / 2;
    right.keyCount := node.keyCount - splitIndex;
    CopyTail(node.keys, splitIndex, right.keys, right.keyCount);
    CopyTail(node.values, splitIndex, right.values, right.keyCount);
    node.keyCount := splitIndex;
    right.next := node.next;
    node.next := right;
  }

  /** Leaves a leaf that fits as it is and splits one that does not. */
  method FinishLeaf(node: Node, ghost keys: seq<int>, ghost vals: seq<int>, ghost succ: Node?)
    returns (state: InsertState, ghost r: Shape)
    requires LeafNode(node, keys, vals, succ)
    modifies node
    ensures |keys| == |vals| && Outcome(state, M.LeafOrHalves(keys, vals), node, node, AtLeaf(node), r, succ)
    ensures !state.Failed? && (state.Split? ==> fresh(Footprint(r)))
  {
    r := AtLeaf(node);
    if node.keyCount <= M.MAX_KEYS {
      return Kept, r;
    }
    var right := SplitLeaf(node, keys, vals, succ);
    r := AtLeaf(right);
    assert right.keys[..2][0] == keys[2];
    state := Split(right.keys[0], right);
  }

  method InsertIntoLeaf(node: Node, key: int, value: int, ghost t: M.Tree, ghost succ: Node?)
    returns (state: InsertState, ghost r: Shape)
    requires Rep(AtLeaf(node), t, succ) && M.Shaped(t) && node.keyCount <= M.MAX_KEYS
    modifies Cells(node)
    ensures Outcome(state, M.Insert(t, key, value), node, node, AtLeaf(node), r, succ)
    ensures state.Failed? ==> unchanged(Cells(node))
    ensures state.Split? ==> fresh(Footprint(r))
  {
    r := AtLeaf(node);
    var i := FindLeafIndex(node, key);
    if i < node.keyCount && node.keys[i] == key {
      return Failed, r;
    }
    InsertAt(node.keys, node.keyCount, i, key);
    InsertAt(node.values, node.keyCount, i, value);
    node.keyCount := node.keyCount + 1;
    state, r := FinishLeaf(node, Spliced(t.keys, i, key), Spliced(t.vals, i, value), succ);
  }

  /** Enters a promoted key and the new right child into the arrays of an internal node. */
  method EnterRight(node: Node, i: nat, promoted: int, right: Node, ghost keys: seq<int>, ghost kids: seq<Shape>)
    requires Layout(node) && !node.isLeaf && i <= node.keyCount <= M.MAX_KEYS && |kids| == node.keyCount + 2
    requires node.keys[..node.keyCount] == keys && kids[i + 1].node == right
    requires forall j :: 0 <= j <= node.keyCount ==> node.children[j] == kids[if j <= i then j else j + 1].node
    modifies Cells(node)
    ensures InnerNode(node, Spliced(keys, i, promoted), kids)
  {
    InsertAt(node.keys, node.keyCount, i, promoted);
    InsertAt(node.children, node.keyCount + 1, i + 1, right);
    node.keyCount := node.keyCount + 1;
  }

  /** Moves the keys and children above the middle key to a new right sibling. */
  method SplitInternal(node: Node, ghost keys: seq<int>, ghost kids: seq<Shape>) returns (promoted: int, right: Node)
    requires InnerNode(node, keys, kids) && |keys| == M.MAX_KEYS + 1
    modifies node`keyCount
    ensures fresh(Cells(right)) && promoted == keys[2]
    ensures InnerNode(node, keys[..2], kids[..3]) && InnerNode(right, keys[3..], kids[3..])
  {
    right := new Node(false);
    var midIndex := node.keyCount / 2;
    promoted := node.keys[midIndex];
    right.keyCount := node.keyCount - midIndex - 1;
    CopyTail(node.keys, midIndex + 1, right.keys, right.keyCount);
    CopyTail(node.children, midIndex + 1, right.children, right.keyCount + 1);
    node.keyCount := midIndex;
    forall j | 0 <= j < 2 ensures right.children[j] == kids[3..][j].node {
      assert right.children[j] == right.children[..2][j];
    }
  }

  /** Leaves an internal node that fits as it is and splits one that does not. */
  method FinishInternal(node: Node, ghost keys: seq<int>, ghost kids: seq<Shape>, ghost trees: seq<M.Tree>,
      ghost succ: Node?)
    returns (state: InsertState, ghost s: Shape, ghost r: Shape, ghost gained: set<object>)
    requires InnerNode(node, keys, kids) && RepFan(kids, trees, succ) && Separated(AtInner(node, kids))
    modifies node`keyCount
    ensures !state.Failed?
    ensures Outcome(state, M.InnerOrHalves(keys, trees), node, FirstLeaf(AtInner(node, kids)), s, r, succ)
    ensures fresh(gained) && Footprint(s) <= Footprint(AtInner(node, kids))
    ensures state.Split? ==> Footprint(r) <= Footprint(AtInner(node, kids)) + gained
  {
    s, r, gained := AtInner(node, kids), AtInner(node, kids), {};
    if node.keyCount <= M.MAX_KEYS {
      return Kept, s, r, gained;
    }
    assert allocated(KidsFootprint(kids));
    var promotedKey, rightNode := SplitInternal(node, keys, kids);
    gained := Cells(rightNode);
    s, r := AtInner(node, kids[..3]), AtInner(rightNode, kids[3..]);
    state := Split(promotedKey, rightNode);
    HalvesOutcome(node, rightNode, keys, kids, trees, succ);
  }

  lemma {:induction false} HalvesOutcome(node: Node, right: Node, keys: seq<int>, kids: seq<Shape>,
      trees: seq<M.Tree>, succ: Node?)
    requires |keys| == M.MAX_KEYS + 1 && |kids| == |keys| + 1 && RepFan(kids, trees, succ)
    requires InnerNode(node, keys[..2], kids[..3]) && InnerNode(right, keys[3..], kids[3..])
    requires Separated(AtInner(node, kids)) && Cells(right) !! Footprint(AtInner(node, kids))
    ensures Outcome(Split(keys[2], right), M.InnerOrHalves(keys, trees), node, FirstLeaf(AtInner(node, kids)),
                    AtInner(node, kids[..3]), AtInner(right, kids[3..]), succ)
    ensures Footprint(AtInner(node, kids[..3])) <= Footprint(AtInner(node, kids))
    ensures Footprint(AtInner(right, kids[3..])) <= Footprint(AtInner(node, kids)) + Cells(right)
  {
    CutRep(kids, trees, succ, 3);
    CutSeparated(node, right, kids, 3);
  }

  /** Enters the result of a child's split, splitting this node too if it becomes overfull. */
  method AbsorbRight(node: Node, i: nat, promoted: int, right: Node,
                     ghost keys: seq<int>, ghost kids: seq<Shape>, ghost trees: seq<M.Tree>, ghost succ: Node?)
    returns (state: InsertState, ghost s: Shape, ghost r: Shape, ghost gained: set<object>)
    requires Layout(node) && !node.isLeaf && i <= node.keyCount <= M.MAX_KEYS && |kids| == node.keyCount + 2
    requires node.keys[..node.keyCount] == keys && kids[i + 1].node == right
    requires forall j :: 0 <= j <= node.keyCount ==> node.children[j] == kids[if j <= i then j else j + 1].node
    requires RepFan(kids, trees, succ) && Separated(AtInner(node, kids))
    modifies Cells(node)
    ensures !state.Failed?
    ensures Outcome(state, M.InnerOrHalves(Spliced(keys, i, promoted), trees), node, FirstLeaf(AtInner(node, kids)),
            s, r, succ)
    ensures fresh(gained) && Footprint(s) <= Footprint(AtInner(node, kids))
    ensures state.Split? ==> Footprint(r) <= Footprint(AtInner(node, kids)) + gained
  {
    assert allocated(KidsFootprint(kids));
    EnterRight(node, i, promoted, right, keys, kids);
    state, s, r, gained := FinishInternal(node, Spliced(keys, i, promoted), kids, trees, succ);
  }

  /** What a parent knows once child `i` has been replaced by the subtrees in `mid`. */
  lemma {:induction false} ChildReplaced(node: Node, kids: seq<Shape>, trees: seq<M.Tree>, succ: Node?, i: nat,
                                         mid: seq<Shape>, midTrees: seq<M.Tree>, gained: set<object>)
    requires Separated(AtInner(node, kids)) && i < |kids| == |trees| && |mid| > 0
    requires forall j :: 0 <= j < |kids| && j != i ==> RepKid(kids, trees, succ, j)
    requires RepFan(mid, midTrees, After(kids, i, succ)) && FirstLeaf(mid[0]) == FirstLeaf(kids[i])
    requires Apart(mid) && forall m <- mid :: Separated(m) && Footprint(m) <= Footprint(kids[i]) + gained
    requires gained !! Footprint(AtInner(node, kids))
    ensures var kids' := Replaced(kids, i, mid);
            && RepFan(kids', Replaced(trees, i, midTrees), succ) && Separated(AtInner(node, kids'))
            && FirstLeaf(AtInner(node, kids')) == FirstLeaf(AtInner(node, kids))
            && Footprint(AtInner(node, kids')) <= Footprint(AtInner(node, kids)) + gained
  {
    ReplacedRep(kids, trees, succ, i, mid, midTrees);
    ReplacedSeparated(node, kids, i, mid);
    ReplacedFirstLeaf(node, kids, i, mid);
    KidInside(kids, i);
    assert forall k <- Replaced(kids, i, mid) :: k in kids || k in mid;
  }

  lemma {:induction false} ChildKept(node: Node, t: M.Tree, kids: seq<Shape>, succ: Node?, i: nat, c: Shape,
      tree: M.Tree, gained: set<object>)
    requires t.Inner? && InnerNode(node, t.keys, kids) && Separated(AtInner(node, kids)) && i < |kids| == |t.kids|
    requires forall j :: 0 <= j < |kids| && j != i ==> RepKid(kids, t.kids, succ, j)
    requires Rep(c, tree, After(kids, i, succ)) && c.node == kids[i].node && FirstLeaf(c) == FirstLeaf(kids[i])
    requires Separated(c) && Footprint(c) <= Footprint(kids[i]) + gained && gained !! Footprint(AtInner(node, kids))
    ensures var s := AtInner(node, Replaced(kids, i, [c]));
            && Rep(s, M.Inner(t.keys, t.kids[i := tree]), succ) && Separated(s)
            && FirstLeaf(s) == FirstLeaf(AtInner(node, kids))
            && Footprint(s) <= Footprint(AtInner(node, kids)) + gained
  {
    hide Footprint, KidsFootprint, Separated, FirstLeaf, RepFan, RepKid, InnerNode, Replaced;
    RepSingle(c, tree, After(kids, i, succ));
    ChildReplaced(node, kids, t.kids, succ, i, [c], [tree], gained);
    ReplacedOne(t.kids, i, tree);
    KeptNode(node, t.keys, kids, i, c);
  }

  lemma RepSingle(c: Shape, tree: M.Tree, succ: Node?)
    requires Rep(c, tree, succ)
    ensures RepFan([c], [tree], succ)
  {
    hide Rep;
    assert RepKid([c], [tree], succ, 0);
  }

  lemma ReplacedOne<T>(s: seq<T>, i: nat, x: T)
    requires i < |s|
    ensures Replaced(s, i, [x]) == s[i := x]
  {
  }

  lemma KeptNode(node: Node, keys: seq<int>, kids: seq<Shape>, i: nat, c: Shape)
    requires InnerNode(node, keys, kids) && i < |kids| && c.node == kids[i].node
    ensures InnerNode(node, keys, Replaced(kids, i, [c]))
  {
    ReplacedOne(kids, i, c);
  }

  lemma {:induction false} ChildSplit(node: Node, t: M.Tree, kids: seq<Shape>, succ: Node?, i: nat,
                                      c: Shape, left: M.Tree, cr: Shape, right: M.Tree, gained: set<object>)
    requires Separated(AtInner(node, kids)) && t.Inner? && i < |kids| == |t.kids|
    requires forall j :: 0 <= j < |kids| && j != i ==> RepKid(kids, t.kids, succ, j)
    requires Rep(c, left, FirstLeaf(cr)) && Rep(cr, right, After(kids, i, succ)) && FirstLeaf(c) == FirstLeaf(kids[i])
    requires Separated(c) && Separated(cr) && Footprint(c) !! Footprint(cr)
    requires Footprint(c) <= Footprint(kids[i]) + gained && Footprint(cr) <= Footprint(kids[i]) + gained
    requires gained !! Footprint(AtInner(node, kids))
    ensures var kids' := Replaced(kids, i, [c, cr]);
            && RepFan(kids', Replaced(t.kids, i, [left, right]), succ) && Separated(AtInner(node, kids'))
            && FirstLeaf(AtInner(node, kids')) == FirstLeaf(AtInner(node, kids))
            && Footprint(AtInner(node, kids')) <= Footprint(AtInner(node, kids)) + gained
  {
    hide Rep, Separated, Footprint, FirstLeaf, RepFan, RepKid, Replaced;
    RepPair(c, cr, left, right, After(kids, i, succ));
    ChildReplaced(node, kids, t.kids, succ, i, [c, cr], [left, right], gained);
  }

  lemma RepPair(l: Shape, r: Shape, left: M.Tree, right: M.Tree, succ: Node?)
    requires Rep(l, left, FirstLeaf(r)) && Rep(r, right, succ)
    ensures RepFan([l, r], [left, right], succ)
  {
    hide Rep, FirstLeaf;
    assert RepKid([l, r], [left, right], succ, 0);
    assert RepKid([l, r], [left, right], succ, 1);
  }

  /** Inserts into child `i`; the node itself and the other children stay as they were. */
  method InsertIntoChild(node: Node, i: nat, key: int, value: int, ghost kids: seq<Shape>, ghost t: M.Tree,
      ghost succ: Node?,
                         ghost lo: M.Bound, ghost hi: M.Bound, ghost height: nat, ghost isRoot: bool)
    returns (child: InsertState, ghost c: Shape, ghost cr: Shape, ghost gained: set<object>)
    requires t.Inner? && InnerNode(node, t.keys, kids) && RepFan(kids, t.kids, succ) && Separated(AtInner(node, kids))
    requires M.Valid(t, lo, hi, height, isRoot) && i < |kids|
    requires allocated(Footprint(AtInner(node, kids)))
    modifies Footprint(kids[i])
    ensures M.Shaped(t.kids[i])
    ensures Outcome(child, M.Insert(t.kids[i], key, value), kids[i].node, FirstLeaf(kids[i]), c, cr,
            After(kids, i, succ))
    ensures child.Failed? ==> unchanged(Footprint(AtInner(node, kids)))
    ensures InnerNode(node, t.keys, kids) && forall j :: 0 <= j < |kids| && j != i ==> RepKid(kids, t.kids, succ, j)
    ensures fresh(gained)
    ensures !child.Failed? ==> Footprint(c) <= Footprint(kids[i]) + gained
    ensures child.Split? ==> Footprint(cr) <= Footprint(kids[i]) + gained
    decreases t, 0
  {
    M.KidOf(t, lo, hi, height, isRoot, i);
    KidInside(kids, i);
    assert RepKid(kids, t.kids, succ, i);
    child, c, cr, gained := InsertIntoNode(node.children[i], key, value, kids[i], t.kids[i], After(kids, i, succ),
                                           M.KidLo(t.keys, lo, i), M.KidHi(t.keys, hi, i), height - 1, false);
    forall j | 0 <= j < |kids| && j != i ensures RepKid(kids, t.kids, succ, j) {
      SiblingInside(node, kids, i, j);
      assert old(RepKid(kids, t.kids, succ, j));
    }
  }

  /** Takes in the outcome of a successful insertion into child `i`. */
  method AfterChild(node: Node, i: nat, child: InsertState, ghost spec: M.Insertion, ghost kids: seq<Shape>,
      ghost t: M.Tree, ghost succ: Node?,
                    ghost c: Shape, ghost cr: Shape, ghost gained: set<object>)
    returns (state: InsertState, ghost s: Shape, ghost r: Shape, ghost more: set<object>)
    requires t.Inner? && InnerNode(node, t.keys, kids) && |t.keys| <= M.MAX_KEYS
    requires Separated(AtInner(node, kids)) && i < |kids| == |t.kids|
    requires forall j :: 0 <= j < |kids| && j != i ==> RepKid(kids, t.kids, succ, j)
    requires !child.Failed? && Outcome(child, spec, kids[i].node, FirstLeaf(kids[i]), c, cr, After(kids, i, succ))
    requires Footprint(c) <= Footprint(kids[i]) + gained &&
             (child.Split? ==> Footprint(cr) <= Footprint(kids[i]) + gained)
    requires gained !! Footprint(AtInner(node, kids))
    modifies Cells(node)
    ensures !state.Failed?
    ensures Outcome(state, M.Absorb(t.keys, t.kids, i, spec), node, FirstLeaf(AtInner(node, kids)), s, r, succ)
    ensures fresh(more) && Footprint(s) <= Footprint(AtInner(node, kids)) + gained
    ensures state.Split? ==> Footprint(r) <= Footprint(AtInner(node, kids)) + gained + more
  {
    hide Footprint, KidsFootprint, Separated, Rep, RepFan, RepKid, FirstLeaf;
    if child.Kept? {
      ChildKept(node, t, kids, succ, i, c, spec.tree, gained);
      s := AtInner(node, Replaced(kids, i, [c]));
      return Kept, s, s, {};
    }
    ChildSplit(node, t, kids, succ, i, c, spec.left, cr, spec.right, gained);
    state, s, r, more := AbsorbRight(node, i, child.promotedKey, child.rightNode, t.keys,
                                     Replaced(kids, i, [c, cr]), Replaced(t.kids, i, [spec.left, spec.right]), succ);
  }

  lemma {:induction false} InnerParts(s: Shape, t: M.Tree, succ: Node?, lo: M.Bound, hi: M.Bound, height: nat,
      isRoot: bool)
    requires s.AtInner? && Rep(s, t, succ) && M.Valid(t, lo, hi, height, isRoot)
    ensures t.Inner? && InnerNode(s.node, t.keys, s.kids) && RepFan(s.kids, t.kids, succ) && |t.keys| <= M.MAX_KEYS
    ensures |s.kids| == |t.kids| == |t.keys| + 1 && Cells(s.node) <= Footprint(s)
    ensures forall i :: 0 <= i < |s.kids| ==> Footprint(s.kids[i]) <= Footprint(s)
  {
    RepByKind(s, t, succ);
    forall i | 0 <= i < |s.kids| ensures Footprint(s.kids[i]) <= Footprint(s) {
      KidInside(s.kids, i);
    }
  }

  method InsertIntoInternal(node: Node, key: int, value: int, ghost s: Shape, ghost t: M.Tree, ghost succ: Node?,
                            ghost lo: M.Bound, ghost hi: M.Bound, ghost height: nat, ghost isRoot: bool)
    returns (state: InsertState, ghost s': Shape, ghost r: Shape, ghost gained: set<object>)
    requires s.AtInner? && s.node == node && Rep(s, t, succ) && Separated(s)
    requires M.Valid(t, lo, hi, height, isRoot) && allocated(Footprint(s))
    modifies Footprint(s)
    ensures M.Shaped(t) && Outcome(state, M.Insert(t, key, value), node, FirstLeaf(s), s', r, succ)
    ensures state.Failed? ==> unchanged(Footprint(s))
    ensures fresh(gained)
    ensures !state.Failed? ==> Footprint(s') <= Footprint(s) + gained
    ensures state.Split? ==> Footprint(r) <= Footprint(s) + gained
    decreases t, 1
  {
    hide Footprint, KidsFootprint, Separated, Rep, RepFan, RepKid, FirstLeaf, M.Valid, Cells;
    M.ValidShaped(t, lo, hi, height, isRoot);
    InnerParts(s, t, succ, lo, hi, height, isRoot);
    var i := FindChildIndex(node, key);
    InnerParts(s, t, succ, lo, hi, height, isRoot);
    ghost var c, cr, g, g';
    var child;
    child, c, cr, g := InsertIntoChild(node, i, key, value, s.kids, t, succ, lo, hi, height, isRoot);
    if child.Failed? {
      return Failed, s, s, {};
    }
    state, s', r, g' := AfterChild(node, i, child, M.Insert(t.kids[i], key, value), s.kids, t, succ, c, cr, g);
    gained := g + g';
  }

  method InsertIntoNode(node: Node, key: int, value: int, ghost s: Shape, ghost t: M.Tree, ghost succ: Node?,
                        ghost lo: M.Bound, ghost hi: M.Bound, ghost height: nat, ghost isRoot: bool)
    returns (state: InsertState, ghost s': Shape, ghost r: Shape, ghost gained: set<object>)
    requires s.node == node && Rep(s, t, succ) && Separated(s)
    requires M.Valid(t, lo, hi, height, isRoot) && allocated(Footprint(s))
    modifies Footprint(s)
    ensures M.Shaped(t) && Outcome(state, M.Insert(t, key, value), node, FirstLeaf(s), s', r, succ)
    ensures state.Failed? ==> unchanged(Footprint(s))
    ensures fresh(gained)
    ensures !state.Failed? ==> Footprint(s') <= Footprint(s) + gained
    ensures state.Split? ==> Footprint(r) <= Footprint(s) + gained
    decreases t, 2
  {
    if node.isLeaf {
      s' := s;
      state, r := InsertIntoLeaf(node, key, value, t, succ);
      gained := if state.Split? then Footprint(r) else {};
    } else {
      state, s', r, gained := InsertIntoInternal(node, key, value, s, t, succ, lo, hi, height, isRoot);
    }
  }

  // ----- the leaf chain -----------------------------------------------------------------

  /** The leaves under a shape, from left to right. */
  ghost function Leaves(s: Shape): seq<Node>
    decreases s, 1
  {
    if s.AtLeaf? then [s.node] else LeavesOf(s.kids)
  }

  ghost function LeavesOf(kids: seq<Shape>): seq<Node>
    decreases kids, 0
  {
    if kids == [] then [] else Leaves(kids[0]) + LeavesOf(kids[1..])
  }

  /** Following `next` from `n` visits exactly `leaves`, in this order, and then reaches `succ`. */
  ghost predicate Chain(n: Node?, leaves: seq<Node>, succ: Node?)
    reads leaves
  {
    if leaves == [] then n == succ else n == leaves[0] && Chain(leaves[0].next, leaves[1..], succ)
  }

  ghost predicate Sized(n: Node)
    reads n
  {
    Layout(n) && n.keyCount <= M.MAX_KEYS + 1
  }

  /** The pairs `es` are what the leaves store, leaf after leaf. */
  ghost predicate Lists(leaves: seq<Node>, es: seq<M.Entry>)
    reads leaves, set n | n in leaves :: n.keys, set n | n in leaves :: n.values
  {
    if leaves == [] then es == [] else
      && Sized(leaves[0])
      && var own := M.Entries(M.Leaf(leaves[0].keys[..leaves[0].keyCount], leaves[0].values[..leaves[0].keyCount]));
      && own <= es && Lists(leaves[1..], es[|own|..])
  }

  lemma {:induction false} ChainConcat(n: Node?, a: seq<Node>, m: Node?, b: seq<Node>, succ: Node?)
    requires Chain(n, a, m) && Chain(m, b, succ)
    ensures Chain(n, a + b, succ)
  {
    if a == [] {
      assert a + b == b;
    } else {
      ChainConcat(a[0].next, a[1..], m, b, succ);
      assert (a + b)[1..] == a[1..] + b;
    }
  }

  lemma {:induction false} ListsConcat(a: seq<Node>, es: seq<M.Entry>, b: seq<Node>, fs: seq<M.Entry>)
    requires Lists(a, es) && Lists(b, fs)
    ensures Lists(a + b, es + fs)
  {
    hide M.Entries;
    if a == [] {
      assert a + b == b && es + fs == fs;
    } else {
      var own := M.Entries(M.Leaf(a[0].keys[..a[0].keyCount], a[0].values[..a[0].keyCount]));
      ListsConcat(a[1..], es[|own|..], b, fs);
      assert (a + b)[1..] == a[1..] + b;
      assert (es + fs)[|own|..] == es[|own|..] + fs;
    }
  }

  /** The chain through a subtree is its in-order walk: it starts at the first leaf, visits every
      leaf, lists exactly the entries of the tree and leads on to `succ`. */
  lemma {:induction false} ChainIsWalk(s: Shape, t: M.Tree, succ: Node?)
    requires Rep(s, t, succ) && M.Shaped(t)
    ensures Chain(FirstLeaf(s), Leaves(s), succ) && Lists(Leaves(s), M.Entries(t))
    decreases s, 1, 0
  {
    RepByKind(s, t, succ);
    if s.AtInner? {
      FanChainIsWalk(s.kids, t.kids, succ, 0);
      assert s.kids[0..] == s.kids && t.kids[0..] == t.kids;
    } else {
      assert [s.node][1..] == [];
    }
  }

  lemma {:induction false} FanChainIsWalk(kids: seq<Shape>, trees: seq<M.Tree>, succ: Node?, i: nat)
    requires RepFan(kids, trees, succ) && i < |kids| && forall t <- trees :: M.Shaped(t)
    ensures Chain(FirstLeaf(kids[i]), LeavesOf(kids[i..]), succ) && Lists(LeavesOf(kids[i..]), M.EntriesOf(trees[i..]))
    decreases kids, 0, |kids| - i
  {
    assert RepKid(kids, trees, succ, i);
    ChainIsWalk(kids[i], trees[i], After(kids, i, succ));
    var rest, restTrees := kids[i..], trees[i..];
    assert rest[1..] == kids[i + 1..] && restTrees[1..] == trees[i + 1..];
    if i + 1 < |kids| {
      FanChainIsWalk(kids, trees, succ, i + 1);
    }
    ChainConcat(FirstLeaf(kids[i]), Leaves(kids[i]), After(kids, i, succ), LeavesOf(rest[1..]), succ);
    ListsConcat(Leaves(kids[i]), M.Entries(trees[i]), LeavesOf(rest[1..]), M.EntriesOf(restTrees[1..]));
  }

  lemma {:induction false} LeavesInside(s: Shape)
    ensures forall n <- Leaves(s) :: n in Footprint(s)
    decreases s, 1
  {
    if s.AtInner? { LeavesOfInside(s.kids); }
  }

  lemma {:induction false} LeavesOfInside(kids: seq<Shape>)
    ensures forall n <- LeavesOf(kids) :: n in KidsFootprint(kids)
    decreases kids, 0
  {
    if kids != [] {
      LeavesInside(kids[0]);
      LeavesOfInside(kids[1..]);
      assert forall k <- kids[1..] :: k in kids;
      KidInside(kids, 0);
    }
  }

  ghost predicate NoRepeats(leaves: seq<Node>) {
    forall i, j :: 0 <= i < j < |leaves| ==> leaves[i] != leaves[j]
  }

  lemma NoRepeatsConcat(a: seq<Node>, b: seq<Node>)
    requires NoRepeats(a) && NoRepeats(b) && forall n <- a :: n !in b
    ensures NoRepeats(a + b)
  {
    forall i, j | 0 <= i < j < |a + b| ensures (a + b)[i] != (a + b)[j] {
      if i < |a| <= j {
        assert a[i] in a && b[j - |a|] in b;
      }
    }
  }

  /** No leaf is visited twice. */
  lemma {:induction false} LeavesDistinct(s: Shape)
    requires Separated(s)
    ensures NoRepeats(Leaves(s))
    decreases s, 1
  {
    if s.AtInner? { LeavesOfDistinct(s.kids); }
  }

  lemma {:induction false} LeavesOfDistinct(kids: seq<Shape>)
    requires Apart(kids) && forall k <- kids :: Separated(k)
    ensures NoRepeats(LeavesOf(kids))
    decreases kids, 0
  {
    if kids != [] {
      LeavesDistinct(kids[0]);
      assert forall k <- kids[1..] :: k in kids;
      LeavesOfDistinct(kids[1..]);
      LeavesInside(kids[0]);
      LeavesOfInside(kids[1..]);
      assert Footprint(kids[0]) !! KidsFootprint(kids[1..]);
      NoRepeatsConcat(Leaves(kids[0]), LeavesOf(kids[1..]));
    }
  }

  // ----- search ----------------------------------------------------------------------

  method SearchLeaf(node: Node, key: int, ghost vals: seq<int>) returns (result: Option<int>)
    requires Layout(node) && node.keyCount <= M.MAX_KEYS + 1 && node.values[..node.keyCount] == vals
    ensures result == M.Lookup(node.keys[..node.keyCount], vals, key)
  {
    ghost var keys := node.keys[..node.keyCount];
    var index := 0;
    while index < node.keyCount
      invariant 0 <= index <= node.keyCount
      invariant M.Lookup(keys[index..], vals[index..], key) == M.Lookup(keys, vals, key)
    {
      if node.keys[index] == key {
        return Some(node.values[index]);
      }
      assert keys[index..][1..] == keys[index + 1..] && vals[index..][1..] == vals[index + 1..];
      index := index + 1;
    }
    return None;
  }

  /** Follows child pointers from `start` to a leaf and looks there. */
  method SearchFrom(start: Node, key: int, ghost shape: Shape, ghost tree: M.Tree) returns (result: Option<int>)
    requires shape.node == start && Rep(shape, tree, null) && M.Shaped(tree) && allocated(Footprint(shape))
    ensures result == M.Find(tree, key)
  {
    var node := start;
    ghost var s, t, succ: Node? := shape, tree, null;
    while !node.isLeaf
      invariant s.node == node && Rep(s, t, succ) && M.Shaped(t) && Footprint(s) <= Footprint(shape)
      invariant M.Find(t, key) == M.Find(tree, key)
      decreases s
    {
      var i := FindChildIndex(node, key);
      RepByKind(s, t, succ);
      assert RepKid(s.kids, t.kids, succ, i);
      KidInside(s.kids, i);
      node, s, t, succ := node.children[i], s.kids[i], t.kids[i], After(s.kids, i, succ);
    }
    RepByKind(s, t, succ);
    result := SearchLeaf(node, key, t.vals);
  }

  // ----- the tree ------------------------------------------------------------------

  datatype View = View(shape: Shape, tree: M.Tree, height: nat)

  lemma {:induction false} PairFootprint(s: Shape, r: Shape)
    ensures KidsFootprint([s, r]) == Footprint(s) + Footprint(r)
  {
    hide Footprint;
    KidInside([s, r], 0);
    KidInside([s, r], 1);
  }

  lemma {:induction false} NewRoot(newRoot: Node, root: Node, promotedKey: int, rightNode: Node, s: Shape, r: Shape,
      spec: M.Insertion)
    requires Outcome(Split(promotedKey, rightNode), spec, root, FirstLeaf(s), s, r, null)
    requires InnerNode(newRoot, [promotedKey], [s, r]) && Cells(newRoot) !! Footprint(s) + Footprint(r)
    ensures var shape := AtInner(newRoot, [s, r]);
            && Rep(shape, M.Grown(spec), null) && Separated(shape)
            && Footprint(shape) == Cells(newRoot) + Footprint(s) + Footprint(r)
  {
    RepPair(s, r, spec.left, spec.right, null);
    PairFootprint(s, r);
    PairRep(newRoot, promotedKey, s, r, spec.left, spec.right);
    PairSeparated(newRoot, s, r);
  }

  lemma PairRep(n: Node, key: int, s: Shape, r: Shape, left: M.Tree, right: M.Tree)
    requires InnerNode(n, [key], [s, r]) && RepFan([s, r], [left, right], null)
    ensures Rep(AtInner(n, [s, r]), M.Inner([key], [left, right]), null)
  {
    hide RepFan, InnerNode;
  }

  lemma PairSeparated(n: Node, s: Shape, r: Shape)
    requires Separated(s) && Separated(r) && Footprint(s) !! Footprint(r) && Cells(n) !! Footprint(s) + Footprint(r)
    ensures Separated(AtInner(n, [s, r])) && Footprint(AtInner(n, [s, r])) == Cells(n) + Footprint(s) + Footprint(r)
  {
    hide KidsFootprint;
    PairFootprint(s, r);
    PairApart(s, r);
    InnerSeparated(n, [s, r]);
  }

  lemma PairApart(s: Shape, r: Shape)
    requires Footprint(s) !! Footprint(r)
    ensures Apart([s, r])
  {
    hide Footprint;
  }

  lemma InnerSeparated(n: Node, kids: seq<Shape>)
    requires Cells(n) !! KidsFootprint(kids) && Apart(kids) && forall k <- kids :: Separated(k)
    ensures Separated(AtInner(n, kids))
  {
    hide Footprint, KidsFootprint, Apart, Cells;
  }

  class BPlusTree {
    var root: Node?
    ghost var view: Option<View>
    ghost var Repr: set<object>

    ghost predicate Valid()
      reads this, Repr
      ensures Valid() ==> this in Repr
    {
      this in Repr &&
      if root == null then view.None? else
        && view.Some? && view.value.shape.node == root
        && Separated(view.value.shape) && Footprint(view.value.shape) <= Repr - {this}
        && Rep(view.value.shape, view.value.tree, null)
        && M.ValidRoot(view.value.tree, view.value.height)
        && M.Shaped(view.value.tree)
    }

    /** The pairs in the order of the in-order walk. */
    ghost function Entries(): seq<M.Entry>
      requires Valid()
      reads this, Repr
    {
      if view.None? then [] else M.Entries(view.value.tree)
    }

    ghost function Contents(): map<int, int>
      requires Valid()
      reads this, Repr
    {
      M.MapOf(Entries())
    }

    constructor ()
      ensures Valid() && Repr == {this} && Contents() == map[]
    {
      root, view, Repr := null, None, {this};
    }

    /** Drops every node. */
    method Free()
      modifies this
      ensures Valid() && Repr == {this} && Contents() == map[]
    {
      root, view, Repr := null, None, {this};
    }

    method InsertFirst(key: int, value: int)
      requires Valid() && root == null
      modifies this
      ensures Valid() && fresh(Repr - old(Repr))
      ensures Contents() == map[key := value]
    {
      var node := new Node(true);
      node.keys[0] := key;
      node.values[0] := value;
      node.keyCount := 1;
      root, view := node, Some(View(AtLeaf(node), M.Leaf([key], [value]), 0));
      Repr := Repr + Cells(node);
      assert node.keys[..1] == [key] && node.values[..1] == [value];
      assert Entries() == [(key, value)];
      assert M.MapOf([(key, value)]) == map[key := value];
    }

    /** Puts a new root above the halves of the old one. */
    method GrowRoot(promotedKey: int, rightNode: Node, ghost s: Shape, ghost r: Shape, ghost spec: M.Insertion,
        ghost height: nat)
      requires root != null && Outcome(Split(promotedKey, rightNode), spec, root, FirstLeaf(s), s, r, null)
      requires M.ValidRoot(M.Grown(spec), height) && M.Shaped(M.Grown(spec))
      requires this in Repr && Footprint(s) + Footprint(r) <= Repr - {this}
      modifies this
      ensures Valid() && view.Some? && view.value.tree == M.Grown(spec)
      ensures fresh(Repr - old(Repr))
    {
      hide Footprint, Separated, Rep, FirstLeaf, M.Valid, M.Shaped;
      var newRoot := new Node(false);
      newRoot.keys[0] := promotedKey;
      newRoot.children[0] := root;
      newRoot.children[1] := rightNode;
      newRoot.keyCount := 1;
      assert InnerNode(newRoot, [promotedKey], [s, r]) by {
        assert newRoot.keys[..1] == [promotedKey];
      }
      NewRoot(newRoot, root, promotedKey, rightNode, s, r, spec);
      root, view := newRoot, Some(View(AtInner(newRoot, [s, r]), M.Grown(spec), height));
      Repr := Repr + Cells(newRoot);
    }

    /** Stores `key`, unless it is already there; then nothing changes. */
    method Insert(key: int, value: int) returns (ok: bool)
      requires Valid()
      modifies Repr
      ensures Valid() && fresh(Repr - old(Repr))
      ensures ok <==> key !in old(Contents())
      ensures ok ==> Contents() == old(Contents())[key := value]
      ensures !ok ==> unchanged(old(Repr))
    {
      hide Footprint, Separated, Rep, FirstLeaf, M.Valid, M.Shaped, M.Insert, M.Entries;
      if root == null {
        InsertFirst(key, value);
        return true;
      }
      ghost var View(shape, tree, height) := view.value;
      M.InsertAtRoot(tree, height, key, value);
      ghost var spec := M.Insert(tree, key, value);
      var state;
      ghost var s, r, gained;
      state, s, r, gained := InsertIntoNode(root, key, value, shape, tree, null, M.Unbounded, M.Unbounded, height,
          true);
      if state.Failed? {
        return false;
      }
      Repr := Repr + gained;
      if state.Kept? {
        view := Some(View(s, spec.tree, height));
        return true;
      }
      GrowRoot(state.promotedKey, state.rightNode, s, r, spec, height + 1);
      return true;
    }

    /** Following `next` from the leftmost leaf visits every leaf once and lists the pairs of
        the tree in strictly ascending key order. */
    lemma LeafChain()
      requires Valid() && root != null
      ensures var leaves := Leaves(view.value.shape);
              && Chain(FirstLeaf(view.value.shape), leaves, null) && NoRepeats(leaves)
              && Lists(leaves, Entries()) && M.AscendingKeys(Entries())
    {
      ChainIsWalk(view.value.shape, view.value.tree, null);
      LeavesDistinct(view.value.shape);
      M.EntriesBounds(view.value.tree, M.Unbounded, M.Unbounded, view.value.height, true);
    }

    /** A tree with `h` internal levels holds at least 2^(h+1) pairs. */
    lemma Balanced()
      requires Valid() && root != null && view.value.height > 0
      ensures |Entries()| >= M.Pow2(view.value.height + 1)
    {
      M.ManyEntries(view.value.tree, M.Unbounded, M.Unbounded, view.value.height, true);
    }

    /** Finds what is stored under `key`. */
    method Search(key: int) returns (result: Option<int>)
      requires Valid()
      ensures result == if key in Contents() then Some(Contents()[key]) else None
    {
      if root == null {
        return None;
      }
      M.FindIsLookup(view.value.tree, M.Unbounded, M.Unbounded, view.value.height, true, key);
      result := SearchFrom(root, key, view.value.shape, view.value.tree);
    }
  }
}
