/** The B+ tree of `index/bptree.c` as a value: what its shape means and what one
    insertion does to it.  The in-place version in `BPlusTree` is proved to do
    exactly what `Insert` below says. */
module BPlusTreeModel {
  import opened Basics

  const MAX_KEYS: nat := 3

  datatype Tree =
    | Leaf(keys: seq<int>, vals: seq<int>)
    | Inner(keys: seq<int>, kids: seq<Tree>)

  // ----- what a tree stores -------------------------------------------------

  type Entry = (int, int)

  /** The in-order walk of a tree. */
  ghost function Entries(t: Tree): seq<Entry>
    requires Shaped(t)
    decreases t, 1
  {
    match t
    case Leaf(keys, vals) => seq(|keys|, i requires 0 <= i < |keys| => (keys[i], vals[i]))
    case Inner(_, kids) => EntriesOf(kids)
  }

  ghost function EntriesOf(kids: seq<Tree>): seq<Entry>
    requires forall k <- kids :: Shaped(k)
    decreases kids, 0
  {
    if kids == [] then [] else Entries(kids[0]) + EntriesOf(kids[1..])
  }

  predicate Shaped(t: Tree)
    decreases t
  {
    match t
    case Leaf(keys, vals) => |keys| == |vals|
    case Inner(keys, kids) => |kids| == |keys| + 1 && forall k <- kids :: Shaped(k)
  }

  ghost predicate Ascending(s: seq<int>) {
    forall i, j :: 0 <= i < j < |s| ==> s[i] < s[j]
  }

  ghost predicate AscendingKeys(es: seq<Entry>) {
    forall i, j :: 0 <= i < j < |es| ==> es[i].0 < es[j].0
  }

  /** The finite map an entry list denotes. */
  ghost function MapOf(es: seq<Entry>): map<int, int> {
    if es == [] then map[] else MapOf(es[1..])[es[0].0 := es[0].1]
  }

  /** `after` is `before` with one more entry somewhere. */
  ghost predicate GainsEntry(before: seq<Entry>, e: Entry, after: seq<Entry>) {
    exists p :: 0 <= p <= |before| && after == Spliced(before, p, e)
  }

  // ----- when a tree is a B+ tree -------------------------------------------

  datatype Bound = Unbounded | At(key: int)

  ghost predicate AtLeast(lo: Bound, k: int) { lo.At? ==> lo.key <= k }
  ghost predicate Above(lo: Bound, k: int) { lo.At? ==> lo.key < k }
  ghost predicate Below(k: int, hi: Bound) { hi.At? ==> k < hi.key }

  ghost function KidLo(keys: seq<int>, lo: Bound, i: nat): Bound
    requires i <= |keys|
  {
    if i == 0 then lo else At(keys[i - 1])
  }

  ghost function KidHi(keys: seq<int>, hi: Bound, i: nat): Bound
    requires i <= |keys|
  {
    if i == |keys| then hi else At(keys[i])
  }

  /** Every key lies in [lo, hi), separators bound their subtrees, all leaves are
      `height` levels down, and every node except a root leaf is at least half full. */
  ghost predicate Valid(t: Tree, lo: Bound, hi: Bound, height: nat, isRoot: bool)
    decreases t, 2
  {
    1 <= |t.keys| <= MAX_KEYS &&
    match t
    case Leaf(keys, vals) =>
      && height == 0
      && |keys| == |vals| && Ascending(keys)
      && (!isRoot ==> 2 <= |keys|)
      && (forall i :: 0 <= i < |keys| ==> AtLeast(lo, keys[i]) && Below(keys[i], hi))
    case Inner(keys, kids) =>
      && height > 0
      && ValidFan(keys, kids, lo, hi, height - 1)
  }

  /** Separators and children of an internal node, whatever its width. */
  ghost predicate ValidFan(keys: seq<int>, kids: seq<Tree>, lo: Bound, hi: Bound, height: nat)
    decreases kids, 1
  {
    && |kids| == |keys| + 1 && Ascending(keys)
    && (forall i :: 0 <= i < |keys| ==> Above(lo, keys[i]) && Below(keys[i], hi))
    && (forall i :: 0 <= i < |kids| ==> KidValid(keys, kids, lo, hi, height, i))
  }

  ghost predicate KidValid(keys: seq<int>, kids: seq<Tree>, lo: Bound, hi: Bound, height: nat, i: nat)
    requires i < |kids| == |keys| + 1
    decreases kids, 0
  {
    Valid(kids[i], KidLo(keys, lo, i), KidHi(keys, hi, i), height, false)
  }

  /** A B+ tree reached from the empty tree, with `height` levels above its leaves. */
  ghost predicate ValidRoot(t: Tree, height: nat) {
    Valid(t, Unbounded, Unbounded, height, true)
  }

  lemma KidOf(t: Tree, lo: Bound, hi: Bound, height: nat, isRoot: bool, i: nat)
    requires Valid(t, lo, hi, height, isRoot) && t.Inner? && i < |t.kids|
    ensures height > 0 && |t.kids| == |t.keys| + 1
    ensures Valid(t.kids[i], KidLo(t.keys, lo, i), KidHi(t.keys, hi, i), height - 1, false)
  {
    assert KidValid(t.keys, t.kids, lo, hi, height - 1, i);
  }

  lemma {:induction false} ValidShaped(t: Tree, lo: Bound, hi: Bound, height: nat, isRoot: bool)
    requires Valid(t, lo, hi, height, isRoot)
    ensures Shaped(t)
    decreases t
  {
    if t.Inner? {
      forall k | k in t.kids ensures Shaped(k) {
        var i :| 0 <= i < |t.kids| && t.kids[i] == k;
        KidOf(t, lo, hi, height, isRoot, i);
        ValidShaped(t.kids[i], KidLo(t.keys, lo, i), KidHi(t.keys, hi, i), height - 1, false);
      }
    }
  }

  // ----- insertion and search -----------------------------------------------

  /** Which child of an internal node covers `key`. */
  function ChildIndex(keys: seq<int>, key: int): (i: nat)
    ensures i <= |keys|
    ensures forall j :: 0 <= j < i ==> keys[j] <= key
    ensures i < |keys| ==> key < keys[i]
  {
    if keys == [] || key < keys[0] then 0 else 1 + ChildIndex(keys[1..], key)
  }

  /** Where `key` belongs in a leaf. */
  function LowerBound(keys: seq<int>, key: int): (i: nat)
    ensures i <= |keys|
    ensures forall j :: 0 <= j < i ==> keys[j] < key
    ensures i < |keys| ==> key <= keys[i]
  {
    if keys == [] || key <= keys[0] then 0 else 1 + LowerBound(keys[1..], key)
  }

  datatype Insertion =
    | Duplicate
    | Whole(tree: Tree)
    | Halves(left: Tree, separator: int, right: Tree)

  function LeafOrHalves(keys: seq<int>, vals: seq<int>): Insertion
    requires |keys| == |vals|
  {
    if |keys| <= MAX_KEYS then Whole(Leaf(keys, vals)) else
    var m := |keys| / 2;
    Halves(Leaf(keys[..m], vals[..m]), keys[m], Leaf(keys[m..], vals[m..]))
  }

  function InnerOrHalves(keys: seq<int>, kids: seq<Tree>): Insertion
    requires |kids| == |keys| + 1
  {
    if |keys| <= MAX_KEYS then Whole(Inner(keys, kids)) else
    var m := |keys| / 2;
    Halves(Inner(keys[..m], kids[..m + 1]), keys[m], Inner(keys[m + 1..], kids[m + 1..]))
  }

  /** What an internal node does with the outcome of inserting into child `i`. */
  function Absorb(keys: seq<int>, kids: seq<Tree>, i: nat, child: Insertion): Insertion
    requires |kids| == |keys| + 1 && i < |kids|
  {
    match child
    case Duplicate => Duplicate
    case Whole(c) => Whole(Inner(keys, kids[i := c]))
    case Halves(l, separator, r) =>
      InnerOrHalves(Spliced(keys, i, separator), kids[..i] + [l, r] + kids[i + 1..])
  }

  function Insert(t: Tree, key: int, val: int): Insertion
    requires Shaped(t)
    decreases t
  {
    match t
    case Leaf(keys, vals) =>
      var i := LowerBound(keys, key);
      if i < |keys| && keys[i] == key then Duplicate
      else LeafOrHalves(Spliced(keys, i, key), Spliced(vals, i, val))
    case Inner(keys, kids) =>
      var i := ChildIndex(keys, key);
      Absorb(keys, kids, i, Insert(kids[i], key, val))
  }

  /** The tree after a root-level insertion; a split grows a new root. */
  function Grown(r: Insertion): Tree
    requires !r.Duplicate?
  {
    match r
    case Whole(t) => t
    case Halves(l, separator, rt) => Inner([separator], [l, rt])
  }

  /** The value stored with the first occurrence of `key` in a leaf. */
  function Lookup(keys: seq<int>, vals: seq<int>, key: int): Option<int>
    requires |keys| == |vals|
  {
    if keys == [] then None
    else if keys[0] == key then Some(vals[0])
    else Lookup(keys[1..], vals[1..], key)
  }

  function Find(t: Tree, key: int): Option<int>
    requires Shaped(t)
    decreases t
  {
    match t
    case Leaf(keys, vals) => Lookup(keys, vals, key)
    case Inner(keys, kids) => Find(kids[ChildIndex(keys, key)], key)
  }

  // ----- entries of a list of subtrees --------------------------------------

  lemma {:induction false} EntriesOfConcat(a: seq<Tree>, b: seq<Tree>)
    requires forall k <- a + b :: Shaped(k)
    ensures (forall k <- a :: Shaped(k)) && (forall k <- b :: Shaped(k))
    ensures EntriesOf(a + b) == EntriesOf(a) + EntriesOf(b)
  {
    assert forall k <- a :: k in a + b;
    assert forall k <- b :: k in a + b;
    if a == [] {
      assert a + b == b;
    } else {
      assert (a + b)[1..] == a[1..] + b;
      EntriesOfConcat(a[1..], b);
    }
  }

  lemma PairEntries(l: Tree, r: Tree)
    requires Shaped(l) && Shaped(r)
    ensures EntriesOf([l, r]) == Entries(l) + Entries(r)
  {
    assert [l, r][1..] == [r];
    assert EntriesOf([r]) == Entries(r) + EntriesOf([]);
  }

  /** The entries around child `i`. */
  lemma {:induction false} EntriesAround(kids: seq<Tree>, i: nat)
    requires i < |kids| && forall k <- kids :: Shaped(k)
    ensures EntriesOf(kids) == EntriesOf(kids[..i]) + Entries(kids[i]) + EntriesOf(kids[i + 1..])
  {
    assert kids == kids[..i] + kids[i..];
    EntriesOfConcat(kids[..i], kids[i..]);
    assert kids[i..][1..] == kids[i + 1..];
  }

  lemma {:induction false} EntriesBounds(t: Tree, lo: Bound, hi: Bound, height: nat, isRoot: bool)
    requires Valid(t, lo, hi, height, isRoot)
    ensures Shaped(t) && AscendingKeys(Entries(t))
    ensures forall e <- Entries(t) :: AtLeast(lo, e.0) && Below(e.0, hi)
    decreases t, |t.keys| + 1
  {
    ValidShaped(t, lo, hi, height, isRoot);
    if t.Inner? {
      KidsEntriesBounds(t, lo, hi, height, isRoot, 0);
      assert t.kids[0..] == t.kids;
    }
  }

  /** The same for the children from position `i` on. */
  lemma {:induction false} KidsEntriesBounds(t: Tree, lo: Bound, hi: Bound, height: nat, isRoot: bool, i: nat)
    requires Valid(t, lo, hi, height, isRoot) && t.Inner? && Shaped(t) && i <= |t.keys|
    ensures AscendingKeys(EntriesOf(t.kids[i..]))
    ensures forall e <- EntriesOf(t.kids[i..]) :: AtLeast(KidLo(t.keys, lo, i), e.0) && Below(e.0, hi)
    decreases t, |t.keys| - i
  {
    KidOf(t, lo, hi, height, isRoot, i);
    EntriesBounds(t.kids[i], KidLo(t.keys, lo, i), KidHi(t.keys, hi, i), height - 1, false);
    var rest := t.kids[i..];
    assert rest[1..] == t.kids[i + 1..];
    if i < |t.keys| {
      KidsEntriesBounds(t, lo, hi, height, isRoot, i + 1);
      assert i > 0 ==> t.keys[i - 1] < t.keys[i];
    } else {
      assert EntriesOf(rest[1..]) == [];
    }
  }

  // ----- one insertion keeps the tree valid and adds exactly one entry --------

  ghost predicate HasKey(es: seq<Entry>, key: int) {
    exists i :: 0 <= i < |es| && es[i].0 == key
  }

  /** What inserting `e` into a subtree covering [lo, hi) must have produced. */
  ghost predicate Inserted(t: Tree, lo: Bound, hi: Bound, height: nat, isRoot: bool, e: Entry, r: Insertion)
    requires Shaped(t)
  {
    match r
    case Duplicate => HasKey(Entries(t), e.0)
    case Whole(t') =>
      && Valid(t', lo, hi, height, isRoot) && Shaped(t')
      && GainsEntry(Entries(t), e, Entries(t'))
    case Halves(l, s, rt) =>
      && Above(lo, s) && Below(s, hi)
      && Valid(l, lo, At(s), height, false) && Shaped(l)
      && Valid(rt, At(s), hi, height, false) && Shaped(rt)
      && GainsEntry(Entries(t), e, Entries(l) + Entries(rt))
  }

  lemma SplicedAscending(keys: seq<int>, i: nat, k: int)
    requires Ascending(keys) && i <= |keys|
    requires (i > 0 ==> keys[i - 1] < k) && (i < |keys| ==> k < keys[i])
    ensures Ascending(Spliced(keys, i, k))
  {
  }

  lemma {:induction false} LeafHalves(keys: seq<int>, vals: seq<int>, lo: Bound, hi: Bound)
    requires |keys| == |vals| == MAX_KEYS + 1 && Ascending(keys)
    requires forall i :: 0 <= i < |keys| ==> AtLeast(lo, keys[i]) && Below(keys[i], hi)
    ensures var r := LeafOrHalves(keys, vals);
            && r.Halves? && Above(lo, r.separator) && Below(r.separator, hi)
            && Valid(r.left, lo, At(r.separator), 0, false)
            && Valid(r.right, At(r.separator), hi, 0, false)
            && Entries(r.left) + Entries(r.right) == Entries(Leaf(keys, vals))
  {
    assert keys[0] < keys[1] < keys[2] < keys[3];
  }

  lemma {:induction false} LeafGains(t: Tree, i: nat, e: Entry)
    requires t.Leaf? && Shaped(t) && i <= |t.keys|
    ensures GainsEntry(Entries(t), e, Entries(Leaf(Spliced(t.keys, i, e.0), Spliced(t.vals, i, e.1))))
  {
    var t' := Leaf(Spliced(t.keys, i, e.0), Spliced(t.vals, i, e.1));
    var after := Spliced(Entries(t), i, e);
    forall j | 0 <= j < |after| ensures Entries(t')[j] == after[j] {
      assert after[j] == if j < i then Entries(t)[j] else if j == i then e else Entries(t)[j - 1];
    }
    assert Entries(t') == after;
  }

  lemma {:induction false} LeafInserted(t: Tree, lo: Bound, hi: Bound, isRoot: bool, e: Entry)
    requires Valid(t, lo, hi, 0, isRoot) && Shaped(t)
    requires AtLeast(lo, e.0) && Below(e.0, hi)
    ensures Inserted(t, lo, hi, 0, isRoot, e, Insert(t, e.0, e.1))
  {
    var i := LowerBound(t.keys, e.0);
    if i < |t.keys| && t.keys[i] == e.0 {
      assert Entries(t)[i].0 == e.0;
    } else {
      var keys, vals := Spliced(t.keys, i, e.0), Spliced(t.vals, i, e.1);
      SplicedAscending(t.keys, i, e.0);
      LeafGains(t, i, e);
      forall j | 0 <= j < |keys| ensures AtLeast(lo, keys[j]) && Below(keys[j], hi) {
        assert j != i ==> keys[j] == t.keys[if j < i then j else j - 1];
      }
      if |keys| > MAX_KEYS {
        LeafHalves(keys, vals, lo, hi);
      }
    }
  }

  lemma {:induction false} FanShaped(keys: seq<int>, kids: seq<Tree>, lo: Bound, hi: Bound, height: nat)
    requires ValidFan(keys, kids, lo, hi, height)
    ensures forall k <- kids :: Shaped(k)
  {
    forall k | k in kids ensures Shaped(k) {
      var i :| 0 <= i < |kids| && kids[i] == k;
      assert KidValid(keys, kids, lo, hi, height, i);
      ValidShaped(k, KidLo(keys, lo, i), KidHi(keys, hi, i), height, false);
    }
  }

  /** Splitting an overfull internal node around its middle key loses nothing. */
  lemma {:induction false} FanHalves(keys: seq<int>, kids: seq<Tree>, lo: Bound, hi: Bound, height: nat)
    requires ValidFan(keys, kids, lo, hi, height) && |keys| == MAX_KEYS + 1
    requires forall k <- kids :: Shaped(k)
    ensures var r := InnerOrHalves(keys, kids);
            && r.Halves? && Above(lo, r.separator) && Below(r.separator, hi)
            && Valid(r.left, lo, At(r.separator), height + 1, false) && Shaped(r.left)
            && Valid(r.right, At(r.separator), hi, height + 1, false) && Shaped(r.right)
            && Entries(r.left) + Entries(r.right) == EntriesOf(kids)
  {
    var r := InnerOrHalves(keys, kids);
    assert kids == kids[..3] + kids[3..];
    EntriesOfConcat(kids[..3], kids[3..]);
    forall i | 0 <= i < 3 ensures KidValid(r.left.keys, r.left.kids, lo, At(r.separator), height, i) {
      assert KidValid(keys, kids, lo, hi, height, i);
    }
    forall i | 0 <= i < 2 ensures KidValid(r.right.keys, r.right.kids, At(r.separator), hi, height, i) {
      assert KidValid(keys, kids, lo, hi, height, i + 3);
    }
  }

  lemma FanKeys(keys: seq<int>, lo: Bound, hi: Bound, i: nat, s: int)
    requires i <= |keys| && Ascending(keys) && forall j :: 0 <= j < |keys| ==> Above(lo, keys[j]) && Below(keys[j], hi)
    requires Above(KidLo(keys, lo, i), s) && Below(s, KidHi(keys, hi, i))
    ensures Ascending(Spliced(keys, i, s))
    ensures forall j :: 0 <= j <= |keys| ==> Above(lo, Spliced(keys, i, s)[j]) && Below(Spliced(keys, i, s)[j], hi)
  {
    SplicedAscending(keys, i, s);
    assert i > 0 ==> Above(lo, keys[i - 1]);
    assert i < |keys| ==> Below(keys[i], hi);
  }

  lemma {:induction false} FanWithHalves(keys: seq<int>, kids: seq<Tree>, lo: Bound, hi: Bound, height: nat, i: nat,
      l: Tree, s: int, r: Tree)
    requires ValidFan(keys, kids, lo, hi, height) && i < |kids|
    requires Valid(l, KidLo(keys, lo, i), At(s), height, false)
    requires Valid(r, At(s), KidHi(keys, hi, i), height, false)
    requires Above(KidLo(keys, lo, i), s) && Below(s, KidHi(keys, hi, i))
    ensures ValidFan(Spliced(keys, i, s), kids[..i] + [l, r] + kids[i + 1..], lo, hi, height)
  {
    hide Valid;
    var keys' := Spliced(keys, i, s);
    var kids' := kids[..i] + [l, r] + kids[i + 1..];
    FanKeys(keys, lo, hi, i, s);
    forall j | 0 <= j < |kids'| ensures KidValid(keys', kids', lo, hi, height, j) {
      if j < i {
        assert KidValid(keys, kids, lo, hi, height, j);
      } else if j > i + 1 {
        assert KidValid(keys, kids, lo, hi, height, j - 1);
      }
    }
  }

  lemma {:induction false} GainsAround(pre: seq<Entry>, mid: seq<Entry>, mid': seq<Entry>, post: seq<Entry>, e: Entry)
    requires GainsEntry(mid, e, mid')
    ensures GainsEntry(pre + mid + post, e, pre + mid' + post)
  {
    var p :| 0 <= p <= |mid| && mid' == Spliced(mid, p, e);
    assert pre + mid' + post == Spliced(pre + mid + post, |pre| + p, e);
  }

  lemma {:induction false} HasKeyAround(pre: seq<Entry>, mid: seq<Entry>, post: seq<Entry>, key: int)
    requires HasKey(mid, key)
    ensures HasKey(pre + mid + post, key)
  {
    var i :| 0 <= i < |mid| && mid[i].0 == key;
    assert (pre + mid + post)[|pre| + i].0 == key;
  }

  lemma {:induction false} AbsorbWhole(t: Tree, lo: Bound, hi: Bound, height: nat, isRoot: bool, e: Entry, i: nat,
      c: Tree)
    requires Valid(t, lo, hi, height, isRoot) && t.Inner? && Shaped(t) && i < |t.kids|
    requires Inserted(t.kids[i], KidLo(t.keys, lo, i), KidHi(t.keys, hi, i), height - 1, false, e, Whole(c))
    ensures Inserted(t, lo, hi, height, isRoot, e, Whole(Inner(t.keys, t.kids[i := c])))
  {
    hide GainsEntry, EntriesOf;
    var kids', h := t.kids[i := c], height - 1;
    FanWithKid(t.keys, t.kids, lo, hi, h, i, c);
    FanShaped(t.keys, kids', lo, hi, h);
    KidGains(t.kids, i, c, e);
  }

  lemma {:induction false} FanWithKid(keys: seq<int>, kids: seq<Tree>, lo: Bound, hi: Bound, height: nat, i: nat,
      c: Tree)
    requires ValidFan(keys, kids, lo, hi, height) && i < |kids|
    requires Valid(c, KidLo(keys, lo, i), KidHi(keys, hi, i), height, false)
    ensures ValidFan(keys, kids[i := c], lo, hi, height)
  {
    hide Valid, KidLo, KidHi;
    var kids' := kids[i := c];
    forall j | 0 <= j < |kids'| ensures KidValid(keys, kids', lo, hi, height, j) {
      assert KidValid(keys, kids, lo, hi, height, j);
    }
  }

  /** If one child gains an entry, so do all together. */
  lemma {:induction false} KidGains(kids: seq<Tree>, i: nat, c: Tree, e: Entry)
    requires (forall k <- kids :: Shaped(k)) && Shaped(c) && i < |kids|
    requires GainsEntry(Entries(kids[i]), e, Entries(c))
    ensures (forall k <- kids[i := c] :: Shaped(k)) && GainsEntry(EntriesOf(kids), e, EntriesOf(kids[i := c]))
  {
    hide GainsEntry, Entries, EntriesOf, Shaped;
    var kids' := kids[i := c];
    assert forall k <- kids' :: k == c || k in kids;
    EntriesAround(kids, i);
    EntriesAround(kids', i);
    assert kids'[..i] == kids[..i] && kids'[i + 1..] == kids[i + 1..];
    GainsAround(EntriesOf(kids[..i]), Entries(kids[i]), Entries(c), EntriesOf(kids[i + 1..]), e);
  }

  lemma {:induction false} AbsorbHalves(t: Tree, lo: Bound, hi: Bound, height: nat, isRoot: bool, e: Entry, i: nat,
      child: Insertion)
    requires Valid(t, lo, hi, height, isRoot) && t.Inner? && Shaped(t) && i < |t.kids| && child.Halves?
    requires Inserted(t.kids[i], KidLo(t.keys, lo, i), KidHi(t.keys, hi, i), height - 1, false, e, child)
    ensures Inserted(t, lo, hi, height, isRoot, e, Absorb(t.keys, t.kids, i, child))
  {
    var Halves(l, s, r) := child;
    var keys' := Spliced(t.keys, i, s);
    var kids' := t.kids[..i] + [l, r] + t.kids[i + 1..];
    FanWithHalves(t.keys, t.kids, lo, hi, height - 1, i, l, s, r);
    FanShaped(keys', kids', lo, hi, height - 1);
    assert GainsEntry(EntriesOf(t.kids), e, EntriesOf(kids')) by {
      EntriesAround(t.kids, i);
      EntriesOfConcat(t.kids[..i] + [l, r], t.kids[i + 1..]);
      EntriesOfConcat(t.kids[..i], [l, r]);
      PairEntries(l, r);
      GainsAround(EntriesOf(t.kids[..i]), Entries(t.kids[i]), Entries(l) + Entries(r), EntriesOf(t.kids[i + 1..]), e);
    }
    if |keys'| > MAX_KEYS {
      FanHalves(keys', kids', lo, hi, height - 1);
    }
  }

  /** Inserting into a valid subtree yields valid pieces whose walk has exactly one more
      entry, or reports a duplicate that is really there. */
  lemma {:induction false} InsertCorrect(t: Tree, lo: Bound, hi: Bound, height: nat, isRoot: bool, e: Entry)
    requires Valid(t, lo, hi, height, isRoot) && Shaped(t)
    requires AtLeast(lo, e.0) && Below(e.0, hi)
    ensures Inserted(t, lo, hi, height, isRoot, e, Insert(t, e.0, e.1))
    decreases t
  {
    if t.Leaf? {
      LeafInserted(t, lo, hi, isRoot, e);
    } else {
      var i := ChildIndex(t.keys, e.0);
      var lo', hi' := KidLo(t.keys, lo, i), KidHi(t.keys, hi, i);
      KidOf(t, lo, hi, height, isRoot, i);
      InsertCorrect(t.kids[i], lo', hi', height - 1, false, e);
      var child := Insert(t.kids[i], e.0, e.1);
      match child
      case Duplicate =>
        EntriesAround(t.kids, i);
        HasKeyAround(EntriesOf(t.kids[..i]), Entries(t.kids[i]), EntriesOf(t.kids[i + 1..]), e.0);
      case Whole(c) => AbsorbWhole(t, lo, hi, height, isRoot, e, i, c);
      case Halves(_, _, _) => AbsorbHalves(t, lo, hi, height, isRoot, e, i, child);
    }
  }

  lemma {:induction false} MapOfKeys(es: seq<Entry>, key: int)
    ensures key in MapOf(es) <==> HasKey(es, key)
  {
    if es != [] {
      MapOfKeys(es[1..], key);
      if HasKey(es[1..], key) {
        var i :| 0 <= i < |es[1..]| && es[1..][i].0 == key;
        assert es[i + 1].0 == key;
      }
      assert forall i :: 1 <= i < |es| ==> es[i] == es[1..][i - 1];
    }
  }

  lemma {:induction false} MapOfConcat(a: seq<Entry>, b: seq<Entry>)
    ensures MapOf(a + b) == MapOf(b) + MapOf(a)
  {
    if a == [] {
      assert a + b == b;
    } else {
      MapOfConcat(a[1..], b);
      assert (a + b)[1..] == a[1..] + b;
    }
  }

  lemma {:induction false} FreshKey(a: seq<Entry>, e: Entry, b: seq<Entry>)
    requires AscendingKeys(a + ([e] + b))
    ensures !HasKey(a, e.0) && !HasKey(b, e.0)
  {
    var s := a + ([e] + b);
    assert s[|a|] == e;
    assert forall i :: 0 <= i < |a| ==> s[i] == a[i];
    assert forall i :: 0 <= i < |b| ==> s[|a| + 1 + i] == b[i];
  }

  lemma {:induction false} MapOfGains(before: seq<Entry>, e: Entry, after: seq<Entry>)
    requires GainsEntry(before, e, after) && AscendingKeys(after)
    ensures e.0 !in MapOf(before) && MapOf(after) == MapOf(before)[e.0 := e.1]
  {
    var p :| 0 <= p <= |before| && after == Spliced(before, p, e);
    var a, b := before[..p], before[p..];
    assert before == a + b && after == a + ([e] + b);
    MapOfConcat(a, b);
    MapOfConcat(a, [e] + b);
    assert ([e] + b)[1..] == b;
    FreshKey(a, e, b);
    MapOfKeys(a, e.0);
    MapOfKeys(b, e.0);
  }

  /** The map a tree holds. */
  ghost function Contents(t: Tree): map<int, int>
    requires Shaped(t)
  {
    MapOf(Entries(t))
  }

  /** A root insertion: a fresh key gives a valid tree holding one more pair, growing by at
      most one level; a key already present is reported as a duplicate. */
  /** An insertion that is not refused is of a new key. */
  lemma InsertedKey(t: Tree, lo: Bound, hi: Bound, height: nat, isRoot: bool, e: Entry, r: Insertion)
    requires Shaped(t) && Inserted(t, lo, hi, height, isRoot, e, r)
    ensures r.Whole? ==> GainsEntry(Entries(t), e, Entries(r.tree))
    ensures r.Halves? ==> GainsEntry(Entries(t), e, Entries(r.left) + Entries(r.right))
  {
    hide Valid, Entries, GainsEntry;
  }

  lemma GrownHalves(r: Insertion, height: nat)
    requires r.Halves? && Shaped(r.left) && Shaped(r.right)
    requires Valid(r.left, Unbounded, At(r.separator), height, false)
    requires Valid(r.right, At(r.separator), Unbounded, height, false)
    ensures ValidRoot(Grown(r), height + 1) && Shaped(Grown(r))
    ensures Entries(Grown(r)) == Entries(r.left) + Entries(r.right)
  {
    PairEntries(r.left, r.right);
  }

  lemma {:induction false} InsertAtRoot(t: Tree, height: nat, key: int, val: int)
    requires ValidRoot(t, height)
    ensures Shaped(t) && AscendingKeys(Entries(t))
    ensures var r := Insert(t, key, val);
            && (r.Duplicate? <==> key in Contents(t))
            && (!r.Duplicate? ==>
                  && ValidRoot(Grown(r), if r.Halves? then height + 1 else height)
                  && Shaped(Grown(r)) && AscendingKeys(Entries(Grown(r)))
                  && Contents(Grown(r)) == Contents(t)[key := val])
  {
    hide Insert, MapOf, Entries, Shaped, GainsEntry, AscendingKeys, HasKey;
    EntriesBounds(t, Unbounded, Unbounded, height, true);
    InsertCorrect(t, Unbounded, Unbounded, height, true, (key, val));
    var r := Insert(t, key, val);
    MapOfKeys(Entries(t), key);
    InsertedKey(t, Unbounded, Unbounded, height, true, (key, val), r);
    if !r.Duplicate? {
      var g := Grown(r);
      if r.Halves? {
        GrownHalves(r, height);
      }
      EntriesBounds(g, Unbounded, Unbounded, if r.Halves? then height + 1 else height, true);
      MapOfGains(Entries(t), (key, val), Entries(g));
    }
  }

  // ----- search ---------------------------------------------------------------

  lemma {:induction false} LeafLookup(keys: seq<int>, vals: seq<int>, key: int)
    requires |keys| == |vals|
    ensures var m := Contents(Leaf(keys, vals));
            Lookup(keys, vals, key) == if key in m then Some(m[key]) else None
  {
    if keys != [] {
      LeafLookup(keys[1..], vals[1..], key);
      assert Entries(Leaf(keys, vals))[1..] == Entries(Leaf(keys[1..], vals[1..]));
    }
  }

  lemma {:induction false} FindIsLookup(t: Tree, lo: Bound, hi: Bound, height: nat, isRoot: bool, key: int)
    requires Valid(t, lo, hi, height, isRoot)
    ensures Shaped(t) && AscendingKeys(Entries(t))
    ensures Find(t, key) == if key in Contents(t) then Some(Contents(t)[key]) else None
    decreases t
  {
    EntriesBounds(t, lo, hi, height, isRoot);
    if t.Leaf? {
      LeafLookup(t.keys, t.vals, key);
    } else {
      var i := ChildIndex(t.keys, key);
      KidOf(t, lo, hi, height, isRoot, i);
      FindIsLookup(t.kids[i], KidLo(t.keys, lo, i), KidHi(t.keys, hi, i), height - 1, false, key);
      OnlyCoveringChild(t, lo, hi, height, isRoot, key, i);
    }
  }

  /** Only the child that covers `key` can hold it. */
  lemma {:induction false} OnlyCoveringChild(t: Tree, lo: Bound, hi: Bound, height: nat, isRoot: bool, key: int, i: nat)
    requires Valid(t, lo, hi, height, isRoot) && t.Inner? && i == ChildIndex(t.keys, key)
    requires Shaped(t) && AscendingKeys(Entries(t)) && AscendingKeys(Entries(t.kids[i]))
    ensures key in Contents(t) <==> key in Contents(t.kids[i])
    ensures key in Contents(t) ==> Contents(t)[key] == Contents(t.kids[i])[key]
  {
    var pre, mid, post := EntriesOf(t.kids[..i]), Entries(t.kids[i]), EntriesOf(t.kids[i + 1..]);
    EntriesAround(t.kids, i);
    MapOfConcat(pre + mid, post);
    MapOfConcat(pre, mid);
    forall e | e in pre ensures e.0 != key { PrefixBelow(t, lo, hi, height, isRoot, i, e); }
    if i < |t.keys| { KidsEntriesBounds(t, lo, hi, height, isRoot, i + 1); }
    MapOfKeys(pre, key);
    MapOfKeys(post, key);
  }

  lemma {:induction false} PrefixBelow(t: Tree, lo: Bound, hi: Bound, height: nat, isRoot: bool, i: nat, e: Entry)
    requires Valid(t, lo, hi, height, isRoot) && t.Inner? && Shaped(t)
    requires i < |t.kids| && e in EntriesOf(t.kids[..i])
    ensures i > 0 && e.0 < t.keys[i - 1]
    decreases i
  {
    var a := t.kids[..i];
    assert i > 0;
    assert a == a[..i - 1] + [a[i - 1]];
    EntriesOfConcat(a[..i - 1], [a[i - 1]]);
    assert a[..i - 1] == t.kids[..i - 1];
    assert EntriesOf([a[i - 1]]) == Entries(a[i - 1]);
    if e in Entries(a[i - 1]) {
      KidOf(t, lo, hi, height, isRoot, i - 1);
      EntriesBounds(t.kids[i - 1], KidLo(t.keys, lo, i - 1), KidHi(t.keys, hi, i - 1), height - 1, false);
    } else {
      PrefixBelow(t, lo, hi, height, isRoot, i - 1, e);
    }
  }

  // ----- balance ----------------------------------------------------------------

  function Pow2(n: nat): nat { if n == 0 then 1 else 2 * Pow2(n - 1) }

  /** A subtree with `height` levels above its leaves holds at least 2^(height+1) entries, so
      the number of levels a search descends is logarithmic in the number of rows. */
  lemma {:induction false} ManyEntries(t: Tree, lo: Bound, hi: Bound, height: nat, isRoot: bool)
    requires Valid(t, lo, hi, height, isRoot) && (height > 0 || !isRoot)
    ensures Shaped(t) && |Entries(t)| >= Pow2(height + 1)
    decreases t
  {
    ValidShaped(t, lo, hi, height, isRoot);
    if t.Inner? {
      KidOf(t, lo, hi, height, isRoot, 0);
      KidOf(t, lo, hi, height, isRoot, 1);
      ManyEntries(t.kids[0], KidLo(t.keys, lo, 0), KidHi(t.keys, hi, 0), height - 1, false);
      ManyEntries(t.kids[1], KidLo(t.keys, lo, 1), KidHi(t.keys, hi, 1), height - 1, false);
      EntriesAround(t.kids, 0);
      EntriesAround(t.kids[1..], 0);
    }
  }
}
