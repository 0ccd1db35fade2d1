/**
 The destructive code of ziptree.h: recursive methods that relink entries in
 place, proved to perform the operations of module ZipTree on the tree that the
 linked entries represent, and to write only the entries on their path.
 */
module ZipTreeHeap {
  import opened ZipTree
  import opened ZipTreeHistory

  /** A tree entry: its key field and its ZIP_ENTRY. */
  class Entry {
    const key: int
    var left: Entry?
    var right: Entry?
    var rank: Rank

    constructor (key: int)
      ensures this.key == key
    {
      this.key := key;
    }
  }

  // ---------- Which value a linked structure represents ----------

  /** The entries of a tree. */
  ghost function Entries(t: Tree<Entry>): set<Entry> {
    match t
    case Nil => {}
    case Node(l, x, r) => Entries(l) + {x.id} + Entries(r)
  }

  /** The structure under `n` is the tree `t`: no sharing, no cycle, and every field as in `t`. */
  ghost predicate Represents(n: Entry?, t: Tree<Entry>)
    reads Entries(t)
    decreases t
  {
    match t
    case Nil => n == null
    case Node(l, x, r) =>
      && n == x.id && n.key == x.key && n.rank == x.rank
      && x.id !in Entries(l) && x.id !in Entries(r) && Entries(l) !! Entries(r)
      && Represents(n.left, l) && Represents(n.right, r)
  }

  ghost function ItemOf(n: Entry): Item<Entry>
    reads n
  {
    Item(n, n.key, n.rank)
  }

  /** The entries whose key INSERT compares: the search path. */
  ghost function SearchPath(t: Tree<Entry>, key: int): set<Entry> {
    match t
    case Nil => {}
    case Node(l, x, r) => {x.id} + (if key < x.key then SearchPath(l, key) else SearchPath(r, key))
  }

  /** The entries that ZIP may relink: the right spine of `x` and the left spine of `y`. */
  ghost function Spines(x: Tree<Entry>, y: Tree<Entry>): set<Entry> {
    RightSpine(x) + LeftSpine(y)
  }

  ghost function LeftSpine(t: Tree<Entry>): set<Entry> {
    if t.Nil? then {} else {t.item.id} + LeftSpine(t.left)
  }

  ghost function RightSpine(t: Tree<Entry>): set<Entry> {
    if t.Nil? then {} else {t.item.id} + RightSpine(t.right)
  }

  /** The entries that REMOVE may relink: the search for `e`, then the spines it zips; never `e` itself. */
  ghost function RemovePath(t: Tree<Entry>, e: Item<Entry>): set<Entry> {
    match t
    case Nil => {}
    case Node(l, x, r) =>
      if x.id == e.id then Spines(l, r)
      else {x.id} + if e.key < x.key then RemovePath(l, e)
                    else if e.key > x.key then RemovePath(r, e)
                    else RemovePath(l, e) + RemovePath(r, e)
  }

  lemma {:induction false} EntriesAllocated(t: Tree<Entry>)
    ensures forall n :: n in Entries(t) ==> allocated(n)
  {
    if t.Node? {
      EntriesAllocated(t.left);
      EntriesAllocated(t.right);
    }
  }

  lemma {:induction false} SpinesInside(t: Tree<Entry>)
    ensures LeftSpine(t) <= Entries(t) && RightSpine(t) <= Entries(t)
  {
    if t.Node? {
      SpinesInside(t.left);
      SpinesInside(t.right);
    }
  }

  lemma {:induction false} SearchPathInside(t: Tree<Entry>, key: int)
    ensures SearchPath(t, key) <= Entries(t)
  {
    if t.Node? {
      SearchPathInside(t.left, key);
      SearchPathInside(t.right, key);
    }
  }

  lemma {:induction false} RemovePathInside(t: Tree<Entry>, e: Item<Entry>)
    ensures RemovePath(t, e) <= Entries(t)
  {
    if t.Node? {
      SpinesInside(t.left);
      SpinesInside(t.right);
      RemovePathInside(t.left, e);
      RemovePathInside(t.right, e);
    }
  }

  /** Removal leaves the removed entry's own links alone. */
  lemma {:induction false} NotOnPath(n: Entry?, t: Tree<Entry>, e: Item<Entry>)
    requires Represents(n, t)
    ensures e.id !in RemovePath(t, e)
  {
    if t.Node? {
      SpinesInside(t.left);
      SpinesInside(t.right);
      NotOnPath(n.left, t.left, e);
      NotOnPath(n.right, t.right, e);
    }
  }

  // ---------- Entries and in-order sequences ----------

  lemma {:induction false} EntriesInOrder(t: Tree<Entry>, n: Entry)
    ensures HasId(InOrder(t), n) <==> n in Entries(t)
  {
    if t.Node? {
      var a, x, b := InOrder(t.left), t.item, InOrder(t.right);
      EntriesInOrder(t.left, n);
      EntriesInOrder(t.right, n);
      HasIdAppend(a + [x], b, n);
      HasIdAppend(a, [x], n);
      assert [x][0] == x;
    }
  }

  lemma HasIdAppend(a: seq<Item<Entry>>, b: seq<Item<Entry>>, n: Entry)
    ensures HasId(a + b, n) <==> HasId(a, n) || HasId(b, n)
  {
    var s := a + b;
    if HasId(a, n) {
      var i :| 0 <= i < |a| && a[i].id == n;
      assert s[i].id == n;
    }
    if HasId(b, n) {
      var i :| 0 <= i < |b| && b[i].id == n;
      assert s[|a| + i].id == n;
    }
  }

  lemma {:induction false} ZipEntries(x: Tree<Entry>, y: Tree<Entry>)
    ensures Entries(Zip(x, y)) == Entries(x) + Entries(y)
    decreases x, y
  {
    if x.Node? && y.Node? {
      if x.item.rank < y.item.rank { ZipEntries(x, y.left); } else { ZipEntries(x.right, y); }
    }
  }

  lemma {:induction false} InsertEntries(t: Tree<Entry>, e: Item<Entry>)
    requires e.id !in Entries(t)
    ensures Entries(Insert(t, e)) == Entries(t) + {e.id}
    ensures Insert(t, e).item == e || (t.Node? && Insert(t, e).item == t.item)
  {
    if t.Node? {
      InsertEntries(if e.key < t.item.key then t.left else t.right, e);
    }
  }

  // ---------- INSERT ----------

  /**
   `__ZIP_INSERT`. When the recursive call answers another entry than `elm`, that
   entry is the child itself, so not storing the answer loses nothing.
   */
  method InsertRec(root: Entry?, elm: Entry, ghost t: Tree<Entry>) returns (top: Entry)
    requires Represents(root, t) && elm !in Entries(t)
    modifies SearchPath(t, elm.key)`left, SearchPath(t, elm.key)`right, elm`left, elm`right
    ensures Represents(top, Insert(t, old(ItemOf(elm))))
    ensures top == elm || top == root
    decreases t
  {
    ghost var e := ItemOf(elm);
    EntriesAllocated(t);
    if root == null {
      elm.left, elm.right := null, null;
      return elm;
    }
    if elm.key < root.key {
      SearchPathInside(t.left, elm.key);
      InsertEntries(t.left, e);
      var sub := InsertRec(root.left, elm, t.left);
      assert unchanged(Entries(t.right));
      if sub == elm {
        if elm.rank < root.rank {
          root.left := elm;
        } else {
          SurfaceFromLeft(root, elm, Insert(t.left, e), t.right);
          return elm;
        }
      }
      assert Represents(root.left, Insert(t.left, e));
    } else {
      SearchPathInside(t.right, elm.key);
      InsertEntries(t.right, e);
      var sub := InsertRec(root.right, elm, t.right);
      assert unchanged(Entries(t.left));
      if sub == elm {
        if elm.rank <= root.rank {
          root.right := elm;
        } else {
          SurfaceFromRight(root, elm, t.left, Insert(t.right, e));
          return elm;
        }
      }
      assert Represents(root.right, Insert(t.right, e));
    }
    return root;
  }

  /** The entry on top of the left side becomes the parent of `root` and hands over its right side. */
  method SurfaceFromLeft(root: Entry, elm: Entry, ghost s: Tree<Entry>, ghost r: Tree<Entry>)
    requires Represents(elm, s) && Represents(root.right, r) && s.Node?
    requires root !in Entries(s) && root !in Entries(r) && Entries(s) !! Entries(r)
    modifies root`left, elm`right
    ensures Represents(elm, Node(s.left, s.item, Node(s.right, old(ItemOf(root)), r)))
  {
    EntriesAllocated(s);
    EntriesAllocated(r);
    root.left := elm.right;
    elm.right := root;
    assert Represents(elm.left, s.left) && Represents(root.left, s.right) && Represents(root.right, r);
  }

  /** The entry on top of the right side becomes the parent of `root` and hands over its left side. */
  method SurfaceFromRight(root: Entry, elm: Entry, ghost l: Tree<Entry>, ghost s: Tree<Entry>)
    requires Represents(elm, s) && Represents(root.left, l) && s.Node?
    requires root !in Entries(s) && root !in Entries(l) && Entries(s) !! Entries(l)
    modifies root`right, elm`left
    ensures Represents(elm, Node(Node(l, old(ItemOf(root)), s.left), s.item, s.right))
  {
    EntriesAllocated(s);
    EntriesAllocated(l);
    root.right := elm.left;
    elm.left := root;
    assert Represents(elm.right, s.right) && Represents(root.right, s.left) && Represents(root.left, l);
  }

  // ---------- ZIP and REMOVE ----------

  /** `__ZIP`. */
  method ZipRec(x: Entry?, y: Entry?, ghost tx: Tree<Entry>, ghost ty: Tree<Entry>) returns (top: Entry?)
    requires Represents(x, tx) && Represents(y, ty) && Entries(tx) !! Entries(ty)
    modifies RightSpine(tx)`right, LeftSpine(ty)`left
    ensures Represents(top, Zip(tx, ty))
    decreases tx, ty
  {
    if x == null { return y; }
    if y == null { return x; }
    EntriesAllocated(tx);
    EntriesAllocated(ty);
    SpinesInside(tx);
    SpinesInside(ty);
    if x.rank < y.rank {
      SpinesInside(ty.left);
      ZipEntries(tx, ty.left);
      var z := ZipRec(x, y.left, tx, ty.left);
      y.left := z;
      assert unchanged(Entries(ty.right));
      assert Represents(y.right, ty.right);
      assert Represents(z, Zip(tx, ty.left));
      top := y;
    } else {
      SpinesInside(tx.right);
      ZipEntries(tx.right, ty);
      var z := ZipRec(x.right, y, tx.right, ty);
      x.right := z;
      assert unchanged(Entries(tx.left));
      assert Represents(x.left, tx.left);
      assert Represents(z, Zip(tx.right, ty));
      top := x;
    }
  }

  lemma {:induction false} RemoveEntries(t: Tree<Entry>, e: Item<Entry>)
    requires t.Node?
    ensures Entries(Remove(t, e)) <= Entries(t)
    ensures t.item.id != e.id ==> Remove(t, e).Node? && Remove(t, e).item == t.item
  {
    if t.item.id == e.id {
      ZipEntries(t.left, t.right);
    } else {
      if t.left.Node? { RemoveEntries(t.left, e); }
      if t.right.Node? { RemoveEntries(t.right, e); }
    }
  }

  /**
   `__ZIP_REMOVE`. The answer is `root` unless `root` is `elm`, so the LESS and
   MORE branches, which test the child first, may ignore what the call answers.
   */
  method RemoveRec(root: Entry, elm: Entry, ghost t: Tree<Entry>) returns (top: Entry?)
    requires Represents(root, t)
    modifies RemovePath(t, ItemOf(elm))`left, RemovePath(t, ItemOf(elm))`right
    ensures Represents(top, Remove(t, old(ItemOf(elm))))
    ensures root != elm ==> top == root
    ensures elm.left == old(elm.left) && elm.right == old(elm.right)
    decreases t, 1
  {
    ghost var e := ItemOf(elm);
    NotOnPath(root, t, e);
    EntriesAllocated(t.left);
    EntriesAllocated(t.right);
    SpinesInside(t.left);
    SpinesInside(t.right);
    if root == elm {
      top := ZipRec(root.left, root.right, t.left, t.right);
      return;
    }
    RemovePathInside(t.left, e);
    RemovePathInside(t.right, e);
    var left, right := root.left, root.right;
    if elm.key < root.key {
      if left != null { RemoveEntries(t.left, e); }
      if elm == left {
        var z := ZipRec(left.left, left.right, t.left.left, t.left.right);
        root.left := z;
      } else if left != null {
        var _ := RemoveRec(left, elm, t.left);
      }
      assert unchanged(Entries(t.right));
    } else if elm.key > root.key {
      if right != null { RemoveEntries(t.right, e); }
      if elm == right {
        var z := ZipRec(right.left, right.right, t.right.left, t.right.right);
        root.right := z;
      } else if right != null {
        var _ := RemoveRec(right, elm, t.right);
      }
      assert unchanged(Entries(t.left));
    } else {
      RemoveFromBothSides(root, elm, t);
    }
    return root;
  }

  /** The EQ branch: `elm` may be on either side of an entry with its key, so both are probed and relinked. */
  method RemoveFromBothSides(root: Entry, elm: Entry, ghost t: Tree<Entry>)
    requires Represents(root, t) && root != elm && elm.key == root.key
    modifies RemovePath(t, ItemOf(elm))`left, RemovePath(t, ItemOf(elm))`right
    ensures Represents(root, Remove(t, old(ItemOf(elm))))
    ensures elm.left == old(elm.left) && elm.right == old(elm.right)
    decreases t, 0
  {
    ghost var e := ItemOf(elm);
    NotOnPath(root, t, e);
    EntriesAllocated(t.left);
    EntriesAllocated(t.right);
    RemovePathInside(t.left, e);
    RemovePathInside(t.right, e);
    var left, right := root.left, root.right;
    if right != null {
      RemoveEntries(t.right, e);
      var z := RemoveRec(right, elm, t.right);
      root.right := z;
    }
    assert unchanged(Entries(t.left));
    label probedRight:
    ghost var r := if t.right.Node? then Remove(t.right, e) else Nil;
    assert Represents(root.right, r) && Entries(r) <= Entries(t.right);
    if left != null {
      RemoveEntries(t.left, e);
      var z := RemoveRec(left, elm, t.left);
      root.left := z;
    }
    assert unchanged@probedRight(Entries(r));
    assert Represents(root.right, r);
  }

  // ---------- What the represented tree says about the entries ----------

  /** The items of a represented tree are the entries' own fields, and each entry occurs once. */
  lemma {:induction false} RepresentedItems(n: Entry?, t: Tree<Entry>)
    requires Represents(n, t)
    ensures DistinctIds(InOrder(t))
    ensures forall i :: 0 <= i < |InOrder(t)| ==> InOrder(t)[i] == ItemOf(InOrder(t)[i].id)
    ensures forall i :: 0 <= i < |InOrder(t)| ==> InOrder(t)[i].id in Entries(t)
  {
    if t.Node? {
      RepresentedItems(n.left, t.left);
      RepresentedItems(n.right, t.right);
    }
  }

  /** In a zip tree, removal leaves exactly the other entries. */
  lemma RemoveKeepsOthers(t: Tree<Entry>, e: Item<Entry>)
    requires t.Node? && ValidTree(t) && DistinctIds(InOrder(t)) && Agrees(InOrder(t), e)
    ensures Entries(Remove(t, e)) == Entries(t) - {e.id}
  {
    RemoveTakesOut(t, e);
    EntriesAllocated(t);
    EntriesAllocated(Remove(t, e));
    forall n | n in Entries(t) + Entries(Remove(t, e))
      ensures n in Entries(Remove(t, e)) <==> n in Entries(t) && n != e.id
    {
      KeepsEntry(t, e, n);
    }
  }

  lemma KeepsEntry(t: Tree<Entry>, e: Item<Entry>, n: Entry)
    requires t.Node? && DistinctIds(InOrder(t)) && InOrder(Remove(t, e)) == Without(InOrder(t), e.id)
    ensures n in Entries(Remove(t, e)) <==> n in Entries(t) && n != e.id
  {
    EntriesInOrder(t, n);
    EntriesInOrder(Remove(t, e), n);
    WithoutKeepsOthers(InOrder(t), e.id, n);
  }

  lemma {:induction false} WithoutKeepsOthers(s: seq<Item<Entry>>, id: Entry, n: Entry)
    requires DistinctIds(s)
    ensures HasId(Without(s, id), n) <==> HasId(s, n) && n != id
  {
    if s != [] {
      HasIdTail(s, n);
      HasIdTail(s, id);
      if s[0].id == id {
        if n == id { NotInTail(s); }
      } else {
        WithoutKeepsOthers(s[1..], id, n);
        HasIdAppend([s[0]], Without(s[1..], id), n);
        assert HasId([s[0]], n) <==> s[0].id == n by { assert [s[0]][0].id == s[0].id; }
      }
    }
  }

  lemma NotInTail(s: seq<Item<Entry>>)
    requires s != [] && DistinctIds(s)
    ensures !HasId(s[1..], s[0].id)
  {}

  lemma AbsentFromOrder(t: Tree<Entry>, n: Entry)
    requires n !in Entries(t)
    ensures !HasId(InOrder(t), n)
  {
    EntriesInOrder(t, n);
  }

  /** The entry on top of a represented tree. */
  ghost function Top(t: Tree<Entry>): Entry? {
    if t.Nil? then null else t.item.id
  }

  /** The links that a tree prescribes for an entry. */
  ghost function LinksIn(t: Tree<Entry>, n: Entry): (Entry?, Entry?)
    requires n in Entries(t)
  {
    if n == t.item.id then (Top(t.left), Top(t.right))
    else if n in Entries(t.left) then LinksIn(t.left, n)
    else LinksIn(t.right, n)
  }

  lemma {:induction false} RepresentedLinks(root: Entry?, t: Tree<Entry>, n: Entry)
    requires Represents(root, t) && n in Entries(t)
    ensures (n.left, n.right) == LinksIn(t, n)
  {
    if n != t.item.id {
      if n in Entries(t.left) {
        RepresentedLinks(root.left, t.left, n);
      } else {
        RepresentedLinks(root.right, t.right, n);
      }
    }
  }

  // ---------- FIND, MIN, MAX and ITER ----------

  /** `__ZIP_FIND`. */
  method FindRec(root: Entry?, key: int, ghost t: Tree<Entry>) returns (found: Entry?)
    requires Represents(root, t)
    ensures Represents(found, Find(t, key)) && (found != null ==> found.key == key)
    decreases t
  {
    if root == null { return null; }
    if key == root.key { return root; }
    if key < root.key {
      found := FindRec(root.left, key, t.left);
    } else {
      found := FindRec(root.right, key, t.right);
    }
  }

  /** Every entry with the key lies in the subtree that FIND answers. */
  lemma FoundAbove(root: Entry?, t: Tree<Entry>, key: int, n: Entry)
    requires Represents(root, t) && ValidTree(t) && n in Entries(t) && n.key == key
    ensures n in Entries(Find(t, key))
  {
    var s := InOrder(t);
    EntriesInOrder(t, n);
    var i :| 0 <= i < |s| && s[i].id == n;
    RepresentedItems(root, t);
    assert s[i] == ItemOf(n);
    WithKeyHas(s, key, i);
    FindTopmost(t, key);
    WithKeyIsPart(InOrder(Find(t, key)), key, n);
    EntriesInOrder(Find(t, key), n);
  }

  /** A callback that records its entry and then does what it likes with it, such as freeing it. */
  class Callback {
    var log: seq<Entry>

    method Call(elm: Entry)
      modifies this, elm
      ensures log == old(log) + [elm]
    {
      log := log + [elm];
      elm.left, elm.right, elm.rank := null, null, 0;
    }
  }

  function Names(s: seq<Item<Entry>>): seq<Entry> {
    seq(|s|, i requires 0 <= i < |s| => s[i].id)
  }

  lemma NamesAppend(a: seq<Item<Entry>>, b: seq<Item<Entry>>)
    ensures Names(a + b) == Names(a) + Names(b)
  {}

  /** In `s` the root of `u` comes after all entries below it, and its left side before its right side. */
  ghost predicate BottomUp(s: seq<Entry>, u: Tree<Entry>)
    requires u.Node?
  {
    forall i, j :: 0 <= i < |s| && 0 <= j < |s| ==>
      && (s[i] in Entries(u.left) && s[j] in Entries(u.right) ==> i < j)
      && (s[i] in Entries(u.left) + Entries(u.right) && s[j] == u.item.id ==> i < j)
  }

  /** That holds at every entry. */
  ghost predicate AllBottomUp(s: seq<Entry>, t: Tree<Entry>) {
    t.Node? ==> BottomUp(s, t) && AllBottomUp(s, t.left) && AllBottomUp(s, t.right)
  }

  ghost predicate Once(s: seq<Entry>) {
    forall i, j :: 0 <= i < j < |s| ==> s[i] != s[j]
  }

  ghost function Elements(s: seq<Entry>): set<Entry> {
    set e | e in s
  }

  lemma OnceAppend(a: seq<Entry>, b: seq<Entry>)
    requires Once(a) && Once(b) && Elements(a) !! Elements(b)
    ensures Once(a + b) && Elements(a + b) == Elements(a) + Elements(b)
  {
    var s := a + b;
    forall i, j | 0 <= i < j < |s| ensures s[i] != s[j] {
      assert i < |a| ==> s[i] == a[i] && s[i] in Elements(a);
      assert j >= |a| ==> s[j] == b[j - |a|] && s[j] in Elements(b);
    }
  }

  /** The log has every entry of the tree exactly once. */
  lemma {:induction false} LogHolds(n: Entry?, t: Tree<Entry>, s: seq<Entry>)
    requires Represents(n, t) && s == Names(PostOrder(t))
    ensures Elements(s) == Entries(t) && Once(s)
  {
    if t.Node? {
      var a, b, x := Names(PostOrder(t.left)), Names(PostOrder(t.right)), t.item.id;
      LogHolds(n.left, t.left, a);
      LogHolds(n.right, t.right, b);
      LogSplits(t);
      OnceAppend(a, b);
      assert Elements([x]) == {x};
      OnceAppend(a + b, [x]);
    }
  }

  lemma LogSplits(t: Tree<Entry>)
    requires t.Node?
    ensures Names(PostOrder(t)) == Names(PostOrder(t.left)) + Names(PostOrder(t.right)) + [t.item.id]
  {
    NamesAppend(PostOrder(t.left) + PostOrder(t.right), [t.item]);
    NamesAppend(PostOrder(t.left), PostOrder(t.right));
  }

  lemma {:induction false} LogIsBottomUp(n: Entry?, t: Tree<Entry>, s: seq<Entry>)
    requires Represents(n, t) && s == Names(PostOrder(t))
    ensures AllBottomUp(s, t)
  {
    if t.Node? {
      var a, b, x := Names(PostOrder(t.left)), Names(PostOrder(t.right)), t.item.id;
      LogSplits(t);
      LogHolds(n.left, t.left, a);
      LogHolds(n.right, t.right, b);
      RootLast(a, b, t);
      LogIsBottomUp(n.left, t.left, a);
      LogIsBottomUp(n.right, t.right, b);
      assert forall i :: 0 <= i < |a| ==> a[i] in Elements(a);
      assert forall i :: 0 <= i < |b + [x]| ==> (b + [x])[i] in Elements(b) + {x};
      AllInside([], a, b + [x], t.left);
      AllInside(a, b, [x], t.right);
      assert [] + a + (b + [x]) == s;
    }
  }

  lemma {:induction false} AllInside(a: seq<Entry>, s: seq<Entry>, c: seq<Entry>, t: Tree<Entry>)
    requires AllBottomUp(s, t)
    requires forall i :: 0 <= i < |a| ==> a[i] !in Entries(t)
    requires forall i :: 0 <= i < |c| ==> c[i] !in Entries(t)
    ensures AllBottomUp(a + s + c, t)
  {
    if t.Node? {
      BottomUpInside(a, s, c, t);
      AllInside(a, s, c, t.left);
      AllInside(a, s, c, t.right);
    }
  }

  lemma RootLast(a: seq<Entry>, b: seq<Entry>, u: Tree<Entry>)
    requires u.Node? && Entries(u.left) !! Entries(u.right)
    requires u.item.id !in Entries(u.left) && u.item.id !in Entries(u.right)
    requires Elements(a) == Entries(u.left) && Elements(b) == Entries(u.right)
    ensures BottomUp(a + b + [u.item.id], u)
  {
    var s := a + b + [u.item.id];
    forall i | 0 <= i < |s|
      ensures s[i] in Entries(u.left) ==> i < |a|
      ensures s[i] in Entries(u.right) ==> |a| <= i < |a| + |b|
      ensures s[i] == u.item.id ==> i == |a| + |b|
    {
      if i < |a| { assert s[i] == a[i] && s[i] in Elements(a); }
      if |a| <= i < |a| + |b| { assert s[i] == b[i - |a|] && s[i] in Elements(b); }
    }
  }

  lemma BottomUpInside(a: seq<Entry>, s: seq<Entry>, c: seq<Entry>, u: Tree<Entry>)
    requires u.Node? && BottomUp(s, u)
    requires forall i :: 0 <= i < |a| ==> a[i] !in Entries(u)
    requires forall i :: 0 <= i < |c| ==> c[i] !in Entries(u)
    ensures BottomUp(a + s + c, u)
  {
    var w := a + s + c;
    forall i | 0 <= i < |w|
      ensures w[i] == if i < |a| then a[i] else if i < |a| + |s| then s[i - |a|] else c[i - |a| - |s|]
    {}
  }

  /**
   What the log has gained: every entry of the tree, exactly once, after all
   entries below it, and left sides before right sides.
   */
  ghost predicate CallsBack(log: seq<Entry>, before: seq<Entry>, t: Tree<Entry>) {
    && |before| <= |log| && log[..|before|] == before
    && var s := log[|before|..];
       && (set e | e in s) == Entries(t) && Once(s)
       && AllBottomUp(s, t)
  }

  lemma LogCallsBack(n: Entry?, t: Tree<Entry>, before: seq<Entry>)
    requires Represents(n, t)
    ensures CallsBack(before + Names(PostOrder(t)), before, t)
  {
    var s := Names(PostOrder(t));
    assert (before + s)[|before|..] == s;
    LogHolds(n, t, s);
    assert (set e | e in s) == Elements(s);
    LogIsBottomUp(n, t, s);
  }

  /** `__ZIP_ITER`. Each entry is read before its own callback only, so callbacks may overwrite their entry. */
  method IterRec(elm: Entry?, cb: Callback, ghost t: Tree<Entry>)
    requires Represents(elm, t)
    modifies cb, Entries(t)
    ensures cb.log == old(cb.log) + Names(PostOrder(t))
    decreases t
  {
    if elm == null { return; }
    EntriesAllocated(t.right);
    IterRec(elm.left, cb, t.left);
    assert unchanged(Entries(t.right));
    IterRec(elm.right, cb, t.right);
    cb.Call(elm);
  }

  /** What the value operations do to a represented zip tree. */
  lemma InsertFacts(root: Entry?, t: Tree<Entry>, e: Item<Entry>)
    requires Represents(root, t) && ValidTree(t) && e.id !in Entries(t)
    ensures var u := Insert(t, e);
      && ValidTree(u) && u == Canonical(InOrder(u))
      && InOrder(u) == Place(InOrder(t), e) && Entries(u) == Entries(t) + {e.id}
  {
    AbsentFromOrder(t, e.id);
    InsertIsCanonical(t, e);
    InsertPlaces(t, e);
    InsertEntries(t, e);
  }

  lemma RemoveFacts(root: Entry, t: Tree<Entry>, elm: Entry)
    requires Represents(root, t) && ValidTree(t)
    ensures var u := Remove(t, ItemOf(elm));
      && ValidTree(u) && u == Canonical(InOrder(u))
      && InOrder(u) == Without(InOrder(t), elm) && Entries(u) == Entries(t) - {elm}
      && (elm !in Entries(t) ==> u == t)
  {
    RepresentedItems(root, t);
    RemoveIsCanonical(t, ItemOf(elm));
    RemoveTakesOut(t, ItemOf(elm));
    RemoveKeepsOthers(t, ItemOf(elm));
    if elm !in Entries(t) { AbsentFromOrder(t, elm); }
  }

  /** The tree head, `struct name { struct type *zip_root; }`. */
  class Head {
    var root: Entry?
    ghost var tree: Tree<Entry>

    ghost predicate Valid()
      reads this, Entries(tree)
    {
      Represents(root, tree) && ValidTree(tree)
    }

    ghost function Contents(): seq<Item<Entry>>
      reads this
    {
      InOrder(tree)
    }

    /** ZIP_INIT. */
    constructor ()
      ensures Valid() && Contents() == []
    {
      root, tree := null, Nil;
    }

    /** ZIP_INSERT. */
    method Insert(elm: Entry, rank: Rank)
      requires Valid() && elm !in Entries(tree)
      modifies this, elm, SearchPath(tree, elm.key)`left, SearchPath(tree, elm.key)`right
      ensures Valid() && Entries(tree) == old(Entries(tree)) + {elm}
      ensures Contents() == Place(old(Contents()), Item(elm, elm.key, rank))
      ensures tree == Canonical(Contents())
      ensures tree == ZipTree.Insert(old(tree), Item(elm, elm.key, rank)) && elm.rank == rank
    {
      ghost var t, e := tree, Item(elm, elm.key, rank);
      EntriesAllocated(t);
      InsertFacts(root, t, e);
      SearchPathInside(t, elm.key);
      elm.rank := rank;
      assert unchanged(Entries(t));
      root := InsertRec(root, elm, t);
      tree := ZipTree.Insert(t, e);
    }

    /** ZIP_REMOVE. The header reads `root` without a test, so the tree must not be empty. */
    method Remove(elm: Entry)
      requires Valid() && root != null
      modifies this, RemovePath(tree, ItemOf(elm))`left, RemovePath(tree, ItemOf(elm))`right
      ensures Valid() && Entries(tree) == old(Entries(tree)) - {elm}
      ensures Contents() == Without(old(Contents()), elm)
      ensures tree == Canonical(Contents())
      ensures old(elm !in Entries(tree)) ==> tree == old(tree) && root == old(root)
      ensures tree == ZipTree.Remove(old(tree), old(ItemOf(elm)))
      ensures elm.left == old(elm.left) && elm.right == old(elm.right)
    {
      ghost var t, e := tree, ItemOf(elm);
      RemoveFacts(root, t, elm);
      root := RemoveRec(root, elm, t);
      tree := ZipTree.Remove(t, e);
    }

    /** ZIP_FIND. */
    method Find(key: int) returns (found: Entry?)
      requires Valid()
      ensures found == null <==> WithKey(Contents(), key) == []
      ensures found != null ==> var w := WithKey(Contents(), key); found == w[Summit(w)].id && found.key == key
      ensures var below := ZipTree.Find(tree, key);
        && Represents(found, below) && (found != null ==> Subtree(below, tree))
        && forall n :: n in Entries(tree) && n.key == key ==> n in Entries(below)
    {
      FindTopmost(tree, key);
      forall n | n in Entries(tree) && n.key == key ensures n in Entries(ZipTree.Find(tree, key)) {
        FoundAbove(root, tree, key, n);
      }
      found := FindRec(root, key, tree);
    }

    /** ZIP_MIN. */
    method Min() returns (least: Entry?)
      requires Valid()
      ensures if Contents() == [] then least == null else least == Contents()[0].id
    {
      if root == null { return null; }
      var cur := root;
      ghost var u := tree;
      while cur.left != null
        invariant Represents(cur, u) && u.Node? && InOrder(u)[0] == InOrder(tree)[0]
        decreases u
      {
        cur := cur.left;
        u := u.left;
      }
      return cur;
    }

    /** ZIP_MAX. */
    method Max() returns (greatest: Entry?)
      requires Valid()
      ensures if Contents() == [] then greatest == null else greatest == Contents()[|Contents()| - 1].id
    {
      if root == null { return null; }
      var cur := root;
      ghost var u := tree;
      while cur.right != null
        invariant Represents(cur, u) && u.Node?
        invariant InOrder(u)[|InOrder(u)| - 1] == InOrder(tree)[|InOrder(tree)| - 1]
        decreases u
      {
        cur := cur.right;
        u := u.right;
      }
      return cur;
    }

    /** ZIP_ITER. */
    method Iter(cb: Callback)
      requires Valid()
      modifies cb, Entries(tree)
      ensures cb.log == old(cb.log) + Names(PostOrder(old(tree)))
      ensures CallsBack(cb.log, old(cb.log), old(tree))
    {
      LogCallsBack(root, tree, cb.log);
      IterRec(root, cb, tree);
    }
  }

  /** Inserting an entry and removing it again restores the root and every link of the heap. */
  method InsertThenRemove(head: Head, elm: Entry, rank: Rank)
    requires head.Valid() && elm !in Entries(head.tree)
    modifies head, elm, Entries(head.tree)
    ensures head.Valid() && head.tree == old(head.tree) && head.root == old(head.root)
    ensures forall n :: n in Entries(head.tree) && old(allocated(n)) ==>
              n.left == old(n.left) && n.right == old(n.right)
  {
    ghost var t, e := head.tree, Item(elm, elm.key, rank);
    RepresentedItems(head.root, t);
    AbsentFromOrder(t, elm);
    RemoveUndoesInsert(t, e);
    SearchPathInside(t, elm.key);
    forall n | n in Entries(t) ensures (n.left, n.right) == LinksIn(t, n) { RepresentedLinks(head.root, t, n); }
    head.Insert(elm, rank);
    RemovePathInside(head.tree, ItemOf(elm));
    head.Remove(elm);
    forall n | n in Entries(t) ensures (n.left, n.right) == LinksIn(t, n) { RepresentedLinks(head.root, t, n); }
  }
}
