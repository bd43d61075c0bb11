// The card list: an unbalanced binary search tree of cards whose nodes carry left, right and
// parent links, with forward and reverse iterators that step along the parent links.
//
// The nodes live in an arena `nodes`; a pointer is a slot index and Null (-1) is the null
// pointer. Each CardList keeps a ghost Tree (module TreeShape) naming the slot and key of every
// node reachable from the root; Valid() ties that picture to the arena.

module CardTree {
  import opened Cards
  import opened TreeShape

  /** A node pointer: a slot of the arena, or Null. */
  type Ptr = int

  /** A tree node: the card it holds and its three links. */
  datatype Node = Node(data: ValidCard, left: Ptr, right: Ptr, parent: Ptr)

  /** The arena holds the nodes of t at the slots t names, each with the key t gives it, links to
      its children's slots, and a parent link to its parent's slot; the root of t links to p. */
  ghost predicate Linked(t: Tree, p: Ptr, nodes: seq<Node>) {
    match t
    case Nil => true
    case Br(l, i, k, r) =>
      i < |nodes| && nodes[i] == Node(k, Top(l), Top(r), p) &&
      Linked(l, i, nodes) && Linked(r, i, nodes)
  }

  /** Changing slots outside a subtree does not disturb it. */
  lemma {:induction false} LinkedFrame(t: Tree, p: Ptr, a: seq<Node>, b: seq<Node>)
    requires Linked(t, p, a)
    requires forall x :: x in Ids(t) && x < |a| ==> x < |b| && b[x] == a[x]
    ensures Linked(t, p, b)
  {
    if t.Br? {
      forall x | x in Ids(t.left) || x in Ids(t.right) ensures x in Ids(t) {
      }
      LinkedFrame(t.left, t.id, a, b);
      LinkedFrame(t.right, t.id, a, b);
    }
  }

  /** Setting the parent link of a subtree's root hangs the subtree under the new parent. */
  lemma LinkedReparent(t: Tree, p: Ptr, q: Ptr, a: seq<Node>)
    requires Linked(t, p, a) && t.Br? && Unique(t)
    ensures Linked(t, q, a[t.id := a[t.id].(parent := q)])
  {
    var b := a[t.id := a[t.id].(parent := q)];
    LinkedFrame(t.left, t.id, a, b);
    LinkedFrame(t.right, t.id, a, b);
  }

  /** Setting the root's parent link to the parent it already has leaves the arena as it is. */
  lemma RelinkSame(t: Tree, p: Ptr, a: seq<Node>)
    requires Linked(t, p, a) && t.Br?
    ensures a[t.id := a[t.id].(parent := p)] == a
  {
  }

  /** The links of a subtree fix the nodes at its slots. */
  lemma {:induction false} LinkedDetermines(t: Tree, p: Ptr, a: seq<Node>, b: seq<Node>)
    requires Linked(t, p, a) && Linked(t, p, b)
    ensures forall x :: x in Ids(t) ==> x < |a| && x < |b| && a[x] == b[x]
  {
    if t.Br? {
      LinkedDetermines(t.left, t.id, a, b);
      LinkedDetermines(t.right, t.id, a, b);
    }
  }

  /** The slots of a linked subtree are in the arena and hold its keys, in in-order. */
  lemma {:induction false} LinkedData(t: Tree, p: Ptr, nodes: seq<Node>)
    requires Linked(t, p, nodes)
    ensures |Ids(t)| == |Keys(t)|
    ensures forall j :: 0 <= j < |Ids(t)| ==> Ids(t)[j] < |nodes| && nodes[Ids(t)[j]].data == Keys(t)[j]
    ensures forall x :: x in Ids(t) ==> x < |nodes| && nodes[x].data in KeySet(t)
  {
    KeysMatchKeySet(t);
    if t.Br? {
      var l, i, r := t.left, t.id, t.right;
      LinkedData(l, i, nodes);
      LinkedData(r, i, nodes);
      var s, ks, n := Ids(t), Keys(t), |Ids(l)|;
      assert s == Ids(l) + [i] + Ids(r);
      assert ks == Keys(l) + [t.key] + Keys(r);
      forall j | 0 <= j < |s| ensures s[j] < |nodes| && nodes[s[j]].data == ks[j] {
        if j < n {
          assert s[j] == Ids(l)[j] && ks[j] == Keys(l)[j];
        } else if j > n {
          assert s[j] == Ids(r)[j - n - 1] && ks[j] == Keys(r)[j - n - 1];
        }
      }
      forall x | x in s ensures x < |nodes| && nodes[x].data in KeySet(t) {
        var j :| 0 <= j < |s| && s[j] == x;
        assert ks[j] in Keys(t);
      }
    }
  }

  /** The node at each slot of a linked subtree holds the key the subtree records there. */
  lemma {:induction false} LinkedKeyAt(t: Tree, p: Ptr, nodes: seq<Node>)
    requires Linked(t, p, nodes)
    ensures forall x :: x in Ids(t) ==> x < |nodes| && nodes[x].data == KeyAt(t, x)
  {
    if t.Br? {
      LinkedKeyAt(t.left, t.id, nodes);
      LinkedKeyAt(t.right, t.id, nodes);
    }
  }

  /** Hanging a rebuilt left subtree tl under t's root: the arena b differs from a only inside
      t.left or past a's end, and tl uses slots of t.left or fresh ones. */
  lemma AttachLeft(t: Tree, tl: Tree, p: Ptr, a: seq<Node>, b: seq<Node>)
    requires t.Br? && Linked(t, p, a) && Unique(t)
    requires Linked(tl, t.id, b) && |a| <= |b|
    requires forall x :: 0 <= x < |a| && x !in Ids(t.left) ==> b[x] == a[x]
    requires forall x :: x in Ids(tl) ==> x in Ids(t.left) || |a| <= x
    ensures Linked(Br(tl, t.id, t.key, t.right), p, b[t.id := b[t.id].(left := Top(tl))])
  {
    var c := b[t.id := b[t.id].(left := Top(tl))];
    LinkedFrame(tl, t.id, b, c);
    forall x | x in Ids(t.right) && x < |a| ensures x < |c| && c[x] == a[x] {
      assert x != t.id && x !in Ids(t.left);
    }
    LinkedFrame(t.right, t.id, a, c);
  }

  /** Hanging a rebuilt right subtree tr under t's root. */
  lemma AttachRight(t: Tree, tr: Tree, p: Ptr, a: seq<Node>, b: seq<Node>)
    requires t.Br? && Linked(t, p, a) && Unique(t)
    requires Linked(tr, t.id, b) && |a| <= |b|
    requires forall x :: 0 <= x < |a| && x !in Ids(t.right) ==> b[x] == a[x]
    requires forall x :: x in Ids(tr) ==> x in Ids(t.right) || |a| <= x
    ensures Linked(Br(t.left, t.id, t.key, tr), p, b[t.id := b[t.id].(right := Top(tr))])
  {
    var c := b[t.id := b[t.id].(right := Top(tr))];
    LinkedFrame(tr, t.id, b, c);
    forall x | x in Ids(t.left) && x < |a| ensures x < |c| && c[x] == a[x] {
      assert x != t.id && x !in Ids(t.right);
    }
    LinkedFrame(t.left, t.id, a, c);
  }

  /** Along a path from a node of the whole tree up to the root: the subtree hangs under the
      path's first frame, whose link to it is on the side the frame records. */
  lemma {:induction false} ParentStep(s: Tree, path: seq<Frame>, nodes: seq<Node>)
    requires Linked(Plug(s, path), Null, nodes) && Unique(Plug(s, path)) && s.Br?
    ensures Linked(s, ParentOf(path), nodes)
    ensures path != [] ==> Linked(Fill(path[0], s), ParentOf(path[1..]), nodes)
    ensures path != [] ==> (path[0].id < |nodes| &&
      (nodes[path[0].id].right == s.id <==> path[0].RightOf?) &&
      (nodes[path[0].id].left == s.id <==> path[0].LeftOf?))
    decreases |path|
  {
    if path != [] {
      var f := path[0];
      ParentStep(Fill(f, s), path[1..], nodes);
      PlugUnique(s, path);
      if f.LeftOf? {
        assert s.id in Ids(s);
        assert f.right.Br? ==> f.right.id in Ids(f.right);
      } else {
        assert s.id in Ids(s);
        assert f.left.Br? ==> f.left.id in Ids(f.left);
      }
    }
  }

  /** The collection: a root pointer, a separately kept element counter, and the node arena. */
  class CardList {
    var nodes: seq<Node>
    var root: Ptr
    var size: nat
    ghost var shape: Tree

    /** The object invariant: the arena holds a well-linked, ordered tree whose root is `root`
        and whose parent link is Null, and the counter is never below its number of nodes (it is
        above it after a repeated insert). */
    ghost predicate Valid()
      reads this
    {
      Top(shape) == root && Linked(shape, Null, nodes) && Unique(shape) && Ordered(shape) &&
      |Ids(shape)| <= size
    }

    /** The cards stored, as a set. */
    ghost function Contents(): set<Card>
      reads this
    {
      KeySet(shape)
    }

    /** The cards stored, in ascending in-order. */
    ghost function Elements(): seq<Card>
      reads this
    {
      Keys(shape)
    }

    /** The node pointers in in-order. */
    ghost function Order(): seq<nat>
      reads this
    {
      Ids(shape)
    }

    /** A pointer an iterator may hold: Null (the end) or a node of the tree. */
    ghost predicate IsPosition(p: Ptr)
      reads this
    {
      p == Null || p in Ids(shape)
    }

    constructor ()
      ensures Valid() && Contents() == {} && Order() == [] && size == 0 && root == Null
    {
      nodes, root, size := [], Null, 0;
      shape := Nil;
    }

    // ----- lookup -----

    /** findHelper: the node of subtree t holding card, or Null when there is none. */
    function FindHelper(node: Ptr, card: ValidCard, ghost t: Tree, ghost p: Ptr): (r: Ptr)
      reads this
      requires Linked(t, p, nodes) && Top(t) == node && Ordered(t)
      ensures r == Null <==> card !in KeySet(t)
      ensures r != Null ==> r in Ids(t) && r < |nodes| && nodes[r].data == card
      decreases t
    {
      if node == Null then Null
      else
        SearchStep(t, card);
        if Less(card, nodes[node].data) then FindHelper(nodes[node].left, card, t.left, node)
        else if Less(nodes[node].data, card) then FindHelper(nodes[node].right, card, t.right, node)
        else node
    }

    /** contains */
    function Contains(card: ValidCard): (b: bool)
      reads this
      requires Valid()
      ensures b <==> card in Contents()
    {
      FindHelper(root, card, shape, Null) != Null
    }

    /** find: an iterator at the node holding card, or the end iterator. */
    method Find(card: ValidCard) returns (it: Iterator)
      requires Valid()
      ensures fresh(it)
      ensures it.current == Null <==> card !in Contents()
      ensures it.current != Null ==> it.current in Order() && it.current < |nodes| && nodes[it.current].data == card
    {
      it := new Iterator(FindHelper(root, card, shape, Null));
    }

    /** findMin: the leftmost node of subtree t, which holds its least key. */
    method FindMin(node: Ptr, ghost t: Tree, ghost p: Ptr) returns (r: Ptr)
      requires Linked(t, p, nodes) && Top(t) == node
      ensures t.Nil? ==> r == Null
      ensures t.Br? ==> r == Ids(t)[0] && r < |nodes| && nodes[r].left == Null && nodes[r].data == MinKey(t)
    {
      if node == Null {
        return Null;
      }
      r := node;
      ghost var s, q := t, p;
      while nodes[r].left != Null
        invariant Linked(s, q, nodes) && s.Br? && s.id == r
        invariant Ids(s)[0] == Ids(t)[0]
        decreases s
      {
        r := nodes[r].left;
        q := s.id;
        s := s.left;
      }
      assert Ids(s) == [r] + Ids(s.right);
      LinkedData(t, p, nodes);
    }

    /** findMax: the rightmost node of subtree t, which holds its greatest key. */
    method FindMax(node: Ptr, ghost t: Tree, ghost p: Ptr) returns (r: Ptr)
      requires Linked(t, p, nodes) && Top(t) == node
      ensures t.Nil? ==> r == Null
      ensures t.Br? ==> r == Ids(t)[|Ids(t)| - 1] && r < |nodes| && nodes[r].right == Null && nodes[r].data == MaxKey(t)
    {
      if node == Null {
        return Null;
      }
      r := node;
      ghost var s, q := t, p;
      while nodes[r].right != Null
        invariant Linked(s, q, nodes) && s.Br? && s.id == r
        invariant Ids(s)[|Ids(s)| - 1] == Ids(t)[|Ids(t)| - 1]
        decreases s
      {
        r := nodes[r].right;
        q := s.id;
        s := s.right;
      }
      assert Ids(s) == Ids(s.left) + [r];
      LinkedData(t, p, nodes);
    }

    // ----- stepping -----

    /** findSuccessor: the node after `node` in in-order, or Null after the last one. */
    method FindSuccessor(node: Ptr) returns (r: Ptr)
      requires Valid() && IsPosition(node)
      ensures node == Null ==> r == Null
      ensures node != Null ==> r == NextAfter(Order(), node)
    {
      if node == Null {
        return Null;
      }
      ghost var s, path := Focus(shape, node);
      ParentStep(s, path, nodes);
      if nodes[node].right != Null {
        r := FindMin(nodes[node].right, s.right, node);
        NextIntoRight(s, path);
        return;
      }
      assert Ids(s) == Ids(s.left) + [node];
      var cur := node;
      while nodes[cur].parent != Null && cur == nodes[nodes[cur].parent].right
        invariant Plug(s, path) == shape && s.Br? && s.id == cur
        invariant Linked(s, ParentOf(path), nodes)
        invariant path != [] ==> (path[0].id < |nodes| && (nodes[path[0].id].right == cur <==> path[0].RightOf?) &&
          (nodes[path[0].id].left == cur <==> path[0].LeftOf?))
        invariant Ids(s)[|Ids(s)| - 1] == node
        decreases |path|
      {
        cur := nodes[cur].parent;
        FillEnds(path[0], s);
        s, path := Fill(path[0], s), path[1..];
        ParentStep(s, path, nodes);
      }
      r := nodes[cur].parent;
      if r == Null {
        EndsOfTree(shape);
      } else {
        NextUpFromLeft(s, path);
      }
    }

    /** findPredecessor: the node before `node` in in-order, or Null before the first one. */
    method FindPredecessor(node: Ptr) returns (r: Ptr)
      requires Valid() && IsPosition(node)
      ensures node == Null ==> r == Null
      ensures node != Null ==> r == PrevBefore(Order(), node)
    {
      if node == Null {
        return Null;
      }
      ghost var s, path := Focus(shape, node);
      ParentStep(s, path, nodes);
      if nodes[node].left != Null {
        r := FindMax(nodes[node].left, s.left, node);
        PrevIntoLeft(s, path);
        return;
      }
      assert Ids(s) == [node] + Ids(s.right);
      var cur := node;
      while nodes[cur].parent != Null && cur == nodes[nodes[cur].parent].left
        invariant Plug(s, path) == shape && s.Br? && s.id == cur
        invariant Linked(s, ParentOf(path), nodes)
        invariant path != [] ==> (path[0].id < |nodes| && (nodes[path[0].id].right == cur <==> path[0].RightOf?) &&
          (nodes[path[0].id].left == cur <==> path[0].LeftOf?))
        invariant Ids(s)[0] == node
        decreases |path|
      {
        cur := nodes[cur].parent;
        FillEnds(path[0], s);
        s, path := Fill(path[0], s), path[1..];
        ParentStep(s, path, nodes);
      }
      r := nodes[cur].parent;
      if r == Null {
        EndsOfTree(shape);
      } else {
        PrevUpFromRight(s, path);
      }
    }

    /** The step of a forward iterator's operator++ (and a reverse iterator's operator--) from a
        node: down to the leftmost node of the right subtree, or up past every ancestor reached
        from its right. */
    method Advance(node: Ptr) returns (r: Ptr)
      requires Valid() && node != Null && node in Order()
      ensures r == NextAfter(Order(), node)
    {
      ghost var s, path := Focus(shape, node);
      ParentStep(s, path, nodes);
      if nodes[node].right != Null {
        r := FindMin(nodes[node].right, s.right, node);
        NextIntoRight(s, path);
      } else {
        assert Ids(s) == Ids(s.left) + [node];
        var prev := node;
        r := nodes[node].parent;
        while r != Null && prev == nodes[r].right
          invariant Plug(s, path) == shape && s.Br? && s.id == prev
          invariant Linked(s, ParentOf(path), nodes) && r == ParentOf(path)
          invariant path != [] ==> (path[0].id < |nodes| && (nodes[path[0].id].right == prev <==> path[0].RightOf?) &&
            (nodes[path[0].id].left == prev <==> path[0].LeftOf?))
          invariant Ids(s)[|Ids(s)| - 1] == node
          decreases |path|
        {
          prev := r;
          r := nodes[r].parent;
          FillEnds(path[0], s);
          s, path := Fill(path[0], s), path[1..];
          ParentStep(s, path, nodes);
        }
        if r == Null {
          EndsOfTree(shape);
        } else {
          NextUpFromLeft(s, path);
        }
      }
    }

    /** The step of a forward iterator's operator-- (and a reverse iterator's operator++). */
    method Retreat(node: Ptr) returns (r: Ptr)
      requires Valid() && node != Null && node in Order()
      ensures r == PrevBefore(Order(), node)
    {
      ghost var s, path := Focus(shape, node);
      ParentStep(s, path, nodes);
      if nodes[node].left != Null {
        r := FindMax(nodes[node].left, s.left, node);
        PrevIntoLeft(s, path);
      } else {
        assert Ids(s) == [node] + Ids(s.right);
        var prev := node;
        r := nodes[node].parent;
        while r != Null && prev == nodes[r].left
          invariant Plug(s, path) == shape && s.Br? && s.id == prev
          invariant Linked(s, ParentOf(path), nodes) && r == ParentOf(path)
          invariant path != [] ==> (path[0].id < |nodes| && (nodes[path[0].id].right == prev <==> path[0].RightOf?) &&
            (nodes[path[0].id].left == prev <==> path[0].LeftOf?))
          invariant Ids(s)[0] == node
          decreases |path|
        {
          prev := r;
          r := nodes[r].parent;
          FillEnds(path[0], s);
          s, path := Fill(path[0], s), path[1..];
          ParentStep(s, path, nodes);
        }
        if r == Null {
          EndsOfTree(shape);
        } else {
          PrevUpFromRight(s, path);
        }
      }
    }

    // ----- iterators -----

    /** begin: an iterator at the least card, or the end iterator on an empty list. */
    method Begin() returns (it: Iterator)
      requires Valid()
      ensures fresh(it)
      ensures it.current == if Order() == [] then Null else Order()[0]
    {
      var n := FindMin(root, shape, Null);
      it := new Iterator(n);
    }

    /** end: the iterator past the greatest card. */
    method End() returns (it: Iterator)
      ensures fresh(it) && it.current == Null
    {
      it := new Iterator(Null);
    }

    /** rbegin: a reverse iterator at the greatest card, or rend on an empty list. */
    method RBegin() returns (it: ReverseIterator)
      requires Valid()
      ensures fresh(it)
      ensures it.current == if Order() == [] then Null else Order()[|Order()| - 1]
    {
      var n := FindMax(root, shape, Null);
      it := new ReverseIterator(n);
    }

    /** rend: the reverse iterator past the least card. */
    method REnd() returns (it: ReverseIterator)
      ensures fresh(it) && it.current == Null
    {
      it := new ReverseIterator(Null);
    }

    // ----- counter -----

    /** empty: reads the counter, so it answers true only when no card is stored. */
    function Empty(): (b: bool)
      reads this
      requires Valid()
      ensures b ==> Contents() == {} && Order() == []
    {
      size == 0
    }

    /** getSize: the counter, which is at least the number of nodes. */
    function GetSize(): (n: nat)
      reads this
      requires Valid()
      ensures |Order()| <= n
    {
      size
    }

    // ----- what iteration sees -----

    /** In-order traversal lists each stored card once, in strictly ascending order, and the
        node at each in-order position holds the card at that position. */
    lemma ElementsSorted()
      requires Valid()
      ensures |Elements()| == |Order()|
      ensures forall i, j :: 0 <= i < j < |Elements()| ==> Less(Elements()[i], Elements()[j])
      ensures forall c :: c in Elements() <==> c in Contents()
      ensures forall j :: 0 <= j < |Order()| ==> Order()[j] < |nodes| && nodes[Order()[j]].data == Elements()[j]
    {
      KeysMatchKeySet(shape);
      OrderedKeysIncrease(shape);
      LinkedData(shape, Null, nodes);
    }

    /** The successor of the node at in-order position j is the node at position j + 1 (Null
        after the last), and its predecessor the one at j - 1 (Null before the first). */
    lemma StepIsNextPosition(j: nat)
      requires Valid() && j < |Order()|
      ensures NextAfter(Order(), Order()[j]) == if j + 1 < |Order()| then Order()[j + 1] else Null
      ensures PrevBefore(Order(), Order()[j]) == if j > 0 then Order()[j - 1] else Null
    {
      UniqueIsDistinct(shape);
      if j + 1 < |Order()| {
        NextAt(Order(), j);
      } else {
        NextAtLast(Order());
      }
      if j > 0 {
        PrevAt(Order(), j - 1);
      } else {
        PrevAtFirst(Order());
      }
    }

    /** Deleting the card held at node w can free no node but w and its in-order successor:
        every node before w holds a smaller card, and every node after the successor holds a
        card above the successor's. */
    lemma EraseSpares(w: nat)
      requires Valid() && w in Order()
      ensures w < |nodes|
      ensures forall x :: x in Order() && x != w && x != NextAfter(Order(), w) ==>
        x in Ids(EraseT(shape, nodes[w].data))
    {
      var s, ks := Order(), Elements();
      ElementsSorted();
      UniqueIsDistinct(shape);
      LinkedKeyAt(shape, Null, nodes);
      var k := nodes[w].data;
      EraseKeepsBelow(shape, k);
      EraseKeepsAbove(shape, k);
      var jw :| 0 <= jw < |s| && s[jw] == w;
      forall x | x in s && x != w && x != NextAfter(s, w) ensures x in Ids(EraseT(shape, k)) {
        var jx :| 0 <= jx < |s| && s[jx] == x;
        assert KeyAt(shape, x) == ks[jx];
        if jx < jw {
          assert Less(ks[jx], ks[jw]);
        } else {
          NextAt(s, jw);
          assert jx > jw + 1;
          assert Less(ks[jw], ks[jw + 1]) && Less(ks[jw + 1], ks[jx]);
          assert ks[jw + 1] in Contents();
        }
      }
    }

    // ----- mutation -----

    /** insertHelper: insert card into subtree t hanging under `parent`, returning the new root
        of that subtree; a new node goes to the next free slot of the arena. */
    method InsertHelper(node: Ptr, card: ValidCard, parent: Ptr, ghost t: Tree) returns (r: Ptr, ghost t': Tree)
      requires Linked(t, parent, nodes) && Top(t) == node && Unique(t) && Ordered(t)
      modifies this`nodes
      ensures t' == InsertT(t, card, old(|nodes|))
      ensures Top(t') == r && Linked(t', parent, nodes)
      ensures card in KeySet(t) ==> |nodes| == old(|nodes|)
      ensures card !in KeySet(t) ==> (|nodes| == old(|nodes|) + 1 &&
        nodes[old(|nodes|)].data == card && nodes[old(|nodes|)].left == Null && nodes[old(|nodes|)].right == Null)
      ensures forall x :: 0 <= x < old(|nodes|) && x !in Ids(t) ==> nodes[x] == old(nodes[x])
      decreases t
    {
      TopIsNull(t);
      if node == Null {
        nodes := nodes + [Node(card, Null, Null, parent)];
        r := |nodes| - 1;
        t' := Br(Nil, r, card, Nil);
        return;
      }
      ghost var before := nodes;
      ghost var n := |nodes|;
      SearchStep(t, card);
      LinkedData(t.left, node, nodes);
      LinkedData(t.right, node, nodes);
      var k := nodes[node].data;
      if Less(card, k) {
        var l;
        ghost var tl;
        l, tl := InsertHelper(nodes[node].left, card, node, t.left);
        InsertSlots(t.left, card, n);
        if card in KeySet(t.left) {
          InsertPresent(t.left, card, n);
        }
        AttachLeft(t, tl, parent, before, nodes);
        nodes := nodes[node := nodes[node].(left := l)];
        r, t' := node, Br(tl, node, t.key, t.right);
        forall x | 0 <= x < n && x !in Ids(t) ensures nodes[x] == before[x] {
          assert x !in Ids(t.left) && x != node;
        }
      } else if Less(k, card) {
        var rr;
        ghost var tr;
        rr, tr := InsertHelper(nodes[node].right, card, node, t.right);
        InsertSlots(t.right, card, n);
        if card in KeySet(t.right) {
          InsertPresent(t.right, card, n);
        }
        AttachRight(t, tr, parent, before, nodes);
        nodes := nodes[node := nodes[node].(right := rr)];
        r, t' := node, Br(t.left, node, t.key, tr);
        forall x | 0 <= x < n && x !in Ids(t) ensures nodes[x] == before[x] {
          assert x !in Ids(t.right) && x != node;
        }
      } else {
        r, t' := node, t;
      }
    }

    /** insert: add card unless an equal card is stored; the counter goes up by one either way. */
    method Insert(card: ValidCard)
      requires Valid()
      modifies this
      ensures Valid()
      ensures Contents() == old(Contents()) + {card}
      ensures size == old(size) + 1
      ensures card in old(Contents()) ==> nodes == old(nodes) && root == old(root) && Order() == old(Order())
      ensures card !in old(Contents()) ==> |Order()| == |old(Order())| + 1
      ensures forall x :: x in old(Order()) ==>
        x < old(|nodes|) && x < |nodes| && x in Order() && nodes[x].data == old(nodes[x].data)
    {
      ghost var t := shape;
      LinkedData(t, Null, nodes);
      LinkedKeyAt(t, Null, nodes);
      var r;
      ghost var t';
      r, t' := InsertHelper(root, card, Null, t);
      InsertKeys(t, card, old(|nodes|));
      InsertOrdered(t, card, old(|nodes|));
      InsertSlots(t, card, old(|nodes|));
      InsertKeepsKeys(t, card, old(|nodes|));
      LinkedKeyAt(t', Null, nodes);
      if card in KeySet(t) {
        InsertPresent(t, card, old(|nodes|));
        LinkedDetermines(t, Null, old(nodes), nodes);
        assert nodes == old(nodes);
      }
      root := r;
      size := size + 1;
      shape := t';
    }

    /** erase: remove card when it is stored, counting down by one; otherwise nothing changes. */
    method Erase(card: ValidCard)
      requires Valid()
      modifies this
      ensures Valid()
      ensures Contents() == old(Contents()) - {card}
      ensures card in old(Contents()) ==> size == old(size) - 1 && |Order()| == |old(Order())| - 1
      ensures card !in old(Contents()) ==> size == old(size) && nodes == old(nodes) && root == old(root) && shape == old(shape)
      ensures |nodes| == old(|nodes|)
      ensures forall x :: x in Order() ==>
        x in old(Order()) && x < |nodes| && (old(nodes[x].data) != card ==> nodes[x].data == old(nodes[x].data))
      ensures forall w, x :: w in old(Order()) && x in old(Order()) ==>
        w < old(|nodes|) && (old(nodes[w].data) == card && x != w && x != NextAfter(old(Order()), w) ==> x in Order())
    {
      LinkedKeyAt(shape, Null, nodes);
      forall w | w in Order() && nodes[w].data == card {
        EraseSpares(w);
      }
      if FindHelper(root, card, shape, Null) != Null {
        ghost var t := shape;
        var r;
        ghost var t';
        r, t' := EraseHelper(root, card, t, Null);
        EraseKeys(t, card);
        EraseSlots(t, card);
        EraseKeepsKeys(t, card);
        LinkedKeyAt(t', Null, nodes);
        root := r;
        size := size - 1;
        shape := t';
      }
    }

    /** erase(Iterator): remove the card under the iterator; a no-op at the end. */
    method EraseAt(it: Iterator)
      requires Valid() && IsPosition(it.current)
      modifies this
      ensures Valid()
      ensures old(it.current) == Null ==> nodes == old(nodes) && root == old(root) && size == old(size) && shape == old(shape)
      ensures old(it.current) != Null ==>
        old(it.current) < old(|nodes|) && Contents() == old(Contents()) - {old(nodes[it.current].data)} &&
        size == old(size) - 1 && |Order()| == |old(Order())| - 1
      ensures |nodes| == old(|nodes|)
      ensures old(it.current) != Null ==> forall x :: x in Order() ==>
        x in old(Order()) && x < |nodes| &&
        (old(nodes[x].data) != old(nodes[it.current].data) ==> nodes[x].data == old(nodes[x].data))
      ensures old(it.current) != Null ==> forall x :: x in old(Order()) ==>
        x == old(it.current) || x == NextAfter(old(Order()), old(it.current)) || x in Order()
    {
      if it.current != Null {
        LinkedData(shape, Null, nodes);
        Erase(it.Deref(this));
      }
    }

    /** eraseHelper: delete card from subtree t hanging under p, returning the new root of that
        subtree; the node found is removed by RemoveNode. */
    method EraseHelper(node: Ptr, card: ValidCard, ghost t: Tree, ghost p: Ptr) returns (r: Ptr, ghost t': Tree)
      requires Linked(t, p, nodes) && Top(t) == node && Unique(t) && Ordered(t)
      modifies this`nodes
      ensures t' == EraseT(t, card)
      ensures Top(t') == r && Linked(t', p, nodes)
      ensures |nodes| == old(|nodes|)
      ensures forall x :: 0 <= x < |nodes| && x !in Ids(t) ==> nodes[x] == old(nodes[x])
      decreases t, 2
    {
      if node == Null {
        return Null, Nil;
      }
      ghost var before := nodes;
      SearchStep(t, card);
      var n := nodes[node];
      assert n == Node(t.key, Top(t.left), Top(t.right), p);
      if Less(card, n.data) {
        var l;
        ghost var tl;
        l, tl := EraseHelper(n.left, card, t.left, node);
        EraseSlots(t.left, card);
        AttachLeft(t, tl, p, before, nodes);
        nodes := nodes[node := nodes[node].(left := l)];
        if l != Null {
          RelinkSame(tl, node, nodes);
          nodes := nodes[l := nodes[l].(parent := node)];
        }
        r, t' := node, Br(tl, node, t.key, t.right);
        forall x | 0 <= x < |nodes| && x !in Ids(t) ensures nodes[x] == before[x] {
          assert x !in Ids(t.left) && x != node;
        }
      } else if Less(n.data, card) {
        var rr;
        ghost var tr;
        rr, tr := EraseHelper(n.right, card, t.right, node);
        EraseSlots(t.right, card);
        AttachRight(t, tr, p, before, nodes);
        nodes := nodes[node := nodes[node].(right := rr)];
        if rr != Null {
          RelinkSame(tr, node, nodes);
          nodes := nodes[rr := nodes[rr].(parent := node)];
        }
        r, t' := node, Br(t.left, node, t.key, tr);
        forall x | 0 <= x < |nodes| && x !in Ids(t) ensures nodes[x] == before[x] {
          assert x !in Ids(t.right) && x != node;
        }
      } else {
        r, t' := RemoveNode(node, t, p);
      }
    }

    /** The part of eraseHelper that removes the node it found, in the four cases of that node:
        no child, only a right child, only a left child, and two children, where it takes the
        least card of its right subtree (its in-order successor's) and that card is deleted
        from the right subtree. */
    method RemoveNode(node: Ptr, ghost t: Tree, ghost p: Ptr) returns (r: Ptr, ghost t': Tree)
      requires Linked(t, p, nodes) && t.Br? && Top(t) == node && Unique(t) && Ordered(t)
      modifies this`nodes
      ensures t' == EraseT(t, t.key)
      ensures Top(t') == r && Linked(t', p, nodes)
      ensures |nodes| == old(|nodes|)
      ensures forall x :: 0 <= x < |nodes| && x !in Ids(t) ==> nodes[x] == old(nodes[x])
      decreases t, 1
    {
      LessIsStrictTotalOrder(t.key, t.key, t.key);
      var n := nodes[node];
      assert n == Node(t.key, Top(t.left), Top(t.right), p);
      if n.left == Null && n.right == Null {
        r, t' := Null, Nil;
        EraseAtRoot(t, t.key);
      } else if n.left == Null {
        TopIsNull(t.left);
        var temp := n.right;
        LinkedReparent(t.right, node, n.parent, nodes);
        nodes := nodes[temp := nodes[temp].(parent := n.parent)];
        r, t' := temp, t.right;
        EraseAtRoot(t, t.key);
      } else if n.right == Null {
        TopIsNull(t.right);
        var temp := n.left;
        LinkedReparent(t.left, node, n.parent, nodes);
        nodes := nodes[temp := nodes[temp].(parent := n.parent)];
        r, t' := temp, t.left;
        EraseAtRoot(t, t.key);
      } else {
        TopIsNull(t.left);
        TopIsNull(t.right);
        r, t' := ReplaceBySuccessor(node, t, p);
      }
    }

    /** The two-children case of eraseHelper: the node takes the least card of its right subtree,
        its in-order successor's, and that card is deleted from the right subtree. */
    method ReplaceBySuccessor(node: Ptr, ghost t: Tree, ghost p: Ptr) returns (r: Ptr, ghost t': Tree)
      requires Linked(t, p, nodes) && t.Br? && Top(t) == node && Unique(t) && Ordered(t)
      requires t.left.Br? && t.right.Br?
      modifies this`nodes
      ensures t' == EraseT(t, t.key)
      ensures Top(t') == r && Linked(t', p, nodes)
      ensures |nodes| == old(|nodes|)
      ensures forall x :: 0 <= x < |nodes| && x !in Ids(t) ==> nodes[x] == old(nodes[x])
      decreases t, 0
    {
      ghost var before := nodes;
      LessIsStrictTotalOrder(t.key, t.key, t.key);
      var succ := FindMin(nodes[node].right, t.right, node);
      var m := nodes[succ].data;
      nodes := nodes[node := nodes[node].(data := m)];
      LinkedFrame(t.right, node, before, nodes);
      LinkedFrame(t.left, node, before, nodes);
      ghost var t2, mid := Br(t.left, node, m, t.right), nodes;
      var rr;
      ghost var tr;
      rr, tr := EraseHelper(nodes[node].right, m, t.right, node);
      EraseSlots(t.right, m);
      AttachRight(t2, tr, p, mid, nodes);
      nodes := nodes[node := nodes[node].(right := rr)];
      if rr != Null {
        RelinkSame(tr, node, nodes);
        nodes := nodes[rr := nodes[rr].(parent := node)];
      }
      r, t' := node, Br(t.left, node, m, tr);
      forall x | 0 <= x < |nodes| && x !in Ids(t) ensures nodes[x] == before[x] {
        assert x !in Ids(t.right) && x != node;
      }
    }
  }

  /** Inserting a card twice counts it twice, so after erasing it once the list holds no card
      while empty() still answers false and getSize() answers 1. */
  method DuplicateInsertThenErase() returns (list: CardList)
    ensures list.Valid() && list.Contents() == {} && list.Order() == []
    ensures !list.Empty() && list.GetSize() == 1
  {
    var c := Card('c', "3");
    list := new CardList();
    list.Insert(c);
    list.Insert(c);
    list.Erase(c);
  }

  /** A forward iterator: a pointer to the current node, Null being the end. */
  class Iterator {
    var current: Ptr

    constructor (node: Ptr)
      ensures current == node
    {
      current := node;
    }

    /** operator++: on to the next larger card, or to the end after the greatest; a no-op at the
        end. */
    method Increment(list: CardList)
      requires list.Valid() && list.IsPosition(current)
      modifies this
      ensures current == if old(current) == Null then Null else NextAfter(list.Order(), old(current))
    {
      if current == Null {
        return;
      }
      current := list.Advance(current);
    }

    /** operator--: back to the next smaller card, or to Null before the least; a no-op at the
        end. */
    method Decrement(list: CardList)
      requires list.Valid() && list.IsPosition(current)
      modifies this
      ensures current == if old(current) == Null then Null else PrevBefore(list.Order(), old(current))
    {
      if current == Null {
        return;
      }
      current := list.Retreat(current);
    }

    /** operator*: the card at the current node, which is the card at the same in-order position. */
    function Deref(list: CardList): (c: ValidCard)
      reads this, list
      requires list.Valid() && current != Null && current in list.Order()
      ensures c in list.Contents()
      ensures |list.Order()| == |list.Elements()|
      ensures forall j :: 0 <= j < |list.Order()| && list.Order()[j] == current ==> c == list.Elements()[j]
    {
      LinkedData(list.shape, Null, list.nodes);
      list.nodes[current].data
    }

    /** operator==: the same node (or both at the end). */
    function Equals(other: Iterator): (b: bool)
      reads this, other
    {
      current == other.current
    }

    /** operator!=: exactly when operator== fails. */
    function NotEquals(other: Iterator): (b: bool)
      reads this, other
      ensures b <==> !Equals(other)
    {
      current != other.current
    }
  }

  /** A reverse iterator: a pointer to the current node, Null being rend. */
  class ReverseIterator {
    var current: Ptr

    constructor (node: Ptr)
      ensures current == node
    {
      current := node;
    }

    /** operator++: on to the next smaller card, or to rend after the least. */
    method Increment(list: CardList)
      requires list.Valid() && list.IsPosition(current)
      modifies this
      ensures current == if old(current) == Null then Null else PrevBefore(list.Order(), old(current))
    {
      if current == Null {
        return;
      }
      current := list.Retreat(current);
    }

    /** operator--: back to the next larger card. */
    method Decrement(list: CardList)
      requires list.Valid() && list.IsPosition(current)
      modifies this
      ensures current == if old(current) == Null then Null else NextAfter(list.Order(), old(current))
    {
      if current == Null {
        return;
      }
      current := list.Advance(current);
    }

    function Deref(list: CardList): (c: ValidCard)
      reads this, list
      requires list.Valid() && current != Null && current in list.Order()
      ensures c in list.Contents()
      ensures |list.Order()| == |list.Elements()|
      ensures forall j :: 0 <= j < |list.Order()| && list.Order()[j] == current ==> c == list.Elements()[j]
    {
      LinkedData(list.shape, Null, list.nodes);
      list.nodes[current].data
    }

    function Equals(other: ReverseIterator): (b: bool)
      reads this, other
    {
      current == other.current
    }

    function NotEquals(other: ReverseIterator): (b: bool)
      reads this, other
      ensures b <==> !Equals(other)
    {
      current != other.current
    }
  }
}
