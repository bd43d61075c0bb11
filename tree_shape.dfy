// The ghost picture of a card tree: its shape, the arena slot of every node and the key it
// holds, with the pure effect of insertion and deletion on that picture, and the in-order
// neighbour relation that successor and predecessor steps follow.

module TreeShape {
  import opened Cards

  /** The null pointer of the arena. */
  const Null: int := -1

  /** A subtree: every branch names the arena slot `id` of its node and the key stored there. */
  datatype Tree = Nil | Br(left: Tree, id: nat, key: ValidCard, right: Tree)

  /** The pointer to the root node of t (Null for the empty subtree). */
  function Top(t: Tree): int {
    if t.Nil? then Null else t.id
  }

  /** Only the empty subtree has the null root pointer. */
  lemma TopIsNull(t: Tree)
    ensures Top(t) == Null <==> t.Nil?
  {
  }

  /** The node slots of t in in-order. */
  ghost function Ids(t: Tree): seq<nat> {
    match t
    case Nil => []
    case Br(l, i, _, r) => Ids(l) + [i] + Ids(r)
  }

  /** The keys of t in in-order. */
  ghost function Keys(t: Tree): seq<ValidCard> {
    match t
    case Nil => []
    case Br(l, _, k, r) => Keys(l) + [k] + Keys(r)
  }

  ghost function KeySet(t: Tree): set<ValidCard> {
    match t
    case Nil => {}
    case Br(l, _, k, r) => KeySet(l) + {k} + KeySet(r)
  }

  /** The key stored at slot x of t (the first occurrence, should x occur twice). */
  ghost function KeyAt(t: Tree, x: nat): ValidCard
    requires x in Ids(t)
  {
    if x == t.id then t.key else if x in Ids(t.left) then KeyAt(t.left, x) else KeyAt(t.right, x)
  }

  /** No node slot occurs twice in t. */
  ghost predicate Unique(t: Tree) {
    match t
    case Nil => true
    case Br(l, i, _, r) =>
      Unique(l) && Unique(r) && i !in Ids(l) && i !in Ids(r) &&
      forall x :: x in Ids(l) ==> x !in Ids(r)
  }

  /** The binary-search-tree ordering: left keys below, right keys above every node's key. */
  ghost predicate Ordered(t: Tree) {
    match t
    case Nil => true
    case Br(l, _, k, r) =>
      Ordered(l) && Ordered(r) &&
      (forall c :: c in KeySet(l) ==> Less(c, k)) &&
      (forall c :: c in KeySet(r) ==> Less(k, c))
  }

  ghost predicate Distinct(s: seq<nat>) {
    forall a, b :: 0 <= a < b < |s| ==> s[a] != s[b]
  }

  /** The least key of a non-empty subtree, which deletion copies into a node with two children. */
  ghost function MinKey(t: Tree): ValidCard
    requires t.Br?
  {
    Keys(t)[0]
  }

  /** The greatest key of a non-empty subtree. */
  ghost function MaxKey(t: Tree): ValidCard
    requires t.Br?
  {
    Keys(t)[|Keys(t)| - 1]
  }

  /** The tree after inserting k, a new node going to slot n: a tie leaves the tree as it is. */
  ghost function InsertT(t: Tree, k: ValidCard, n: nat): Tree {
    match t
    case Nil => Br(Nil, n, k, Nil)
    case Br(l, i, key, r) =>
      if Less(k, key) then Br(InsertT(l, k, n), i, key, r)
      else if Less(key, k) then Br(l, i, key, InsertT(r, k, n))
      else t
  }

  /** The tree after deleting k: a leaf goes, a single child is promoted, and a node with two
      children takes the least key of its right subtree, which is then deleted from there. */
  ghost function EraseT(t: Tree, k: ValidCard): Tree {
    match t
    case Nil => Nil
    case Br(l, i, key, r) =>
      if Less(k, key) then Br(EraseT(l, k), i, key, r)
      else if Less(key, k) then Br(l, i, key, EraseT(r, k))
      else if l.Nil? && r.Nil? then Nil
      else if l.Nil? then r
      else if r.Nil? then l
      else Br(l, i, MinKey(r), EraseT(r, MinKey(r)))
  }

  /** Erasing the key at the root of a subtree with at most one child leaves that child. */
  lemma EraseAtRoot(t: Tree, k: ValidCard)
    requires t.Br? && !Less(k, t.key) && !Less(t.key, k) && (t.left.Nil? || t.right.Nil?)
    ensures EraseT(t, k) == if t.left.Nil? then t.right else t.left
  {
  }

  // ----- keys and slots -----

  lemma {:induction false} KeysMatchKeySet(t: Tree)
    ensures |Keys(t)| == |Ids(t)|
    ensures forall c :: c in Keys(t) <==> c in KeySet(t)
  {
    if t.Br? {
      KeysMatchKeySet(t.left);
      KeysMatchKeySet(t.right);
    }
  }

  /** In an ordered tree the in-order keys strictly increase. */
  lemma {:induction false} OrderedKeysIncrease(t: Tree)
    requires Ordered(t)
    ensures forall a, b :: 0 <= a < b < |Keys(t)| ==> Less(Keys(t)[a], Keys(t)[b])
  {
    if t.Br? {
      var l, k, r := t.left, t.key, t.right;
      OrderedKeysIncrease(l);
      OrderedKeysIncrease(r);
      KeysMatchKeySet(l);
      KeysMatchKeySet(r);
      var s, kl, kr := Keys(t), Keys(l), Keys(r);
      forall a, b | 0 <= a < b < |s| ensures Less(s[a], s[b]) {
        var n := |kl|;
        if b < n {
          PartsAt(kl, [k], kr, a);
          PartsAt(kl, [k], kr, b);
        } else if a > n {
          PartsAt(kl, [k], kr, a - n - 1);
          PartsAt(kl, [k], kr, b - n - 1);
        } else if a == n {
          PartsAt(kl, [k], kr, 0);
          PartsAt(kl, [k], kr, b - n - 1);
          assert s[b] in KeySet(r);
        } else if b == n {
          PartsAt(kl, [k], kr, a);
          PartsAt(kl, [k], kr, 0);
          assert s[a] in KeySet(l);
        } else {
          PartsAt(kl, [k], kr, a);
          PartsAt(kl, [k], kr, b - n - 1);
          assert s[a] in KeySet(l) && s[b] in KeySet(r);
          LessIsStrictTotalOrder(s[a], k, s[b]);
        }
      }
    }
  }

  /** The key MinKey picks is below every other key of the subtree. */
  lemma MinKeyIsLeast(t: Tree)
    requires t.Br? && Ordered(t)
    ensures MinKey(t) in KeySet(t)
    ensures forall c :: c in KeySet(t) && c != MinKey(t) ==> Less(MinKey(t), c)
  {
    OrderedKeysIncrease(t);
    KeysMatchKeySet(t);
    var s := Keys(t);
    forall c | c in KeySet(t) && c != MinKey(t) ensures Less(MinKey(t), c) {
      var j :| 0 <= j < |s| && s[j] == c;
      assert j > 0;
    }
  }

  /** The key MaxKey picks is above every other key of the subtree. */
  lemma MaxKeyIsGreatest(t: Tree)
    requires t.Br? && Ordered(t)
    ensures MaxKey(t) in KeySet(t)
    ensures forall c :: c in KeySet(t) && c != MaxKey(t) ==> Less(c, MaxKey(t))
  {
    OrderedKeysIncrease(t);
    KeysMatchKeySet(t);
    var s := Keys(t);
    forall c | c in KeySet(t) && c != MaxKey(t) ensures Less(c, MaxKey(t)) {
      var j :| 0 <= j < |s| && s[j] == c;
      var last := |s| - 1;
      assert s[last] == MaxKey(t) && j != last;
      assert Less(s[j], s[last]);
    }
  }

  /** One search step: a key below the node's key can only be on the left, one above only on the
      right, and a key neither below nor above is the node's own. */
  lemma SearchStep(t: Tree, k: ValidCard)
    requires t.Br? && Ordered(t)
    ensures Less(k, t.key) ==> (k in KeySet(t) <==> k in KeySet(t.left))
    ensures Less(t.key, k) ==> (k in KeySet(t) <==> k in KeySet(t.right))
    ensures !Less(k, t.key) && !Less(t.key, k) ==> k == t.key
  {
    LessIsStrictTotalOrder(k, t.key, k);
  }

  /** A tree without repeated slots lists each slot once in in-order. */
  lemma {:induction false} UniqueIsDistinct(t: Tree)
    requires Unique(t)
    ensures Distinct(Ids(t))
  {
    if t.Br? {
      UniqueIsDistinct(t.left);
      UniqueIsDistinct(t.right);
      var s, sl, sr := Ids(t), Ids(t.left), Ids(t.right);
      assert s == sl + [t.id] + sr;
      forall a, b | 0 <= a < b < |s| ensures s[a] != s[b] {
        var n := |sl|;
        if b < n {
          assert s[a] == sl[a] && s[b] == sl[b];
        } else if a > n {
          assert s[a] == sr[a - n - 1] && s[b] == sr[b - n - 1];
        } else if a == n {
          assert s[b] == sr[b - n - 1] && s[b] in sr;
        } else if b == n {
          assert s[a] == sl[a] && s[a] in sl;
        } else {
          assert s[a] == sl[a] && s[b] == sr[b - n - 1];
          assert s[a] in sl && s[b] in sr;
        }
      }
    }
  }

  // ----- insertion -----

  /** Inserting adds exactly k to the key set. */
  lemma {:induction false} InsertKeys(t: Tree, k: ValidCard, n: nat)
    ensures KeySet(InsertT(t, k, n)) == KeySet(t) + {k}
  {
    match t
    case Nil =>
    case Br(l, i, key, r) =>
      LessIsStrictTotalOrder(k, key, key);
      if Less(k, key) {
        InsertKeys(l, k, n);
      } else if Less(key, k) {
        InsertKeys(r, k, n);
      }
  }

  /** Inserting keeps the search-tree ordering. */
  lemma {:induction false} InsertOrdered(t: Tree, k: ValidCard, n: nat)
    requires Ordered(t)
    ensures Ordered(InsertT(t, k, n))
  {
    match t
    case Nil =>
    case Br(l, i, key, r) =>
      if Less(k, key) {
        InsertOrdered(l, k, n);
        InsertKeys(l, k, n);
      } else if Less(key, k) {
        InsertOrdered(r, k, n);
        InsertKeys(r, k, n);
      }
  }

  /** Inserting a key already present changes nothing. */
  lemma {:induction false} InsertPresent(t: Tree, k: ValidCard, n: nat)
    requires Ordered(t) && k in KeySet(t)
    ensures InsertT(t, k, n) == t
  {
    match t
    case Nil =>
    case Br(l, i, key, r) =>
      if Less(k, key) {
        if k in KeySet(r) {
          LessIsStrictTotalOrder(k, key, key);
        }
        InsertPresent(l, k, n);
      } else if Less(key, k) {
        if k in KeySet(l) {
          LessIsStrictTotalOrder(k, key, key);
        }
        InsertPresent(r, k, n);
      }
  }

  /** Inserting an absent key adds the one slot n, as a leaf; no slot is repeated. */
  lemma {:induction false} InsertSlots(t: Tree, k: ValidCard, n: nat)
    requires Unique(t) && n !in Ids(t)
    ensures Unique(InsertT(t, k, n))
    ensures forall x :: x in Ids(InsertT(t, k, n)) ==> x in Ids(t) || x == n
    ensures k !in KeySet(t) ==> |Ids(InsertT(t, k, n))| == |Ids(t)| + 1
    ensures k in KeySet(t) ==> |Ids(InsertT(t, k, n))| <= |Ids(t)| + 1
  {
    match t
    case Nil =>
    case Br(l, i, key, r) =>
      if Less(k, key) {
        InsertSlots(l, k, n);
      } else if Less(key, k) {
        InsertSlots(r, k, n);
      } else {
        LessIsStrictTotalOrder(k, key, key);
      }
  }

  /** Inserting moves no node: every slot stays in the tree and keeps its key. */
  lemma {:induction false} InsertKeepsKeys(t: Tree, k: ValidCard, n: nat)
    requires Unique(t) && n !in Ids(t)
    ensures forall x :: x in Ids(t) ==> x in Ids(InsertT(t, k, n)) && KeyAt(InsertT(t, k, n), x) == KeyAt(t, x)
  {
    match t
    case Nil =>
    case Br(l, i, key, r) =>
      if Less(k, key) {
        InsertKeepsKeys(l, k, n);
        InsertSlots(l, k, n);
      } else if Less(key, k) {
        InsertKeepsKeys(r, k, n);
        InsertSlots(r, k, n);
      }
  }

  // ----- deletion -----

  /** Deleting an absent key changes nothing. */
  lemma {:induction false} EraseAbsent(t: Tree, k: ValidCard)
    requires k !in KeySet(t)
    ensures EraseT(t, k) == t
  {
    match t
    case Nil =>
    case Br(l, i, key, r) =>
      LessIsStrictTotalOrder(k, key, key);
      if Less(k, key) {
        EraseAbsent(l, k);
      } else {
        EraseAbsent(r, k);
      }
  }

  /** Deleting removes exactly k from the key set and keeps the ordering. */
  lemma EraseKeys(t: Tree, k: ValidCard)
    requires Ordered(t)
    ensures KeySet(EraseT(t, k)) == KeySet(t) - {k}
    ensures Ordered(EraseT(t, k))
  {
    EraseKeySet(t, k);
    EraseOrdered(t, k);
  }

  lemma {:induction false} EraseKeySet(t: Tree, k: ValidCard)
    requires Ordered(t)
    ensures KeySet(EraseT(t, k)) == KeySet(t) - {k}
  {
    match t
    case Nil =>
    case Br(l, i, key, r) =>
      LessIsStrictTotalOrder(k, key, key);
      if Less(k, key) {
        EraseKeySet(l, k);
        if k in KeySet(r) {
          LessIsStrictTotalOrder(k, key, k);
        }
      } else if Less(key, k) {
        EraseKeySet(r, k);
        if k in KeySet(l) {
          LessIsStrictTotalOrder(k, key, k);
        }
      } else if l.Nil? || r.Nil? {
        assert key !in KeySet(l) && key !in KeySet(r);
      } else {
        var m := MinKey(r);
        MinKeyIsLeast(r);
        EraseKeySet(r, m);
        assert key !in KeySet(l) && key !in KeySet(r);
        assert m !in KeySet(l) by {
          if m in KeySet(l) {
            LessIsStrictTotalOrder(m, key, m);
          }
        }
      }
  }

  lemma {:induction false} EraseOrdered(t: Tree, k: ValidCard)
    requires Ordered(t)
    ensures Ordered(EraseT(t, k))
  {
    match t
    case Nil =>
    case Br(l, i, key, r) =>
      if Less(k, key) {
        EraseKeySet(l, k);
        EraseOrdered(l, k);
      } else if Less(key, k) {
        EraseKeySet(r, k);
        EraseOrdered(r, k);
      } else if !l.Nil? && !r.Nil? {
        var m := MinKey(r);
        MinKeyIsLeast(r);
        EraseKeySet(r, m);
        EraseOrdered(r, m);
        forall c | c in KeySet(l) ensures Less(c, m) {
          LessIsStrictTotalOrder(c, key, m);
        }
      }
  }

  /** Deleting never introduces a slot, so slots stay unique; exactly one node goes when k is
      present. */
  lemma {:induction false} EraseSlots(t: Tree, k: ValidCard)
    requires Unique(t) && Ordered(t)
    ensures Unique(EraseT(t, k))
    ensures forall x :: x in Ids(EraseT(t, k)) ==> x in Ids(t)
    ensures |Ids(EraseT(t, k))| == |Ids(t)| - (if k in KeySet(t) then 1 else 0)
  {
    match t
    case Nil =>
    case Br(l, i, key, r) =>
      LessIsStrictTotalOrder(k, key, key);
      if Less(k, key) {
        EraseSlots(l, k);
        if k in KeySet(r) {
          LessIsStrictTotalOrder(k, key, k);
        }
      } else if Less(key, k) {
        EraseSlots(r, k);
        if k in KeySet(l) {
          LessIsStrictTotalOrder(k, key, k);
        }
      } else if l.Nil? || r.Nil? {
      } else {
        MinKeyIsLeast(r);
        EraseSlots(r, MinKey(r));
      }
  }

  /** Deleting the least key removes the leftmost node and changes no other node's key. */
  lemma {:induction false} EraseMinKeepsKeys(t: Tree)
    requires t.Br? && Unique(t) && Ordered(t)
    ensures forall x :: x in Ids(EraseT(t, MinKey(t))) ==>
      x in Ids(t) && KeyAt(EraseT(t, MinKey(t)), x) == KeyAt(t, x)
  {
    var l, i, key, r := t.left, t.id, t.key, t.right;
    LessIsStrictTotalOrder(key, key, key);
    if l.Nil? {
      assert Keys(t)[0] == key;
    } else {
      var m := MinKey(l);
      assert Keys(t)[0] == Keys(l)[0];
      MinKeyIsLeast(l);
      assert Less(m, key);
      EraseMinKeepsKeys(l);
      EraseSlots(l, m);
    }
  }

  /** Deleting k changes the key of no remaining node except one that held k (the node with two
      children, which takes its successor's key). */
  lemma {:induction false} EraseKeepsKeys(t: Tree, k: ValidCard)
    requires Unique(t) && Ordered(t)
    ensures forall x :: x in Ids(EraseT(t, k)) ==>
      x in Ids(t) && (KeyAt(t, x) != k ==> KeyAt(EraseT(t, k), x) == KeyAt(t, x))
  {
    match t
    case Nil =>
    case Br(l, i, key, r) =>
      var e := EraseT(t, k);
      if Less(k, key) {
        var el := EraseT(l, k);
        EraseKeepsKeys(l, k);
        EraseSlots(l, k);
        forall x | x in Ids(e) ensures x in Ids(t) && (KeyAt(t, x) != k ==> KeyAt(e, x) == KeyAt(t, x)) {
          if x in Ids(el) {
            assert x != i && x in Ids(l);
            assert KeyAt(e, x) == KeyAt(el, x) && KeyAt(t, x) == KeyAt(l, x);
          }
        }
      } else if Less(key, k) {
        var er := EraseT(r, k);
        EraseKeepsKeys(r, k);
        EraseSlots(r, k);
        forall x | x in Ids(e) ensures x in Ids(t) && (KeyAt(t, x) != k ==> KeyAt(e, x) == KeyAt(t, x)) {
          if x in Ids(er) {
            assert x != i && x !in Ids(l) && x in Ids(r);
            assert KeyAt(e, x) == KeyAt(er, x) && KeyAt(t, x) == KeyAt(r, x);
          }
        }
      } else {
        LessIsStrictTotalOrder(k, key, key);
        if !l.Nil? && !r.Nil? {
          var er := EraseT(r, MinKey(r));
          EraseMinKeepsKeys(r);
          EraseSlots(r, MinKey(r));
          forall x | x in Ids(e) ensures x in Ids(t) && (KeyAt(t, x) != k ==> KeyAt(e, x) == KeyAt(t, x)) {
            if x in Ids(er) {
              assert x != i && x !in Ids(l) && x in Ids(r);
              assert KeyAt(e, x) == KeyAt(er, x) && KeyAt(t, x) == KeyAt(r, x);
            }
          }
        }
      }
  }

  /** The key at a slot of t is one of t's keys. */
  lemma {:induction false} KeyAtIn(t: Tree, x: nat)
    requires x in Ids(t)
    ensures KeyAt(t, x) in KeySet(t)
  {
    if x != t.id {
      if x in Ids(t.left) {
        KeyAtIn(t.left, x);
      } else {
        KeyAtIn(t.right, x);
      }
    }
  }

  /** Deleting the least key removes only the node that holds it. */
  lemma {:induction false} EraseMinKeepsOthers(t: Tree)
    requires t.Br? && Unique(t) && Ordered(t)
    ensures forall x :: x in Ids(t) && KeyAt(t, x) != MinKey(t) ==> x in Ids(EraseT(t, MinKey(t)))
  {
    var l, i, key, r := t.left, t.id, t.key, t.right;
    LessIsStrictTotalOrder(key, key, key);
    if l.Nil? {
      assert Keys(t)[0] == key;
    } else {
      var m := MinKey(l);
      assert Keys(t)[0] == Keys(l)[0];
      MinKeyIsLeast(l);
      assert Less(m, key);
      EraseMinKeepsOthers(l);
      forall x | x in Ids(t) && KeyAt(t, x) != m ensures x in Ids(EraseT(t, m)) {
        if x != i && x in Ids(l) {
          assert KeyAt(t, x) == KeyAt(l, x);
        }
      }
    }
  }

  /** Deleting k keeps every node whose key is below k. */
  lemma {:induction false} EraseKeepsBelow(t: Tree, k: ValidCard)
    requires Ordered(t)
    ensures forall x :: x in Ids(t) && Less(KeyAt(t, x), k) ==> x in Ids(EraseT(t, k))
  {
    match t
    case Nil =>
    case Br(l, i, key, r) =>
      if Less(k, key) {
        EraseKeepsBelow(l, k);
        forall x | x in Ids(t) && Less(KeyAt(t, x), k) ensures x in Ids(EraseT(t, k)) {
          if x != i && x in Ids(l) {
            assert KeyAt(t, x) == KeyAt(l, x);
          }
        }
      } else if Less(key, k) {
        EraseKeepsBelow(r, k);
        forall x | x in Ids(t) && Less(KeyAt(t, x), k) ensures x in Ids(EraseT(t, k)) {
          if x != i && x !in Ids(l) {
            assert KeyAt(t, x) == KeyAt(r, x);
          }
        }
      } else {
        LessIsStrictTotalOrder(k, key, key);
        forall x | x in Ids(t) && Less(KeyAt(t, x), k) ensures x in Ids(EraseT(t, k)) {
          if x != i && x !in Ids(l) {
            assert KeyAt(t, x) == KeyAt(r, x);
            KeyAtIn(r, x);
            LessIsStrictTotalOrder(k, KeyAt(r, x), k);
          }
        }
      }
  }

  /** Deleting k keeps every node whose key is above some other key that is above k: only the
      node holding k and the node holding the next larger key can go. */
  lemma {:induction false} EraseKeepsAbove(t: Tree, k: ValidCard)
    requires Unique(t) && Ordered(t)
    ensures forall x, c :: x in Ids(t) && c in KeySet(t) && Less(k, c) && Less(c, KeyAt(t, x)) ==>
      x in Ids(EraseT(t, k))
  {
    match t
    case Nil =>
    case Br(l, i, key, r) =>
      if Less(k, key) {
        EraseKeepsAbove(l, k);
        forall x, c | x in Ids(t) && c in KeySet(t) && Less(k, c) && Less(c, KeyAt(t, x))
          ensures x in Ids(EraseT(t, k))
        {
          if x != i && x in Ids(l) {
            assert KeyAt(t, x) == KeyAt(l, x);
            KeyAtIn(l, x);
            if c !in KeySet(l) {
              LessIsStrictTotalOrder(KeyAt(l, x), key, c);
              LessIsStrictTotalOrder(c, KeyAt(l, x), c);
            }
          }
        }
      } else if Less(key, k) {
        EraseKeepsAbove(r, k);
        forall x, c | x in Ids(t) && c in KeySet(t) && Less(k, c) && Less(c, KeyAt(t, x))
          ensures x in Ids(EraseT(t, k))
        {
          if x != i && x !in Ids(l) {
            assert KeyAt(t, x) == KeyAt(r, x);
            LessIsStrictTotalOrder(key, k, c);
            if c in KeySet(l) {
              LessIsStrictTotalOrder(c, key, c);
            }
          }
        }
      } else {
        LessIsStrictTotalOrder(k, key, key);
        forall x, c | x in Ids(t) && c in KeySet(t) && Less(k, c) && Less(c, KeyAt(t, x))
          ensures x in Ids(EraseT(t, k))
        {
          LessIsStrictTotalOrder(k, c, k);
          if x != i && x in Ids(l) {
            assert KeyAt(t, x) == KeyAt(l, x);
            KeyAtIn(l, x);
            LessIsStrictTotalOrder(k, c, KeyAt(l, x));
            LessIsStrictTotalOrder(KeyAt(l, x), k, KeyAt(l, x));
          } else if x != i {
            assert KeyAt(t, x) == KeyAt(r, x);
            if !l.Nil? && !r.Nil? {
              var m := MinKey(r);
              MinKeyIsLeast(r);
              EraseMinKeepsOthers(r);
              assert c in KeySet(r);
              LessIsStrictTotalOrder(m, c, KeyAt(r, x));
              LessIsStrictTotalOrder(m, m, m);
            }
          }
        }
      }
  }

  /** Deleting the same key twice is the same as deleting it once. */
  lemma EraseIdempotent(t: Tree, k: ValidCard)
    requires Ordered(t)
    ensures EraseT(EraseT(t, k), k) == EraseT(t, k)
  {
    EraseKeys(t, k);
    EraseAbsent(EraseT(t, k), k);
  }

  // ----- paths from a node up to the root -----

  /** One step from a node to its parent: the hole is the parent's left or right child. */
  datatype Frame = LeftOf(id: nat, key: ValidCard, right: Tree) | RightOf(left: Tree, id: nat, key: ValidCard)

  function Fill(f: Frame, s: Tree): Tree {
    match f
    case LeftOf(i, k, r) => Br(s, i, k, r)
    case RightOf(l, i, k) => Br(l, i, k, s)
  }

  /** Climbing from a right child keeps the last slot; from a left child, the first. */
  lemma FillEnds(f: Frame, s: Tree)
    requires s.Br?
    ensures f.RightOf? ==> Ids(Fill(f, s))[|Ids(Fill(f, s))| - 1] == Ids(s)[|Ids(s)| - 1]
    ensures f.LeftOf? ==> Ids(Fill(f, s))[0] == Ids(s)[0]
  {
    assert Ids(Fill(f, s)) == Ids(Fill(f, s).left) + [f.id] + Ids(Fill(f, s).right);
  }

  /** The whole tree rebuilt from subtree s and the frames from s's parent up to the root. */
  ghost function Plug(s: Tree, path: seq<Frame>): Tree
    decreases |path|
  {
    if path == [] then s else Plug(Fill(path[0], s), path[1..])
  }

  /** The parent pointer a subtree plugged into path has. */
  function ParentOf(path: seq<Frame>): int {
    if path == [] then Null else path[0].id
  }

  /** The in-order slots that precede / follow the plugged subtree. */
  ghost function Before(path: seq<Frame>): seq<nat>
    decreases |path|
  {
    if path == [] then []
    else Before(path[1..]) + (if path[0].RightOf? then Ids(path[0].left) + [path[0].id] else [])
  }

  ghost function After(path: seq<Frame>): seq<nat>
    decreases |path|
  {
    if path == [] then []
    else (if path[0].LeftOf? then [path[0].id] + Ids(path[0].right) else []) + After(path[1..])
  }

  lemma {:induction false} PlugIds(s: Tree, path: seq<Frame>)
    ensures Ids(Plug(s, path)) == Before(path) + Ids(s) + After(path)
    decreases |path|
  {
    if path != [] {
      var f, rest := path[0], path[1..];
      PlugIds(Fill(f, s), rest);
      if f.LeftOf? {
        RegroupLeftOf(Before(rest), Ids(s), f.id, Ids(f.right), After(rest));
      } else {
        RegroupRightOf(Before(rest), Ids(f.left), f.id, Ids(s), After(rest));
      }
    }
  }

  /** Regrouping the slots around a left child. */
  lemma RegroupLeftOf(b: seq<nat>, u: seq<nat>, i: nat, r: seq<nat>, a: seq<nat>)
    ensures b + (u + [i] + r) + a == (b + []) + u + ([i] + r + a)
  {
  }

  /** Regrouping the slots around a right child. */
  lemma RegroupRightOf(b: seq<nat>, l: seq<nat>, i: nat, u: seq<nat>, a: seq<nat>)
    ensures b + (l + [i] + u) + a == (b + (l + [i])) + u + ([] + a)
  {
  }

  /** Indexing into the parts of a three-way concatenation. */
  lemma PartsAt<T>(b: seq<T>, u: seq<T>, a: seq<T>, j: int)
    ensures 0 <= j < |b| ==> (b + u + a)[j] == b[j]
    ensures 0 <= j < |u| ==> (b + u + a)[|b| + j] == u[j]
    ensures 0 <= j < |a| ==> (b + u + a)[|b| + |u| + j] == a[j]
  {
  }

  lemma {:induction false} PlugUnique(s: Tree, path: seq<Frame>)
    requires Unique(Plug(s, path))
    ensures Unique(s)
    ensures path != [] ==> Unique(Fill(path[0], s))
    decreases |path|
  {
    if path != [] {
      PlugUnique(Fill(path[0], s), path[1..]);
    }
  }

  lemma {:induction false} PlugAppend(s: Tree, path: seq<Frame>, f: Frame)
    ensures Plug(s, path + [f]) == Fill(f, Plug(s, path))
    decreases |path|
  {
    if path == [] {
      assert [f][1..] == [];
    } else {
      assert (path + [f])[1..] == path[1..] + [f];
      PlugAppend(Fill(path[0], s), path[1..], f);
    }
  }

  /** Every slot of t is the root of a subtree reached along some path. */
  lemma {:induction false} Focus(t: Tree, x: nat) returns (s: Tree, path: seq<Frame>)
    requires x in Ids(t)
    ensures s.Br? && s.id == x && Plug(s, path) == t
  {
    var l, i, k, r := t.left, t.id, t.key, t.right;
    if x == i {
      s, path := t, [];
    } else if x in Ids(l) {
      var p;
      s, p := Focus(l, x);
      path := p + [LeftOf(i, k, r)];
      PlugAppend(s, p, LeftOf(i, k, r));
    } else {
      var p;
      s, p := Focus(r, x);
      path := p + [RightOf(l, i, k)];
      PlugAppend(s, p, RightOf(l, i, k));
    }
  }

  // ----- in-order neighbours -----

  /** The slot after the first occurrence of x in s, or Null when x is last or absent. */
  ghost function NextAfter(s: seq<nat>, x: nat): int {
    if |s| == 0 then Null
    else if s[0] == x then (if |s| > 1 then s[1] else Null)
    else NextAfter(s[1..], x)
  }

  /** The slot before the first occurrence of x in s, or Null when x is first or absent. */
  ghost function PrevBefore(s: seq<nat>, x: nat): int {
    if |s| < 2 || s[0] == x then Null
    else if s[1] == x then s[0]
    else PrevBefore(s[1..], x)
  }

  lemma {:induction false} NextAt(s: seq<nat>, j: nat)
    requires Distinct(s) && j + 1 < |s|
    ensures NextAfter(s, s[j]) == s[j + 1]
  {
    if j > 0 {
      assert s[0] != s[j];
      NextAt(s[1..], j - 1);
    }
  }

  lemma {:induction false} NextAtLast(s: seq<nat>)
    requires Distinct(s) && |s| > 0
    ensures NextAfter(s, s[|s| - 1]) == Null
  {
    if |s| > 1 {
      assert s[0] != s[|s| - 1];
      NextAtLast(s[1..]);
    }
  }

  lemma {:induction false} PrevAt(s: seq<nat>, j: nat)
    requires Distinct(s) && j + 1 < |s|
    ensures PrevBefore(s, s[j + 1]) == s[j]
  {
    if j > 0 {
      assert s[0] != s[j + 1] && s[1] != s[j + 1];
      PrevAt(s[1..], j - 1);
    }
  }

  lemma PrevAtFirst(s: seq<nat>)
    requires |s| > 0
    ensures PrevBefore(s, s[0]) == Null
  {
  }

  /** The slot reached from x by n successor steps (Null once past the last). */
  ghost function Steps(s: seq<nat>, x: int, n: nat): int
    decreases n
  {
    if n == 0 || x == Null then x
    else if x < 0 then Null
    else Steps(s, NextAfter(s, x), n - 1)
  }

  /** Stepping from the first slot visits every slot in order and then reaches Null. */
  lemma StepsVisitAll(s: seq<nat>, n: nat)
    requires Distinct(s) && |s| > 0 && n <= |s|
    ensures Steps(s, s[0], n) == if n < |s| then s[n] else Null
  {
    StepsFrom(s, 0, n);
  }

  lemma {:induction false} StepsFrom(s: seq<nat>, j: nat, n: nat)
    requires Distinct(s) && j < |s| && j + n <= |s|
    ensures Steps(s, s[j], n) == if j + n < |s| then s[j + n] else Null
    decreases n
  {
    if n > 0 {
      if j + 1 < |s| {
        NextAt(s, j);
        StepsFrom(s, j + 1, n - 1);
      } else {
        NextAtLast(s);
        assert Steps(s, Null, n - 1) == Null;
      }
    }
  }

  /** The slot reached from x by n predecessor steps (Null once before the first). */
  ghost function BackSteps(s: seq<nat>, x: int, n: nat): int
    decreases n
  {
    if n == 0 || x == Null then x
    else if x < 0 then Null
    else BackSteps(s, PrevBefore(s, x), n - 1)
  }

  /** Stepping back from the last slot visits every slot in reverse order and then reaches Null. */
  lemma BackStepsVisitAll(s: seq<nat>, n: nat)
    requires Distinct(s) && |s| > 0 && n <= |s|
    ensures BackSteps(s, s[|s| - 1], n) == if n < |s| then s[|s| - 1 - n] else Null
  {
    BackStepsFrom(s, |s| - 1, n);
  }

  lemma {:induction false} BackStepsFrom(s: seq<nat>, j: nat, n: nat)
    requires Distinct(s) && j < |s| && n <= j + 1
    ensures BackSteps(s, s[j], n) == if n <= j then s[j - n] else Null
    decreases n
  {
    if n > 0 {
      if j > 0 {
        PrevAt(s, j - 1);
        BackStepsFrom(s, j - 1, n - 1);
      } else {
        PrevAtFirst(s);
        assert BackSteps(s, Null, n - 1) == Null;
      }
    }
  }

  // ----- the neighbour a walk through the tree finds -----

  /** In a list without repeats, the last element of a middle part is followed by the first
      element of the part after it. */
  lemma NextAcross(b: seq<nat>, u: seq<nat>, a: seq<nat>)
    requires Distinct(b + u + a) && |u| > 0 && |a| > 0
    ensures NextAfter(b + u + a, u[|u| - 1]) == a[0]
  {
    PartsAt(b, u, a, |u| - 1);
    PartsAt(b, u, a, 0);
    NextAt(b + u + a, |b| + |u| - 1);
  }

  /** In a list without repeats, the first element of a middle part is preceded by the last
      element of the part before it. */
  lemma PrevAcross(b: seq<nat>, u: seq<nat>, a: seq<nat>)
    requires Distinct(b + u + a) && |b| > 0 && |u| > 0
    ensures PrevBefore(b + u + a, u[0]) == b[|b| - 1]
  {
    PartsAt(b, u, a, |b| - 1);
    PartsAt(b, u, a, 0);
    PrevAt(b + u + a, |b| - 1);
  }

  /** Regrouping the slots around a node, so that the node is the middle part. */
  lemma RegroupNode(b: seq<nat>, l: seq<nat>, i: nat, r: seq<nat>, a: seq<nat>)
    ensures b + (l + [i] + r) + a == (b + l) + [i] + (r + a)
  {
  }

  /** A node with a right subtree is followed in in-order by that subtree's first slot. */
  lemma NextIntoRight(s: Tree, path: seq<Frame>)
    requires Unique(Plug(s, path)) && s.Br? && s.right.Br?
    ensures NextAfter(Ids(Plug(s, path)), s.id) == Ids(s.right)[0]
  {
    var t := Plug(s, path);
    PlugIds(s, path);
    UniqueIsDistinct(t);
    var b, l, r, a := Before(path), Ids(s.left), Ids(s.right), After(path);
    RegroupNode(b, l, s.id, r, a);
    NextAcross(b + l, [s.id], r + a);
    PartsAt(r, a, [], 0);
  }

  /** A node with a left subtree is preceded by that subtree's last slot. */
  lemma PrevIntoLeft(s: Tree, path: seq<Frame>)
    requires Unique(Plug(s, path)) && s.Br? && s.left.Br?
    ensures PrevBefore(Ids(Plug(s, path)), s.id) == Ids(s.left)[|Ids(s.left)| - 1]
  {
    var t := Plug(s, path);
    PlugIds(s, path);
    UniqueIsDistinct(t);
    var b, l, r, a := Before(path), Ids(s.left), Ids(s.right), After(path);
    RegroupNode(b, l, s.id, r, a);
    PrevAcross(b + l, [s.id], r + a);
    PartsAt(b, l, [], |l| - 1);
  }

  /** The last slot of a left child is followed by the parent. */
  lemma NextUpFromLeft(s: Tree, path: seq<Frame>)
    requires Unique(Plug(s, path)) && s.Br? && path != [] && path[0].LeftOf?
    ensures NextAfter(Ids(Plug(s, path)), Ids(s)[|Ids(s)| - 1]) == path[0].id
  {
    var t := Plug(s, path);
    PlugIds(s, path);
    UniqueIsDistinct(t);
    PartsAt([path[0].id], Ids(path[0].right), After(path[1..]), 0);
    NextAcross(Before(path), Ids(s), After(path));
  }

  /** The first slot of a right child is preceded by the parent. */
  lemma PrevUpFromRight(s: Tree, path: seq<Frame>)
    requires Unique(Plug(s, path)) && s.Br? && path != [] && path[0].RightOf?
    ensures PrevBefore(Ids(Plug(s, path)), Ids(s)[0]) == path[0].id
  {
    var t := Plug(s, path);
    PlugIds(s, path);
    UniqueIsDistinct(t);
    var c := Before(path[1..]);
    PartsAt(c, Ids(path[0].left), [path[0].id], 0);
    PrevAcross(Before(path), Ids(s), After(path));
  }

  /** The last slot of the whole tree has no successor, the first no predecessor. */
  lemma EndsOfTree(t: Tree)
    requires Unique(t) && t.Br?
    ensures NextAfter(Ids(t), Ids(t)[|Ids(t)| - 1]) == Null
    ensures PrevBefore(Ids(t), Ids(t)[0]) == Null
  {
    UniqueIsDistinct(t);
    NextAtLast(Ids(t));
  }
}
