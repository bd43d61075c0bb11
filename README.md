# CardList: a binary search tree of playing cards, in Dafny

This project models the hand of cards from a small C++ card game. A hand is a `CardList`: an
unbalanced binary search tree of `Card`s. Its nodes hold left, right and parent pointers. It
has forward and reverse iterators that step through the cards in order by following those
pointers.

- **Cards** (`cards.dfy`, from `card.cpp`). A card is a suit character and a value string. Cards
  are ordered first by suit rank (clubs < diamonds < spades < hearts) and then by value rank
  (ace 1, numerals 2 to 10, jack 11, queen 12, king 13). The derived operators `>`, `<=`, `>=`,
  `==` and `!=` are defined as in the source. The lemmas show the following on valid cards:
  - `<` is a strict total order;
  - its ties are exactly the equal cards;
  - the derived operators agree with it.
- **Tree shape** (`tree_shape.dfy`). This is a ghost picture of the tree that gives each node's
  arena slot and key. It contains:
  - pure specifications of insertion (`InsertT`) and deletion (`EraseT`), following
    `insertHelper` and `eraseHelper` case by case;
  - a zipper (`Frame`, `Plug`) describing the way from a node up to the root;
  - in-order successor and predecessor on the sequence of slots (`NextAfter`, `PrevBefore`).
- **Card list** (`card_list.dfy`, from `card_list.cpp` and `card_list.h`). The node pointers
  become indices into an arena `nodes: seq<Node>`, with `Null = -1`. `CardList` is a class with
  the fields `nodes`, `root` and `size`. Its ghost `shape` is tied to the arena by `Valid()`.
  - Each helper of the source keeps its own form. `findHelper` only computes, so it is a
    recursive function. `insertHelper` and `eraseHelper` update nodes, so they are recursive
    methods. `findMin`, `findMax`, `findSuccessor` and `findPredecessor` are methods with the
    source's `while` loops.
  - Each method is proved against the tree specification: contents as a set, the in-order
    sequence of nodes, the links and the frame. Insertion moves no node and changes no node's
    card. Erasure removes exactly one node, and that node is either the one that held the
    erased card or its in-order successor. Every node before the erased card's node and every
    node after its successor stays in the tree. Only the node that held the erased card may
    take a new card. So an iterator at any node other than those two stays valid and still
    shows the same card.
  - `Iterator` and `ReverseIterator` are classes holding a `current` pointer. Their `++` and `--`
    are proved to move to the in-order successor or predecessor, with Null as the end.

The counter `size` follows the code. `insert` always adds one, even for a card that is already
present and so is not inserted again. The list's tests expect exactly this ("Insert duplicate
increases size"). As a result, the counter is only known to be at least the number of nodes.
`DuplicateInsertThenErase` shows the consequence: a list can hold no card while `empty()` is
false and `getSize()` is 1.

## Model

| member | source | states |
|---|---|---|
| Cards.SuitRank | card.cpp:26-34 | the suit rank is between -1 and 3 |
| Cards.SuitRankIsPosition | card.cpp:25-34 | a suit letter's rank is its position in "cdsh", and every other character ranks -1 |
| Cards.ValueRank | card.cpp:8-17 | the rank of a card's value string lies between 1 and 13 |
| Cards.NumeralRank | card.cpp:13-16 | the numerals convert to their own number, 2 to 10 |
| Cards.ValueRankIsPosition | card.cpp:8-17 | the value strings are exactly a, 2 … 10, j, q, k; the rank of each is one more than its position in that list |
| Cards.ValueRanks | card.cpp:8-17 | ace ranks 1, jack 11, queen 12, king 13, and each numeral n from 2 to 10 ranks n |
| Cards.DecimalOfNumeral | card.cpp:15 | converting the decimal numeral of n back to a number gives n |
| Cards.ValidSpelledOut | card.h:15-16 | a valid card has a suit in "cdsh" and a value in the list of value strings |
| Cards.Less | card.cpp:37-47 | the definition of operator<, read from its body: suit rank first, value rank when the suit ranks tie; its properties are in LessIsStrictTotalOrder |
| Cards.Greater | card.cpp:50-52 | the definition of operator>, read from its body: b < a |
| Cards.Equal | card.cpp:55-57 | the definition of operator==, read from its body: same suit and same value; EqualIsIdentity states what it means |
| Cards.LessEq | card.cpp:60-62 | the definition of operator<=, read from its body: a < b or a == b |
| Cards.GreaterEq | card.cpp:65-67 | the definition of operator>=, read from its body: a > b or a == b |
| Cards.NotEqual | card.cpp:70-72 | the definition of operator!=, read from its body: not a == b |
| Cards.EqualIsIdentity | card.cpp:54-57 | operator== holds exactly for identical cards, and operator!= exactly for different ones |
| Cards.LessIsStrictTotalOrder | card.cpp:36-47 | on valid cards operator< is irreflexive, transitive and asymmetric, and two cards tie exactly when they are equal |
| Cards.DerivedComparisons | card.cpp:49-72 | operator> is the converse of operator<; <= is not >; >= is not <; != is < or >; == excludes < and > |
| Cards.UnknownSuitsTie | card.cpp:26-43 | two different unknown suit letters both rank -1, so the two cards tie under < without being equal |
| TreeShape.InsertT | card_list.cpp:10-26 | the specification of insertHelper, read from its body: a new leaf at slot n, recursion on the side the comparison picks, and the tree unchanged on a tie; its properties are in the Insert lemmas |
| TreeShape.EraseT | card_list.cpp:94-137 | the specification of eraseHelper, read from its body: recursion on the side the comparison picks; on a tie, a leaf goes, a single child is promoted, or a node with two children takes the least key of its right subtree, which is then deleted from there; its properties are in the Erase lemmas |
| TreeShape.OrderedKeysIncrease | card_list.cpp:18-22 | in a search tree built by these comparisons the in-order keys strictly increase |
| TreeShape.SearchStep | card_list.cpp:32-37 | a key below a node's key can only be in its left subtree, one above only in its right, and a tie is the node's own key |
| TreeShape.MinKeyIsLeast | card_list.cpp:41-48 | the key of the leftmost node is in the subtree and below every other key of it |
| TreeShape.MaxKeyIsGreatest | card_list.cpp:50-57 | the key of the rightmost node is in the subtree and above every other key of it |
| TreeShape.InsertKeys | card_list.cpp:10-26 | insertion adds exactly the new card to the set of stored cards |
| TreeShape.InsertOrdered | card_list.cpp:18-22 | insertion keeps the search-tree ordering |
| TreeShape.InsertPresent | card_list.cpp:23 | inserting a card that is already stored leaves the tree unchanged |
| TreeShape.InsertSlots | card_list.cpp:11-15 | an absent card adds exactly one new node, and no node occurs twice |
| TreeShape.InsertKeepsKeys | card_list.cpp:18-25 | insertion moves no node: every old slot stays in the tree with the key it had |
| TreeShape.EraseKeys | card_list.cpp:94-137 | deletion removes exactly the given card from the set of stored cards and keeps the ordering |
| TreeShape.EraseKeySet | card_list.cpp:94-137 | deletion removes exactly the given card from the set of stored cards |
| TreeShape.EraseOrdered | card_list.cpp:128-134 | deletion keeps the ordering, including when a node takes its successor's card |
| TreeShape.EraseAbsent | card_list.cpp:95-102 | deleting a card that is not stored changes nothing |
| TreeShape.EraseSlots | card_list.cpp:104-134 | deletion adds no node, keeps nodes unique, and removes exactly one node when the card is present |
| TreeShape.EraseMinKeepsKeys | card_list.cpp:130-132 | deleting a subtree's least key changes no remaining node's key, because its node has no left child and is removed |
| TreeShape.EraseKeepsKeys | card_list.cpp:94-134 | every node left after a deletion was in the tree before, and it keeps its key unless it held the deleted card |
| TreeShape.KeyAtIn | card_list.cpp:94-134 | the card held at any node of a subtree is one of that subtree's cards |
| TreeShape.EraseMinKeepsOthers | card_list.cpp:130-132 | deleting a subtree's least card removes no node that holds another card |
| TreeShape.EraseKeepsBelow | card_list.cpp:94-134 | deleting a card keeps every node whose card is smaller than it |
| TreeShape.EraseKeepsAbove | card_list.cpp:94-134 | deleting a card keeps every node whose card is above some stored card that is itself above the deleted one, so only the deleted card's node and the node of the next larger card can go (the latter when a node with two children takes its successor's card, 130-132) |
| TreeShape.EraseAtRoot | card_list.cpp:106-126 | a proof step: the deletion specification unfolded at a matching node with at most one child gives that child |
| TreeShape.EraseIdempotent | card_list.cpp:288-293 | erasing the same card twice gives the same tree as erasing it once |
| TreeShape.UniqueIsDistinct | card_list.h:13-20 | a tree without shared nodes lists each node once in in-order |
| TreeShape.FillEnds | card_list.cpp:70-72 | climbing from a right child keeps the subtree's last node in in-order, and climbing from a left child keeps its first |
| TreeShape.PlugIds | card_list.cpp:68-73 | the in-order list of the whole tree is the nodes before a subtree, then the subtree, then the nodes after it |
| TreeShape.Focus | card_list.cpp:69-72 | every node of the tree is reached by some path of frames up to the root |
| TreeShape.NextIntoRight | card_list.cpp:63-66 | a node with a right subtree is followed in in-order by the leftmost node of that subtree |
| TreeShape.PrevIntoLeft | card_list.cpp:80-83 | a node with a left subtree is preceded by the rightmost node of that subtree |
| TreeShape.NextUpFromLeft | card_list.cpp:68-73 | the last node of a left subtree is followed by the parent of that subtree |
| TreeShape.PrevUpFromRight | card_list.cpp:85-90 | the first node of a right subtree is preceded by the parent of that subtree |
| TreeShape.EndsOfTree | card_list.cpp:73 | the last node has no successor and the first node has no predecessor |
| TreeShape.NextAt | card_list.cpp:60-74 | in a list without repeats, the successor of the j-th node is the (j+1)-th |
| TreeShape.PrevAt | card_list.cpp:77-91 | in a list without repeats, the predecessor of the (j+1)-th node is the j-th |
| TreeShape.StepsVisitAll | card_list.cpp:149-169 | starting at the first node, n successor steps reach the n-th node and then Null, so iteration visits every node once, in order |
| TreeShape.BackStepsVisitAll | card_list.cpp:211-231 | starting at the last node, n predecessor steps reach the node n places before it and then Null, so reverse iteration visits every node once, in reverse order |
| TreeShape.BackStepsFrom | card_list.cpp:171-191 | in a list without repeats, n predecessor steps from the j-th node reach the (j-n)-th, or Null once past the first |
| CardTree.LinkedKeyAt | card_list.cpp:193-195 | the node at each slot of a linked subtree holds the key the tree records for that slot |
| CardTree.LinkedFrame | card_list.h:13-20 | writing arena slots outside a subtree leaves the subtree's links intact |
| CardTree.LinkedReparent | card_list.cpp:114-115 | re-pointing the parent link of a promoted child hangs it under the removed node's parent |
| CardTree.AttachLeft | card_list.cpp:98-99 | storing the rebuilt left subtree's root in the node's left link yields a well-linked tree |
| CardTree.AttachRight | card_list.cpp:101-102 | storing the rebuilt right subtree's root in the node's right link yields a well-linked tree |
| CardTree.LinkedData | card_list.cpp:193-195 | the node at each in-order position holds the card at that position |
| CardTree.LinkedDetermines | card_list.cpp:23 | two arenas linking the same tree agree on all of its nodes |
| CardTree.ParentStep | card_list.cpp:70 | the parent link of each node leads to the frame above it, and that frame's left or right link leads back to it |
| CardTree.CardList.constructor | card_list.cpp:273 | a new list is valid, empty and counts 0 |
| CardTree.CardList.FindHelper | card_list.cpp:29-39 | the result is Null exactly when the card is not in the subtree, and otherwise a node of the subtree that holds the card |
| CardTree.CardList.Contains | card_list.cpp:301-303 | true exactly when the card is stored |
| CardTree.CardList.Find | card_list.cpp:284-286 | the iterator is at the end exactly when the card is absent, and otherwise at a node of the tree holding the card |
| CardTree.CardList.FindMin | card_list.cpp:42-48 | Null for an empty subtree; otherwise its first in-order node, which has no left child and holds the least key |
| CardTree.CardList.FindMax | card_list.cpp:51-57 | Null for an empty subtree; otherwise its last in-order node, which has no right child and holds the greatest key |
| CardTree.CardList.FindSuccessor | card_list.cpp:60-74 | Null for Null; otherwise the next node in in-order, or Null after the last |
| CardTree.CardList.FindPredecessor | card_list.cpp:77-91 | Null for Null; otherwise the previous node in in-order, or Null before the first |
| CardTree.CardList.Advance | card_list.cpp:152-167 | the step of a non-end iterator's operator++ reaches the next node in in-order |
| CardTree.CardList.Retreat | card_list.cpp:174-190 | the step of a non-end iterator's operator-- reaches the previous node in in-order |
| CardTree.CardList.Begin | card_list.cpp:305-307 | the iterator is at the first in-order node, or at the end for an empty list |
| CardTree.CardList.End | card_list.cpp:309-311 | the iterator is at Null |
| CardTree.CardList.RBegin | card_list.cpp:313-315 | the reverse iterator is at the last in-order node, or at rend for an empty list |
| CardTree.CardList.REnd | card_list.cpp:317-319 | the reverse iterator is at Null |
| CardTree.CardList.Empty | card_list.cpp:321-323 | a true answer means no card is stored |
| CardTree.CardList.GetSize | card_list.cpp:325-327 | the counter is at least the number of stored nodes |
| CardTree.CardList.ElementsSorted | card_list.cpp:149-169 | in-order traversal lists each stored card once, in strictly ascending order, and each node holds the card of its position |
| CardTree.CardList.StepIsNextPosition | card_list.cpp:60-91 | the successor of the node at in-order position j is the node at j+1 (Null after the last), and its predecessor the node at j-1 (Null before the first) |
| CardTree.CardList.InsertHelper | card_list.cpp:10-26 | the new subtree is the insertion specification of the old one and is well linked; a new node goes in the next slot; nodes outside the subtree are untouched |
| CardTree.CardList.Insert | card_list.cpp:279-282 | the list stays valid; the card is added to the stored set; the counter rises by one; a duplicate changes no node; every old node stays in the tree with its card |
| CardTree.CardList.Erase | card_list.cpp:288-293 | the list stays valid; the card is removed from the stored set; when it was present the counter and the node count drop by one, and otherwise nothing changes; every remaining node was in the tree before and keeps its card unless it held the erased card; every old node other than the erased card's node and its in-order successor remains |
| CardTree.CardList.EraseAt | card_list.cpp:295-299 | at the end nothing changes; otherwise the card under the iterator is removed and the counter and node count drop by one; every remaining node was in the tree before and keeps its card unless it held the removed card; every old node other than the iterator's and its in-order successor remains |
| CardTree.CardList.EraseSpares | card_list.cpp:104-134 | deleting the card held at a node frees no node but that one and its in-order successor: every node before it holds a smaller card, every node after the successor a card above the successor's |
| CardTree.CardList.EraseHelper | card_list.cpp:94-102 | the new subtree is the deletion specification of the old one and is well linked; no slot outside the subtree changes |
| CardTree.CardList.RemoveNode | card_list.cpp:104-127 | removing the found node gives the deletion specification (leaf gone, single child promoted with its parent link reset), and nothing outside the subtree changes |
| CardTree.CardList.ReplaceBySuccessor | card_list.cpp:128-134 | the node with two children takes its successor's card and the successor is deleted from the right subtree, as the deletion specification prescribes |
| CardTree.DuplicateInsertThenErase | card_list.cpp:279-293 | inserting a card twice and erasing it once leaves no card stored while empty() is false and getSize() is 1 |
| CardTree.Iterator.constructor | card_list.h:41 | the iterator holds the given node |
| CardTree.Iterator.Increment | card_list.cpp:149-169 | at the end nothing changes; otherwise the iterator moves to the next node in in-order, or to the end after the last |
| CardTree.Iterator.Decrement | card_list.cpp:171-191 | at the end nothing changes; otherwise the iterator moves to the previous node in in-order, or to Null before the first |
| CardTree.Iterator.Deref | card_list.cpp:193-195 | the card is stored in the list, and it is the card at the iterator's in-order position |
| CardTree.Iterator.Equals | card_list.cpp:201-203 | the definition of operator==, read from its body: both iterators hold the same node |
| CardTree.Iterator.NotEquals | card_list.cpp:205-207 | operator!= holds exactly when operator== does not |
| CardTree.ReverseIterator.constructor | card_list.h:65 | the reverse iterator holds the given node |
| CardTree.ReverseIterator.Increment | card_list.cpp:211-231 | at rend nothing changes; otherwise the iterator moves to the previous node in in-order, or to rend before the first |
| CardTree.ReverseIterator.Decrement | card_list.cpp:233-253 | at rend nothing changes; otherwise the iterator moves to the next node in in-order |
| CardTree.ReverseIterator.Deref | card_list.cpp:255-257 | the card is stored in the list, and it is the card at the iterator's in-order position |
| CardTree.ReverseIterator.Equals | card_list.cpp:263-265 | the definition of operator==, read from its body: both reverse iterators hold the same node |
| CardTree.ReverseIterator.NotEquals | card_list.cpp:267-269 | operator!= holds exactly when operator== does not |

## Left out

- Memory is an arena. `new Node` takes the next free slot, and a deleted node stays in the arena,
  unreachable from the root. So `delete`, `deleteTree` and the destructor
  (card_list.cpp:139-145, 275-277) are not modelled: freeing memory is not visible in the arena.
- Stream input and output of cards (`operator<<`, `operator>>`, card.cpp:74-84) and the getters
  are I/O or trivial accessors and are left out. `operator->` is the same as `operator*` in this
  model, because a card is a value.
- Pointers into freed memory are not modelled. An iterator must be at Null or at a node of the
  current tree. An erase frees one node: the node of the erased card, or the node of its
  successor when that card's node has two children. An iterator left at the freed node is
  outside the model. An iterator at any other node stays at a node of the tree. This holds by
  the ensures of Insert, Erase and EraseAt, with `CardList.EraseSpares` as the proof.
- A tree stores only valid cards: one of the suits c, d, s, h and one of the values a, 2 … 10,
  j, q, k. For other values the source calls `stoi`, which can throw, and cards with two unknown
  suits tie without being equal (`UnknownSuitsTie`). So `<` is a strict total order only on
  valid cards. Card values that are not valid are outside the model.
- Cards.ValueRank: defined only on the valid value strings, because `stoi` on any other string
  is a library call that this model leaves out.
- The `size_t` counter: it never wraps around in this model. The counter counts up on each
  insert and down on each successful erase, and the model treats it as an unbounded natural.
- The descent loops of the iterator steps (card_list.cpp:154-158, 176-180, 216-219 and
  238-241) become calls to `FindMin`/`FindMax`, which contain the same loop. The calls happen
  inside `Advance` and `Retreat`, which serve both iterator kinds.
- `eraseHelper` is split into three methods: the search (`EraseHelper`), the removal of the
  found node (`RemoveNode`) and the two-children case (`ReplaceBySuccessor`). Together they
  follow the source's branches and recursion.
- CardTree.CardList.Empty: states only that true means an empty list. The converse is false,
  because the counter also counts repeated inserts (`DuplicateInsertThenErase`).
- CardTree.CardList.GetSize: states only that the counter bounds the number of nodes. It is
  equal to that number only when no card was inserted twice.
- CardTree.Iterator.Equals and CardTree.ReverseIterator.Equals compare the two pointers. They
  have no contract of their own; NotEquals is stated against them.
- Iterator equality is modelled only between iterators of the same list. A model iterator
  holds an arena index, not a node address, so iterators of two different lists can hold the
  same index and compare equal, whereas the source compares node addresses
  (card_list.cpp:201-203, 263-265).
- The iterator constructors take a default argument `node = nullptr` (card_list.h:41, 65). The
  model has no constructor without arguments. `End()` and `REnd()`, or the constructor called
  with `Null`, give the iterator it would build.
- The driver programs (`main.cpp`, `main_set.cpp`) and the test program are not part of this
  model.
