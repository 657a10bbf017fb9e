/**
 * The SimpleLRU storage: a doubly linked recency list of nodes that own a
 * key and a value, an index from key to node, and a byte counter checked
 * against a fixed capacity.
 *
 * The nodes live in an arena `nodes` keyed by slot number; a `Link` is a
 * possibly-null pointer to a slot.  A ghost `order` lists the slots from
 * head to tail, and `Entries()` is the recency list the methods are proved
 * against (module LruModel).
 */
module SimpleLruCache {
  import opened LruModel

  /** A nullable pointer to a node of the arena. */
  datatype Link = Nil | Ptr(slot: nat)

  /** lru_node: key, value and the two links. */
  datatype Node = Node(key: string, value: string, prev: Link, next: Link)

  // ---------------------------------------------------------------------------
  // The shape of the list, on values

  function HeadOf(order: seq<nat>): Link
  {
    if order == [] then Nil else Ptr(order[0])
  }

  function TailOf(order: seq<nat>): Link
  {
    if order == [] then Nil else Ptr(order[|order| - 1])
  }

  function PrevOf(order: seq<nat>, i: nat): Link
    requires i < |order|
  {
    if i == 0 then Nil else Ptr(order[i - 1])
  }

  function NextOf(order: seq<nat>, i: nat): Link
    requires i < |order|
  {
    if i + 1 == |order| then Nil else Ptr(order[i + 1])
  }

  /** The slot at position i; the trigger of Distinct, so that distinctness is used only where asked for. */
  function SlotAt(order: seq<nat>, i: nat): nat
    requires i < |order|
  {
    order[i]
  }

  ghost predicate Distinct(order: seq<nat>)
  {
    forall i, j {:trigger SlotAt(order, i), SlotAt(order, j)} :: 0 <= i < j < |order| ==> SlotAt(order, i) != SlotAt(order, j)
  }

  /** Distinct, at every pair of positions. */
  lemma DistinctSlots(order: seq<nat>)
    requires Distinct(order)
    ensures forall i, j :: 0 <= i < |order| && 0 <= j < |order| && i != j ==> order[i] != order[j]
  {
    forall i, j | 0 <= i < |order| && 0 <= j < |order| && i != j ensures order[i] != order[j] {
      if i < j {
        assert SlotAt(order, i) != SlotAt(order, j);
      } else {
        assert SlotAt(order, j) != SlotAt(order, i);
      }
    }
  }

  ghost predicate InArena(nodes: map<nat, Node>, order: seq<nat>)
  {
    forall i :: 0 <= i < |order| ==> order[i] in nodes
  }

  /** Every slot of the arena is listed in `order` and lies below `bound`. */
  ghost predicate Covered(nodes: map<nat, Node>, order: seq<nat>, bound: nat)
  {
    forall m :: m in nodes ==> m < bound && m in order
  }

  /**
   * Every node's links point at its neighbours in `order`.  (The trigger is
   * PrevOf, so that the neighbour a link names does not re-fire the
   * quantifier for the neighbour's own links.)
   */
  ghost predicate Chained(nodes: map<nat, Node>, order: seq<nat>)
    requires InArena(nodes, order)
  {
    forall i {:trigger PrevOf(order, i)} :: 0 <= i < |order| ==>
      nodes[order[i]].prev == PrevOf(order, i) && nodes[order[i]].next == NextOf(order, i)
  }

  /**
   * The arena holds exactly the slots of `order`, each once, all below
   * `bound`, and every node's links point at its neighbours in `order`.
   */
  ghost predicate Linked(nodes: map<nat, Node>, order: seq<nat>, bound: nat)
  {
    Distinct(order) && InArena(nodes, order) && Covered(nodes, order, bound) && Chained(nodes, order)
  }

  /** The index maps each key to the node holding it, and every node is indexed. */
  ghost predicate Indexed(nodes: map<nat, Node>, index: map<string, nat>)
  {
    && (forall k :: k in index ==> index[k] in nodes && nodes[index[k]].key == k)
    && (forall m :: m in nodes ==> nodes[m].key in index && index[nodes[m].key] == m)
  }

  /** The recency list the arena spells out along `order`. */
  ghost function View(nodes: map<nat, Node>, order: seq<nat>): (r: seq<Entry>)
    requires InArena(nodes, order)
    ensures |r| == |order|
    ensures forall i {:trigger r[i]} :: 0 <= i < |order| ==> r[i] == Entry(nodes[order[i]].key, nodes[order[i]].value)
  {
    seq(|order|, i requires 0 <= i < |order| => Entry(nodes[order[i]].key, nodes[order[i]].value))
  }

  /** The position of a slot in `order`. */
  ghost function Pos(order: seq<nat>, m: nat): (i: nat)
    requires m in order
    ensures i < |order| && order[i] == m
  {
    if order[0] == m then 0 else 1 + Pos(order[1..], m)
  }

  /**
   * With the index a bijection onto the nodes, the list has each key once,
   * its keys are the index's keys, and each key sits at its node's position.
   */
  lemma IndexedView(nodes: map<nat, Node>, order: seq<nat>, bound: nat, index: map<string, nat>)
    requires Linked(nodes, order, bound) && Indexed(nodes, index)
    ensures NoDupKeys(View(nodes, order))
    ensures Keys(View(nodes, order)) == index.Keys
  {
    DistinctSlots(order);
    var s := View(nodes, order);
    forall i, j | 0 <= i < j < |s| ensures s[i].key != s[j].key {
      assert index[s[i].key] == order[i];
      assert index[s[j].key] == order[j];
    }
    forall k | k in index ensures k in Keys(s) {
      KeysAt(s, k);
      assert s[Pos(order, index[k])].key == k;
    }
    forall k | k in Keys(s) ensures k in index {
      KeysAt(s, k);
    }
  }

  // ---------------------------------------------------------------------------
  // deleteNode on the arena (source lines 113-128)

  /**
   * Unlink the node at position i: its successor's prev takes its prev, its
   * predecessor's next takes its next, and the node is freed.
   */
  ghost function Unlink(nodes: map<nat, Node>, order: seq<nat>, i: nat): map<nat, Node>
    requires InArena(nodes, order) && i < |order|
  {
    var p, nx := PrevOf(order, i), NextOf(order, i);
    var m1 := if nx.Ptr? then nodes[nx.slot := nodes[nx.slot].(prev := p)] else nodes;
    var m2 := if p.Ptr? then m1[p.slot := m1[p.slot].(next := nx)] else m1;
    m2 - {order[i]}
  }

  /** The node in slot x after unlinking position i: only the neighbours' links change. */
  function Relinked(n: Node, x: nat, order: seq<nat>, i: nat): Node
    requires i < |order|
  {
    var n1 := if NextOf(order, i) == Ptr(x) then n.(prev := PrevOf(order, i)) else n;
    if PrevOf(order, i) == Ptr(x) then n1.(next := NextOf(order, i)) else n1
  }

  lemma UnlinkNode(nodes: map<nat, Node>, order: seq<nat>, i: nat, x: nat)
    requires InArena(nodes, order) && i < |order| && x in nodes && x != order[i]
    ensures x in Unlink(nodes, order, i)
    ensures Unlink(nodes, order, i)[x] == Relinked(nodes[x], x, order, i)
  {
  }

  lemma UnlinkKeys(nodes: map<nat, Node>, order: seq<nat>, i: nat)
    requires InArena(nodes, order) && i < |order|
    ensures Unlink(nodes, order, i).Keys == nodes.Keys - {order[i]}
  {
  }

  /** order' is order with position i cut out. */
  ghost predicate IsCut(order: seq<nat>, i: nat, order': seq<nat>)
  {
    && i < |order| && |order'| + 1 == |order|
    && (forall j :: 0 <= j < i ==> order'[j] == order[j])
    && (forall j :: i <= j < |order'| ==> order'[j] == order[j + 1])
  }

  /** A list with position i cut out. */
  ghost function CutOf(order: seq<nat>, i: nat): (order': seq<nat>)
    requires i < |order|
    ensures IsCut(order, i, order')
  {
    order[..i] + order[i+1..]
  }

  /** A list with `slot` put in front. */
  ghost function PrependOf(order: seq<nat>, slot: nat): (order': seq<nat>)
    ensures IsPrepended(order, slot, order')
  {
    [slot] + order
  }

  /** A list with its last slot moved to the front. */
  ghost function PromoteOf(order: seq<nat>): (order': seq<nat>)
    requires |order| >= 2
    ensures IsPromoted(order, order')
  {
    [order[|order| - 1]] + order[..|order| - 1]
  }

  /** Cutting a position out of a list of distinct slots leaves them distinct. */
  lemma CutDistinct(order: seq<nat>, i: nat, order': seq<nat>)
    requires Distinct(order) && IsCut(order, i, order')
    ensures Distinct(order')
  {
    DistinctSlots(order);
    forall a, b | 0 <= a < b < |order'| ensures order'[a] != order'[b] {
      var aa := if a < i then a else a + 1;
      var bb := if b < i then b else b + 1;
      assert order'[a] == order[aa] && order'[b] == order[bb];
    }
  }

  lemma UnlinkChained(nodes: map<nat, Node>, order: seq<nat>, i: nat, order': seq<nat>)
    requires Distinct(order) && InArena(nodes, order) && Chained(nodes, order) && IsCut(order, i, order')
    ensures InArena(Unlink(nodes, order, i), order') && Chained(Unlink(nodes, order, i), order')
  {
    DistinctSlots(order);
    var nodes' := Unlink(nodes, order, i);
    forall j | 0 <= j < |order'| ensures order'[j] in nodes' {
      var jj := if j < i then j else j + 1;
      UnlinkNode(nodes, order, i, order[jj]);
    }
    forall j | 0 <= j < |order'|
      ensures nodes'[order'[j]].prev == PrevOf(order', j) && nodes'[order'[j]].next == NextOf(order', j)
    {
      UnlinkLinksAt(nodes, order, i, order', j);
    }
  }

  lemma UnlinkLinksAt(nodes: map<nat, Node>, order: seq<nat>, i: nat, order': seq<nat>, j: nat)
    requires Distinct(order) && InArena(nodes, order) && Chained(nodes, order) && IsCut(order, i, order')
    requires j < |order'|
    ensures order'[j] in Unlink(nodes, order, i)
    ensures Unlink(nodes, order, i)[order'[j]].prev == PrevOf(order', j)
    ensures Unlink(nodes, order, i)[order'[j]].next == NextOf(order', j)
  {
    DistinctSlots(order);
    var nodes' := Unlink(nodes, order, i);
    var jj := if j < i then j else j + 1;
    var x := order[jj];
    assert order'[j] == x;
    UnlinkNode(nodes, order, i, x);
    var n := nodes[x];
    assert n.prev == PrevOf(order, jj) && n.next == NextOf(order, jj);
    assert i > 0 ==> (x == order[i - 1] <==> jj == i - 1);
    assert i + 1 < |order| ==> (x == order[i + 1] <==> jj == i + 1);
    if jj + 1 == i {
      assert nodes'[x] == n.(next := NextOf(order, i));
    } else if jj == i + 1 {
      assert nodes'[x] == n.(prev := PrevOf(order, i));
    } else {
      assert nodes'[x] == n;
      if jj < i {
        assert j > 0 ==> order'[j - 1] == order[jj - 1];
        assert order'[j + 1] == order[jj + 1];
      } else {
        assert order'[j - 1] == order[jj - 1];
        assert j + 1 < |order'| ==> order'[j + 1] == order[jj + 1];
      }
    }
  }

  lemma UnlinkCovered(nodes: map<nat, Node>, order: seq<nat>, bound: nat, i: nat, order': seq<nat>)
    requires Distinct(order) && InArena(nodes, order) && Covered(nodes, order, bound) && IsCut(order, i, order')
    ensures Covered(Unlink(nodes, order, i), order', bound)
  {
    var nodes' := Unlink(nodes, order, i);
    UnlinkKeys(nodes, order, i);
    forall m | m in nodes' ensures m < bound && m in order' {
      var jj := Pos(order, m);
      if jj < i { assert order'[jj] == m; } else { assert order'[jj - 1] == m; }
    }
  }

  /** What is left after unlinking is again a well-linked list, one node shorter. */
  lemma UnlinkKeepsLinked(nodes: map<nat, Node>, order: seq<nat>, bound: nat, i: nat, order': seq<nat>)
    requires Linked(nodes, order, bound) && IsCut(order, i, order')
    ensures Linked(Unlink(nodes, order, i), order', bound)
  {
    CutDistinct(order, i, order');
    UnlinkChained(nodes, order, i, order');
    UnlinkCovered(nodes, order, bound, i, order');
  }

  /** Unlinking frees the slot at position i and leaves every other node's key and value. */
  lemma UnlinkKeepsData(nodes: map<nat, Node>, order: seq<nat>, i: nat)
    requires InArena(nodes, order) && i < |order|
    ensures Unlink(nodes, order, i).Keys == nodes.Keys - {order[i]}
    ensures forall m :: m in Unlink(nodes, order, i) ==>
      Unlink(nodes, order, i)[m].key == nodes[m].key && Unlink(nodes, order, i)[m].value == nodes[m].value
  {
    var nodes' := Unlink(nodes, order, i);
    UnlinkKeys(nodes, order, i);
    forall m | m in nodes' ensures nodes'[m].key == nodes[m].key && nodes'[m].value == nodes[m].value {
      UnlinkNode(nodes, order, i, m);
    }
  }

  /** The new head is the old successor when the head was cut; the new tail likewise. */
  lemma CutEnds(order: seq<nat>, i: nat, order': seq<nat>)
    requires IsCut(order, i, order')
    ensures HeadOf(order') == (if i == 0 then NextOf(order, i) else HeadOf(order))
    ensures TailOf(order') == (if i + 1 == |order| then PrevOf(order, i) else TailOf(order))
  {
    if order' != [] {
      if i == 0 { assert order'[0] == order[1]; } else { assert order'[0] == order[0]; }
      if i + 1 == |order| {
        assert order'[|order'| - 1] == order[i - 1];
      } else {
        assert order'[|order'| - 1] == order[|order| - 1];
      }
    }
  }

  // ---------------------------------------------------------------------------
  // addNode's linking at the head (source lines 91-101)

  /** order' is order with slot put in front. */
  ghost predicate IsPrepended(order: seq<nat>, slot: nat, order': seq<nat>)
  {
    && |order'| == |order| + 1 && order'[0] == slot
    && (forall j :: 0 <= j < |order| ==> order'[j + 1] == order[j])
  }

  /** A fresh node before the old head, and the old head's prev pointing back at it. */
  ghost function Prepend(nodes: map<nat, Node>, order: seq<nat>, slot: nat, key: string, value: string): map<nat, Node>
    requires InArena(nodes, order)
  {
    var m1 := nodes[slot := Node(key, value, Nil, HeadOf(order))];
    if order == [] then m1 else m1[order[0] := m1[order[0]].(prev := Ptr(slot))]
  }

  lemma PrependNode(nodes: map<nat, Node>, order: seq<nat>, slot: nat, key: string, value: string, x: nat)
    requires InArena(nodes, order) && slot !in nodes && x in nodes
    ensures x in Prepend(nodes, order, slot, key, value)
    ensures Prepend(nodes, order, slot, key, value)[x] ==
      if order != [] && x == order[0] then nodes[x].(prev := Ptr(slot)) else nodes[x]
  {
  }

  lemma PrependDistinct(order: seq<nat>, bound: nat, order': seq<nat>)
    requires Distinct(order) && (forall j :: 0 <= j < |order| ==> order[j] < bound)
    requires IsPrepended(order, bound, order')
    ensures Distinct(order')
  {
    DistinctSlots(order);
    forall a, b | 0 <= a < b < |order'| ensures order'[a] != order'[b] {
      assert order'[b] == order[b - 1];
      if a > 0 {
        assert order'[a] == order[a - 1];
      }
    }
  }

  lemma PrependLinksAt(nodes: map<nat, Node>, order: seq<nat>, bound: nat, key: string, value: string, order': seq<nat>, j: nat)
    requires Distinct(order) && InArena(nodes, order) && Chained(nodes, order) && bound !in nodes
    requires IsPrepended(order, bound, order') && j < |order'|
    ensures order'[j] in Prepend(nodes, order, bound, key, value)
    ensures Prepend(nodes, order, bound, key, value)[order'[j]].prev == PrevOf(order', j)
    ensures Prepend(nodes, order, bound, key, value)[order'[j]].next == NextOf(order', j)
  {
    DistinctSlots(order);
    var nodes' := Prepend(nodes, order, bound, key, value);
    if j > 0 {
      var x := order[j - 1];
      assert order'[j] == x;
      PrependNode(nodes, order, bound, key, value, x);
      assert nodes[x].prev == PrevOf(order, j - 1) && nodes[x].next == NextOf(order, j - 1);
      if j > 1 {
        assert x != order[0];
        assert order'[j - 1] == order[j - 2];
      }
      if j < |order| {
        assert order'[j + 1] == order[j];
      }
    } else if order != [] {
      assert order'[1] == order[0];
    }
  }

  lemma PrependCovered(nodes: map<nat, Node>, order: seq<nat>, bound: nat, key: string, value: string, order': seq<nat>)
    requires InArena(nodes, order) && Covered(nodes, order, bound) && IsPrepended(order, bound, order')
    ensures Covered(Prepend(nodes, order, bound, key, value), order', bound + 1)
  {
    var nodes' := Prepend(nodes, order, bound, key, value);
    forall m | m in nodes' ensures m < bound + 1 && m in order' {
      if m != bound {
        var jj := Pos(order, m);
        assert order'[jj + 1] == m;
      }
    }
  }

  /** Linking a fresh slot at the head keeps the list well linked. */
  lemma PrependKeepsLinked(nodes: map<nat, Node>, order: seq<nat>, bound: nat, key: string, value: string, order': seq<nat>)
    requires Linked(nodes, order, bound) && IsPrepended(order, bound, order')
    ensures Linked(Prepend(nodes, order, bound, key, value), order', bound + 1)
  {
    var nodes' := Prepend(nodes, order, bound, key, value);
    assert bound !in nodes;
    PrependDistinct(order, bound, order');
    forall j | 0 <= j < |order'| ensures order'[j] in nodes' {
      PrependLinksAt(nodes, order, bound, key, value, order', j);
    }
    forall j | 0 <= j < |order'|
      ensures nodes'[order'[j]].prev == PrevOf(order', j) && nodes'[order'[j]].next == NextOf(order', j)
    {
      PrependLinksAt(nodes, order, bound, key, value, order', j);
    }
    PrependCovered(nodes, order, bound, key, value, order');
  }

  lemma PrependEnds(order: seq<nat>, slot: nat, order': seq<nat>)
    requires IsPrepended(order, slot, order')
    ensures HeadOf(order') == Ptr(slot)
    ensures TailOf(order') == if order == [] then Ptr(slot) else TailOf(order)
  {
    if order != [] {
      assert order'[|order'| - 1] == order[|order| - 1];
    }
  }

  /** Linking at the head adds the fresh slot and leaves every other node's key and value. */
  lemma PrependKeepsData(nodes: map<nat, Node>, order: seq<nat>, slot: nat, key: string, value: string)
    requires InArena(nodes, order) && slot !in nodes
    ensures Prepend(nodes, order, slot, key, value).Keys == nodes.Keys + {slot}
    ensures Prepend(nodes, order, slot, key, value)[slot].key == key
    ensures Prepend(nodes, order, slot, key, value)[slot].value == value
    ensures forall m :: m in nodes ==>
      Prepend(nodes, order, slot, key, value)[m].key == nodes[m].key
      && Prepend(nodes, order, slot, key, value)[m].value == nodes[m].value
  {
    forall m | m in nodes
      ensures Prepend(nodes, order, slot, key, value)[m].key == nodes[m].key
      && Prepend(nodes, order, slot, key, value)[m].value == nodes[m].value
    {
      PrependNode(nodes, order, slot, key, value, m);
    }
  }

  // ---------------------------------------------------------------------------
  // moveToHead's relinking of the tail (source lines 139-143, 151-152)

  /** order' is order with its last slot moved to the front. */
  ghost predicate IsPromoted(order: seq<nat>, order': seq<nat>)
  {
    && |order| >= 2 && |order'| == |order| && order'[0] == order[|order| - 1]
    && (forall j :: 0 <= j < |order| - 1 ==> order'[j + 1] == order[j])
  }

  /**
   * The tail node n takes the old head as its next; the old head's prev
   * points at n; the predecessor, now the tail, has no next, and n has no
   * prev.
   */
  ghost function PromoteTail(nodes: map<nat, Node>, order: seq<nat>): map<nat, Node>
    requires InArena(nodes, order) && |order| >= 2
  {
    var n, h, p := order[|order| - 1], order[0], order[|order| - 2];
    var m1 := nodes[n := nodes[n].(next := Ptr(h))];
    var m2 := m1[h := m1[h].(prev := Ptr(n))];
    var m3 := m2[p := m2[p].(next := Nil)];
    m3[n := m3[n].(prev := Nil)]
  }

  lemma PromoteNode(nodes: map<nat, Node>, order: seq<nat>, x: nat)
    requires Distinct(order) && InArena(nodes, order) && |order| >= 2 && x in nodes
    ensures x in PromoteTail(nodes, order)
    ensures PromoteTail(nodes, order)[x].key == nodes[x].key
    ensures PromoteTail(nodes, order)[x].value == nodes[x].value
    ensures var n, h, p := order[|order| - 1], order[0], order[|order| - 2];
      PromoteTail(nodes, order)[x] ==
        if x == n then nodes[x].(next := Ptr(h), prev := Nil)
        else if x == h && x == p then nodes[x].(prev := Ptr(n), next := Nil)
        else if x == h then nodes[x].(prev := Ptr(n))
        else if x == p then nodes[x].(next := Nil)
        else nodes[x]
  {
    DistinctSlots(order);
    assert order[|order| - 1] != order[0] && order[|order| - 1] != order[|order| - 2];
  }

  lemma PromoteLinksAt(nodes: map<nat, Node>, order: seq<nat>, order': seq<nat>, j: nat)
    requires Distinct(order) && InArena(nodes, order) && Chained(nodes, order)
    requires IsPromoted(order, order') && j < |order'|
    ensures order'[j] in PromoteTail(nodes, order)
    ensures PromoteTail(nodes, order)[order'[j]].prev == PrevOf(order', j)
    ensures PromoteTail(nodes, order)[order'[j]].next == NextOf(order', j)
  {
    DistinctSlots(order);
    var last := |order| - 1;
    if j == 0 {
      PromoteNode(nodes, order, order[last]);
      assert order'[1] == order[0];
    } else {
      var x := order[j - 1];
      assert order'[j] == x;
      PromoteNode(nodes, order, x);
      assert x != order[last];
      assert nodes[x].prev == PrevOf(order, j - 1) && nodes[x].next == NextOf(order, j - 1);
      assert x == order[0] <==> j == 1;
      assert x == order[last - 1] <==> j == last;
      if j > 1 {
        assert order'[j - 1] == order[j - 2];
      }
      if j < last {
        assert order'[j + 1] == order[j];
      }
    }
  }

  lemma PromoteCovered(nodes: map<nat, Node>, order: seq<nat>, bound: nat, order': seq<nat>)
    requires Distinct(order) && InArena(nodes, order) && Covered(nodes, order, bound) && IsPromoted(order, order')
    ensures Covered(PromoteTail(nodes, order), order', bound)
  {
    var nodes' := PromoteTail(nodes, order);
    forall m | m in nodes' ensures m < bound && m in order' {
      var jj := Pos(order, m);
      if jj + 1 == |order| { assert order'[0] == m; } else { assert order'[jj + 1] == m; }
    }
  }

  lemma PromoteDistinct(order: seq<nat>, order': seq<nat>)
    requires Distinct(order) && IsPromoted(order, order')
    ensures Distinct(order')
  {
    DistinctSlots(order);
    forall a, b | 0 <= a < b < |order'| ensures order'[a] != order'[b] {
      assert order'[b] == order[b - 1];
      if a > 0 {
        assert order'[a] == order[a - 1];
      }
    }
  }

  /** Relinking the tail at the head keeps the list well linked, with the same nodes. */
  lemma PromoteKeepsLinked(nodes: map<nat, Node>, order: seq<nat>, bound: nat, order': seq<nat>)
    requires Linked(nodes, order, bound) && IsPromoted(order, order')
    ensures Linked(PromoteTail(nodes, order), order', bound)
  {
    var nodes' := PromoteTail(nodes, order);
    PromoteDistinct(order, order');
    forall j | 0 <= j < |order'| ensures order'[j] in nodes' {
      PromoteLinksAt(nodes, order, order', j);
    }
    forall j | 0 <= j < |order'|
      ensures nodes'[order'[j]].prev == PrevOf(order', j) && nodes'[order'[j]].next == NextOf(order', j)
    {
      PromoteLinksAt(nodes, order, order', j);
    }
    PromoteCovered(nodes, order, bound, order');
  }

  lemma PromoteEnds(order: seq<nat>, order': seq<nat>)
    requires IsPromoted(order, order')
    ensures HeadOf(order') == Ptr(order[|order| - 1])
    ensures TailOf(order') == Ptr(order[|order| - 2])
  {
    assert order'[|order'| - 1] == order[|order| - 2];
  }

  /** Relinking the tail at the head keeps every node's key and value. */
  lemma PromoteKeepsData(nodes: map<nat, Node>, order: seq<nat>)
    requires Distinct(order) && InArena(nodes, order) && |order| >= 2
    ensures PromoteTail(nodes, order).Keys == nodes.Keys
    ensures forall m :: m in nodes ==>
      PromoteTail(nodes, order)[m].key == nodes[m].key && PromoteTail(nodes, order)[m].value == nodes[m].value
  {
    forall m | m in nodes
      ensures PromoteTail(nodes, order)[m].key == nodes[m].key && PromoteTail(nodes, order)[m].value == nodes[m].value
    {
      PromoteNode(nodes, order, m);
    }
  }

  // ---------------------------------------------------------------------------
  // What the relinkings do to the recency list

  /** Two arenas with the same keys and values along `order'`. */
  ghost predicate SameData(nodes: map<nat, Node>, nodes': map<nat, Node>, order': seq<nat>)
  {
    forall j :: 0 <= j < |order'| ==>
      && order'[j] in nodes && order'[j] in nodes'
      && nodes'[order'[j]].key == nodes[order'[j]].key && nodes'[order'[j]].value == nodes[order'[j]].value
  }

  lemma ViewCut(nodes: map<nat, Node>, order: seq<nat>, i: nat, nodes': map<nat, Node>, order': seq<nat>)
    requires InArena(nodes, order) && IsCut(order, i, order') && SameData(nodes, nodes', order')
    ensures InArena(nodes', order')
    ensures View(nodes', order') == View(nodes, order)[..i] + View(nodes, order)[i+1..]
  {
    var s := View(nodes, order);
    var t := s[..i] + s[i+1..];
    assert |t| == |order'|;
    forall j | 0 <= j < |order'| ensures View(nodes', order')[j] == t[j] {
      if j < i { assert t[j] == s[j]; } else { assert t[j] == s[j + 1]; }
    }
  }

  lemma ViewPrepend(nodes: map<nat, Node>, order: seq<nat>, slot: nat, nodes': map<nat, Node>, order': seq<nat>)
    requires InArena(nodes, order) && IsPrepended(order, slot, order') && SameData(nodes, nodes', order)
    requires slot in nodes'
    ensures InArena(nodes', order')
    ensures View(nodes', order') == [Entry(nodes'[slot].key, nodes'[slot].value)] + View(nodes, order)
  {
    var t := [Entry(nodes'[slot].key, nodes'[slot].value)] + View(nodes, order);
    forall j | 0 <= j < |order'| ensures order'[j] in nodes' {
      if j > 0 { assert order'[j] == order[j - 1]; }
    }
    forall j | 0 <= j < |order'| ensures View(nodes', order')[j] == t[j] {
      if j > 0 { assert order'[j] == order[j - 1] && t[j] == View(nodes, order)[j - 1]; }
    }
  }

  lemma ViewPromote(nodes: map<nat, Node>, order: seq<nat>, nodes': map<nat, Node>, order': seq<nat>)
    requires InArena(nodes, order) && IsPromoted(order, order') && SameData(nodes, nodes', order)
    ensures InArena(nodes', order')
    ensures var s := View(nodes, order);
      View(nodes', order') == [s[|s| - 1]] + s[..|s| - 1]
  {
    var s := View(nodes, order);
    var t := [s[|s| - 1]] + s[..|s| - 1];
    forall j | 0 <= j < |order'| ensures order'[j] in nodes' {
      if j > 0 { assert order'[j] == order[j - 1]; }
    }
    forall j | 0 <= j < |order'| ensures View(nodes', order')[j] == t[j] {
      if j > 0 { assert order'[j] == order[j - 1] && t[j] == s[j - 1]; }
    }
  }

  /** Along `order`, the node holding key is exactly the indexed one. */
  lemma IndexedSlot(nodes: map<nat, Node>, order: seq<nat>, index: map<string, nat>, key: string)
    requires InArena(nodes, order) && Indexed(nodes, index) && key in index
    ensures forall j :: 0 <= j < |order| ==> (nodes[order[j]].key == key <==> order[j] == index[key])
  {
  }

  /** Writing a new value into the node holding key is SetValue on the list. */
  lemma ViewSetValue(nodes: map<nat, Node>, order: seq<nat>, n: nat, key: string, value: string)
    requires InArena(nodes, order) && n in nodes
    requires forall j :: 0 <= j < |order| ==> (nodes[order[j]].key == key <==> order[j] == n)
    ensures View(nodes[n := nodes[n].(value := value)], order) == SetValue(View(nodes, order), key, value)
  {
    var nodes' := nodes[n := nodes[n].(value := value)];
    var s := View(nodes, order);
    var r := SetValue(s, key, value);
    forall j | 0 <= j < |order| ensures View(nodes', order)[j] == r[j] {
      var x := order[j];
      assert s[j].key == nodes[x].key;
      if x != n {
        assert nodes'[x] == nodes[x];
      }
    }
  }

  // ---------------------------------------------------------------------------
  // The index across the relinkings

  lemma IndexedUnlink(nodes: map<nat, Node>, index: map<string, nat>, n: nat, nodes': map<nat, Node>)
    requires Indexed(nodes, index) && n in nodes
    requires nodes'.Keys == nodes.Keys - {n}
    requires forall m :: m in nodes' ==> nodes'[m].key == nodes[m].key
    ensures Indexed(nodes', index - {nodes[n].key})
  {
  }

  lemma IndexedPrepend(nodes: map<nat, Node>, index: map<string, nat>, slot: nat, key: string, nodes': map<nat, Node>)
    requires Indexed(nodes, index) && slot !in nodes && key !in index
    requires nodes'.Keys == nodes.Keys + {slot} && nodes'[slot].key == key
    requires forall m :: m in nodes ==> nodes'[m].key == nodes[m].key
    ensures Indexed(nodes', index[key := slot])
  {
  }

  lemma IndexedSameKeys(nodes: map<nat, Node>, index: map<string, nat>, nodes': map<nat, Node>)
    requires Indexed(nodes, index)
    requires nodes'.Keys == nodes.Keys
    requires forall m :: m in nodes ==> nodes'[m].key == nodes[m].key
    ensures Indexed(nodes', index)
  {
  }

  /** Writing a value into a node changes neither the links nor the slots. */
  lemma WriteValueKeepsLinked(nodes: map<nat, Node>, order: seq<nat>, bound: nat, n: nat, value: string)
    requires Linked(nodes, order, bound) && n in nodes
    ensures Linked(nodes[n := nodes[n].(value := value)], order, bound)
  {
    var nodes' := nodes[n := nodes[n].(value := value)];
    forall j | 0 <= j < |order|
      ensures order[j] in nodes'
      ensures nodes'[order[j]].prev == nodes[order[j]].prev && nodes'[order[j]].next == nodes[order[j]].next
    {
    }
  }

  // ---------------------------------------------------------------------------
  // The states the methods of the cache pass through

  /** deleteNode's new state: well linked and indexed, the entry removed, its bytes freed. */
  lemma DeleteNodeState(nodes: map<nat, Node>, order: seq<nat>, bound: nat, index: map<string, nat>, i: nat,
                        nodes': map<nat, Node>, order': seq<nat>)
    requires Linked(nodes, order, bound) && Indexed(nodes, index) && IsCut(order, i, order')
    requires nodes' == Unlink(nodes, order, i)
    ensures var s, k := View(nodes, order), nodes[order[i]].key;
      && Linked(nodes', order', bound)
      && Indexed(nodes', index - {k})
      && HeadOf(order') == (if i == 0 then NextOf(order, i) else HeadOf(order))
      && TailOf(order') == (if i + 1 == |order| then PrevOf(order, i) else TailOf(order))
      && View(nodes', order') == Remove(s, k)
      && TotalSize(View(nodes', order')) == TotalSize(s) - (|k| + |nodes[order[i]].value|)
  {
    var s := View(nodes, order);
    UnlinkKeepsLinked(nodes, order, bound, i, order');
    UnlinkKeepsData(nodes, order, i);
    CutEnds(order, i, order');
    ViewCut(nodes, order, i, nodes', order');
    IndexedUnlink(nodes, index, order[i], nodes');
    IndexedView(nodes, order, bound, index);
    RemoveAt(s, i);
    TotalSizeSplit(s, i);
  }

  /** addNode's new state: well linked and indexed, the new entry at the head. */
  lemma AddNodeState(nodes: map<nat, Node>, order: seq<nat>, bound: nat, index: map<string, nat>,
                     key: string, value: string, nodes': map<nat, Node>, order': seq<nat>)
    requires Linked(nodes, order, bound) && Indexed(nodes, index) && key !in index
    requires IsPrepended(order, bound, order') && nodes' == Prepend(nodes, order, bound, key, value)
    ensures && Linked(nodes', order', bound + 1)
      && Indexed(nodes', index[key := bound])
      && HeadOf(order') == Ptr(bound)
      && TailOf(order') == (if order == [] then Ptr(bound) else TailOf(order))
      && View(nodes', order') == [Entry(key, value)] + View(nodes, order)
      && TotalSize(View(nodes', order')) == |key| + |value| + TotalSize(View(nodes, order))
  {
    assert bound !in nodes;
    PrependKeepsLinked(nodes, order, bound, key, value, order');
    PrependKeepsData(nodes, order, bound, key, value);
    PrependEnds(order, bound, order');
    forall m | m in nodes ensures m in nodes' && nodes'[m].key == nodes[m].key && nodes'[m].value == nodes[m].value {
      PrependNode(nodes, order, bound, key, value, m);
    }
    IndexedPrepend(nodes, index, bound, key, nodes');
    ViewPrepend(nodes, order, bound, nodes', order');
    TotalSizeAround([], Entry(key, value), View(nodes, order));
  }

  /** moveToHead's tail case: well linked, same index, the last entry moved to the front. */
  lemma MoveTailState(nodes: map<nat, Node>, order: seq<nat>, bound: nat, index: map<string, nat>,
                      nodes': map<nat, Node>, order': seq<nat>)
    requires Linked(nodes, order, bound) && Indexed(nodes, index) && IsPromoted(order, order')
    requires nodes' == PromoteTail(nodes, order)
    ensures var s := View(nodes, order);
      && Linked(nodes', order', bound)
      && Indexed(nodes', index)
      && HeadOf(order') == Ptr(order[|order| - 1])
      && TailOf(order') == Ptr(order[|order| - 2])
      && View(nodes', order') == [s[|s| - 1]] + s[..|s| - 1]
      && TotalSize(View(nodes', order')) == TotalSize(s)
  {
    var s := View(nodes, order);
    PromoteKeepsLinked(nodes, order, bound, order');
    PromoteKeepsData(nodes, order);
    PromoteEnds(order, order');
    IndexedSameKeys(nodes, index, nodes');
    ViewPromote(nodes, order, nodes', order');
    TotalSizeAround(s[..|s| - 1], s[|s| - 1], []);
    assert s[..|s| - 1] + [s[|s| - 1]] + [] == s;
    assert [s[|s| - 1]] + s[..|s| - 1] + [] == [s[|s| - 1]] + s[..|s| - 1];
  }

  /** changeNode's value write: same links and index, SetValue on the list. */
  lemma WriteValueState(nodes: map<nat, Node>, order: seq<nat>, bound: nat, index: map<string, nat>,
                        n: nat, value: string)
    requires Linked(nodes, order, bound) && Indexed(nodes, index) && n in nodes
    ensures var nodes', s := nodes[n := nodes[n].(value := value)], View(nodes, order);
      && Linked(nodes', order, bound)
      && Indexed(nodes', index)
      && View(nodes', order) == SetValue(s, nodes[n].key, value)
      && TotalSize(View(nodes', order)) == TotalSize(s) - |nodes[n].value| + |value|
  {
    var nodes', s := nodes[n := nodes[n].(value := value)], View(nodes, order);
    WriteValueKeepsLinked(nodes, order, bound, n, value);
    IndexedSameKeys(nodes, index, nodes');
    IndexedSlot(nodes, order, index, nodes[n].key);
    ViewSetValue(nodes, order, n, nodes[n].key, value);
    var i := Pos(order, n);
    IndexedView(nodes, order, bound, index);
    SetValueAt(s, i, value);
  }

  // ---------------------------------------------------------------------------
  // The cache's fields, as values

  /** The nodes by slot, and the slot the next new node is allocated in. */
  datatype Arena = Arena(slots: map<nat, Node>, next: nat)

  /**
   * The invariant of a cache: the list is well linked from head to tail, the
   * index maps each key to the node holding it, and the byte counter is the
   * total size of the entries and within the capacity.
   */
  ghost predicate Consistent(arena: Arena, order: seq<nat>, head: Link, tail: Link,
                             index: map<string, nat>, curSize: nat, maxSize: nat)
  {
    && Linked(arena.slots, order, arena.next)
    && head == HeadOf(order) && tail == TailOf(order)
    && Indexed(arena.slots, index)
    && curSize == TotalSize(View(arena.slots, order)) && curSize <= maxSize
  }

  /**
   * deleteNode: free the node's bytes and index entry, then unlink it.
   *
   * This and the other step methods below take the cache's fields as values
   * and return their new values, which the class methods store back.  That
   * keeps each proof about one step's pointer surgery free of heap frames, so
   * it stays small; the class methods only commit the result.
   */
  method DeleteNodeIn(arena: Arena, ghost order: seq<nat>, head: Link, tail: Link,
                      index: map<string, nat>, curSize: nat, maxSize: nat, n: nat)
    returns (arena': Arena, ghost order': seq<nat>, head': Link, tail': Link, index': map<string, nat>, curSize': nat)
    requires Consistent(arena, order, head, tail, index, curSize, maxSize) && n in arena.slots
    ensures Consistent(arena', order', head', tail', index', curSize', maxSize)
    ensures View(arena'.slots, order') == Remove(View(arena.slots, order), arena.slots[n].key)
    ensures index' == index - {arena.slots[n].key} && arena'.next == arena.next
  {
    var nodes := arena.slots;
    ghost var i := Pos(order, n);
    var node := nodes[n];
    assert node.prev == PrevOf(order, i) && node.next == NextOf(order, i);
    assert |node.key| + |node.value| <= curSize by {
      assert View(nodes, order)[i] == Entry(node.key, node.value);
      TotalSizeSplit(View(nodes, order), i);
    }
    curSize' := curSize - (|node.key| + |node.value|);
    index' := index - {node.key};
    if node.next == Nil && node.prev == Nil {
      nodes, head', tail' := nodes - {n}, Nil, Nil;
    } else if node.next == Nil {
      head', tail' := head, node.prev;
      nodes := nodes[tail'.slot := nodes[tail'.slot].(next := Nil)] - {n};
    } else if node.prev == Nil {
      head', tail' := node.next, tail;
      nodes := nodes[head'.slot := nodes[head'.slot].(prev := Nil)] - {n};
    } else {
      head', tail' := head, tail;
      nodes := nodes[node.next.slot := nodes[node.next.slot].(prev := node.prev)];
      nodes := nodes[node.prev.slot := nodes[node.prev.slot].(next := node.next)] - {n};
    }
    assert nodes == Unlink(arena.slots, order, i);
    order' := CutOf(order, i);
    DeleteNodeState(arena.slots, order, arena.next, index, i, nodes, order');
    arena' := arena.(slots := nodes);
  }

  /** The linking half of addNode: a new node at the head, indexed and charged. */
  method AddNodeIn(arena: Arena, ghost order: seq<nat>, head: Link, tail: Link,
                   index: map<string, nat>, curSize: nat, maxSize: nat, key: string, value: string)
    returns (arena': Arena, ghost order': seq<nat>, head': Link, tail': Link, index': map<string, nat>, curSize': nat)
    requires Consistent(arena, order, head, tail, index, curSize, maxSize)
    requires key !in index && curSize + |key| + |value| <= maxSize
    ensures Consistent(arena', order', head', tail', index', curSize', maxSize)
    ensures View(arena'.slots, order') == [Entry(key, value)] + View(arena.slots, order)
    ensures index'.Keys == index.Keys + {key}
  {
    var slot := arena.next;
    var nodes := arena.slots;
    if head == Nil {
      nodes := nodes[slot := Node(key, value, Nil, Nil)];
      head', tail' := Ptr(slot), Ptr(slot);
    } else {
      nodes := nodes[slot := Node(key, value, Nil, head)];
      head', tail' := Ptr(slot), tail;
      nodes := nodes[head.slot := nodes[head.slot].(prev := head')];
    }
    index' := index[key := slot];
    curSize' := curSize + (|key| + |value|);
    assert nodes == Prepend(arena.slots, order, slot, key, value);
    order' := PrependOf(order, slot);
    AddNodeState(arena.slots, order, slot, index, key, value, nodes, order');
    arena' := Arena(nodes, slot + 1);
  }

  /**
   * moveToHead's tail case: the tail node takes the head as its next and
   * becomes the head; its predecessor becomes the tail.
   */
  method MoveTailIn(arena: Arena, ghost order: seq<nat>, head: Link, tail: Link,
                    ghost index: map<string, nat>, ghost curSize: nat, ghost maxSize: nat, n: nat)
    returns (arena': Arena, ghost order': seq<nat>, head': Link, tail': Link)
    requires Consistent(arena, order, head, tail, index, curSize, maxSize)
    requires n in arena.slots && arena.slots[n].next == Nil && arena.slots[n].prev != Nil
    ensures Consistent(arena', order', head', tail', index, curSize, maxSize)
    ensures var s := View(arena.slots, order);
      |s| >= 2 && View(arena'.slots, order') == [s[|s| - 1]] + s[..|s| - 1]
  {
    ghost var i := Pos(order, n);
    var node := arena.slots[n];
    assert node.prev == PrevOf(order, i) && node.next == NextOf(order, i);
    var nodes := arena.slots[n := node.(next := head)];
    head' := Ptr(n);
    nodes := nodes[head.slot := nodes[head.slot].(prev := head')];
    tail' := node.prev;
    nodes := nodes[tail'.slot := nodes[tail'.slot].(next := Nil)];
    nodes := nodes[n := nodes[n].(prev := Nil)];
    assert nodes == PromoteTail(arena.slots, order);
    order' := PromoteOf(order);
    MoveTailState(arena.slots, order, arena.next, index, nodes, order');
    arena' := arena.(slots := nodes);
  }

  /** changeNode's write of the new value, with the byte counter kept in step. */
  method WriteValueIn(arena: Arena, ghost order: seq<nat>, ghost head: Link, ghost tail: Link,
                      ghost index: map<string, nat>, curSize: nat, maxSize: nat, n: nat, value: string)
    returns (arena': Arena, curSize': nat)
    requires Consistent(arena, order, head, tail, index, curSize, maxSize) && n in arena.slots
    requires curSize - |arena.slots[n].value| + |value| <= maxSize
    ensures Consistent(arena', order, head, tail, index, curSize', maxSize)
    ensures View(arena'.slots, order) == SetValue(View(arena.slots, order), arena.slots[n].key, value)
    ensures n in arena'.slots && arena'.slots[n].key == arena.slots[n].key
  {
    var node := arena.slots[n];
    WriteValueState(arena.slots, order, arena.next, index, n, value);
    arena' := arena.(slots := arena.slots[n := node.(value := value)]);
    curSize' := curSize - |node.value| + |value|;
  }

  /** Promoting the key of the tail node puts the last entry first. */
  lemma TailIsTouch(nodes: map<nat, Node>, order: seq<nat>, bound: nat, index: map<string, nat>, n: nat)
    requires Linked(nodes, order, bound) && Indexed(nodes, index) && n in nodes && nodes[n].next == Nil
    ensures var s, k := View(nodes, order), nodes[n].key;
      && s != [] && k in Keys(s)
      && Touch(s, k) == [s[|s| - 1]] + s[..|s| - 1]
  {
    var i := Pos(order, n);
    assert nodes[n].prev == PrevOf(order, i) && nodes[n].next == NextOf(order, i);
    var s := View(nodes, order);
    assert s[|s| - 1].key == nodes[n].key;
    IndexedView(nodes, order, bound, index);
    TouchTail(s);
  }

  // ---------------------------------------------------------------------------
  // The cache

  class SimpleLRU {
    /** _max_size: the byte capacity. */
    const maxSize: nat
    /** _cur_size: the bytes charged for the stored entries. */
    var curSize: nat
    /** The nodes; in the source the chain of unique_ptrs from the head owns them. */
    var arena: Arena
    /** _lru_head and _lru_tail. */
    var head: Link
    var tail: Link
    /** _lru_index: key to node. */
    var index: map<string, nat>
    /** The slots from head (most recently used) to tail. */
    ghost var order: seq<nat>

    ghost predicate Valid()
      reads this
    {
      Consistent(arena, order, head, tail, index, curSize, maxSize)
    }

    /** The recency list the cache holds, most recently used first. */
    ghost function Entries(): seq<Entry>
      reads this
      requires Valid()
    {
      View(arena.slots, order)
    }

    /** The recency list has each key once, fits the capacity, and has the index's keys. */
    lemma EntriesWellformed()
      requires Valid()
      ensures Wellformed(Entries(), maxSize) && Keys(Entries()) == index.Keys
    {
      IndexedView(arena.slots, order, arena.next, index);
    }

    /** The node indexed under key is in the list, at the position of its entry. */
    lemma Located(key: string)
      requires Valid() && key in index
      ensures index[key] in order
      ensures var i := Pos(order, index[key]);
        && Entries()[i] == Entry(key, arena.slots[index[key]].value)
        && Lookup(Entries(), key) == Some(arena.slots[index[key]].value)
    {
      var i := Pos(order, index[key]);
      EntriesWellformed();
      LookupAt(Entries(), i);
    }

    /** The tail node holds the last entry, and its predecessor the one before. */
    lemma TailEntries()
      requires Valid() && order != []
      ensures tail.Ptr? && tail.slot in arena.slots
      ensures var s, t := Entries(), arena.slots[tail.slot];
        && s[|s| - 1] == Entry(t.key, t.value)
        && (|s| >= 2 <==> t.prev.Ptr?)
        && (|s| >= 2 ==> t.prev.slot in arena.slots && s[|s| - 2] == Entry(arena.slots[t.prev.slot].key, arena.slots[t.prev.slot].value))
    {
      assert arena.slots[order[|order| - 1]].prev == PrevOf(order, |order| - 1);
    }

    /** A node of the arena sits at some position of the list, which its links give away. */
    lemma NodeAt(n: nat) returns (i: nat)
      requires Valid() && n in arena.slots
      ensures i < |order| && order[i] == n
      ensures Entries()[i] == Entry(arena.slots[n].key, arena.slots[n].value)
      ensures arena.slots[n].prev == Nil <==> i == 0
      ensures arena.slots[n].next == Nil <==> i == |order| - 1
    {
      i := Pos(order, n);
      assert arena.slots[n].prev == PrevOf(order, i);
    }

    /**
     * The node changeNode evicts is the tail, or the tail's predecessor when
     * the tail is the node of key; it holds the model's Victim.
     */
    lemma TailVictim(key: string)
      requires Valid() && key in index && |order| >= 2
      ensures tail.Ptr? && tail.slot in arena.slots
      ensures tail.slot == index[key] ==> arena.slots[tail.slot].prev.Ptr?
      ensures var m := if tail.slot != index[key] then tail.slot else arena.slots[tail.slot].prev.slot;
        m in arena.slots && arena.slots[m].key == Victim(Entries(), key).key
    {
      TailEntries();
    }

    constructor(maxSize: nat)
      ensures Valid() && Entries() == [] && this.maxSize == maxSize
    {
      this.maxSize := maxSize;
      curSize := 0;
      arena := Arena(map[], 0);
      head := Nil;
      tail := Nil;
      index := map[];
      order := [];
    }

    /** Stores a consistent state into the fields. */
    method Commit(arena': Arena, ghost order': seq<nat>, head': Link, tail': Link, index': map<string, nat>, curSize': nat)
      requires Consistent(arena', order', head', tail', index', curSize', maxSize)
      modifies this
      ensures Valid()
      ensures arena == arena' && order == order' && head == head' && tail == tail'
      ensures index == index' && curSize == curSize'
      ensures Entries() == View(arena'.slots, order')
    {
      arena, order, head, tail, index, curSize := arena', order', head', tail', index', curSize';
    }

    /** deleteNode: unlink the node, free its bytes and its index entry. */
    method DeleteNode(n: nat)
      requires Valid() && n in arena.slots
      modifies this
      ensures Valid()
      ensures Entries() == Remove(old(Entries()), old(arena.slots[n].key))
      ensures index == old(index) - {old(arena.slots[n].key)}
    {
      var arena', order', head', tail', index', curSize' := DeleteNodeIn(arena, order, head, tail, index, curSize, maxSize, n);
      Commit(arena', order', head', tail', index', curSize');
    }
 
    /** addNode's eviction (source lines 85-89): delete the tail node while need bytes do not fit. */
    method MakeRoom(need: nat)
      requires Valid() && need <= maxSize
      modifies this
      ensures Valid() && index.Keys <= old(index.Keys)
      ensures Entries() == EvictUntil(old(Entries()), maxSize, need)
    {
      ghost var kept := EvictUntil(Entries(), maxSize, need);
      if maxSize - curSize < need {
        while maxSize - curSize < need
          invariant Valid() && index.Keys <= old(index.Keys)
          invariant EvictUntil(Entries(), maxSize, need) == kept
          decreases |Entries()|
        {
          EntriesWellformed();
          EvictTail(Entries(), maxSize, need);
          TailEntries();
          DeleteNode(tail.slot);
        }
      }
    }

    /**
     * addNode: evict from the tail while the new node does not fit, then
     * link the node at the head, index it and charge its bytes.
     */
    method AddNode(key: string, value: string)
      requires Valid() && key !in index && |key| + |value| <= maxSize
      modifies this
      ensures Valid()
      ensures Entries() == Admit(old(Entries()), maxSize, key, value)
    {
      var nodeSize := |key| + |value|;
      MakeRoom(nodeSize);
      AdmitAfterEviction(old(Entries()), maxSize, key, value, nodeSize, Entries());
      var arena', order', head', tail', index', curSize' := AddNodeIn(arena, order, head, tail, index, curSize, maxSize, key, value);
      Commit(arena', order', head', tail', index', curSize');
    }
 
    /**
     * moveToHead: make the node the most recently used.  The sole node and
     * the head stay where they are, the tail is relinked in place, and an
     * interior node is deleted and put back with PutIfAbsent.
     */
    method MoveToHead(n: nat)
      requires Valid() && n in arena.slots
      modifies this
      ensures Valid()
      ensures var s, k := old(Entries()), old(arena.slots[n].key);
        k in Keys(s) && Entries() == Touch(s, k)
    {
      var node := arena.slots[n];
      if node.next == Nil && node.prev == Nil {
        HeadStays(n);
        return;
      } else if node.prev == Nil {
        HeadStays(n);
        return;
      } else if node.next == Nil {
        MoveTail(n);
      } else {
        Reinsert(n);
      }
    }

    /** The head (sole or not) is already where moveToHead would put it (source lines 133-137). */
    lemma HeadStays(n: nat)
      requires Valid() && n in arena.slots && arena.slots[n].prev == Nil
      ensures var s, k := Entries(), arena.slots[n].key;
        k in Keys(s) && Touch(s, k) == s
    {
      var i := NodeAt(n);
      EntriesWellformed();
      TouchHead(Entries());
    }

    /** moveToHead's tail case (source lines 139-143 and 151-152). */
    method MoveTail(n: nat)
      requires Valid() && n in arena.slots && arena.slots[n].next == Nil && arena.slots[n].prev != Nil
      modifies this
      ensures Valid()
      ensures var s, k := old(Entries()), old(arena.slots[n].key);
        k in Keys(s) && Entries() == Touch(s, k)
    {
      TailIsTouch(arena.slots, order, arena.next, index, n);
      var arena', order', head', tail' := MoveTailIn(arena, order, head, tail, index, curSize, maxSize, n);
      Commit(arena', order', head', tail', index, curSize);
    }

    /**
     * moveToHead's interior case (source lines 145-150): delete the node and
     * put its pair back with PutIfAbsent.  The bytes freed are the bytes
     * charged again, so nothing is evicted.
     */
    method Reinsert(n: nat)
      requires Valid() && n in arena.slots
      modifies this
      ensures Valid()
      ensures var s, k := old(Entries()), old(arena.slots[n].key);
        k in Keys(s) && Entries() == Touch(s, k)
    {
      var key, value := arena.slots[n].key, arena.slots[n].value;
      ghost var i := NodeAt(n);
      EntriesWellformed();
      ReinsertIsTouch(Entries(), maxSize, i);
      DeleteNode(n);
      var reinserted := PutIfAbsent(key, value);
    }

    /** PutIfAbsent: admit the pair when it fits the capacity and the key is absent. */
    method PutIfAbsent(key: string, value: string) returns (ok: bool)
      requires Valid()
      modifies this
      ensures Valid()
      ensures ok <==> |key| + |value| <= maxSize && key !in Keys(old(Entries()))
      ensures ok ==> Entries() == Admit(old(Entries()), maxSize, key, value)
      ensures !ok ==> unchanged(this)
    {
      EntriesWellformed();
      if |key| + |value| > maxSize {
        return false;
      }
      if key !in index {
        AddNode(key, value);
      } else {
        return false;
      }
      return true;
    }
 
    /**
     * changeNode's eviction (source lines 159-165) as evidently intended:
     * while the growth of the value does not fit, delete the least recently
     * used node other than the one being updated.
     */
    method EvictOthersFor(key: string, value: string)
      requires Valid() && key in index && |key| + |value| <= maxSize
      modifies this
      ensures Valid() && key in index && index[key] == old(index[key])
      ensures var s := old(Entries());
        && NoDupKeys(s) && key in Keys(s)
        && Entries() == EvictOthers(s, maxSize, key, value)
    {
      var n := index[key];
      Located(key);
      EntriesWellformed();
      var delta := |value| - |arena.slots[n].value|;
      ghost var kept := EvictOthers(Entries(), maxSize, key, value);
      if maxSize - curSize < delta {
        while maxSize - curSize < delta
          invariant Valid() && key in index && index[key] == n
          invariant NoDupKeys(Entries()) && key in Keys(Entries())
          invariant Lookup(Entries(), key) == Some(old(arena.slots[n].value))
          invariant EvictOthers(Entries(), maxSize, key, value) == kept
          decreases |Entries()|
        {
          EvictOthersTail(Entries(), maxSize, key, value);
          TailVictim(key);
          var victim := tail.slot;
          if victim == n {
            victim := arena.slots[victim].prev.slot;
          }
          DeleteNode(victim);
          EntriesWellformed();
        }
      } else {
        EvictOthersFits(Entries(), maxSize, key, value);
      }
    }

    /**
     * changeNode as evidently intended: make room among the other entries,
     * write the new value, charge the change in size, promote the node.
     */
    method ChangeNode(key: string, value: string)
      requires Valid() && key in index && |key| + |value| <= maxSize
      modifies this
      ensures Valid()
      ensures var s := old(Entries());
        && NoDupKeys(s) && key in Keys(s)
        && Entries() == Replace(s, maxSize, key, value)
    {
      EvictOthersFor(key, value);
      ReplaceAfterEviction(old(Entries()), maxSize, key, value, Entries());
      var n := index[key];
      Located(key);
      var arena', curSize' := WriteValueIn(arena, order, head, tail, index, curSize, maxSize, n, value);
      Commit(arena', order, head, tail, index, curSize');
      MoveToHead(n);
    }

    /** Put: reject a pair larger than the capacity; admit an absent key, update a present one. */
    method Put(key: string, value: string) returns (ok: bool)
      requires Valid()
      modifies this
      ensures Valid()
      ensures ok <==> |key| + |value| <= maxSize
      ensures ok ==> Entries() == Admit(Remove(old(Entries()), key), maxSize, key, value)
      ensures !ok ==> unchanged(this)
    {
      if |key| + |value| > maxSize {
        return false;
      }
      EntriesWellformed();
      if key !in index {
        AddNode(key, value);
      } else {
        ReplaceIsReinsert(Entries(), maxSize, key, value);
        ChangeNode(key, value);
      }
      return true;
    }

    /** Set: update a present key (with the capacity check changeNode needs); an absent key is left alone. */
    method Set(key: string, value: string) returns (ok: bool)
      requires Valid()
      modifies this
      ensures Valid()
      ensures ok <==> key in Keys(old(Entries())) && |key| + |value| <= maxSize
      ensures ok ==> Entries() == Admit(Remove(old(Entries()), key), maxSize, key, value)
      ensures !ok ==> unchanged(this)
    {
      EntriesWellformed();
      if key !in index {
        return false;
      }
      if |key| + |value| > maxSize {
        return false;
      }
      ReplaceIsReinsert(Entries(), maxSize, key, value);
      ChangeNode(key, value);
      return true;
    }

    /** Delete: remove the key's node; an absent key is reported and nothing changes. */
    method Delete(key: string) returns (ok: bool)
      requires Valid()
      modifies this
      ensures Valid()
      ensures ok <==> key in Keys(old(Entries()))
      ensures Entries() == Remove(old(Entries()), key)
      ensures !ok ==> unchanged(this)
    {
      EntriesWellformed();
      if key !in index {
        return false;
      }
      DeleteNode(index[key]);
      return true;
    }

    /** Get: copy out the value of a present key and promote its node. */
    method Get(key: string) returns (ok: bool, value: string)
      requires Valid()
      modifies this
      ensures Valid()
      ensures ok <==> key in Keys(old(Entries()))
      ensures ok ==> Lookup(old(Entries()), key) == Some(value) && Entries() == Touch(old(Entries()), key)
      ensures !ok ==> value == "" && unchanged(this)
    {
      EntriesWellformed();
      if key !in index {
        return false, "";
      }
      var n := index[key];
      Located(key);
      value := arena.slots[n].value;
      MoveToHead(n);
      ok := true;
    }
  }
}
