/**
 * changeNode and Set as written (src/storage/SimpleLRU.cpp lines 43-52 and
 * 155-169), including the moveToHead they end with (lines 131-153), on the
 * recency list of module LruModel, with the size_t arithmetic of the source:
 * sizes and their differences are taken modulo 2^64.
 *
 * Three defects show up here, each exhibited by a lemma:
 *   - delta (line 159) is unsigned, so a value that shrinks makes it wrap to
 *     almost 2^64; with a counter that matches the list and a capacity more
 *     than the old value's length below 2^64, the loop then deletes every
 *     node and finally calls deleteNode on the null tail (with a capacity
 *     closer to 2^64, or a stale counter, the loop can stop earlier);
 *   - line 167 writes the new value but never charges its growth to
 *     _cur_size, so the byte counter falls behind the stored bytes;
 *   - the loop deletes the tail even when the tail is the node being
 *     updated, and line 167 then writes through the freed node.
 * A fourth is in Set: it has no size check, so a pair larger than the
 * capacity reaches changeNode.  With a stale counter such a pair can get
 * past the loop; when its node is interior, moveToHead deletes it and
 * PutIfAbsent refuses to put it back, so the key is lost.
 *
 * The rest of the model (SimpleLruCache.SimpleLRU.ChangeNode, LruModel.Replace)
 * uses the evidently intended behaviour instead.
 */
module ChangeNodeAsWritten {
  import opened LruModel

  /** size_t arithmetic is modulo 2^64. */
  const SizeModulus: nat := 0x1_0000_0000_0000_0000

  /** size_t subtraction: below zero it wraps around. */
  function SizeSub(a: nat, b: nat): (r: nat)
    requires a < SizeModulus && b < SizeModulus
    ensures r < SizeModulus
    ensures b <= a ==> r == a - b
    ensures a < b ==> r == SizeModulus - (b - a)
  {
    if b <= a then a - b else SizeModulus - (b - a)
  }

  /** size_t addition: past 2^64 it wraps around. */
  function SizeAdd(a: nat, b: nat): (r: nat)
    requires a < SizeModulus && b < SizeModulus
    ensures r < SizeModulus
    ensures a + b < SizeModulus ==> r == a + b
    ensures a + b >= SizeModulus ==> r == a + b - SizeModulus
  {
    if a + b < SizeModulus then a + b else a + b - SizeModulus
  }

  /** A length or a sum of lengths as a size_t. */
  function AsSize(n: nat): (r: nat)
    ensures r < SizeModulus
    ensures n < SizeModulus ==> r == n
  {
    if n < SizeModulus then n else n % SizeModulus
  }

  /**
   * Where the eviction loop of changeNode (lines 161-165) stops: at a call of
   * deleteNode on the null tail, or with the list that is left, the byte
   * counter, and whether the node being updated was among the deleted.
   */
  datatype Evicted = NullTail | Evicted(entries: seq<Entry>, curSize: nat, selfGone: bool)

  /** The loop as written: while the unsigned room is below delta, delete the tail node. */
  function EvictAsWritten(s: seq<Entry>, cap: nat, cur: nat, delta: nat, k: string, selfGone: bool): (r: Evicted)
    requires cap < SizeModulus && cur < SizeModulus && delta < SizeModulus
    ensures r.Evicted? ==> r.entries <= s && r.curSize < SizeModulus && SizeSub(cap, r.curSize) >= delta
    ensures r.Evicted? && selfGone ==> r.selfGone
    decreases |s|
  {
    if SizeSub(cap, cur) >= delta then Evicted(s, cur, selfGone)
    else if s == [] then NullTail
    else
      var t := s[|s| - 1];
      var r := EvictAsWritten(s[..|s| - 1], cap, SizeSub(cur, AsSize(Size(t))), delta, k, selfGone || t.key == k);
      assert r.Evicted? ==> r.entries <= s[..|s| - 1] <= s;
      r
  }

  /**
   * What changeNode as written leaves behind: a call of deleteNode on the null
   * tail, a write through a freed node, a list that lost the updated key, or
   * a list with the key at the head; the last two with the byte counter.
   */
  datatype Outcome =
    | NullTailDeleted
    | DanglingWrite
    | KeyLost(entries: seq<Entry>, curSize: nat)
    | Done(entries: seq<Entry>, curSize: nat)

  /**
   * moveToHead as written (lines 131-153) on the node of k, after line 167
   * wrote v into it.  The head stays; the tail is relinked in front; an
   * interior node is deleted (its bytes subtracted, modulo 2^64) and its pair
   * handed to PutIfAbsent, whose size check (line 27) can refuse it and whose
   * addNode runs the eviction loop of lines 85-89 on the counter it finds.
   */
  function MoveToHeadAsWritten(u: seq<Entry>, cap: nat, cur: nat, k: string, v: string): (r: Outcome)
    requires cap < SizeModulus && cur < SizeModulus && k in Keys(u)
    ensures !r.DanglingWrite?
    ensures r.Done? ==> r.entries != [] && r.entries[0].key == k && r.curSize < SizeModulus
    ensures r.KeyLost? ==> k !in Keys(r.entries) && r.curSize < SizeModulus
  {
    if u[0].key == k then Done(u, cur)
    else if u[|u| - 1].key == k then Done(Touch(u, k), cur)
    else
      var need := AsSize(|k| + |v|);
      var rest, c := Remove(u, k), SizeSub(cur, need);
      if need > cap then KeyLost(rest, c)
      else
        var e := EvictAsWritten(rest, cap, c, need, k, false);
        if e.NullTail? then NullTailDeleted
        else Done([Entry(k, v)] + e.entries, SizeAdd(e.curSize, need))
  }

  /**
   * changeNode as written: the unsigned delta, the loop, the write of the
   * value without touching the byte counter, and moveToHead as written.
   */
  function ChangeNodeAsWritten(s: seq<Entry>, cap: nat, cur: nat, k: string, v: string): (r: Outcome)
    requires cap < SizeModulus && cur < SizeModulus && k in Keys(s)
    ensures r.Done? ==> r.entries != [] && r.entries[0].key == k && r.curSize < SizeModulus
    ensures r.KeyLost? ==> k !in Keys(r.entries)
  {
    var delta := SizeSub(AsSize(|v|), AsSize(|Lookup(s, k).value|));
    match EvictAsWritten(s, cap, cur, delta, k, false)
    case NullTail => NullTailDeleted
    case Evicted(t, c, gone) =>
      if gone || k !in Keys(t) then DanglingWrite
      else MoveToHeadAsWritten(SetValue(t, k, v), cap, c, k, v)
  }

  /** Set as written (lines 43-52): no size check before changeNode. */
  function SetAsWritten(s: seq<Entry>, cap: nat, cur: nat, k: string, v: string): (r: Option<Outcome>)
    requires cap < SizeModulus && cur < SizeModulus
    ensures r.None? <==> k !in Keys(s)
    ensures r.Some? ==> r.value == ChangeNodeAsWritten(s, cap, cur, k, v)
  {
    if k !in Keys(s) then None else Some(ChangeNodeAsWritten(s, cap, cur, k, v))
  }

  // ---------------------------------------------------------------------------
  // The byte counter along the loop

  lemma TotalSizeLast(s: seq<Entry>)
    requires s != []
    ensures TotalSize(s) == TotalSize(s[..|s| - 1]) + Size(s[|s| - 1])
  {
    TotalSizeSplit(s, |s| - 1);
    assert s[|s|..] == [];
  }

  /** With a counter that matches the list, the loop keeps it matching. */
  lemma {:induction false} EvictKeepsCounter(s: seq<Entry>, cap: nat, cur: nat, delta: nat, k: string, selfGone: bool)
    requires cap < SizeModulus && delta < SizeModulus && cur == TotalSize(s) <= cap
    ensures var r := EvictAsWritten(s, cap, cur, delta, k, selfGone);
      r.Evicted? ==> r.curSize == TotalSize(r.entries)
    decreases |s|
  {
    if SizeSub(cap, cur) < delta && s != [] {
      TotalSizeLast(s);
      EvictKeepsCounter(s[..|s| - 1], cap, cur - Size(s[|s| - 1]), delta, k, selfGone || s[|s| - 1].key == k);
    }
  }

  /**
   * With a counter that matches the list and a delta above the capacity, the
   * loop deletes every node, then the null tail.  Both premises are needed:
   * see NearSizeMaxShrinkWritesFreedNode and StaleCounterStopsLoop.
   */
  lemma {:induction false} EvictReachesNullTail(s: seq<Entry>, cap: nat, cur: nat, delta: nat, k: string, selfGone: bool)
    requires cap < delta < SizeModulus && cur == TotalSize(s) <= cap
    ensures EvictAsWritten(s, cap, cur, delta, k, selfGone) == NullTail
    decreases |s|
  {
    if s != [] {
      TotalSizeLast(s);
      EvictReachesNullTail(s[..|s| - 1], cap, cur - Size(s[|s| - 1]), delta, k, selfGone || s[|s| - 1].key == k);
    }
  }

  /** The entries the loop deletes are the ones behind the kept prefix; k survives unless it is among them. */
  lemma {:induction false} EvictKeepsKey(s: seq<Entry>, cap: nat, cur: nat, delta: nat, k: string)
    requires cap < SizeModulus && cur < SizeModulus && delta < SizeModulus && k in Keys(s)
    ensures var r := EvictAsWritten(s, cap, cur, delta, k, false);
      r.Evicted? && !r.selfGone ==> k in Keys(r.entries)
    decreases |s|
  {
    if SizeSub(cap, cur) < delta && s != [] {
      var t := s[|s| - 1];
      if t.key != k {
        assert k in Keys(s[..|s| - 1]) by {
          KeysAt(s, k);
          var i :| 0 <= i < |s| && s[i].key == k;
          assert s[..|s| - 1][i].key == k;
          KeysAt(s[..|s| - 1], k);
        }
        EvictKeepsKey(s[..|s| - 1], cap, SizeSub(cur, AsSize(Size(t))), delta, k);
      }
    }
  }

  /** In a prefix that holds k, k is found with the same value as in the whole list. */
  lemma {:induction false} PrefixLookup(t: seq<Entry>, s: seq<Entry>, k: string)
    requires t <= s && k in Keys(t)
    ensures Lookup(t, k) == Lookup(s, k)
  {
    assert t != [] && t[0] == s[0];
    if t[0].key != k {
      PrefixLookup(t[1..], s[1..], k);
    }
  }

  // ---------------------------------------------------------------------------
  // The defects

  /**
   * An update that makes a value shorter, with a counter that matches the
   * list and a capacity more than the old value's length below 2^64, crashes:
   * delta wraps to above the capacity, no room is large enough, every node is
   * deleted and then deleteNode is called on the null tail.
   */
  lemma ShrinkingUpdateDereferencesNullTail(s: seq<Entry>, cap: nat, k: string, v: string)
    requires k in Keys(s) && TotalSize(s) <= cap
    requires |v| < |Lookup(s, k).value| && cap + |Lookup(s, k).value| < SizeModulus
    ensures ChangeNodeAsWritten(s, cap, TotalSize(s), k, v) == NullTailDeleted
  {
    var delta := SizeSub(AsSize(|v|), AsSize(|Lookup(s, k).value|));
    assert cap < delta;
    EvictReachesNullTail(s, cap, TotalSize(s), delta, k, false);
  }

  /** The smallest such update: shrinking "333" to "1". */
  lemma ShrinkingExample()
    ensures ChangeNodeAsWritten([Entry("a", "333")], 10, 4, "a", "1") == NullTailDeleted
  {
    ShrinkingUpdateDereferencesNullTail([Entry("a", "333")], 10, "a", "1");
  }

  /**
   * The capacity premise of ShrinkingUpdateDereferencesNullTail is needed:
   * with _max_size = 2^64 - 1, shrinking "333" to "1" gives delta 2^64 - 2,
   * and deleting a (the only node) leaves room 2^64 - 1, so the loop stops
   * and line 167 writes through the freed node.
   */
  lemma NearSizeMaxShrinkWritesFreedNode()
    ensures ChangeNodeAsWritten([Entry("a", "333")], SizeModulus - 1, 4, "a", "1") == DanglingWrite
  {
    var s := [Entry("a", "333")];
    assert Lookup(s, "a") == Some("333");
    assert s[..0] == [];
    assert EvictAsWritten(s, SizeModulus - 1, 4, SizeModulus - 2, "a", false) == Evicted([], 0, true);
  }

  /**
   * The counter premise of EvictReachesNullTail is needed: over
   * [c/"", a/ten characters, b/""] with capacity 20 and the stale counter 3
   * of StaleCounterExample, a delta of 21 stops the loop after it deletes b
   * and a, because deleting a wraps the counter and the room becomes 29.
   */
  lemma StaleCounterStopsLoop()
    ensures EvictAsWritten([Entry("c", ""), Entry("a", "xxxxxxxxxx"), Entry("b", "")], 20, 3, 21, "a", false)
         == Evicted([Entry("c", "")], SizeModulus - 9, true)
  {
    var s := [Entry("c", ""), Entry("a", "xxxxxxxxxx"), Entry("b", "")];
    var ca := s[..2];
    assert ca[..1] == [Entry("c", "")];
    assert EvictAsWritten(ca, 20, 2, 21, "a", false) == Evicted([Entry("c", "")], SizeModulus - 9, true);
  }

  /** A key's entry is no larger than the whole list. */
  lemma EntryFits(s: seq<Entry>, k: string)
    requires NoDupKeys(s) && k in Keys(s)
    ensures |k| + |Lookup(s, k).value| <= TotalSize(s)
  {
    KeysAt(s, k);
    var i :| 0 <= i < |s| && s[i].key == k;
    LookupAt(s, i);
    TotalSizeSplit(s, i);
  }

  /** A prefix is no larger than the list. */
  lemma PrefixSize(t: seq<Entry>, s: seq<Entry>)
    requires t <= s
    ensures TotalSize(t) <= TotalSize(s)
  {
    assert s == t + s[|t|..];
    TotalSizeAppend(t, s[|t|..]);
  }

  /**
   * Subtracting an entry's bytes from a counter within the capacity and then
   * adding them back, in size_t: the room in between covers the entry, and
   * the counter ends where it started.
   */
  lemma DeleteThenAdd(cap: nat, cur: nat, need: nat)
    requires cap + cap < SizeModulus && cur <= cap && need <= cap
    ensures SizeSub(cap, SizeSub(cur, need)) >= need
    ensures SizeAdd(SizeSub(cur, need), need) == cur
  {
    var c := SizeSub(cur, need);
    if need <= cur {
      assert c + need == cur;
    } else {
      assert c == SizeModulus - (need - cur) && cap < c;
      assert c + need == SizeModulus + cur;
    }
  }

  /**
   * When the list fits the capacity, the counter does not exceed it and the
   * node holds v, moveToHead as written promotes k and leaves the counter as
   * it found it: on the interior path the bytes deleteNode subtracts are the
   * bytes addNode adds back, and addNode's loop evicts nothing.
   */
  lemma MoveToHeadKeepsCounter(u: seq<Entry>, cap: nat, cur: nat, k: string, v: string)
    requires cap + cap < SizeModulus && NoDupKeys(u) && k in Keys(u) && Lookup(u, k) == Some(v)
    requires TotalSize(u) <= cap && cur <= cap
    ensures MoveToHeadAsWritten(u, cap, cur, k, v) == Done(Touch(u, k), cur)
  {
    if u[0].key == k {
      TouchHead(u);
    } else if u[|u| - 1].key != k {
      var need := AsSize(|k| + |v|);
      EntryFits(u, k);
      var rest, c := Remove(u, k), SizeSub(cur, need);
      DeleteThenAdd(cap, cur, need);
      assert EvictAsWritten(rest, cap, c, need, k, false) == Evicted(rest, c, false);
    }
  }

  /**
   * After the loop kept a prefix t holding k, with the counter matching t and
   * room for the growth, the write and moveToHead as written promote k, keep
   * the counter, and store exactly the growth more than it says.
   */
  lemma WriteThenPromote(s: seq<Entry>, cap: nat, k: string, v: string, t: seq<Entry>)
    requires Wellformed(s, cap) && cap + cap < SizeModulus && t <= s && k in Keys(t) && k in Keys(s)
    requires |Lookup(s, k).value| <= |v| && cap - TotalSize(t) >= |v| - |Lookup(s, k).value|
    ensures var u := SetValue(t, k, v);
      && k in Keys(u)
      && MoveToHeadAsWritten(u, cap, TotalSize(t), k, v) == Done(Touch(u, k), TotalSize(t))
      && TotalSize(Touch(u, k)) == TotalSize(t) - |Lookup(s, k).value| + |v|
  {
    PrefixLookup(t, s, k);
    PrefixKeepsInvariant(t, s);
    PrefixSize(t, s);
    KeysAt(t, k);
    var i :| 0 <= i < |t| && t[i].key == k;
    LookupAt(t, i);
    SetValueAt(t, i, v);
    SetValueThenRemove(t, k, v);
    var u := SetValue(t, k, v);
    MoveToHeadKeepsCounter(u, cap, TotalSize(t), k, v);
    TouchKeepsInvariant(u, TotalSize(u), k);
  }

  /**
   * When a growing update completes, the counter lags the stored bytes by
   * exactly the growth of the value: line 167 never charges it.
   */
  lemma GrowingUpdateLeavesCounterStale(s: seq<Entry>, cap: nat, k: string, v: string)
    requires Wellformed(s, cap) && k in Keys(s) && cap + cap < SizeModulus
    requires |Lookup(s, k).value| <= |v| < SizeModulus
    ensures var r := ChangeNodeAsWritten(s, cap, TotalSize(s), k, v);
      r.Done? ==> TotalSize(r.entries) == r.curSize - |Lookup(s, k).value| + |v|
  {
    EntryFits(s, k);
    var delta := SizeSub(AsSize(|v|), AsSize(|Lookup(s, k).value|));
    var e := EvictAsWritten(s, cap, TotalSize(s), delta, k, false);
    EvictKeepsCounter(s, cap, TotalSize(s), delta, k, false);
    if e.Evicted? && !e.selfGone && k in Keys(e.entries) {
      var t := e.entries;
      PrefixSize(t, s);
      assert delta == |v| - |Lookup(s, k).value| && SizeSub(cap, e.curSize) == cap - TotalSize(t);
      WriteThenPromote(s, cap, k, v, t);
    }
  }

  /**
   * The capacity premise of DeleteThenAdd, MoveToHeadKeepsCounter and
   * WriteThenPromote is needed.  With _max_size = 2^64 - 1:
   *   - deleteNode's wrapped counter can leave less room than the entry;
   *   - moveToHead of the interior a in [b, a, c] with the counter 0 wraps
   *     the counter to 2^64 - 1, so addNode's loop evicts c and the counter
   *     ends at 2^64 - 1;
   *   - growing a's value to ten characters from an exact counter 3 passes
   *     changeNode's loop, but moveToHead wraps the counter to 2^64 - 8, and
   *     addNode's loop deletes c, then b, then calls deleteNode on the null tail.
   */
  lemma SizeMaxInteriorUpdate()
    ensures SizeSub(SizeModulus - 1, SizeSub(0, SizeModulus - 1)) < SizeModulus - 1
    ensures MoveToHeadAsWritten([Entry("b", ""), Entry("a", ""), Entry("c", "")], SizeModulus - 1, 0, "a", "")
         == Done([Entry("a", ""), Entry("b", "")], SizeModulus - 1)
    ensures ChangeNodeAsWritten([Entry("b", ""), Entry("a", ""), Entry("c", "")], SizeModulus - 1, 3, "a", "xxxxxxxxxx")
         == NullTailDeleted
  {
    var bc := [Entry("b", ""), Entry("c", "")];
    assert bc[..1] == [Entry("b", "")];
    assert [Entry("b", "")][..0] == [];
    var u := [Entry("b", ""), Entry("a", ""), Entry("c", "")];
    assert Remove(u, "a") == bc;
    assert EvictAsWritten(bc, SizeModulus - 1, SizeModulus - 1, 1, "a", false)
        == Evicted([Entry("b", "")], SizeModulus - 2, false);
    var w := [Entry("b", ""), Entry("a", "xxxxxxxxxx"), Entry("c", "")];
    assert Lookup(u, "a") == Some("");
    assert EvictAsWritten(u, SizeModulus - 1, 3, 10, "a", false) == Evicted(u, 3, false);
    assert SetValue(u, "a", "xxxxxxxxxx") == w;
    assert Remove(w, "a") == bc;
    assert EvictAsWritten(bc, SizeModulus - 1, SizeModulus - 8, 11, "a", false) == NullTail;
  }

  /**
   * The matching-counter premise of GrowingUpdateLeavesCounterStale is
   * needed: from the stale counter 2 over [a/ten characters, b/""] (capacity
   * 20), growing b to "y" leaves 13 bytes stored against the counter 2, an
   * excess of 11 rather than the growth 1.
   */
  lemma StaleCounterGrowth()
    ensures ChangeNodeAsWritten([Entry("a", "xxxxxxxxxx"), Entry("b", "")], 20, 2, "b", "y")
         == Done([Entry("b", "y"), Entry("a", "xxxxxxxxxx")], 2)
    ensures TotalSize([Entry("b", "y"), Entry("a", "xxxxxxxxxx")]) == 13
  {
    var s := [Entry("a", "xxxxxxxxxx"), Entry("b", "")];
    assert Lookup(s, "b") == Some("");
    assert EvictAsWritten(s, 20, 2, 1, "b", false) == Evicted(s, 2, false);
    var u := [Entry("a", "xxxxxxxxxx"), Entry("b", "y")];
    assert SetValue(s, "b", "y") == u;
    assert Lookup(u, "b") == Some("y");
    assert Remove(u, "b") == [Entry("a", "xxxxxxxxxx")];
  }

  /** Growing "1" to "4444" with room to spare: five bytes stored, two charged. */
  lemma GrowingExample()
    ensures ChangeNodeAsWritten([Entry("a", "1")], 10, 2, "a", "4444") == Done([Entry("a", "4444")], 2)
    ensures TotalSize([Entry("a", "4444")]) == 5
  {
    var s := [Entry("a", "1")];
    var delta := SizeSub(AsSize(4), AsSize(1));
    assert delta == 3;
    assert EvictAsWritten(s, 10, 2, delta, "a", false) == Evicted(s, 2, false);
    assert Lookup(s, "a") == Some("1");
    assert SetValue(s, "a", "4444") == [Entry("a", "4444")];
    assert Remove([Entry("a", "4444")], "a") == [];
  }

  /**
   * When the node being updated is the tail and its value grows past the
   * room, the loop deletes the node itself and line 167 writes through the
   * freed node.
   */
  lemma GrowingTailEvictsItself()
    ensures ChangeNodeAsWritten([Entry("b", "1"), Entry("a", "1")], 10, 4, "a", "12345678") == DanglingWrite
  {
    var s := [Entry("b", "1"), Entry("a", "1")];
    assert Lookup(s, "a") == Some("1");
    var delta := SizeSub(AsSize(8), AsSize(1));
    assert delta == 7;
    assert s[..1] == [Entry("b", "1")];
    assert EvictAsWritten(s, 10, 4, delta, "a", false) == EvictAsWritten([Entry("b", "1")], 10, 2, delta, "a", true);
    assert EvictAsWritten([Entry("b", "1")], 10, 2, delta, "a", true) == Evicted([Entry("b", "1")], 2, true);
  }

  /**
   * Set accepts a pair larger than the capacity, which Put rejects; with a
   * counter that matches the list, changeNode can then only stop by
   * deleting the entry itself.
   */
  lemma SetAcceptsOversizePair()
    ensures |"a"| + |"12345678901"| > 10
    ensures SetAsWritten([Entry("a", "1")], 10, 2, "a", "12345678901") == Some(DanglingWrite)
  {
    var s := [Entry("a", "1")];
    assert Lookup(s, "a") == Some("1");
    var delta := SizeSub(AsSize(11), AsSize(1));
    assert delta == 10;
    assert s[..0] == [];
    assert EvictAsWritten(s, 10, 2, delta, "a", false) == EvictAsWritten([], 10, 0, delta, "a", true);
    assert EvictAsWritten([], 10, 0, delta, "a", true) == Evicted([], 0, true);
  }

  /**
   * How the counter goes stale.  With capacity 20: Put("b", ""), Put("a", "")
   * leave a at the head with the counter at 2; Put("a", "xxxxxxxxxx") then
   * stores 12 bytes with the counter still at 2 (line 167), and Put("c", "")
   * reaches addNode, whose loop (lines 85-89) finds room 18 on the counter 2
   * for the one byte of c, evicts nothing, and charges it: the counter is 3.
   */
  lemma StaleCounterExample()
    ensures ChangeNodeAsWritten([Entry("a", ""), Entry("b", "")], 20, 2, "a", "xxxxxxxxxx")
         == Done([Entry("a", "xxxxxxxxxx"), Entry("b", "")], 2)
    ensures TotalSize([Entry("a", "xxxxxxxxxx"), Entry("b", "")]) == 12
    ensures EvictAsWritten([Entry("a", "xxxxxxxxxx"), Entry("b", "")], 20, 2, AsSize(|"c"| + |""|), "c", false)
         == Evicted([Entry("a", "xxxxxxxxxx"), Entry("b", "")], 2, false)
    ensures SizeAdd(2, AsSize(|"c"| + |""|)) == 3
  {
    var ab := [Entry("a", ""), Entry("b", "")];
    assert Lookup(ab, "a") == Some("");
    assert EvictAsWritten(ab, 20, 2, 10, "a", false) == Evicted(ab, 2, false);
    assert SetValue(ab, "a", "xxxxxxxxxx") == [Entry("a", "xxxxxxxxxx"), Entry("b", "")];
  }

  /**
   * Under the stale counter of StaleCounterExample, Set with a pair larger
   * than the capacity loses the key: Set("a", twenty characters) finds room
   * 17 for delta 10, writes the value, and since a is interior, moveToHead
   * deletes it (the counter wraps below zero) and PutIfAbsent refuses the
   * 21-byte pair.
   */
  lemma OversizeSetLosesKey()
    ensures SetAsWritten([Entry("c", ""), Entry("a", "xxxxxxxxxx"), Entry("b", "")], 20, 3, "a", "xxxxxxxxxxxxxxxxxxxx")
         == Some(KeyLost([Entry("c", ""), Entry("b", "")], SizeModulus - 18))
  {
    var s := [Entry("c", ""), Entry("a", "xxxxxxxxxx"), Entry("b", "")];
    assert Lookup(s, "a") == Some("xxxxxxxxxx");
    assert EvictAsWritten(s, 20, 3, 10, "a", false) == Evicted(s, 3, false);
    var u := [Entry("c", ""), Entry("a", "xxxxxxxxxxxxxxxxxxxx"), Entry("b", "")];
    assert SetValue(s, "a", "xxxxxxxxxxxxxxxxxxxx") == u;
    assert Remove(u, "a") == [Entry("c", ""), Entry("b", "")];
  }
}
