/**
 * The abstract state of the byte-bounded LRU cache: the recency list as a
 * sequence of entries, most recently used first, and the operations of the
 * cache as functions on it.  The class in simple_lru.dfy is proved against
 * these functions.
 */
module LruModel {

  datatype Option<T> = None | Some(value: T)

  /** A stored pair; the node of the recency list without its links. */
  datatype Entry = Entry(key: string, value: string)

  /**
   * What an entry is charged against the capacity: key.size() + value.size().
   * std::string::size() counts bytes; here one char stands for one byte.
   */
  function Size(e: Entry): nat
  {
    |e.key| + |e.value|
  }

  /** The sum of the sizes of the entries. */
  function TotalSize(s: seq<Entry>): nat
  {
    if s == [] then 0 else Size(s[0]) + TotalSize(s[1..])
  }

  /** The keys present in the list. */
  function Keys(s: seq<Entry>): set<string>
  {
    if s == [] then {} else {s[0].key} + Keys(s[1..])
  }

  /** Every key appears at most once in the recency list. */
  predicate NoDupKeys(s: seq<Entry>)
  {
    forall i, j :: 0 <= i < j < |s| ==> s[i].key != s[j].key
  }

  /** The cache invariant on the abstract state: each key once, and the bytes fit. */
  predicate Wellformed(s: seq<Entry>, cap: nat)
  {
    NoDupKeys(s) && TotalSize(s) <= cap
  }

  // ---------------------------------------------------------------------------
  // Size accounting

  lemma {:induction false} TotalSizeAppend(a: seq<Entry>, b: seq<Entry>)
    ensures TotalSize(a + b) == TotalSize(a) + TotalSize(b)
  {
    if a == [] {
      assert a + b == b;
    } else {
      assert (a + b)[0] == a[0] && (a + b)[1..] == a[1..] + b;
      TotalSizeAppend(a[1..], b);
    }
  }

  lemma TotalSizeOfOne(s: seq<Entry>)
    ensures |s| == 1 ==> TotalSize(s) == Size(s[0])
  {
    if |s| == 1 {
      assert s[1..] == [];
    }
  }

  /** The size of a list with one entry singled out. */
  lemma TotalSizeAround(a: seq<Entry>, e: Entry, b: seq<Entry>)
    ensures TotalSize(a + [e] + b) == TotalSize(a) + Size(e) + TotalSize(b)
    ensures TotalSize([e] + a + b) == TotalSize(a) + Size(e) + TotalSize(b)
    ensures TotalSize(a + b) == TotalSize(a) + TotalSize(b)
  {
    assert TotalSize([e]) == Size(e) by {
      assert [e][1..] == [];
    }
    TotalSizeAppend(a, [e]);
    TotalSizeAppend(a + [e], b);
    TotalSizeAppend([e], a);
    TotalSizeAppend([e] + a, b);
    TotalSizeAppend(a, b);
  }

  /** A list is its prefix, the entry at the cut and its suffix. */
  lemma SplitAt<T>(s: seq<T>, i: nat)
    requires i < |s|
    ensures s == s[..i] + [s[i]] + s[i+1..]
  {
    assert s[i..] == [s[i]] + s[i+1..];
    assert s == s[..i] + s[i..];
  }

  lemma ConsAssoc<T>(e: T, a: seq<T>, b: seq<T>)
    ensures [e] + (a + b) == [e] + a + b
  {
  }

  /** Taking one entry out of the list frees exactly that entry's size. */
  lemma TotalSizeSplit(s: seq<Entry>, i: nat)
    requires i < |s|
    ensures TotalSize(s) == TotalSize(s[..i]) + Size(s[i]) + TotalSize(s[i+1..])
    ensures TotalSize(s[..i] + s[i+1..]) == TotalSize(s) - Size(s[i])
  {
    SplitAt(s, i);
    TotalSizeAround(s[..i], s[i], s[i+1..]);
  }

  lemma KeysCons(e: Entry, s: seq<Entry>)
    ensures Keys([e] + s) == {e.key} + Keys(s)
  {
    assert ([e] + s)[1..] == s;
  }

  lemma {:induction false} KeysAt(s: seq<Entry>, k: string)
    ensures k in Keys(s) <==> exists i :: 0 <= i < |s| && s[i].key == k
  {
    if s != [] {
      KeysAt(s[1..], k);
      if exists i :: 0 <= i < |s[1..]| && s[1..][i].key == k {
        var i :| 0 <= i < |s[1..]| && s[1..][i].key == k;
        assert s[i+1].key == k;
      }
      if exists i :: 0 <= i < |s| && s[i].key == k {
        var i :| 0 <= i < |s| && s[i].key == k;
        if i > 0 { assert s[1..][i-1].key == k; }
      }
    }
  }

  /** A list with each key once stays so when an entry with a new key is put in front. */
  lemma NoDupCons(e: Entry, s: seq<Entry>)
    ensures NoDupKeys([e] + s) <==> e.key !in Keys(s) && NoDupKeys(s)
  {
    var r := [e] + s;
    KeysAt(s, e.key);
    if e.key in Keys(s) {
      var j :| 0 <= j < |s| && s[j].key == e.key;
      assert r[0] == e && r[j+1] == s[j];
      assert !NoDupKeys(r);
    }
    if NoDupKeys(r) {
      forall i, j | 0 <= i < j < |s| ensures s[i].key != s[j].key {
        assert r[i+1] == s[i] && r[j+1] == s[j];
      }
    }
    if e.key !in Keys(s) && NoDupKeys(s) {
      forall i, j | 0 <= i < j < |r| ensures r[i].key != r[j].key {
        assert r[j] == s[j-1];
        if i > 0 { assert r[i] == s[i-1]; } else { assert r[i] == e; }
      }
    }
  }

  // ---------------------------------------------------------------------------
  // Lookup (the index's find)

  /** The value stored under k; None when k is absent. */
  function Lookup(s: seq<Entry>, k: string): (r: Option<string>)
    ensures r.None? <==> k !in Keys(s)
  {
    if s == [] then None
    else if s[0].key == k then Some(s[0].value)
    else Lookup(s[1..], k)
  }

  /** With each key once, the value found is the one stored at the key's position. */
  lemma {:induction false} LookupAt(s: seq<Entry>, i: nat)
    requires NoDupKeys(s) && i < |s|
    ensures Lookup(s, s[i].key) == Some(s[i].value)
  {
    if i > 0 {
      assert s[1..][i-1] == s[i];
      NoDupCons(s[0], s[1..]);
      assert s == [s[0]] + s[1..];
      LookupAt(s[1..], i - 1);
    }
  }

  // ---------------------------------------------------------------------------
  // Remove (deleteNode, source lines 108-129)

  /** The list without the entry for k; unchanged when k is absent. */
  function Remove(s: seq<Entry>, k: string): (r: seq<Entry>)
    ensures Keys(r) == Keys(s) - {k}
    ensures k in Keys(s) ==> |r| < |s|
    ensures k !in Keys(s) ==> r == s
    ensures NoDupKeys(s) ==> NoDupKeys(r)
    ensures |r| <= |s|
  {
    if s == [] then []
    else
      NoDupCons(s[0], s[1..]);
      assert s == [s[0]] + s[1..];
      if s[0].key == k then Remove(s[1..], k)
      else
        var t := Remove(s[1..], k);
        KeysCons(s[0], t);
        NoDupCons(s[0], t);
        [s[0]] + t
  }

  /** Removing one key leaves the value found under every other key as it was. */
  lemma {:induction false} RemoveKeepsLookup(s: seq<Entry>, k: string, j: string)
    requires j != k
    ensures Lookup(Remove(s, k), j) == Lookup(s, j)
  {
    if s != [] {
      RemoveKeepsLookup(s[1..], k, j);
      if s[0].key != k {
        assert ([s[0]] + Remove(s[1..], k))[1..] == Remove(s[1..], k);
      }
    }
  }

  /**
   * With each key once, removing by key is cutting out the key's position:
   * every other entry stays, in the same relative order.
   */
  lemma {:induction false} RemoveAt(s: seq<Entry>, i: nat)
    requires NoDupKeys(s) && i < |s|
    ensures Remove(s, s[i].key) == s[..i] + s[i+1..]
  {
    var t := s[1..];
    assert s == [s[0]] + t;
    NoDupCons(s[0], t);
    if i == 0 {
    } else {
      assert t[i-1] == s[i];
      assert s[0].key != s[i].key;
      RemoveAt(t, i - 1);
      CutBehindHead(s, i);
    }
  }

  /** Cutting out a position behind the head keeps the head in front. */
  lemma CutBehindHead<T>(s: seq<T>, i: nat)
    requires 0 < i < |s|
    ensures s[..i] + s[i+1..] == [s[0]] + (s[1..][..i-1] + s[1..][i..])
  {
    var t := s[1..];
    assert t[..i-1] == s[1..i];
    assert t[i..] == s[i+1..];
    assert s[..i] == [s[0]] + s[1..i];
  }

  /**
   * deleteNode keeps the invariant: the entry for k is gone, its bytes are
   * given back, and every other key keeps its value.
   */
  lemma RemoveKeepsInvariant(s: seq<Entry>, cap: nat, k: string)
    requires Wellformed(s, cap)
    ensures Wellformed(Remove(s, k), cap)
    ensures k !in Keys(Remove(s, k))
    ensures TotalSize(Remove(s, k)) ==
      if k in Keys(s) then TotalSize(s) - |k| - |Lookup(s, k).value| else TotalSize(s)
    ensures forall j :: j != k ==> Lookup(Remove(s, k), j) == Lookup(s, j)
  {
    if k in Keys(s) {
      KeysAt(s, k);
      var i :| 0 <= i < |s| && s[i].key == k;
      RemoveAt(s, i);
      TotalSizeSplit(s, i);
      LookupAt(s, i);
    }
    forall j | j != k ensures Lookup(Remove(s, k), j) == Lookup(s, j) {
      RemoveKeepsLookup(s, k, j);
    }
  }

  /** A second removal of the same key finds nothing and changes nothing. */
  lemma RemoveIsIdempotent(s: seq<Entry>, k: string)
    ensures k !in Keys(Remove(s, k))
    ensures Remove(Remove(s, k), k) == Remove(s, k)
  {
  }

  // ---------------------------------------------------------------------------
  // Eviction (the loops of addNode, source lines 85-89)

  /**
   * Drop entries from the tail while the free room, cap - TotalSize, is less
   * than need.  Termination rests on need <= cap: the empty list always fits.
   */
  function EvictUntil(s: seq<Entry>, cap: nat, need: nat): (r: seq<Entry>)
    requires need <= cap
    ensures r <= s
    ensures TotalSize(r) + need <= cap
    ensures r != s ==> cap - TotalSize(s[..|r| + 1]) < need
    decreases |s|
  {
    if cap - TotalSize(s) >= need then s
    else
      var r := EvictUntil(s[..|s| - 1], cap, need);
      assert s[..|s| - 1][..|r|] == s[..|r|];
      assert |r| + 1 < |s| ==> s[..|s| - 1][..|r| + 1] == s[..|r| + 1];
      assert |r| + 1 == |s| ==> s[..|r| + 1] == s;
      r
  }

  /** When the entry already fits nothing is evicted. */
  lemma EvictUntilFits(s: seq<Entry>, cap: nat, need: nat)
    requires need <= cap && TotalSize(s) + need <= cap
    ensures EvictUntil(s, cap, need) == s
  {
  }

  /**
   * While the entry does not fit there is a tail to evict, and evicting it
   * (deleting its key) is one step of EvictUntil.
   */
  lemma EvictTail(s: seq<Entry>, cap: nat, need: nat)
    requires need <= cap && NoDupKeys(s) && cap - TotalSize(s) < need
    ensures s != [] && s[|s| - 1].key in Keys(s)
    ensures |Remove(s, s[|s| - 1].key)| < |s|
    ensures EvictUntil(Remove(s, s[|s| - 1].key), cap, need) == EvictUntil(s, cap, need)
  {
    RemoveLast(s);
    KeysAt(s, s[|s| - 1].key);
  }

  // ---------------------------------------------------------------------------
  // Admit (addNode, source lines 81-106)

  /** Evict from the tail until k/v fits, then put k/v at the head. */
  function Admit(s: seq<Entry>, cap: nat, k: string, v: string): (r: seq<Entry>)
    requires |k| + |v| <= cap
    ensures TotalSize(r) <= cap
  {
    var kept := EvictUntil(s, cap, |k| + |v|);
    assert ([Entry(k, v)] + kept)[1..] == kept;
    [Entry(k, v)] + kept
  }

  /** Admitting is evicting first and then putting the new entry at the head. */
  lemma AdmitAfterEviction(s: seq<Entry>, cap: nat, k: string, v: string, need: nat, kept: seq<Entry>)
    requires need == |k| + |v| <= cap && kept == EvictUntil(s, cap, need)
    ensures Admit(s, cap, k, v) == [Entry(k, v)] + kept
  {
  }

  /**
   * addNode keeps the invariant.  The new entry is at the head and is found
   * with its value; the entries behind it are the oldest-kept prefix of the
   * old list, so only the least recently used were evicted, and only while
   * the new entry did not fit.
   */
  lemma AdmitKeepsInvariant(s: seq<Entry>, cap: nat, k: string, v: string)
    requires Wellformed(s, cap) && k !in Keys(s) && |k| + |v| <= cap
    ensures var r := Admit(s, cap, k, v);
      && Wellformed(r, cap)
      && r[0] == Entry(k, v)
      && Lookup(r, k) == Some(v)
      && r[1..] <= s
      && TotalSize(r) == TotalSize(r[1..]) + |k| + |v|
      && (|r| - 1 < |s| ==> cap - TotalSize(s[..|r|]) < |k| + |v|)
  {
    var kept := EvictUntil(s, cap, |k| + |v|);
    var r := [Entry(k, v)] + kept;
    assert r[1..] == kept;
    PrefixKeepsInvariant(kept, s);
    NoDupCons(Entry(k, v), kept);
    LookupAt(r, 0);
  }

  /** A prefix of a list keeps only keys of the list, each still once. */
  lemma PrefixKeepsInvariant(t: seq<Entry>, s: seq<Entry>)
    requires t <= s
    ensures Keys(t) <= Keys(s)
    ensures NoDupKeys(s) ==> NoDupKeys(t)
  {
    forall k | k in Keys(t) ensures k in Keys(s) {
      KeysAt(t, k);
      KeysAt(s, k);
      var i :| 0 <= i < |t| && t[i].key == k;
      assert s[i] == t[i];
    }
  }

  /**
   * The interior path of moveToHead (source lines 145-150) deletes the node
   * and re-inserts it with PutIfAbsent: the bytes just freed are the bytes
   * re-added, so addNode evicts nothing and the result is a promotion.
   */
  lemma ReinsertIsTouch(s: seq<Entry>, cap: nat, i: nat)
    requires Wellformed(s, cap) && i < |s|
    ensures s[i].key in Keys(s) && Size(s[i]) <= cap
    ensures Admit(Remove(s, s[i].key), cap, s[i].key, s[i].value) == Touch(s, s[i].key)
    ensures Touch(s, s[i].key) == [s[i]] + s[..i] + s[i+1..]
  {
    var k := s[i].key;
    var r := Remove(s, k);
    assert TotalSize(r) + Size(s[i]) <= cap by {
      RemoveAt(s, i);
      TotalSizeSplit(s, i);
    }
    assert EvictUntil(r, cap, Size(s[i])) == r by {
      EvictUntilFits(r, cap, Size(s[i]));
    }
    assert Entry(k, s[i].value) == s[i];
    TouchAt(s, i);
    assert Touch(s, k) == [s[i]] + r by {
      RemoveAt(s, i);
      ConsAssoc(s[i], s[..i], s[i+1..]);
    }
  }

  // ---------------------------------------------------------------------------
  // Touch (moveToHead, source lines 131-153)

  /** Promote the entry for k to the head; the others keep their relative order. */
  function Touch(s: seq<Entry>, k: string): (r: seq<Entry>)
    requires k in Keys(s)
    ensures r != [] && r[0] == Entry(k, Lookup(s, k).value) && r[1..] == Remove(s, k)
    ensures Keys(r) == Keys(s)
    ensures NoDupKeys(s) ==> NoDupKeys(r)
  {
    var r := [Entry(k, Lookup(s, k).value)] + Remove(s, k);
    KeysCons(r[0], Remove(s, k));
    NoDupCons(r[0], Remove(s, k));
    assert r[1..] == Remove(s, k);
    r
  }

  /** Promoting the entry at position i is cutting it out and putting it first. */
  lemma TouchAt(s: seq<Entry>, i: nat)
    requires NoDupKeys(s) && i < |s|
    ensures s[i].key in Keys(s)
    ensures Touch(s, s[i].key) == [s[i]] + s[..i] + s[i+1..]
  {
    var k, a, b := s[i].key, s[..i], s[i+1..];
    assert k in Keys(s) by { KeysAt(s, k); }
    assert Remove(s, k) == a + b by { RemoveAt(s, i); }
    assert Lookup(s, k) == Some(s[i].value) by { LookupAt(s, i); }
    assert Entry(k, s[i].value) == s[i];
    ConsAssoc(s[i], a, b);
  }

  /** Promoting the tail puts it first and shifts the rest back (source lines 139-143). */
  lemma TouchTail(s: seq<Entry>)
    requires NoDupKeys(s) && s != []
    ensures s[|s| - 1].key in Keys(s)
    ensures Touch(s, s[|s| - 1].key) == [s[|s| - 1]] + s[..|s| - 1]
  {
    TouchAt(s, |s| - 1);
    assert s[|s|..] == [];
  }

  /** Promoting the head changes nothing (source lines 136-137). */
  lemma TouchHead(s: seq<Entry>)
    requires NoDupKeys(s) && s != []
    ensures s[0].key in Keys(s)
    ensures Touch(s, s[0].key) == s
  {
    assert s == [s[0]] + s[1..];
    NoDupCons(s[0], s[1..]);
  }

  /**
   * moveToHead keeps the invariant and changes only the order: the same
   * entries (a permutation), the same bytes, the same value for every key.
   */
  lemma TouchKeepsInvariant(s: seq<Entry>, cap: nat, k: string)
    requires Wellformed(s, cap) && k in Keys(s)
    ensures Wellformed(Touch(s, k), cap)
    ensures multiset(Touch(s, k)) == multiset(s)
    ensures TotalSize(Touch(s, k)) == TotalSize(s)
    ensures Touch(s, k)[0].key == k && Touch(s, k)[1..] == Remove(s, k)
    ensures forall j :: Lookup(Touch(s, k), j) == Lookup(s, j)
  {
    KeysAt(s, k);
    var i :| 0 <= i < |s| && s[i].key == k;
    TouchPermutes(s, i);
    NoDupCons(Entry(k, Lookup(s, k).value), Remove(s, k));
    forall j ensures Lookup(Touch(s, k), j) == Lookup(s, j) {
      TouchKeepsLookup(s, k, j);
    }
  }

  lemma TouchPermutes(s: seq<Entry>, i: nat)
    requires NoDupKeys(s) && i < |s|
    ensures s[i].key in Keys(s)
    ensures multiset(Touch(s, s[i].key)) == multiset(s)
    ensures TotalSize(Touch(s, s[i].key)) == TotalSize(s)
  {
    TouchAt(s, i);
    MoveToFront(s, i);
  }

  /** Moving one entry to the front keeps the entries and their total size. */
  lemma MoveToFront(s: seq<Entry>, i: nat)
    requires i < |s|
    ensures multiset([s[i]] + s[..i] + s[i+1..]) == multiset(s)
    ensures TotalSize([s[i]] + s[..i] + s[i+1..]) == TotalSize(s)
  {
    MoveToFrontPermutes(s, i);
    TotalSizeSplit(s, i);
    TotalSizeAround(s[..i], s[i], s[i+1..]);
  }

  lemma MoveToFrontPermutes(s: seq<Entry>, i: nat)
    requires i < |s|
    ensures multiset([s[i]] + s[..i] + s[i+1..]) == multiset(s)
  {
    assert s == s[..i] + [s[i]] + s[i+1..];
  }

  lemma TouchKeepsLookup(s: seq<Entry>, k: string, j: string)
    requires NoDupKeys(s) && k in Keys(s)
    ensures Lookup(Touch(s, k), j) == Lookup(s, j)
  {
    var r := Touch(s, k);
    assert r[1..] == Remove(s, k);
    if j != k {
      RemoveKeepsLookup(s, k, j);
    } else {
      KeysAt(s, k);
    }
  }

  // ---------------------------------------------------------------------------
  // Replace (changeNode, source lines 155-169, with the evident intent)

  /** The list with the value for k replaced by v, in place. */
  function SetValue(s: seq<Entry>, k: string, v: string): (r: seq<Entry>)
    ensures |r| == |s|
    ensures forall i :: 0 <= i < |s| ==> r[i].key == s[i].key
    ensures Keys(r) == Keys(s)
  {
    var r := seq(|s|, i requires 0 <= i < |s| => if s[i].key == k then Entry(k, v) else s[i]);
    SameKeys(r, s);
    r
  }

  /** Two lists with the same key at every position have the same keys. */
  lemma {:induction false} SameKeys(a: seq<Entry>, b: seq<Entry>)
    requires |a| == |b| && forall i :: 0 <= i < |a| ==> a[i].key == b[i].key
    ensures Keys(a) == Keys(b)
  {
    if a != [] {
      assert a[0].key == b[0].key;
      SameKeys(a[1..], b[1..]);
    }
  }

  /** Replacing the value of the entry at position i changes only that position. */
  lemma SetValueAt(s: seq<Entry>, i: nat, v: string)
    requires NoDupKeys(s) && i < |s|
    ensures SetValue(s, s[i].key, v) == s[..i] + [Entry(s[i].key, v)] + s[i+1..]
    ensures NoDupKeys(SetValue(s, s[i].key, v))
    ensures TotalSize(SetValue(s, s[i].key, v)) == TotalSize(s) - |s[i].value| + |v|
  {
    var r := SetValue(s, s[i].key, v);
    assert r == s[..i] + [Entry(s[i].key, v)] + s[i+1..];
    TotalSizeSplit(s, i);
    TotalSizeSplit(r, i);
    assert r[..i] == s[..i] && r[i+1..] == s[i+1..];
  }

  /**
   * Intended eviction of changeNode: while the free room is less than the
   * signed growth of the value, evict the least recently used entry OTHER
   * than the one being updated.  Termination rests on |k| + |v| <= cap.
   */
  function EvictOthers(s: seq<Entry>, cap: nat, k: string, v: string): (r: seq<Entry>)
    requires NoDupKeys(s) && k in Keys(s) && |k| + |v| <= cap
    ensures NoDupKeys(r) && k in Keys(r) && Lookup(r, k) == Lookup(s, k)
    ensures cap - TotalSize(r) >= |v| - |Lookup(s, k).value|
    ensures Remove(r, k) <= Remove(s, k)
    decreases |s|
  {
    if cap - TotalSize(s) >= |v| - |Lookup(s, k).value| then s
    else
      EvictOthersStep(s, cap, k, v);
      EvictOthers(Remove(s, Victim(s, k).key), cap, k, v)
  }

  /** The entry changeNode evicts: the tail, or its predecessor when the tail is k. */
  function Victim(s: seq<Entry>, k: string): (e: Entry)
    requires |s| >= 2
    ensures e == s[|s| - 1] || e == s[|s| - 2]
  {
    if s[|s| - 1].key != k then s[|s| - 1] else s[|s| - 2]
  }

  /**
   * While k/v does not fit there is an entry other than k to evict, and
   * evicting it keeps k and its value and shortens the list.
   */
  lemma EvictOthersStep(s: seq<Entry>, cap: nat, k: string, v: string)
    requires NoDupKeys(s) && k in Keys(s) && |k| + |v| <= cap
    requires cap - TotalSize(s) < |v| - |Lookup(s, k).value|
    ensures |s| >= 2 && Victim(s, k).key != k
    ensures var s' := Remove(s, Victim(s, k).key);
      && |s'| < |s| && NoDupKeys(s') && k in Keys(s')
      && Lookup(s', k) == Lookup(s, k)
      && Remove(s', k) <= Remove(s, k)
  {
    assert Lookup(s, k).Some? by { KeysAt(s, k); }
    assert |s| >= 2 by {
      KeysAt(s, k);
      var t :| 0 <= t < |s| && s[t].key == k;
      LookupAt(s, t);
      TotalSizeOfOne(s);
    }
    var j := Victim(s, k).key;
    assert j != k by {
      if s[|s| - 1].key == k {
        assert s[|s| - 2].key != k;
      }
    }
    assert j in Keys(s) by { KeysAt(s, j); }
    OthersLoseTheirTail(s, k, j);
    RemoveKeepsLookup(s, j, k);
  }

  /** When the new value fits no entry is evicted. */
  lemma EvictOthersFits(s: seq<Entry>, cap: nat, k: string, v: string)
    requires NoDupKeys(s) && k in Keys(s) && |k| + |v| <= cap
    requires cap - TotalSize(s) >= |v| - |Lookup(s, k).value|
    ensures EvictOthers(s, cap, k, v) == s
  {
  }

  /**
   * While the new value does not fit, the victim is another key, and
   * deleting it is one step of EvictOthers.
   */
  lemma EvictOthersTail(s: seq<Entry>, cap: nat, k: string, v: string)
    requires NoDupKeys(s) && k in Keys(s) && |k| + |v| <= cap
    requires cap - TotalSize(s) < |v| - |Lookup(s, k).value|
    ensures |s| >= 2 && Victim(s, k).key != k
    ensures var s' := Remove(s, Victim(s, k).key);
      && |s'| < |s| && NoDupKeys(s') && k in Keys(s')
      && Lookup(s', k) == Lookup(s, k)
      && EvictOthers(s', cap, k, v) == EvictOthers(s, cap, k, v)
  {
    EvictOthersStep(s, cap, k, v);
  }

  /** Removing a key from a concatenation removes it from both parts. */
  lemma {:induction false} RemoveAppend(a: seq<Entry>, b: seq<Entry>, k: string)
    ensures Remove(a + b, k) == Remove(a, k) + Remove(b, k)
  {
    if a == [] {
      assert a + b == b;
    } else {
      assert (a + b)[0] == a[0] && (a + b)[1..] == a[1..] + b;
      RemoveAppend(a[1..], b, k);
    }
  }

  /** Removing two keys in either order gives the same list. */
  lemma {:induction false} RemoveCommutes(s: seq<Entry>, j: string, k: string)
    ensures Remove(Remove(s, j), k) == Remove(Remove(s, k), j)
  {
    if s != [] {
      RemoveCommutes(s[1..], j, k);
      var x := s[0];
      var t := s[1..];
      assert s == [x] + t;
      RemoveAppend([x], t, j);
      RemoveAppend([x], t, k);
      RemoveAppend([x], Remove(t, j), k);
      RemoveAppend([x], Remove(t, k), j);
      RemoveAppend(Remove([x], j), Remove(t, j), k);
      RemoveAppend(Remove([x], k), Remove(t, k), j);
      assert Remove([x], j) == if x.key == j then [] else [x];
      assert Remove([x], k) == if x.key == k then [] else [x];
    }
  }

  /**
   * The victim changeNode picks (the tail, or the tail's predecessor when
   * the tail is the entry being updated) is the last entry other than k.
   */
  lemma OthersLoseTheirTail(s: seq<Entry>, k: string, j: string)
    requires NoDupKeys(s) && |s| >= 2 && k in Keys(s) && j != k
    requires j == (if s[|s| - 1].key != k then s[|s| - 1] else s[|s| - 2]).key
    ensures Remove(s, k) != []
    ensures Remove(Remove(s, j), k) == Remove(s, k)[..|Remove(s, k)| - 1]
    ensures j == Remove(s, k)[|Remove(s, k)| - 1].key
  {
    var a := Remove(s, k);
    assert a != [] && j == a[|a| - 1].key by { LastOther(s, k); }
    assert Remove(a, j) == a[..|a| - 1] by { RemoveLast(a); }
    assert Remove(Remove(s, j), k) == Remove(a, j) by { RemoveCommutes(s, j, k); }
  }

  /** Removing the key of the tail cuts off the tail. */
  lemma RemoveLast(s: seq<Entry>)
    requires NoDupKeys(s) && s != []
    ensures Remove(s, s[|s| - 1].key) == s[..|s| - 1]
  {
    var n := |s| - 1;
    var k := s[n].key;
    assert s == s[..n] + [s[n]];
    RemoveAppend(s[..n], [s[n]], k);
    assert Remove([s[n]], k) == [];
    PrefixKeepsInvariant(s[..n], s);
    KeysAt(s[..n], k);
    forall i | 0 <= i < n ensures s[..n][i].key != k {
      assert s[..n][i] == s[i];
    }
  }

  /** The last entry of the list without k is the tail, or the tail's predecessor when k is the tail. */
  lemma LastOther(s: seq<Entry>, k: string)
    requires NoDupKeys(s) && |s| >= 2
    ensures Remove(s, k) != []
    ensures Remove(s, k)[|Remove(s, k)| - 1] == if s[|s| - 1].key != k then s[|s| - 1] else s[|s| - 2]
  {
    var n := |s| - 1;
    if s[n].key != k {
      assert s == s[..n] + [s[n]];
      assert Remove([s[n]], k) == [s[n]] by {
        assert [s[n]][1..] == [];
      }
      RemoveAppend(s[..n], [s[n]], k);
      assert Remove(s, k) == Remove(s[..n], k) + [s[n]];
    } else {
      assert s[n+1..] == [];
      assert Remove(s, k) == s[..n] by {
        RemoveAt(s, n);
      }
    }
  }

  /** changeNode with the evident intent: evict others, replace the value, promote. */
  function Replace(s: seq<Entry>, cap: nat, k: string, v: string): (r: seq<Entry>)
    requires NoDupKeys(s) && k in Keys(s) && |k| + |v| <= cap
    ensures r != [] && r[0] == Entry(k, v)
    ensures r[1..] <= Remove(s, k)
  {
    var t := EvictOthers(s, cap, k, v);
    SetValueThenRemove(t, k, v);
    Touch(SetValue(t, k, v), k)
  }

  /** Replacing is evicting others first, then writing the value and promoting the entry. */
  lemma ReplaceAfterEviction(s: seq<Entry>, cap: nat, k: string, v: string, t: seq<Entry>)
    requires NoDupKeys(s) && k in Keys(s) && |k| + |v| <= cap
    requires t == EvictOthers(s, cap, k, v)
    ensures k in Keys(SetValue(t, k, v))
    ensures Replace(s, cap, k, v) == Touch(SetValue(t, k, v), k)
  {
  }

  /**
   * Updating a present key is the same as removing it and admitting the new
   * pair: the key ends at the head with the new value, only other entries
   * are evicted, from the tail, and only while the new value does not fit.
   */
  lemma {:induction false} ReplaceIsReinsert(s: seq<Entry>, cap: nat, k: string, v: string)
    requires NoDupKeys(s) && k in Keys(s) && |k| + |v| <= cap
    ensures Replace(s, cap, k, v) == Admit(Remove(s, k), cap, k, v)
  {
    var t := EvictOthers(s, cap, k, v);
    var u := SetValue(t, k, v);
    assert Remove(t, k) == EvictUntil(Remove(s, k), cap, |k| + |v|) by {
      EvictOthersIsEvictUntil(s, cap, k, v);
    }
    assert Lookup(u, k) == Some(v) && Remove(u, k) == Remove(t, k) by {
      SetValueThenRemove(t, k, v);
    }
    assert Touch(u, k) == [Entry(k, v)] + Remove(t, k);
  }

  lemma CutOut(a: seq<Entry>, e: Entry, b: seq<Entry>)
    ensures (a + [e] + b)[..|a|] + (a + [e] + b)[|a| + 1..] == a + b
  {
    var u := a + [e] + b;
    assert u[..|a|] == a;
    assert u[|a| + 1..] == b;
  }

  /** After the value for k is replaced, k is found with the new value and the other entries are as they were. */
  lemma SetValueThenRemove(t: seq<Entry>, k: string, v: string)
    requires NoDupKeys(t) && k in Keys(t)
    ensures Lookup(SetValue(t, k, v), k) == Some(v)
    ensures Remove(SetValue(t, k, v), k) == Remove(t, k)
  {
    var u := SetValue(t, k, v);
    KeysAt(t, k);
    var i :| 0 <= i < |t| && t[i].key == k;
    assert u == t[..i] + [Entry(k, v)] + t[i+1..] && NoDupKeys(u) by { SetValueAt(t, i, v); }
    assert u[i] == Entry(k, v);
    assert Lookup(u, k) == Some(v) by { LookupAt(u, i); }
    assert Remove(u, k) == u[..i] + u[i+1..] by { RemoveAt(u, i); }
    assert Remove(t, k) == t[..i] + t[i+1..] by { RemoveAt(t, i); }
    assert u[..i] + u[i+1..] == t[..i] + t[i+1..] by {
      CutOut(t[..i], Entry(k, v), t[i+1..]);
    }
  }

  /** The heart of ReplaceIsReinsert: evicting others is evicting from the list without k. */
  lemma {:induction false} EvictOthersIsEvictUntil(s: seq<Entry>, cap: nat, k: string, v: string)
    requires NoDupKeys(s) && k in Keys(s) && |k| + |v| <= cap
    ensures Remove(EvictOthers(s, cap, k, v), k) == EvictUntil(Remove(s, k), cap, |k| + |v|)
    decreases |s|
  {
    var r := Remove(s, k);
    var fits := cap - TotalSize(s) >= |v| - |Lookup(s, k).value|;
    assert fits <==> TotalSize(r) + |k| + |v| <= cap by {
      KeysAt(s, k);
      var t :| 0 <= t < |s| && s[t].key == k;
      LookupAt(s, t);
      RemoveAt(s, t);
      TotalSizeSplit(s, t);
    }
    if fits {
      EvictOthersFits(s, cap, k, v);
      EvictUntilFits(r, cap, |k| + |v|);
    } else {
      EvictOthersTail(s, cap, k, v);
      var s' := Remove(s, Victim(s, k).key);
      EvictOthersIsEvictUntil(s', cap, k, v);
      assert Remove(s', k) == r[..|r| - 1] by {
        OthersLoseTheirTail(s, k, Victim(s, k).key);
      }
      assert EvictUntil(r[..|r| - 1], cap, |k| + |v|) == EvictUntil(r, cap, |k| + |v|);
    }
  }

  /**
   * changeNode keeps the invariant: after an update of a present key the
   * list is wellformed, the key is at the head with the new value, and only
   * other entries were evicted.
   */
  lemma ReplaceKeepsInvariant(s: seq<Entry>, cap: nat, k: string, v: string)
    requires Wellformed(s, cap) && k in Keys(s) && |k| + |v| <= cap
    ensures var r := Replace(s, cap, k, v);
      && Wellformed(r, cap)
      && r[0] == Entry(k, v)
      && Lookup(r, k) == Some(v)
      && r[1..] <= Remove(s, k)
  {
    ReplaceIsReinsert(s, cap, k, v);
    RemoveKeepsInvariant(s, cap, k);
    AdmitKeepsInvariant(Remove(s, k), cap, k, v);
  }

  // ---------------------------------------------------------------------------
  // Round trip: Put, then Get

  /**
   * After Put(k, v) (or Set(k, v) on a present key) succeeds, Get(k) finds
   * exactly v, and its promotion leaves the list as it is because k is
   * already at the head.
   */
  lemma PutThenGet(s: seq<Entry>, cap: nat, k: string, v: string)
    requires Wellformed(s, cap) && |k| + |v| <= cap
    ensures var r := Admit(Remove(s, k), cap, k, v);
      && Wellformed(r, cap)
      && k in Keys(r)
      && Lookup(r, k) == Some(v)
      && Touch(r, k) == r
  {
    RemoveKeepsInvariant(s, cap, k);
    AdmitKeepsInvariant(Remove(s, k), cap, k, v);
    var r := Admit(Remove(s, k), cap, k, v);
    TouchAt(r, 0);
  }

  /**
   * Eviction order: with capacity 10 holding c, b, a (a least recently
   * used, 9 bytes), admitting d/"4444" evicts a and then b.
   */
  lemma EvictionOrderExample()
    ensures Admit([Entry("c", "333"), Entry("b", "22"), Entry("a", "1")], 10, "d", "4444")
         == [Entry("d", "4444"), Entry("c", "333")]
    ensures TotalSize([Entry("d", "4444"), Entry("c", "333")]) == 9
  {
    var s := [Entry("c", "333"), Entry("b", "22"), Entry("a", "1")];
    var cb, c := [Entry("c", "333"), Entry("b", "22")], [Entry("c", "333")];
    assert TotalSize(s) == 9 && s[..|s| - 1] == cb;
    assert TotalSize(cb) == 7 && cb[..|cb| - 1] == c;
    assert TotalSize(c) == 4;
    assert EvictUntil(s, 10, 5) == EvictUntil(cb, 10, 5) == EvictUntil(c, 10, 5) == c;
  }

  /**
   * Touch promotes: after a lookup of c, the next capacity-forcing admission
   * evicts d rather than c.
   */
  lemma TouchPromotesExample()
    ensures var s := [Entry("d", "4444"), Entry("c", "333")];
      && "c" in Keys(s)
      && Touch(s, "c") == [Entry("c", "333"), Entry("d", "4444")]
      && Admit(Touch(s, "c"), 10, "e", "55") == [Entry("e", "55"), Entry("c", "333")]
  {
    var s := [Entry("d", "4444"), Entry("c", "333")];
    TouchTail(s);
    assert s[..1] == [Entry("d", "4444")];
    var t, c := [Entry("c", "333"), Entry("d", "4444")], [Entry("c", "333")];
    assert TotalSize(t) == 9 && t[..|t| - 1] == c;
    assert TotalSize(c) == 4;
    assert EvictUntil(t, 10, 3) == EvictUntil(c, 10, 3) == c;
  }
}
