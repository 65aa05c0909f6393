/** The whole map as a value: bucket array, counters, and the record of cleanup callbacks made.
    These functions say what each operation of hashmap.c computes, with the relinking of a reused
    entry as intended (see Relinking for the step as written). */
module States {
  import opened Callbacks
  import opened Chains
  import opened Tables

  const INITIAL_SIZE: nat := 61
  const INCREASE_FACTOR: nat := 4

  datatype State = State(
    table: Table,
    size: int,
    nextSize: int,
    keysFreed: seq<Pointer>,
    valuesFreed: seq<Pointer>)

  /** (int)(n * 0.7) */
  function Threshold(n: nat): nat {
    7 * n / 10
  }

  function New(): State {
    State(Empty(INITIAL_SIZE), 0, Threshold(INITIAL_SIZE), [], [])
  }

  /** The pointers handed to a cleanup callback, if there is one. */
  function Calls(present: bool, ps: seq<Pointer>): seq<Pointer> {
    if present then ps else []
  }

  function Keys(es: seq<Pair>): (ks: seq<Pointer>)
    ensures |ks| == |es| && forall i :: 0 <= i < |es| ==> ks[i] == es[i].0
  {
    seq(|es|, i requires 0 <= i < |es| => es[i].0)
  }

  function Values(es: seq<Pair>): (vs: seq<Pointer>)
    ensures |vs| == |es| && forall i :: 0 <= i < |es| ==> vs[i] == es[i].1
  {
    seq(|es|, i requires 0 <= i < |es| => es[i].1)
  }

  /** The record after the key callback, if present, has run on the keys of es; then the same for values. */
  function LogKeys(log: seq<Pointer>, present: bool, es: seq<Pair>): seq<Pointer> {
    log + Calls(present, Keys(es))
  }

  function LogValues(log: seq<Pointer>, present: bool, es: seq<Pair>): seq<Pointer> {
    log + Calls(present, Values(es))
  }

  lemma LogConcat(log: seq<Pointer>, present: bool, a: seq<Pair>, b: seq<Pair>)
    ensures LogKeys(LogKeys(log, present, a), present, b) == LogKeys(log, present, a + b)
    ensures LogValues(LogValues(log, present, a), present, b) == LogValues(log, present, a + b)
  {
    assert Keys(a + b) == Keys(a) + Keys(b) && Values(a + b) == Values(a) + Values(b);
  }

  lemma LogNothing(log: seq<Pointer>, es: seq<Pair>)
    ensures LogKeys(log, false, es) == log && LogValues(log, false, es) == log
    ensures LogKeys(log, true, []) == log && LogValues(log, true, []) == log
  {
  }

  /** The state after the cleanup callbacks have run on the given pairs. */
  function Cleaned(cb: Callbacks, s: State, es: seq<Pair>): State {
    s.(keysFreed := LogKeys(s.keysFreed, cb.keyFree, es), valuesFreed := LogValues(s.valuesFreed, cb.valueFree, es))
  }

  /** Insertion of the given pairs, in order, into a new array of n buckets. */
  function Rehash(cb: Callbacks, es: seq<Pair>, n: nat): (t: Table)
    requires n > 0
    ensures |t| == n
  {
    if es == [] then Empty(n)
    else
      var e := es[|es| - 1];
      PutRow(cb, Rehash(cb, es[..|es| - 1], n), e.0, e.1)
  }

  function Resize(cb: Callbacks, s: State): State
    requires |s.table| > 0
  {
    var n := INCREASE_FACTOR * |s.table|;
    s.(table := Rehash(cb, Entries(s.table), n), size := |Entries(s.table)|, nextSize := Threshold(n))
  }

  /** Insertion into the current array, with the overwritten pair cleaned up. */
  function Insert(cb: Callbacks, s: State, k: Pointer, v: Pointer): State
    requires |s.table| > 0
  {
    var prev := Lookup(cb, s.table, k);
    Cleaned(cb, s.(table := PutRow(cb, s.table, k, v), size := s.size + if prev.Vacant? then 1 else 0), PairOf(prev))
  }

  /** The state the insertion of a put starts from. */
  function Grown(cb: Callbacks, s: State): (r: State)
    requires |s.table| > 0
    ensures |r.table| > 0
  {
    if s.size >= s.nextSize then Resize(cb, s) else s
  }

  function Put(cb: Callbacks, s: State, k: Pointer, v: Pointer): State
    requires |s.table| > 0
  {
    Insert(cb, Grown(cb, s), k, v)
  }

  /** The entry a lookup stops at: an index into the bucket of k, or its length. */
  function EntryOf(cb: Callbacks, s: State, k: Pointer): nat
    requires |s.table| > 0
  {
    FindEntry(cb, s.table[Row(cb, s.table, k)], k)
  }

  function Get(cb: Callbacks, s: State, k: Pointer): Pointer
    requires |s.table| > 0
  {
    var c := s.table[Row(cb, s.table, k)];
    var i := EntryOf(cb, s, k);
    if i < |c| then StoredValue(c[i]) else NULL
  }

  /** s without entry i of bucket b, whose pair is cleaned up if it is removed and not stolen. */
  function TakenOut(cb: Callbacks, s: State, b: nat, i: nat, remove: bool): State
    requires b < |s.table| && i < |s.table[b]|
  {
    var slot := s.table[b][i];
    var s' := s.(table := s.table[b := s.table[b][i := Vacant]], size := s.size - 1);
    if remove then Cleaned(cb, s', [(StoredKey(slot), StoredValue(slot))]) else s'
  }

  /** Removal (`remove`) or stealing (`!remove`), and whether an entry was cleared. */
  function Remove(cb: Callbacks, s: State, k: Pointer, remove: bool): (State, bool)
    requires |s.table| > 0
  {
    var b, i := Row(cb, s.table, k), EntryOf(cb, s, k);
    if i == |s.table[b]| then (s, false) else (TakenOut(cb, s, b, i, remove), true)
  }

  /** Destroying the map cleans up everything it still holds. */
  function Free(cb: Callbacks, s: State): State {
    Cleaned(cb, s, Entries(s.table))
  }

  // ---------------------------------------------------------------- invariant

  function Capacity(k: nat): (n: nat)
    ensures n >= 61
  {
    if k == 0 then INITIAL_SIZE else INCREASE_FACTOR * Capacity(k - 1)
  }

  /** 61 times a power of 4. */
  ghost predicate IsCapacity(n: nat) {
    exists k: nat :: n == Capacity(k)
  }

  ghost predicate Inv(cb: Callbacks, s: State) {
    && Shaped(cb, s.table)
    && IsCapacity(|s.table|)
    && s.nextSize == Threshold(|s.table|)
    && s.size == |Entries(s.table)|
    && s.size <= s.nextSize
  }

  lemma NewInv(cb: Callbacks)
    ensures Inv(cb, New()) && Entries(New().table) == []
  {
    EmptyShaped(cb, INITIAL_SIZE);
    EmptyEntries(INITIAL_SIZE);
    assert |New().table| == Capacity(0);
  }

  /** Every insertion of the rehash finds its key absent: the overwrite branch is never taken,
      so the insertion returns 1 each time and no cleanup callback runs. */
  ghost predicate AllFresh(cb: Callbacks, es: seq<Pair>, n: nat)
    requires n > 0
  {
    es == [] ||
    (AllFresh(cb, es[..|es| - 1], n) && Lookup(cb, Rehash(cb, es[..|es| - 1], n), es[|es| - 1].0).Vacant?)
  }

  lemma {:induction false} FreshAt(cb: Callbacks, es: seq<Pair>, n: nat, m: nat)
    requires n > 0 && m < |es| && AllFresh(cb, es, n)
    ensures Lookup(cb, Rehash(cb, es[..m], n), es[m].0).Vacant?
  {
    if m < |es| - 1 {
      FreshAt(cb, es[..|es| - 1], n, m);
      assert es[..|es| - 1][..m] == es[..m];
    }
  }

  /** t is well shaped and holds exactly the pairs es. */
  ghost predicate HoldsPairs(cb: Callbacks, t: Table, es: seq<Pair>) {
    Shaped(cb, t) && multiset(Entries(t)) == multiset(es) && |Entries(t)| == |es|
  }

  lemma AbsentKey(cb: Callbacks, t: Table, es: seq<Pair>, k: Pointer)
    requires Legal(cb) && HoldsPairs(cb, t, es) && k != NULL && NoneEqual(cb, es, k)
    ensures Lookup(cb, t, k).Vacant?
  {
    LookupMeaning(cb, t, k);
    forall p | p in Entries(t)
      ensures !cb.compare(p.0, k)
    {
      assert p in multiset(Entries(t));
      assert p in es;
    }
  }

  lemma FreshInsertion(cb: Callbacks, t: Table, es: seq<Pair>, e: Pair)
    requires Legal(cb) && HoldsPairs(cb, t, es) && e.0 != NULL && NoneEqual(cb, es, e.0)
    ensures Lookup(cb, t, e.0).Vacant?
    ensures HoldsPairs(cb, PutRow(cb, t, e.0, e.1), es + [e])
  {
    AbsentKey(cb, t, es, e.0);
    PutRowShaped(cb, t, e.0, e.1);
    PutRowEntries(cb, t, e.0, e.1);
  }

  lemma EmptyHolds(cb: Callbacks, n: nat)
    requires n > 0
    ensures HoldsPairs(cb, Empty(n), [])
  {
    EmptyShaped(cb, n);
    EmptyEntries(n);
  }

  /** Rehashing pairs with different keys keeps exactly those pairs, each by a fresh insertion. */
  lemma {:induction false} RehashKeeps(cb: Callbacks, es: seq<Pair>, n: nat)
    requires Legal(cb) && n > 0 && DistinctPairs(cb, es)
    ensures HoldsPairs(cb, Rehash(cb, es, n), es) && AllFresh(cb, es, n)
  {
    if es == [] {
      EmptyHolds(cb, n);
    } else {
      var front, e := es[..|es| - 1], es[|es| - 1];
      RehashKeeps(cb, front, n);
      FreshInsertion(cb, Rehash(cb, front, n), front, e);
      FrontLast(es);
    }
  }

  lemma NextCapacity(n: nat)
    requires IsCapacity(n)
    ensures IsCapacity(4 * n)
    ensures Threshold(4 * n) >= 4 * Threshold(n) > Threshold(n)
  {
    var k: nat :| n == Capacity(k);
    assert 4 * n == Capacity(k + 1);
  }

  /** Resizing preserves meaning: four times the buckets, the same pairs, the same size, no callback,
      and room for the insertion that triggered it. */
  lemma ResizeKeeps(cb: Callbacks, s: State)
    requires Legal(cb) && Inv(cb, s)
    ensures Inv(cb, Resize(cb, s))
    ensures multiset(Entries(Resize(cb, s).table)) == multiset(Entries(s.table))
    ensures Resize(cb, s).size == s.size < Resize(cb, s).nextSize
    ensures |Resize(cb, s).table| == 4 * |s.table|
    ensures Resize(cb, s).keysFreed == s.keysFreed && Resize(cb, s).valuesFreed == s.valuesFreed
    ensures AllFresh(cb, Entries(s.table), 4 * |s.table|)
  {
    EntriesDistinct(cb, s.table);
    RehashKeeps(cb, Entries(s.table), 4 * |s.table|);
    NextCapacity(|s.table|);
  }

  lemma GrownKeeps(cb: Callbacks, s: State)
    requires Legal(cb) && Inv(cb, s)
    ensures Inv(cb, Grown(cb, s))
    ensures multiset(Entries(Grown(cb, s).table)) == multiset(Entries(s.table))
    ensures Grown(cb, s).size == s.size < Grown(cb, s).nextSize
    ensures Grown(cb, s).keysFreed == s.keysFreed && Grown(cb, s).valuesFreed == s.valuesFreed
  {
    if s.size >= s.nextSize {
      ResizeKeeps(cb, s);
    }
  }

  lemma InsertInv(cb: Callbacks, s: State, k: Pointer, v: Pointer)
    requires Legal(cb) && Inv(cb, s) && k != NULL && s.size < s.nextSize
    ensures Inv(cb, Insert(cb, s, k, v))
  {
    PutRowShaped(cb, s.table, k, v);
    PutRowEntries(cb, s.table, k, v);
  }

  /** The load and capacity invariant, and the chain shape, survive a put. */
  lemma PutInv(cb: Callbacks, s: State, k: Pointer, v: Pointer)
    requires Legal(cb) && Inv(cb, s) && k != NULL
    ensures Inv(cb, Put(cb, s, k, v))
  {
    GrownKeeps(cb, s);
    InsertInv(cb, Grown(cb, s), k, v);
  }

  /** A put resizes exactly when the map holds seven tenths of its buckets, rounded down. */
  lemma ResizesAtLoad(cb: Callbacks, s: State, k: Pointer, v: Pointer)
    requires Legal(cb) && Inv(cb, s) && k != NULL
    ensures |Put(cb, s, k, v).table| == if |Entries(s.table)| == 7 * |s.table| / 10 then 4 * |s.table| else |s.table|
  {
  }

  /** The slot a legal key's lookup stops at is the occupied one that holds it. */
  lemma EntryIsLookup(cb: Callbacks, s: State, k: Pointer)
    requires Legal(cb) && |s.table| > 0 && k != NULL
    ensures var c := s.table[Row(cb, s.table, k)]; var i := EntryOf(cb, s, k);
      if i < |c| then c[i] == Lookup(cb, s.table, k) && c[i].Live? else Lookup(cb, s.table, k).Vacant?
  {
    FindEntryIsFind(cb, s.table[Row(cb, s.table, k)], k);
  }

  /** What removal does to the stored pairs: exactly the matching pair goes. */
  lemma RemoveEntries(cb: Callbacks, s: State, k: Pointer, remove: bool)
    requires Legal(cb) && |s.table| > 0 && k != NULL
    ensures Remove(cb, s, k, remove).1 == Lookup(cb, s.table, k).Live?
    ensures multiset(Entries(Remove(cb, s, k, remove).0.table)) + multiset(PairOf(Lookup(cb, s.table, k)))
      == multiset(Entries(s.table))
    ensures |Entries(Remove(cb, s, k, remove).0.table)| + |PairOf(Lookup(cb, s.table, k))| == |Entries(s.table)|
  {
    EntryIsLookup(cb, s, k);
    var b := Row(cb, s.table, k);
    var c, i := s.table[b], EntryOf(cb, s, k);
    if i < |c| {
      PairsOfUpdate(c, i, Vacant);
      EntriesOfUpdate(s.table, b, c[i := Vacant]);
      Exchange(multiset(Entries(s.table[b := c[i := Vacant]])), multiset(LivePairs(c)), multiset(Entries(s.table)),
        multiset(LivePairs(c[i := Vacant])), multiset(PairOf(c[i])), multiset{});
    }
  }

  lemma RemoveInv(cb: Callbacks, s: State, k: Pointer, remove: bool)
    requires Legal(cb) && Inv(cb, s) && k != NULL
    ensures Inv(cb, Remove(cb, s, k, remove).0)
  {
    EntryIsLookup(cb, s, k);
    RemoveEntries(cb, s, k, remove);
    var b := Row(cb, s.table, k);
    var i := EntryOf(cb, s, k);
    if i < |s.table[b]| {
      ClearShaped(cb, s.table, b, i);
    }
  }
}
