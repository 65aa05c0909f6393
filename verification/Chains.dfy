/** One bucket of the table: the entries of a chain, in link order (hashmap.c). */
module Chains {
  import opened Callbacks

  /** A chain entry. Removal clears an entry (NULL key and value, `occ` false) but never unlinks it. */
  datatype Slot = Vacant | Live(key: Pointer, value: Pointer)

  type Chain = seq<Slot>

  type Pair = (Pointer, Pointer)

  /** The test of the insertion loop: occupied and equal. */
  predicate Matches(cb: Callbacks, s: Slot, k: Pointer) {
    s.Live? && cb.compare(s.key, k)
  }

  function StoredKey(s: Slot): Pointer {
    if s.Live? then s.key else NULL
  }

  function StoredValue(s: Slot): Pointer {
    if s.Live? then s.value else NULL
  }

  /** The first occupied entry equal to k, or |c|. */
  function Find(cb: Callbacks, c: Chain, k: Pointer): (i: nat)
    ensures i <= |c|
    ensures forall j :: 0 <= j < i ==> !Matches(cb, c[j], k)
    ensures i < |c| ==> Matches(cb, c[i], k)
  {
    if c == [] then 0 else if Matches(cb, c[0], k) then 0 else 1 + Find(cb, c[1..], k)
  }

  /** The entry the lookup loop stops at, or |c|. It compares every entry, cleared ones included. */
  function FindEntry(cb: Callbacks, c: Chain, k: Pointer): (i: nat)
    ensures i <= |c|
    ensures forall j :: 0 <= j < i ==> !cb.compare(StoredKey(c[j]), k)
    ensures i < |c| ==> cb.compare(StoredKey(c[i]), k)
  {
    if c == [] then 0 else if cb.compare(StoredKey(c[0]), k) then 0 else 1 + FindEntry(cb, c[1..], k)
  }

  /** The last free entry, or -1. */
  function LastVacant(c: Chain): (t: int)
    ensures -1 <= t < |c|
    ensures t >= 0 ==> c[t].Vacant?
    ensures forall j :: t < j < |c| ==> c[j].Live?
  {
    if c == [] then -1
    else if c[|c| - 1].Vacant? then |c| - 1
    else LastVacant(c[..|c| - 1])
  }

  /** Overwrite the match, else fill the last free entry, else append. */
  function ChainPut(cb: Callbacks, c: Chain, k: Pointer, v: Pointer): Chain {
    var f, t := Find(cb, c, k), LastVacant(c);
    if f < |c| then c[f := Live(k, v)]
    else if t >= 0 then c[t := Live(k, v)]
    else c + [Live(k, v)]
  }

  /** The entry holding k, or Vacant when the chain has none. */
  function Found(cb: Callbacks, c: Chain, k: Pointer): Slot {
    var i := Find(cb, c, k);
    if i < |c| then c[i] else Vacant
  }

  function PairOf(s: Slot): seq<Pair> {
    if s.Live? then [(s.key, s.value)] else []
  }

  /** The occupied pairs in link order. */
  function LivePairs(c: Chain): (es: seq<Pair>)
    ensures |es| <= |c|
  {
    if c == [] then []
    else LivePairs(c[..|c| - 1]) + PairOf(c[|c| - 1])
  }

  /** Occupied keys are pairwise different. */
  predicate DistinctSlots(cb: Callbacks, c: Chain) {
    forall i, j :: 0 <= i < j < |c| && c[i].Live? && c[j].Live? ==> !cb.compare(c[i].key, c[j].key)
  }

  predicate NoneEqual(cb: Callbacks, es: seq<Pair>, k: Pointer) {
    forall i :: 0 <= i < |es| ==> !cb.compare(es[i].0, k)
  }

  /** Keys are legal and pairwise different. */
  predicate DistinctPairs(cb: Callbacks, es: seq<Pair>) {
    es == [] ||
    (DistinctPairs(cb, es[..|es| - 1]) && es[|es| - 1].0 != NULL
      && NoneEqual(cb, es[..|es| - 1], es[|es| - 1].0))
  }

  lemma {:induction false} LegalAt(cb: Callbacks, es: seq<Pair>, i: nat)
    requires i < |es| && DistinctPairs(cb, es)
    ensures es[i].0 != NULL
  {
    if i < |es| - 1 {
      LegalAt(cb, es[..|es| - 1], i);
    }
  }

  lemma {:induction false} DistinctAt(cb: Callbacks, es: seq<Pair>, i: nat, j: nat)
    requires i < j < |es| && DistinctPairs(cb, es)
    ensures !cb.compare(es[i].0, es[j].0) && es[i].0 != NULL && es[j].0 != NULL
  {
    var front := es[..|es| - 1];
    if j < |front| {
      DistinctAt(cb, front, i, j);
    } else {
      assert front[i] == es[i];
      LegalAt(cb, es, i);
    }
  }

  lemma {:induction false} DistinctPrefix(cb: Callbacks, es: seq<Pair>, m: nat)
    requires m <= |es| && DistinctPairs(cb, es)
    ensures DistinctPairs(cb, es[..m])
  {
    if m < |es| {
      DistinctPrefix(cb, es[..|es| - 1], m);
      assert es[..|es| - 1][..m] == es[..m];
    } else {
      assert es[..m] == es;
    }
  }

  lemma DistinctSnoc(cb: Callbacks, es: seq<Pair>, e: Pair)
    requires DistinctPairs(cb, es) && e.0 != NULL && NoneEqual(cb, es, e.0)
    ensures DistinctPairs(cb, es + [e])
  {
    assert (es + [e])[..|es|] == es;
  }

  lemma {:induction false} LivePairsConcat(a: Chain, b: Chain)
    ensures LivePairs(a + b) == LivePairs(a) + LivePairs(b)
  {
    if b == [] {
      assert a + b == a;
    } else {
      assert (a + b)[..|a + b| - 1] == a + b[..|b| - 1];
      LivePairsConcat(a, b[..|b| - 1]);
    }
  }

  lemma LivePairsNext(c: Chain, j: nat)
    requires j < |c|
    ensures LivePairs(c[..j + 1]) == LivePairs(c[..j]) + PairOf(c[j])
  {
    assert c[..j + 1][..j] == c[..j];
  }

  lemma LivePairsOne(s: Slot)
    ensures LivePairs([s]) == PairOf(s)
  {
    assert [s][..0] == [];
  }

  lemma FrontLast<T>(s: seq<T>)
    requires s != []
    ensures s[..|s| - 1] + [s[|s| - 1]] == s
  {
  }

  /** Rewriting one entry exchanges its pair. */
  lemma PairsOfUpdate(c: Chain, i: nat, s: Slot)
    requires i < |c|
    ensures multiset(LivePairs(c[i := s])) + multiset(PairOf(c[i])) == multiset(LivePairs(c)) + multiset(PairOf(s))
    ensures |LivePairs(c[i := s])| + |PairOf(c[i])| == |LivePairs(c)| + |PairOf(s)|
  {
    assert c == c[..i] + [c[i]] + c[i + 1..];
    assert c[i := s] == c[..i] + [s] + c[i + 1..];
    LivePairsConcat(c[..i] + [c[i]], c[i + 1..]);
    LivePairsConcat(c[..i] + [s], c[i + 1..]);
    LivePairsConcat(c[..i], [c[i]]);
    LivePairsConcat(c[..i], [s]);
    LivePairsOne(s);
    LivePairsOne(c[i]);
  }

  /** What one insertion does to the pairs of a chain: the matching pair, if any, is replaced. */
  lemma PutPairs(cb: Callbacks, c: Chain, k: Pointer, v: Pointer)
    ensures multiset(LivePairs(ChainPut(cb, c, k, v))) + multiset(PairOf(Found(cb, c, k)))
      == multiset(LivePairs(c)) + multiset{(k, v)}
    ensures |LivePairs(ChainPut(cb, c, k, v))| + |PairOf(Found(cb, c, k))| == |LivePairs(c)| + 1
  {
    var f, h := Find(cb, c, k), LastVacant(c);
    if f < |c| {
      PairsOfUpdate(c, f, Live(k, v));
    } else if h >= 0 {
      PairsOfUpdate(c, h, Live(k, v));
    } else {
      LivePairsConcat(c, [Live(k, v)]);
      LivePairsOne(Live(k, v));
    }
  }

  lemma {:induction false} LivePairsMember(c: Chain, p: Pair)
    ensures p in LivePairs(c) <==> exists j :: 0 <= j < |c| && c[j] == Live(p.0, p.1)
  {
    if c != [] {
      LivePairsMember(c[..|c| - 1], p);
      if p in LivePairs(c[..|c| - 1]) {
        var j :| 0 <= j < |c| - 1 && c[..|c| - 1][j] == Live(p.0, p.1);
        assert c[j] == Live(p.0, p.1);
      }
    }
  }

  lemma {:induction false} DistinctSlotsPairs(cb: Callbacks, c: Chain)
    requires DistinctSlots(cb, c) && forall j :: 0 <= j < |c| && c[j].Live? ==> c[j].key != NULL
    ensures DistinctPairs(cb, LivePairs(c))
  {
    if c != [] {
      var front, last := c[..|c| - 1], c[|c| - 1];
      DistinctSlotsPairs(cb, front);
      if last.Live? {
        var es := LivePairs(front);
        forall a | 0 <= a < |es|
          ensures !cb.compare(es[a].0, last.key)
        {
          assert es[a] in es;
          LivePairsMember(front, es[a]);
        }
        DistinctSnoc(cb, es, (last.key, last.value));
      } else {
        assert LivePairs(c) == LivePairs(front);
      }
    }
  }

  /** A chain is full of occupied entries exactly when it has no free one. */
  lemma {:induction false} FullChain(c: Chain)
    ensures |LivePairs(c)| == |c| <==> LastVacant(c) == -1
  {
    if c != [] {
      FullChain(c[..|c| - 1]);
    }
  }

  /** On legal keys the lookup test, which ignores `occ`, agrees with the insertion test. */
  lemma FindEntryIsFind(cb: Callbacks, c: Chain, k: Pointer)
    requires Legal(cb) && k != NULL
    ensures FindEntry(cb, c, k) == Find(cb, c, k)
  {
    var e, f := FindEntry(cb, c, k), Find(cb, c, k);
    assert e < |c| ==> c[e].Live?;
    assert f < |c| ==> cb.compare(StoredKey(c[f]), k);
  }

  predicate NoMatch(cb: Callbacks, c: Chain, k: Pointer) {
    forall j :: 0 <= j < |c| ==> !Matches(cb, c[j], k)
  }

  /** Where an insertion puts the pair: over the first match; else into the last free entry; else behind
      the last. Every other entry keeps its place and what it holds. */
  lemma PutPlace(cb: Callbacks, c: Chain, k: Pointer, v: Pointer, i: nat)
    requires i < |c|
    ensures Matches(cb, c[i], k) && NoMatch(cb, c[..i], k) ==> ChainPut(cb, c, k, v) == c[i := Live(k, v)]
    ensures NoMatch(cb, c, k) && c[i].Vacant? && (forall j :: i < j < |c| ==> c[j].Live?) ==>
              ChainPut(cb, c, k, v) == c[i := Live(k, v)]
    ensures NoMatch(cb, c, k) && (forall j :: 0 <= j < |c| ==> c[j].Live?) ==>
              ChainPut(cb, c, k, v) == c + [Live(k, v)]
  {
    var f, t := Find(cb, c, k), LastVacant(c);
    assert f < |c| ==> Matches(cb, c[f], k);
    assert f < i ==> c[..i][f] == c[f];
    assert t >= 0 ==> c[t].Vacant?;
  }
}
