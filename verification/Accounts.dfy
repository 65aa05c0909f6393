/** Books kept over whole runs: who owns each key and value, what resizing costs, how long chains get,
    and how wide the counters must be. */
module Accounts {
  import opened Callbacks
  import opened Chains
  import opened Tables
  import opened States
  import opened Refinement
  import Relinking

  // ---------------------------------------------------------------- ownership

  function AcceptedBy(op: Op): seq<Pair> {
    if op.OpPut? then [(op.k, op.v)] else []
  }

  function StolenBy(cb: Callbacks, s: State, op: Op): seq<Pair>
    requires |s.table| > 0
  {
    if op.OpRemove? && !op.remove then PairOf(Lookup(cb, s.table, op.k)) else []
  }

  /** The pairs the puts of a run handed over. */
  function Accepted(ops: seq<Op>): seq<Pair> {
    if ops == [] then [] else Accepted(ops[..|ops| - 1]) + AcceptedBy(ops[|ops| - 1])
  }

  /** The pairs its steals gave back. */
  function Stolen(cb: Callbacks, ops: seq<Op>): seq<Pair> {
    if ops == [] then []
    else Stolen(cb, ops[..|ops| - 1]) + StolenBy(cb, After(cb, ops[..|ops| - 1]), ops[|ops| - 1])
  }

  /** The pairs handed to the cleanup callbacks by a call. */
  function GoneBy(cb: Callbacks, s: State, op: Op): seq<Pair>
    requires |s.table| > 0
  {
    match op
    case OpPut(k, _) => PairOf(Lookup(cb, Grown(cb, s).table, k))
    case OpRemove(k, remove) => if remove then PairOf(Lookup(cb, s.table, k)) else []
    case _ => []
  }

  /** The pairs a run had cleaned up. */
  function Gone(cb: Callbacks, ops: seq<Op>): seq<Pair> {
    if ops == [] then []
    else Gone(cb, ops[..|ops| - 1]) + GoneBy(cb, After(cb, ops[..|ops| - 1]), ops[|ops| - 1])
  }

  lemma KeysConcat(a: seq<Pair>, b: seq<Pair>)
    ensures Keys(a + b) == Keys(a) + Keys(b) && Values(a + b) == Values(a) + Values(b)
  {
  }

  lemma TakeOut<T>(b: seq<T>, i: nat)
    requires i < |b|
    ensures multiset(b) == multiset(b[..i] + b[i + 1..]) + multiset{b[i]}
  {
    assert b == b[..i] + [b[i]] + b[i + 1..];
  }

  lemma TakeAt(b: seq<Pair>, i: nat)
    requires i < |b|
    ensures var rest := b[..i] + b[i + 1..];
      && multiset(b) == multiset(rest) + multiset{b[i]}
      && multiset(Keys(b)) == multiset(Keys(rest)) + multiset{b[i].0}
      && multiset(Values(b)) == multiset(Values(rest)) + multiset{b[i].1}
  {
    var rest := b[..i] + b[i + 1..];
    TakeOut(b, i);
    TakeOut(Keys(b), i);
    TakeOut(Values(b), i);
    assert Keys(rest) == Keys(b)[..i] + Keys(b)[i + 1..];
    assert Values(rest) == Values(b)[..i] + Values(b)[i + 1..];
  }

  /** Equal bags of pairs have equal bags of keys and of values. */
  lemma {:induction false} KeysOfBag(a: seq<Pair>, b: seq<Pair>)
    requires multiset(a) == multiset(b)
    ensures multiset(Keys(a)) == multiset(Keys(b)) && multiset(Values(a)) == multiset(Values(b))
    decreases |a|
  {
    if a == [] {
      assert |multiset(b)| == 0;
    } else {
      assert a[0] in multiset(b);
      var i :| 0 <= i < |b| && b[i] == a[0];
      TakeAt(a, 0);
      TakeAt(b, i);
      var restA, restB := a[..0] + a[1..], b[..i] + b[i + 1..];
      Cancel(multiset(restA), multiset(restB), multiset{a[0]});
      KeysOfBag(restA, restB);
    }
  }

  /** What leaves the table: the pair the call meets, overwritten, cleaned up or handed back. */
  lemma OutBy(cb: Callbacks, s: State, op: Op)
    requires |s.table| > 0
    ensures multiset(GoneBy(cb, s, op)) + multiset(StolenBy(cb, s, op)) ==
      match op
      case OpPut(k, _) => multiset(PairOf(Lookup(cb, Grown(cb, s).table, k)))
      case OpRemove(k, _) => multiset(PairOf(Lookup(cb, s.table, k)))
      case _ => multiset{}
  {
  }

  lemma RemoveBag(cb: Callbacks, s: State, k: Pointer, remove: bool)
    requires Legal(cb) && Inv(cb, s) && k != NULL
    ensures multiset(Entries(Remove(cb, s, k, remove).0.table)) + multiset(PairOf(Lookup(cb, s.table, k)))
      == multiset(Entries(s.table))
  {
    RemoveEntries(cb, s, k, remove);
  }

  lemma PutBag(cb: Callbacks, s: State, k: Pointer, v: Pointer)
    requires Legal(cb) && Inv(cb, s)
    ensures multiset(Entries(Put(cb, s, k, v).table)) + multiset(PairOf(Lookup(cb, Grown(cb, s).table, k)))
      == multiset(Entries(s.table)) + multiset{(k, v)}
  {
    GrownKeeps(cb, s);
    PutRowEntries(cb, Grown(cb, s).table, k, v);
  }

  /** One call: what it accepts is added to the live pairs, what it cleans up or gives back is taken away. */
  lemma StepBag(cb: Callbacks, s: State, op: Op)
    requires Legal(cb) && Inv(cb, s) && LegalOp(op)
    ensures multiset(Entries(Step(cb, s, op).0.table)) + (multiset(GoneBy(cb, s, op)) + multiset(StolenBy(cb, s, op)))
      == multiset(Entries(s.table)) + multiset(AcceptedBy(op))
  {
    OutBy(cb, s, op);
    match op
    case OpPut(k, v) => PutBag(cb, s, k, v);
    case OpRemove(k, remove) => RemoveBag(cb, s, k, remove);
    case _ =>
  }

  /** Growing keeps what is looked up, so a put is fresh for the array it inserts into exactly when it is
      fresh for the map. */
  lemma GrownLookup(cb: Callbacks, s: State, k: Pointer)
    requires Legal(cb) && Inv(cb, s) && k != NULL
    ensures Lookup(cb, Grown(cb, s).table, k) == Lookup(cb, s.table, k)
  {
    GrownKeeps(cb, s);
    var g := Grown(cb, s);
    LookupMeaning(cb, s.table, k);
    LookupMeaning(cb, g.table, k);
    assert forall p :: p in Entries(g.table) <==> p in Entries(s.table) by {
      forall p: Pair
        ensures p in Entries(g.table) <==> p in Entries(s.table)
      {
        assert p in multiset(Entries(g.table)) <==> p in multiset(Entries(s.table));
      }
    }
    var a, b := Lookup(cb, s.table, k), Lookup(cb, g.table, k);
    if a.Live? && b.Live? {
      OneKey(cb, s.table, (a.key, a.value), (b.key, b.value), k);
    }
  }

  /** What one removal hands to the cleanup callbacks: the pair it takes out, and nothing when stealing. */
  lemma RemoveFrees(cb: Callbacks, s: State, k: Pointer, remove: bool)
    requires Legal(cb) && |s.table| > 0 && k != NULL
    ensures var l, s' := Lookup(cb, s.table, k), Remove(cb, s, k, remove).0;
      && s'.keysFreed == s.keysFreed + (if l.Live? && remove && cb.keyFree then [l.key] else [])
      && s'.valuesFreed == s.valuesFreed + (if l.Live? && remove && cb.valueFree then [l.value] else [])
  {
    EntryIsLookup(cb, s, k);
  }

  lemma InsertFrees(cb: Callbacks, s: State, k: Pointer, v: Pointer)
    requires |s.table| > 0
    ensures var l, s' := Lookup(cb, s.table, k), Insert(cb, s, k, v);
      && s'.keysFreed == s.keysFreed + (if l.Live? && cb.keyFree then [l.key] else [])
      && s'.valuesFreed == s.valuesFreed + (if l.Live? && cb.valueFree then [l.value] else [])
  {
  }

  /** What one put hands to them: the pair it overwrites, also when the table has grown before that. */
  lemma PutFrees(cb: Callbacks, s: State, k: Pointer, v: Pointer)
    requires Legal(cb) && Inv(cb, s) && k != NULL
    ensures var l, s' := Lookup(cb, s.table, k), Put(cb, s, k, v);
      && s'.keysFreed == s.keysFreed + (if l.Live? && cb.keyFree then [l.key] else [])
      && s'.valuesFreed == s.valuesFreed + (if l.Live? && cb.valueFree then [l.value] else [])
  {
    GrownKeeps(cb, s);
    GrownLookup(cb, s, k);
    InsertFrees(cb, Grown(cb, s), k, v);
  }

  lemma StepLog(cb: Callbacks, s: State, op: Op)
    requires Legal(cb) && Inv(cb, s) && LegalOp(op)
    ensures Step(cb, s, op).0.keysFreed == LogKeys(s.keysFreed, cb.keyFree, GoneBy(cb, s, op))
    ensures Step(cb, s, op).0.valuesFreed == LogValues(s.valuesFreed, cb.valueFree, GoneBy(cb, s, op))
  {
    LogNothing(s.keysFreed, []);
    LogNothing(s.valuesFreed, []);
    match op
    case OpPut(k, v) => GrownKeeps(cb, s);
    case OpRemove(k, remove) => EntryIsLookup(cb, s, k);
    case _ =>
  }

  lemma AddUp(acc: multiset<Pair>, live: multiset<Pair>, out: multiset<Pair>,
              a: multiset<Pair>, live': multiset<Pair>, o: multiset<Pair>)
    requires acc == live + out && live' + o == live + a
    ensures acc + a == live' + (out + o)
  {
    forall p: Pair
      ensures (acc + a)[p] == (live' + (out + o))[p]
    {
      assert (live' + o)[p] == (live + a)[p];
    }
  }

  /** The books of a run, one call further. */
  lemma {:induction false} BooksNext(cb: Callbacks, ops: seq<Op>)
    requires ops != []
    ensures var front, op := ops[..|ops| - 1], ops[|ops| - 1];
      var s := After(cb, front);
      && multiset(Accepted(ops)) == multiset(Accepted(front)) + multiset(AcceptedBy(op))
      && multiset(Gone(cb, ops)) + multiset(Stolen(cb, ops)) ==
        (multiset(Gone(cb, front)) + multiset(Stolen(cb, front)))
        + (multiset(GoneBy(cb, s, op)) + multiset(StolenBy(cb, s, op)))
  {
  }

  /** Every pair accepted so far is live, was cleaned up, or was stolen. */
  lemma {:induction false} PairsConserved(cb: Callbacks, ops: seq<Op>)
    requires Legal(cb) && forall i :: 0 <= i < |ops| ==> LegalOp(ops[i])
    ensures multiset(Accepted(ops)) ==
      multiset(Entries(After(cb, ops).table)) + (multiset(Gone(cb, ops)) + multiset(Stolen(cb, ops)))
  {
    if ops == [] {
      NewInv(cb);
    } else {
      var front, op := ops[..|ops| - 1], ops[|ops| - 1];
      var s := After(cb, front);
      PairsConserved(cb, front);
      RunIsModel(cb, front);
      StepBag(cb, s, op);
      BooksNext(cb, ops);
      AddUp(multiset(Accepted(front)), multiset(Entries(s.table)), multiset(Gone(cb, front)) + multiset(Stolen(cb, front)),
        multiset(AcceptedBy(op)), multiset(Entries(After(cb, ops).table)),
        multiset(GoneBy(cb, s, op)) + multiset(StolenBy(cb, s, op)));
    }
  }

  /** The record of callback calls is exactly the pairs cleaned up, in order. */
  lemma {:induction false} LogIsGone(cb: Callbacks, ops: seq<Op>)
    requires Legal(cb) && forall i :: 0 <= i < |ops| ==> LegalOp(ops[i])
    ensures After(cb, ops).keysFreed == LogKeys([], cb.keyFree, Gone(cb, ops))
    ensures After(cb, ops).valuesFreed == LogValues([], cb.valueFree, Gone(cb, ops))
  {
    if ops != [] {
      var front, op := ops[..|ops| - 1], ops[|ops| - 1];
      LogIsGone(cb, front);
      RunIsModel(cb, front);
      StepLog(cb, After(cb, front), op);
      LogConcat([], cb.keyFree, Gone(cb, front), GoneBy(cb, After(cb, front), op));
      LogConcat([], cb.valueFree, Gone(cb, front), GoneBy(cb, After(cb, front), op));
    }
  }

  lemma LogBag(gone: seq<Pair>, es: seq<Pair>, present: bool)
    ensures var keys := LogKeys(LogKeys([], present, gone), present, es);
      if present then multiset(keys) == multiset(Keys(es)) + multiset(Keys(gone)) else keys == []
    ensures var values := LogValues(LogValues([], present, gone), present, es);
      if present then multiset(values) == multiset(Values(es)) + multiset(Values(gone)) else values == []
  {
  }

  lemma SplitBags(acc: seq<Pair>, es: seq<Pair>, gone: seq<Pair>, st: seq<Pair>)
    requires multiset(acc) == multiset(es) + (multiset(gone) + multiset(st))
    ensures multiset(Keys(acc)) == multiset(Keys(es)) + multiset(Keys(gone)) + multiset(Keys(st))
    ensures multiset(Values(acc)) == multiset(Values(es)) + multiset(Values(gone)) + multiset(Values(st))
  {
    assert multiset(es + gone + st) == multiset(acc);
    KeysOfBag(acc, es + gone + st);
    KeysConcat(es + gone, st);
    KeysConcat(es, gone);
  }

  /** The record of a callback, before and after the map is destroyed. */
  lemma KeyBook(cb: Callbacks, s: State, gone: seq<Pair>)
    requires s.keysFreed == LogKeys([], cb.keyFree, gone)
    ensures cb.keyFree ==>
      && multiset(s.keysFreed) == multiset(Keys(gone))
      && multiset(Free(cb, s).keysFreed) == multiset(Keys(Entries(s.table))) + multiset(Keys(gone))
    ensures !cb.keyFree ==> s.keysFreed == Free(cb, s).keysFreed == []
  {
    LogBag(gone, Entries(s.table), cb.keyFree);
  }

  lemma ValueBook(cb: Callbacks, s: State, gone: seq<Pair>)
    requires s.valuesFreed == LogValues([], cb.valueFree, gone)
    ensures cb.valueFree ==>
      && multiset(s.valuesFreed) == multiset(Values(gone))
      && multiset(Free(cb, s).valuesFreed) == multiset(Values(Entries(s.table))) + multiset(Values(gone))
    ensures !cb.valueFree ==> s.valuesFreed == Free(cb, s).valuesFreed == []
  {
    LogBag(gone, Entries(s.table), cb.valueFree);
  }

  /** Ownership is conserved over every run, callback by callback: with a key callback, the keys put are
      live, freed or stolen, and destroying the map frees each of the live ones once; without one, no key is
      ever freed. The same for values, whatever the other callback is. */
  lemma {:induction false} OwnershipConserved(cb: Callbacks, ops: seq<Op>)
    requires Legal(cb) && forall i :: 0 <= i < |ops| ==> LegalOp(ops[i])
    ensures var s, acc, st := After(cb, ops), Accepted(ops), Stolen(cb, ops);
      && (cb.keyFree ==>
            && multiset(Keys(acc)) == multiset(Keys(Entries(s.table))) + multiset(s.keysFreed) + multiset(Keys(st))
            && multiset(Keys(acc)) == multiset(Free(cb, s).keysFreed) + multiset(Keys(st)))
      && (!cb.keyFree ==> s.keysFreed == Free(cb, s).keysFreed == [])
    ensures var s, acc, st := After(cb, ops), Accepted(ops), Stolen(cb, ops);
      && (cb.valueFree ==>
            && multiset(Values(acc)) ==
              multiset(Values(Entries(s.table))) + multiset(s.valuesFreed) + multiset(Values(st))
            && multiset(Values(acc)) == multiset(Free(cb, s).valuesFreed) + multiset(Values(st)))
      && (!cb.valueFree ==> s.valuesFreed == Free(cb, s).valuesFreed == [])
  {
    PairsConserved(cb, ops);
    LogIsGone(cb, ops);
    SplitBags(Accepted(ops), Entries(After(cb, ops).table), Gone(cb, ops), Stolen(cb, ops));
    KeyBook(cb, After(cb, ops), Gone(cb, ops));
    ValueBook(cb, After(cb, ops), Gone(cb, ops));
  }

  // ---------------------------------------------------------------- the cost of resizing

  /** Entries moved by the resize a call makes, if any. */
  function MovedBy(s: State, op: Op): nat {
    if op.OpPut? && s.size >= s.nextSize then |Entries(s.table)| else 0
  }

  /** 1 for a put of a key the map did not hold. */
  function FreshBy(cb: Callbacks, s: State, op: Op): nat
    requires |s.table| > 0
  {
    if op.OpPut? && Lookup(cb, s.table, op.k).Vacant? then 1 else 0
  }

  function Moved(cb: Callbacks, ops: seq<Op>): nat {
    if ops == [] then 0 else Moved(cb, ops[..|ops| - 1]) + MovedBy(After(cb, ops[..|ops| - 1]), ops[|ops| - 1])
  }

  function FreshPuts(cb: Callbacks, ops: seq<Op>): nat {
    if ops == [] then 0 else FreshPuts(cb, ops[..|ops| - 1]) + FreshBy(cb, After(cb, ops[..|ops| - 1]), ops[|ops| - 1])
  }

  /** The threshold whose crossing built an array of n buckets; nothing for the first array. */
  function Crossed(n: nat): nat {
    if n <= INITIAL_SIZE then 0 else Threshold(n / 4)
  }

  lemma CapacityStep(n: nat)
    requires IsCapacity(n)
    ensures Crossed(4 * n) == Threshold(n) && 4 * Crossed(n) <= Threshold(n)
  {
    var k: nat :| n == Capacity(k);
    if k > 0 {
      assert n == 4 * Capacity(k - 1);
    }
  }

  ghost predicate Paid(cb: Callbacks, ops: seq<Op>) {
    var n := |After(cb, ops).table|;
    && 3 * Moved(cb, ops) <= 4 * Crossed(n)
    && Crossed(n) <= FreshPuts(cb, ops)
    && After(cb, ops).size <= FreshPuts(cb, ops)
  }

  lemma PaidPut(cb: Callbacks, s: State, k: Pointer, v: Pointer, moved: nat, added: nat)
    requires Legal(cb) && Inv(cb, s) && k != NULL
    requires 3 * moved <= 4 * Crossed(|s.table|) && Crossed(|s.table|) <= added && s.size <= added
    ensures var s', op := Put(cb, s, k, v), OpPut(k, v);
      var m, f := moved + MovedBy(s, op), added + FreshBy(cb, s, op);
      3 * m <= 4 * Crossed(|s'.table|) && Crossed(|s'.table|) <= f && s'.size <= f
  {
    GrownKeeps(cb, s);
    GrownLookup(cb, s, k);
    CapacityStep(|s.table|);
  }

  lemma {:induction false} PaidNext(cb: Callbacks, ops: seq<Op>)
    requires ops != [] && Legal(cb) && LegalOp(ops[|ops| - 1])
    requires Paid(cb, ops[..|ops| - 1]) && Inv(cb, After(cb, ops[..|ops| - 1]))
    ensures Paid(cb, ops)
  {
    var front, op := ops[..|ops| - 1], ops[|ops| - 1];
    if op.OpPut? {
      PaidPut(cb, After(cb, front), op.k, op.v, Moved(cb, front), FreshPuts(cb, front));
    }
  }

  lemma {:induction false} PaidRun(cb: Callbacks, ops: seq<Op>)
    requires Legal(cb) && forall i :: 0 <= i < |ops| ==> LegalOp(ops[i])
    ensures Paid(cb, ops)
  {
    if ops != [] {
      PaidRun(cb, ops[..|ops| - 1]);
      RunIsModel(cb, ops[..|ops| - 1]);
      PaidNext(cb, ops);
    }
  }

  /** Over every run, three times the entries moved by all resizes is at most four times the fresh insertions. */
  lemma {:induction false} AmortisedRehash(cb: Callbacks, ops: seq<Op>)
    requires Legal(cb) && forall i :: 0 <= i < |ops| ==> LegalOp(ops[i])
    ensures 3 * Moved(cb, ops) <= 4 * FreshPuts(cb, ops)
  {
    PaidRun(cb, ops);
  }

  // ---------------------------------------------------------------- counter width

  lemma {:induction false} CapacityMonotone(j: nat, k: nat)
    requires j <= k
    ensures Capacity(j) <= Capacity(k)
  {
    if j < k {
      CapacityMonotone(j, k - 1);
    }
  }

  lemma LargestInt()
    ensures Capacity(12) == 1023410176 < 0x8000_0000 && Threshold(Capacity(12)) == 716387123
  {
    assert Capacity(3) == 3904;
    assert Capacity(6) == 249856;
    assert Capacity(9) == 15990784;
  }

  lemma CrossedLarge(k: nat)
    requires k >= 13
    ensures Crossed(Capacity(k)) >= 716387123
  {
    LargestInt();
    CapacityMonotone(12, k - 1);
    assert Capacity(k) == 4 * Capacity(k - 1);
  }

  lemma BoundedCapacity(n: nat, added: nat)
    requires IsCapacity(n) && Crossed(n) <= added < 716387123
    ensures n <= 1023410176 && Threshold(n) < n
  {
    LargestInt();
    var k: nat :| n == Capacity(k);
    if k >= 13 {
      CrossedLarge(k);
    } else {
      CapacityMonotone(k, 12);
    }
  }

  /** With fewer than 716387123 fresh insertions the bucket count is at most 61 * 4^12 and the size below
      it, so no counter leaves the range of C's `int`. */
  lemma CountersFitInt(cb: Callbacks, ops: seq<Op>)
    requires Legal(cb) && forall i :: 0 <= i < |ops| ==> LegalOp(ops[i])
    requires FreshPuts(cb, ops) < 716387123
    ensures var s := After(cb, ops);
      |s.table| <= 1023410176 < 0x8000_0000 && 0 <= s.size <= s.nextSize < 0x8000_0000
  {
    PaidRun(cb, ops);
    RunIsModel(cb, ops);
    BoundedCapacity(|After(cb, ops).table|, FreshPuts(cb, ops));
  }

  lemma Remainder(m: nat, q: nat, r: nat)
    requires m == 10 * q + r && r < 10
    ensures m % 10 == r
  {
  }

  lemma FourTimes(n: nat)
    requires 7 * n % 10 in {2, 7, 8}
    ensures 7 * (INCREASE_FACTOR * n) % 10 in {2, 7, 8}
  {
    var q, r := 7 * n / 10, 7 * n % 10;
    var m := 7 * (INCREASE_FACTOR * n);
    assert m == 10 * (4 * q) + 4 * r;
    if r == 2 {
      Remainder(m, 4 * q, 8);
    } else if r == 7 {
      Remainder(m, 4 * q + 2, 8);
    } else {
      Remainder(m, 4 * q + 3, 2);
    }
  }

  lemma {:induction false} LastDigit(k: nat)
    ensures 7 * Capacity(k) % 10 in {2, 7, 8}
  {
    if k > 0 {
      LastDigit(k - 1);
      FourTimes(Capacity(k - 1));
    }
  }

  /** 7 * n_buckets is never a multiple of 10, so the floor of the floating-point product is the integer
      threshold, whatever rounding below a tenth it suffers. */
  lemma ThresholdExact(k: nat, product: real)
    requires 0.7 * Capacity(k) as real - 0.1 < product < 0.7 * Capacity(k) as real + 0.1
    ensures product.Floor == Threshold(Capacity(k))
  {
    LastDigit(k);
    var n := Capacity(k);
    var q, r := 7 * n / 10, 7 * n % 10;
    assert 7 * n == 10 * q + r;
    assert 0.7 * n as real == q as real + 0.1 * r as real;
  }

  // ---------------------------------------------------------------- chain lengths

  function Max(a: nat, b: nat): nat {
    if a < b then b else a
  }

  /** The largest number of live entries bucket i has held since its array was built. */
  function Peak(cb: Callbacks, ops: seq<Op>, i: nat): nat
    requires i < |After(cb, ops).table|
  {
    var now := |LivePairs(After(cb, ops).table[i])|;
    if ops == [] then now
    else
      var front := ops[..|ops| - 1];
      if |After(cb, front).table| == |After(cb, ops).table| then Max(Peak(cb, front, i), now) else now
  }

  lemma PutLength(cb: Callbacks, c: Chain, k: Pointer, v: Pointer, peak: nat)
    requires |c| == Max(1, peak) && |LivePairs(c)| <= peak
    ensures |ChainPut(cb, c, k, v)| == Max(1, Max(peak, |LivePairs(ChainPut(cb, c, k, v))|))
  {
    PutPairs(cb, c, k, v);
    FullChain(c);
  }

  lemma CompactLength(t: Table, i: nat)
    requires Relinking.Compact(t) && i < |t|
    ensures |t[i]| == Max(1, |LivePairs(t[i])|)
  {
    FullChain(t[i]);
  }

  lemma PutPeak(cb: Callbacks, s: State, k: Pointer, v: Pointer, i: nat, peak: nat)
    requires |s.table| > 0 && i < |s.table| && |Put(cb, s, k, v).table| == |s.table|
    requires |s.table[i]| == Max(1, peak) && |LivePairs(s.table[i])| <= peak
    ensures var c := Put(cb, s, k, v).table[i]; |c| == Max(1, Max(peak, |LivePairs(c)|))
  {
    assert Grown(cb, s) == s;
    PutLength(cb, s.table[i], k, v, peak);
  }

  lemma RemovePeak(cb: Callbacks, s: State, k: Pointer, remove: bool, i: nat)
    requires |s.table| > 0 && i < |s.table|
    ensures var c := Remove(cb, s, k, remove).0.table[i];
      |c| == |s.table[i]| && |LivePairs(c)| <= |LivePairs(s.table[i])|
  {
    var c := s.table[i];
    if i == Row(cb, s.table, k) && EntryOf(cb, s, k) < |c| {
      PairsOfUpdate(c, EntryOf(cb, s, k), Vacant);
    }
  }

  lemma PeakStep(cb: Callbacks, s: State, op: Op, i: nat, peak: nat)
    requires |s.table| > 0 && i < |s.table| && |Step(cb, s, op).0.table| == |s.table|
    requires |s.table[i]| == Max(1, peak) && |LivePairs(s.table[i])| <= peak
    ensures var c := Step(cb, s, op).0.table[i]; |c| == Max(1, Max(peak, |LivePairs(c)|))
  {
    match op
    case OpPut(k, v) => PutPeak(cb, s, k, v, i, peak);
    case OpRemove(k, remove) => RemovePeak(cb, s, k, remove, i);
    case _ =>
  }

  lemma PeakBounds(cb: Callbacks, ops: seq<Op>, i: nat)
    requires i < |After(cb, ops).table|
    ensures |LivePairs(After(cb, ops).table[i])| <= Peak(cb, ops, i)
  {
  }

  /** Slots are reused before a chain grows: every chain is exactly as long as the most live entries its
      bucket has held since the array was built (and at least the inline head). */
  lemma {:induction false} ChainLengthIsPeak(cb: Callbacks, ops: seq<Op>, i: nat)
    requires i < |After(cb, ops).table|
    ensures |After(cb, ops).table[i]| == Max(1, Peak(cb, ops, i))
  {
    if ops == [] {
      LivePairsOne(Vacant);
    } else {
      var front, op := ops[..|ops| - 1], ops[|ops| - 1];
      var s, s' := After(cb, front), After(cb, ops);
      if |s.table| == |s'.table| {
        ChainLengthIsPeak(cb, front, i);
        PeakBounds(cb, front, i);
        PeakStep(cb, s, op, i, Peak(cb, front, i));
      } else {
        Relinking.CompactPut(cb, s, op.k, op.v);
        CompactLength(s'.table, i);
      }
    }
  }

  // ---------------------------------------------------------------- outside the contract

  /** Why NULL is not a legal key: with the default comparison it equals every cleared entry, so removing it
      from an empty map succeeds and the size goes negative. */
  lemma NullKeyRemoval()
    ensures var r := Remove(SimpleCallbacks(false, false), New(), NULL, true); r.1 && r.0.size == -1
  {
  }
}
