/** The insertion step as written (hashmap.c:150-166). When it reuses a free entry that is not the last
    of its chain it also points the last entry's `next` back at it. These lemmas say exactly when that
    leaves a chain that ends, and that a run in which it always does is a run of States. */
module Relinking {
  import opened Callbacks
  import opened Chains
  import opened Tables
  import opened States
  import opened Refinement
  import opened Options

  /** A chain whose last entry's `next` is entry number `back`, or NULL when `back` is -1. */
  datatype Linked = Linked(slots: Chain, back: int)

  ghost predicate WellLinked(l: Linked) {
    l.slots != [] && -1 <= l.back < |l.slots|
  }

  /** What the loop and the assignments after it leave, as written. */
  function AsWritten(cb: Callbacks, c: Chain, k: Pointer, v: Pointer): Linked {
    var tomb := LastVacant(c);
    var reused := Find(cb, c, k) == |c| && tomb >= 0;
    Linked(ChainPut(cb, c, k, v), if reused && tomb != |c| - 1 then tomb else -1)
  }

  /** The guard a caller can check: the key is there, or no entry is free, or the last free one ends the chain. */
  predicate Safe(cb: Callbacks, c: Chain, k: Pointer) {
    Find(cb, c, k) < |c| || LastVacant(c) == -1 || LastVacant(c) == |c| - 1
  }

  /** The entry reached after n steps along `next` from the head, or -1 once NULL is reached. */
  function Walk(l: Linked, n: nat): int {
    if n == 0 then 0
    else
      var j := Walk(l, n - 1);
      if j == -1 then -1 else if j + 1 < |l.slots| then j + 1 else l.back
  }

  ghost predicate Ends(l: Linked) {
    exists n: nat :: Walk(l, n) == -1
  }

  lemma {:induction false} WalkForward(l: Linked, n: nat)
    requires WellLinked(l) && n < |l.slots|
    ensures Walk(l, n) == n
  {
    if n > 0 {
      WalkForward(l, n - 1);
    }
  }

  lemma {:induction false} WalkRound(l: Linked, n: nat)
    requires WellLinked(l) && l.back >= 0
    ensures 0 <= Walk(l, n) < |l.slots|
  {
    if n > 0 {
      WalkRound(l, n - 1);
    }
  }

  /** As written, insertion leaves a chain that ends exactly when the guard holds. */
  lemma RelinkExact(cb: Callbacks, c: Chain, k: Pointer, v: Pointer)
    requires c != []
    ensures Ends(AsWritten(cb, c, k, v)) <==> Safe(cb, c, k)
  {
    var l := AsWritten(cb, c, k, v);
    if l.back == -1 {
      WalkForward(l, |l.slots| - 1);
      assert Walk(l, |l.slots|) == -1;
    } else {
      forall n: nat
        ensures Walk(l, n) != -1
      {
        WalkRound(l, n);
      }
    }
  }

  /** An unsafe insertion closes the circle at the entry it reuses, the last free one: that entry holds the
      pair now, and is where the step after the last entry leads. */
  lemma CircleAtReused(cb: Callbacks, c: Chain, k: Pointer, v: Pointer) returns (j: nat)
    requires c != [] && !Safe(cb, c, k)
    ensures j < |c| - 1 && c[j].Vacant? && forall i :: j < i < |c| ==> c[i].Live?
    ensures var l := AsWritten(cb, c, k, v); l.slots == c[j := Live(k, v)] && Walk(l, |c|) == j
  {
    j := LastVacant(c);
    WalkForward(AsWritten(cb, c, k, v), |c| - 1);
  }

  datatype Search = Hit(at: nat) | Miss | Running

  /** n rounds of a lookup loop. */
  function SearchFor(cb: Callbacks, l: Linked, k: Pointer, n: nat): Search
    requires WellLinked(l)
  {
    if n == 0 then Running
    else
      var r := SearchFor(cb, l, k, n - 1);
      var j := Walk(l, n - 1);
      if r != Running then r
      else if j == -1 then Miss
      else if 0 <= j < |l.slots| && cb.compare(StoredKey(l.slots[j]), k) then Hit(j)
      else Running
  }

  /** After an unsafe insertion, looking up any key the bucket does not hold never returns. */
  lemma {:induction false} UnsafeHangs(cb: Callbacks, c: Chain, k: Pointer, v: Pointer, absent: Pointer, n: nat)
    requires c != [] && !Safe(cb, c, k)
    requires forall j :: 0 <= j < |c| ==> !cb.compare(StoredKey(ChainPut(cb, c, k, v)[j]), absent)
    ensures SearchFor(cb, AsWritten(cb, c, k, v), absent, n) == Running
  {
    if n > 0 {
      UnsafeHangs(cb, c, k, v, absent, n - 1);
      WalkRound(AsWritten(cb, c, k, v), n - 1);
    }
  }

  /** After a safe one, every lookup stops within one round more than the chain has entries, with the
      answer of the functional lookup. */
  lemma {:induction false} SafeStops(cb: Callbacks, l: Linked, k: Pointer, n: nat)
    requires WellLinked(l) && l.back == -1
    ensures var f := FindEntry(cb, l.slots, k);
      SearchFor(cb, l, k, n) ==
        if n <= f then Running else if f < |l.slots| then Hit(f) else Miss
  {
    if n > 0 {
      SafeStops(cb, l, k, n - 1);
      if n <= |l.slots| {
        WalkForward(l, n - 1);
      } else if n == |l.slots| + 1 {
        WalkForward(l, |l.slots| - 1);
      }
    }
  }

  // ---------------------------------------------------------------- runs of the code as written

  /** The insertion of a put as written, or None when it closes a circle. */
  function InsertAsWritten(cb: Callbacks, s: State, k: Pointer, v: Pointer): Option<State>
    requires |s.table| > 0
  {
    var b := Row(cb, s.table, k);
    var l := AsWritten(cb, s.table[b], k, v);
    var prev := Lookup(cb, s.table, k);
    if l.back != -1 then None
    else Some(Cleaned(cb, s.(table := s.table[b := l.slots], size := s.size + if prev.Vacant? then 1 else 0),
      PairOf(prev)))
  }

  /** The rehash of a resize as written. */
  function RehashAsWritten(cb: Callbacks, es: seq<Pair>, n: nat): (r: Option<Table>)
    requires n > 0
    ensures r.Some? ==> |r.value| == n
  {
    if es == [] then Some(Empty(n))
    else
      var e := es[|es| - 1];
      match RehashAsWritten(cb, es[..|es| - 1], n)
      case None => None
      case Some(t) =>
        var l := AsWritten(cb, t[Row(cb, t, e.0)], e.0, e.1);
        if l.back != -1 then None else Some(t[Row(cb, t, e.0) := l.slots])
  }

  function PutAsWritten(cb: Callbacks, s: State, k: Pointer, v: Pointer): Option<State>
    requires |s.table| > 0
  {
    if s.size < s.nextSize then InsertAsWritten(cb, s, k, v)
    else
      match RehashAsWritten(cb, Entries(s.table), INCREASE_FACTOR * |s.table|)
      case None => None
      case Some(t) =>
        InsertAsWritten(cb, s.(table := t, size := |Entries(s.table)|, nextSize := Threshold(|t|)), k, v)
  }

  function StepAsWritten(cb: Callbacks, s: State, op: Op): (r: Option<State>)
    requires |s.table| > 0
    ensures r.Some? ==> |r.value.table| > 0
  {
    if op.OpPut? then PutAsWritten(cb, s, op.k, op.v) else Some(Step(cb, s, op).0)
  }

  function AfterAsWritten(cb: Callbacks, ops: seq<Op>): (r: Option<State>)
    ensures r.Some? ==> |r.value.table| > 0
  {
    if ops == [] then Some(New())
    else
      var op := ops[|ops| - 1];
      match AfterAsWritten(cb, ops[..|ops| - 1])
      case None => None
      case Some(s) => StepAsWritten(cb, s, op)
  }

  /** No chain is empty, or has a free entry unless it is a lone head: the shape of every new table. */
  ghost predicate Compact(t: Table) {
    forall i :: 0 <= i < |t| ==> t[i] != [] && (|t[i]| == 1 || LastVacant(t[i]) == -1)
  }

  lemma {:induction false} AppendFull(c: Chain, s: Slot)
    requires s.Live? && LastVacant(c) == -1
    ensures LastVacant(c + [s]) == -1
  {
    assert (c + [s])[..|c|] == c;
  }

  lemma PutCompact(cb: Callbacks, t: Table, k: Pointer, v: Pointer)
    requires |t| > 0 && Compact(t)
    ensures Compact(PutRow(cb, t, k, v))
    ensures Safe(cb, t[Row(cb, t, k)], k)
  {
    var c := t[Row(cb, t, k)];
    if Find(cb, c, k) == |c| && LastVacant(c) == -1 {
      AppendFull(c, Live(k, v));
    } else if LastVacant(c) == -1 {
      assert forall j :: 0 <= j < |c| ==> ChainPut(cb, c, k, v)[j].Live?;
    }
  }

  /** A resize never meets the defect: in a new table only a lone head can be free. */
  lemma {:induction false} RehashNeverCircular(cb: Callbacks, es: seq<Pair>, n: nat)
    requires n > 0
    ensures RehashAsWritten(cb, es, n) == Some(Rehash(cb, es, n))
    ensures Compact(Rehash(cb, es, n))
  {
    if es != [] {
      RehashNeverCircular(cb, es[..|es| - 1], n);
      PutCompact(cb, Rehash(cb, es[..|es| - 1], n), es[|es| - 1].0, es[|es| - 1].1);
    }
  }

  /** Those of the pairs whose key belongs in bucket b of n. */
  function Chosen(cb: Callbacks, es: seq<Pair>, n: nat, b: nat): seq<Pair>
    requires n > 0
  {
    if es == [] then []
    else
      var e := es[|es| - 1];
      Chosen(cb, es[..|es| - 1], n, b) + if cb.hash(e.0) % n == b then [e] else []
  }

  function Occupied(es: seq<Pair>): (c: Chain)
    ensures |c| == |es|
  {
    seq(|es|, i requires 0 <= i < |es| => Live(es[i].0, es[i].1))
  }

  /** A fresh pair goes behind the others. */
  lemma PutNext(cb: Callbacks, es: seq<Pair>, e: Pair)
    requires var c := if es == [] then [Vacant] else Occupied(es); Found(cb, c, e.0).Vacant?
    ensures var c := if es == [] then [Vacant] else Occupied(es);
      ChainPut(cb, c, e.0, e.1) == Occupied(es + [e])
  {
    var c := if es == [] then [Vacant] else Occupied(es);
    PutPlace(cb, c, e.0, e.1, 0);
  }

  /** The order of a new table: each bucket has its pairs in the scan order of the old one, without free
      entries, and a lone free head if there are none. */
  lemma {:induction false} RehashRow(cb: Callbacks, es: seq<Pair>, n: nat, b: nat)
    requires n > 0 && b < n && AllFresh(cb, es, n)
    ensures var chosen := Chosen(cb, es, n, b);
      Rehash(cb, es, n)[b] == if chosen == [] then [Vacant] else Occupied(chosen)
  {
    if es != [] {
      var front, e := es[..|es| - 1], es[|es| - 1];
      RehashRow(cb, front, n, b);
      if cb.hash(e.0) % n == b {
        PutNext(cb, Chosen(cb, front, n, b), e);
      }
    }
  }

  /** The guard of a put: the bucket its insertion works on is safe for its key. */
  predicate PutSafe(cb: Callbacks, s: State, k: Pointer)
    requires |s.table| > 0
  {
    var g := Grown(cb, s);
    Safe(cb, g.table[Row(cb, g.table, k)], k)
  }

  lemma PutAsWrittenExact(cb: Callbacks, s: State, k: Pointer, v: Pointer)
    requires |s.table| > 0
    ensures PutAsWritten(cb, s, k, v) == if PutSafe(cb, s, k) then Some(Put(cb, s, k, v)) else None
  {
    RehashNeverCircular(cb, Entries(s.table), INCREASE_FACTOR * |s.table|);
  }

  ghost predicate AllSafe(cb: Callbacks, ops: seq<Op>) {
    forall i :: 0 <= i < |ops| && ops[i].OpPut? ==> PutSafe(cb, After(cb, ops[..i]), ops[i].k)
  }

  lemma SafeSnoc(cb: Callbacks, ops: seq<Op>)
    requires ops != []
    ensures var front, op := ops[..|ops| - 1], ops[|ops| - 1];
      AllSafe(cb, ops) <==> AllSafe(cb, front) && (op.OpPut? ==> PutSafe(cb, After(cb, front), op.k))
  {
    var front := ops[..|ops| - 1];
    assert forall i :: 0 <= i <= |front| ==> front[..i] == ops[..i];
    assert forall i :: 0 <= i < |front| ==> front[i] == ops[i];
  }

  /** For every run of the code as written: it never makes a chain circular exactly when every put meets
      the guard, and then it goes through the states of the intended code. */
  lemma {:induction false} RunAsWrittenExact(cb: Callbacks, ops: seq<Op>)
    ensures AllSafe(cb, ops) <==> AfterAsWritten(cb, ops).Some?
    ensures AllSafe(cb, ops) ==> AfterAsWritten(cb, ops) == Some(After(cb, ops))
  {
    if ops != [] {
      var front, op := ops[..|ops| - 1], ops[|ops| - 1];
      RunAsWrittenExact(cb, front);
      SafeSnoc(cb, ops);
      if op.OpPut? {
        PutAsWrittenExact(cb, After(cb, front), op.k, op.v);
      }
    }
  }

  ghost predicate NoRemoval(ops: seq<Op>) {
    forall i :: 0 <= i < |ops| ==> !ops[i].OpRemove?
  }

  /** A put that resizes, or meets a compact table, meets the guard and leaves a compact table. */
  lemma CompactPut(cb: Callbacks, s: State, k: Pointer, v: Pointer)
    requires |s.table| > 0 && (Compact(s.table) || s.size >= s.nextSize)
    ensures PutSafe(cb, s, k) && Compact(Put(cb, s, k, v).table)
  {
    RehashNeverCircular(cb, Entries(s.table), INCREASE_FACTOR * |s.table|);
    PutCompact(cb, Grown(cb, s).table, k, v);
  }

  /** Without removals a compact table stays compact, and puts meet the guard. */
  lemma CompactStep(cb: Callbacks, s: State, op: Op)
    requires |s.table| > 0 && Compact(s.table) && !op.OpRemove?
    ensures Compact(Step(cb, s, op).0.table)
    ensures op.OpPut? ==> PutSafe(cb, s, op.k)
  {
    if op.OpPut? {
      CompactPut(cb, s, op.k, op.v);
    }
  }

  lemma {:induction false} NoRemovalCompact(cb: Callbacks, ops: seq<Op>)
    requires NoRemoval(ops)
    ensures Compact(After(cb, ops).table) && AllSafe(cb, ops)
  {
    if ops != [] {
      var front, op := ops[..|ops| - 1], ops[|ops| - 1];
      NoRemovalCompact(cb, front);
      SafeSnoc(cb, ops);
      CompactStep(cb, After(cb, front), op);
    }
  }

  /** Runs without removals, such as the parser's, never meet the defect. */
  lemma RemovalFreeRun(cb: Callbacks, ops: seq<Op>)
    requires NoRemoval(ops)
    ensures AfterAsWritten(cb, ops) == Some(After(cb, ops))
  {
    NoRemovalCompact(cb, ops);
    RunAsWrittenExact(cb, ops);
  }

  function Refill(a: Pointer, b: Pointer, v: Pointer): seq<Op> {
    [OpPut(a, v), OpPut(b, v), OpRemove(a, true), OpPut(a, v)]
  }

  /** An insertion or removal below the load threshold rewrites one bucket. */
  lemma SmallPut(cb: Callbacks, s: State, k: Pointer, v: Pointer, r: nat)
    requires |s.table| == INITIAL_SIZE && 0 <= s.size < s.nextSize == 42 && r == cb.hash(k) % INITIAL_SIZE
    ensures var s' := Put(cb, s, k, v);
      |s'.table| == INITIAL_SIZE && s'.nextSize == 42
      && s'.table[r] == ChainPut(cb, s.table[r], k, v)
      && s'.size == s.size + if Find(cb, s.table[r], k) < |s.table[r]| then 0 else 1
  {
  }

  lemma SmallRemove(cb: Callbacks, s: State, k: Pointer, r: nat)
    requires |s.table| == INITIAL_SIZE && 0 < s.size && s.nextSize == 42 && r == cb.hash(k) % INITIAL_SIZE
    requires FindEntry(cb, s.table[r], k) == 0 && s.table[r] != []
    ensures var s' := Remove(cb, s, k, true).0;
      |s'.table| == INITIAL_SIZE && s'.size == s.size - 1 && s'.nextSize == 42
      && s'.table[r] == s.table[r][0 := Vacant]
  {
  }

  lemma TwoPuts(cb: Callbacks, a: Pointer, b: Pointer, v: Pointer, r: nat)
    requires Legal(cb) && a != NULL && b != NULL && !cb.compare(a, b)
    requires r == cb.hash(a) % INITIAL_SIZE == cb.hash(b) % INITIAL_SIZE
    ensures var s := Put(cb, Put(cb, New(), a, v), b, v);
      |s.table| == INITIAL_SIZE && 0 < s.size <= 2 && s.nextSize == 42
      && s.table[r] == [Live(a, v), Live(b, v)]
  {
    SmallPut(cb, New(), a, v, r);
    var s1 := Put(cb, New(), a, v);
    assert s1.table[r] == [Live(a, v)];
    SmallPut(cb, s1, b, v, r);
  }

  lemma RefillUnsafe(cb: Callbacks, s: State, a: Pointer, b: Pointer, v: Pointer)
    requires Legal(cb) && a != NULL && |s.table| == INITIAL_SIZE && 0 < s.size <= 2 && s.nextSize == 42
    requires s.table[cb.hash(a) % INITIAL_SIZE] == [Live(a, v), Live(b, v)] && !cb.compare(b, a)
    ensures !PutSafe(cb, Remove(cb, s, a, true).0, a)
  {
    var r := cb.hash(a) % INITIAL_SIZE;
    SmallRemove(cb, s, a, r);
    assert Remove(cb, s, a, true).0.table[r] == [Vacant, Live(b, v)];
  }

  lemma AfterPut(cb: Callbacks, ops: seq<Op>, k: Pointer, v: Pointer)
    ensures After(cb, ops + [OpPut(k, v)]) == Put(cb, After(cb, ops), k, v)
  {
    assert (ops + [OpPut(k, v)])[..|ops|] == ops;
  }

  lemma AfterRemove(cb: Callbacks, ops: seq<Op>, k: Pointer, remove: bool)
    ensures After(cb, ops + [OpRemove(k, remove)]) == Remove(cb, After(cb, ops), k, remove).0
  {
    assert (ops + [OpRemove(k, remove)])[..|ops|] == ops;
  }

  /** The states a refill goes through before its last put. */
  lemma AfterThree(cb: Callbacks, ops: seq<Op>, a: Pointer, b: Pointer, v: Pointer)
    ensures After(cb, ops + [OpPut(a, v)] + [OpPut(b, v)] + [OpRemove(a, true)]) ==
      Remove(cb, Put(cb, Put(cb, After(cb, ops), a, v), b, v), a, true).0
  {
    AfterPut(cb, ops, a, v);
    AfterPut(cb, ops + [OpPut(a, v)], b, v);
    AfterRemove(cb, ops + [OpPut(a, v)] + [OpPut(b, v)], a, true);
  }

  lemma RefillOps(none: seq<Op>, a: Pointer, b: Pointer, v: Pointer)
    requires none == []
    ensures Refill(a, b, v)[..3] == none + [OpPut(a, v)] + [OpPut(b, v)] + [OpRemove(a, true)]
  {
  }

  lemma UnsafePut(cb: Callbacks, ops: seq<Op>, i: nat)
    requires i < |ops| && ops[i].OpPut? && !PutSafe(cb, After(cb, ops[..i]), ops[i].k)
    ensures AfterAsWritten(cb, ops) == None
  {
    RunAsWrittenExact(cb, ops);
    assert !AllSafe(cb, ops);
  }

  /** The defect is reachable: two unequal keys of one bucket, the first removed and put again. */
  lemma RefillGoesCircular(cb: Callbacks, a: Pointer, b: Pointer, v: Pointer)
    requires Legal(cb) && a != NULL && b != NULL && !cb.compare(a, b)
    requires cb.hash(a) % INITIAL_SIZE == cb.hash(b) % INITIAL_SIZE
    ensures AfterAsWritten(cb, Refill(a, b, v)) == None
  {
    var none: seq<Op> := [];
    RefillOps(none, a, b, v);
    AfterThree(cb, none, a, b, v);
    TwoPuts(cb, a, b, v, cb.hash(a) % INITIAL_SIZE);
    RefillUnsafe(cb, Put(cb, Put(cb, New(), a, v), b, v), a, b, v);
    UnsafePut(cb, Refill(a, b, v), 3);
  }

  /** Concretely: addresses 61 and 122 under the default callbacks. */
  lemma RefillExample()
    ensures AfterAsWritten(SimpleCallbacks(false, false), Refill(61, 122, 1)) == None
  {
    StockCallbacksLegal((p: Pointer) => [], false, false);
    RefillGoesCircular(SimpleCallbacks(false, false), 61, 122, 1);
  }
}
