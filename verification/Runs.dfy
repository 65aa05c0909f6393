/** Whole runs of the methods on the heap: they go through the states, and give the answers, that the
    theorems about runs speak of. */
module Runs {
  import opened Callbacks
  import opened Chains
  import opened Tables
  import opened States
  import opened Refinement
  import opened Relinking
  import opened StringKeys
  import opened HashMap
  import Accounts
  import opened Iteration

  // ---------------------------------------------------------------- calls on a map

  /** One call on the heap is one step on the value; a resize in it inserts as many entries into its new
      array as the accounts say. */
  method Do(m: NcHashmap, op: Op) returns (answer: Answer, ghost moved: int)
    requires m.Valid() && Legal(m.cb) && Inv(m.cb, m.Value()) && LegalOp(op)
    requires op.OpPut? ==> m.relink.FreshOnly? || PutSafe(m.cb, m.Value(), op.k)
    modifies m, m.layout.repr
    ensures m.Valid() && m.cb == old(m.cb) && fresh(m.layout.repr - old(m.layout.repr))
    ensures (m.Value(), answer) == Step(m.cb, old(m.Value()), op)
    ensures moved == Accounts.MovedBy(old(m.Value()), op)
  {
    moved := 0;
    match op {
      case OpPut(k, v) =>
        var ok;
        ok, moved := m.Put(k, v);
        answer := Truth(ok);
      case OpGet(k) =>
        var p := m.Get(k);
        answer := Address(p);
      case OpContains(k) =>
        var b := m.Contains(k);
        answer := Truth(b);
      case OpRemove(k, remove) =>
        var ok := m.Remove(k, remove);
        answer := Truth(ok);
      case OpSize =>
        var n := m.Size();
        answer := Count(n);
    }
  }

  lemma RunNext(cb: Callbacks, ops: seq<Op>, i: nat)
    requires i < |ops|
    ensures After(cb, ops[..i + 1]) == Step(cb, After(cb, ops[..i]), ops[i]).0
    ensures Answers(cb, ops[..i + 1]) == Answers(cb, ops[..i]) + [Step(cb, After(cb, ops[..i]), ops[i]).1]
    ensures Accounts.Moved(cb, ops[..i + 1]) ==
      Accounts.Moved(cb, ops[..i]) + Accounts.MovedBy(After(cb, ops[..i]), ops[i])
  {
    assert ops[..i + 1][..i] == ops[..i];
  }

  /** The next call of a run. */
  method DoNext(m: NcHashmap, ops: seq<Op>, i: nat) returns (answer: Answer, ghost moved: int)
    requires i < |ops| && m.Valid() && m.Value() == After(m.cb, ops[..i])
    requires Legal(m.cb) && forall j :: 0 <= j < |ops| ==> LegalOp(ops[j])
    requires m.relink.FreshOnly? || AllSafe(m.cb, ops)
    modifies m, m.layout.repr
    ensures m.Valid() && m.cb == old(m.cb) && fresh(m.layout.repr - old(m.layout.repr))
    ensures m.Value() == After(m.cb, ops[..i + 1])
    ensures Answers(m.cb, ops[..i + 1]) == Answers(m.cb, ops[..i]) + [answer]
    ensures Accounts.Moved(m.cb, ops[..i + 1]) == Accounts.Moved(m.cb, ops[..i]) + moved
  {
    RunIsModel(m.cb, ops[..i]);
    RunNext(m.cb, ops, i);
    answer, moved := Do(m, ops[i]);
  }

  /** Any run on a new map, with the intended linking or with every put meeting the guard, answers like the
      mathematical map. Three times the entries its resizes moved is at most four times its fresh puts. */
  method RunOps(m: NcHashmap, ops: seq<Op>) returns (answers: seq<Answer>, ghost moved: int)
    requires m.Valid() && m.Value() == New() && Legal(m.cb) && forall i :: 0 <= i < |ops| ==> LegalOp(ops[i])
    requires m.relink.FreshOnly? || AllSafe(m.cb, ops)
    modifies m, m.layout.repr
    ensures m.Valid() && m.cb == old(m.cb) && m.Value() == After(m.cb, ops)
    ensures answers == Answers(m.cb, ops) == ModelAnswers(m.cb, ops)
    ensures moved == Accounts.Moved(m.cb, ops) && 3 * moved <= 4 * Accounts.FreshPuts(m.cb, ops)
  {
    answers, moved := [], 0;
    for i := 0 to |ops|
      invariant m.Valid() && m.cb == old(m.cb) && fresh(m.layout.repr - old(m.layout.repr))
      invariant m.Value() == After(m.cb, ops[..i]) && answers == Answers(m.cb, ops[..i])
      invariant moved == Accounts.Moved(m.cb, ops[..i])
    {
      var answer;
      ghost var more;
      answer, more := DoNext(m, ops, i);
      answers, moved := answers + [answer], moved + more;
    }
    assert ops[..|ops|] == ops;
    RunIsModel(m.cb, ops);
    Accounts.AmortisedRehash(m.cb, ops);
  }

  lemma CallNext(f: Cleanup, calls: seq<Call>, i: nat)
    requires i < |calls| && Steady(f, calls) && LegalCalls(calls)
    ensures var cb := Seen(f, calls[i].text);
      && Legal(cb) && Inv(cb, CallsAfter(f, calls[..i]))
      && CallsAfter(f, calls[..i + 1]) == Step(cb, CallsAfter(f, calls[..i]), calls[i].op).0
      && CallAnswers(f, calls[..i + 1]) ==
        CallAnswers(f, calls[..i]) + [Step(cb, CallsAfter(f, calls[..i]), calls[i].op).1]
  {
    assert calls[..i + 1][..i] == calls[..i];
    StockCallbacksLegal(calls[i].text, f.keys, f.values);
    SteadyPrefix(f, calls, i);
    CallsRead(f, calls[..i], calls[i].text);
  }

  /** A call, with the callbacks reading the memory it is made in. */
  method DoIn(m: NcHashmap, f: Cleanup, c: Call) returns (answer: Answer)
    requires m.Valid() && Legal(Seen(f, c.text)) && Inv(Seen(f, c.text), m.Value()) && LegalOp(c.op)
    requires c.op.OpPut? ==> m.relink.FreshOnly? || PutSafe(Seen(f, c.text), m.Value(), c.op.k)
    modifies m, m.layout.repr
    ensures m.Valid() && fresh(m.layout.repr - old(m.layout.repr))
    ensures (m.Value(), answer) == Step(Seen(f, c.text), old(m.Value()), c.op)
  {
    m.cb := Seen(f, c.text);
    ghost var moved;
    answer, moved := Do(m, c.op);
  }

  /** The next call of a run. */
  method CallNextIn(m: NcHashmap, f: Cleanup, calls: seq<Call>, i: nat) returns (answer: Answer)
    requires i < |calls| && m.Valid() && m.Value() == CallsAfter(f, calls[..i])
    requires Steady(f, calls) && LegalCalls(calls) && (m.relink.FreshOnly? || CallsSafe(f, calls))
    modifies m, m.layout.repr
    ensures m.Valid() && fresh(m.layout.repr - old(m.layout.repr))
    ensures m.Value() == CallsAfter(f, calls[..i + 1])
    ensures CallAnswers(f, calls[..i + 1]) == CallAnswers(f, calls[..i]) + [answer]
  {
    CallNext(f, calls, i);
    assert m.relink.SourceRule? ==> CallSafe(f, calls, i);
    answer := DoIn(m, f, calls[i]);
  }

  /** Any run on a new map with string keys, while memory changes between the calls, answers like a map
      from strings. */
  method RunCalls(m: NcHashmap, f: Cleanup, calls: seq<Call>) returns (answers: seq<Answer>)
    requires m.Valid() && m.Value() == New() && Steady(f, calls) && LegalCalls(calls)
    requires m.relink.FreshOnly? || CallsSafe(f, calls)
    modifies m, m.layout.repr
    ensures m.Valid() && m.Value() == CallsAfter(f, calls)
    ensures answers == CallAnswers(f, calls) == TextAnswers(calls)
  {
    answers := [];
    for i := 0 to |calls|
      invariant m.Valid() && fresh(m.layout.repr - old(m.layout.repr))
      invariant m.Value() == CallsAfter(f, calls[..i]) && answers == CallAnswers(f, calls[..i])
    {
      var answer := CallNextIn(m, f, calls, i);
      answers := answers + [answer];
    }
    assert calls[..|calls|] == calls;
    StringRun(f, calls);
  }

  // ---------------------------------------------------------------- a pass over a map

  ghost predicate SamePlace(c: Chain, here: nat, there: nat) {
    here == there || NextLive(c, here) == NextLive(c, there) == |c|
  }

  /** The iterator is where the pass is, or neither has anything left. */
  ghost predicate Follows(it: NcHashmapIter, p: Pass)
    reads it, it.owner, it.owner.buckets, it.owner.layout.repr
  {
    && it.Valid() && it.owner.Value() == p.s && PassOk(p)
    && SamePlace(Flat(p.s.table), Position(p.s.table, it.Cursor()), p.at)
  }

  /** nc_hashmap_iter_next is the pass's Next. */
  method NextCall(it: NcHashmapIter, ghost p: Pass) returns (ok: bool, key: Pointer, value: Pointer)
    requires Follows(it, p)
    modifies it
    ensures it.owner == old(it.owner) && Follows(it, React(it.owner.cb, p, Next))
    ensures var r := React(it.owner.cb, p, Next);
      && r.yielded == (if ok then p.yielded + [(key, value)] else p.yielded)
      && r.ended == (p.ended || !ok)
  {
    ok, key, value := it.Next();
  }

  lemma TakeKeepsPlace(cb: Callbacks, p: Pass, here: nat, key: Pointer, remove: bool)
    requires PassOk(p) && SamePlace(Flat(p.s.table), here, p.at)
    ensures SamePlace(Flat(React(cb, p, Take(key, remove)).s.table), here, p.at)
  {
    var c, d := Flat(p.s.table), Flat(React(cb, p, Take(key, remove)).s.table);
    if here != p.at {
      ExhaustedStays(c, d, here);
      ExhaustedStays(c, d, p.at);
    }
  }

  /** nc_hashmap_remove and nc_hashmap_steal are the pass's Take. */
  method TakeCall(it: NcHashmapIter, ghost p: Pass, key: Pointer, remove: bool) returns (ok: bool)
    requires Follows(it, p)
    modifies it.owner, it.owner.layout.repr
    ensures it.owner == old(it.owner) && it.owner.cb == old(it.owner.cb)
    ensures it.owner.layout.repr == old(it.owner.layout.repr)
    ensures Follows(it, React(it.owner.cb, p, Take(key, remove)))
  {
    TakeKeepsPlace(it.owner.cb, p, Position(p.s.table, it.Cursor()), key, remove);
    ok := RemoveDuring(it, key, remove);
  }

  /** Any interleaving of next with removals and steals, on a new iterator, yields what the pass yields and
      leaves the map the pass leaves. */
  method RunPass(it: NcHashmapIter, es: seq<Event>) returns (yielded: seq<Pair>, ended: bool)
    requires it.Valid() && Position(it.owner.layout.table, it.Cursor()) == 0
    modifies it, it.owner, it.owner.layout.repr
    ensures it.owner == old(it.owner) && it.owner.cb == old(it.owner.cb)
    ensures var p := Reacted(it.owner.cb, old(it.owner.Value()), es);
      Follows(it, p) && yielded == p.yielded && ended == p.ended
  {
    ghost var s, cb, m := it.owner.Value(), it.owner.cb, it.owner;
    yielded, ended := [], false;
    for i := 0 to |es|
      invariant it.owner == m && m.cb == cb && m.layout.repr == old(it.owner.layout.repr)
      invariant var p := Reacted(cb, s, es[..i]); Follows(it, p) && yielded == p.yielded && ended == p.ended
    {
      ghost var p := Reacted(cb, s, es[..i]);
      ReactNext(cb, s, es, i);
      match es[i] {
        case Next =>
          var ok, key, value := NextCall(it, p);
          if ok {
            yielded := yielded + [(key, value)];
          } else {
            ended := true;
          }
        case Take(k, remove) =>
          var ok := TakeCall(it, p, k, remove);
      }
    }
    assert es[..|es|] == es;
  }

  /** The loop a caller writes: it ends, and has then met every pair of the map once, in scan order. */
  method Collect(m: NcHashmap) returns (es: seq<Pair>)
    requires m.Valid()
    ensures es == Entries(m.layout.table)
  {
    var it := new NcHashmapIter(m);
    ghost var s, p, n := m.Value(), Pass(m.Value(), 0, [], false), 0;
    ghost var c := Flat(s.table);
    var ok := true;
    es := [];
    while ok
      invariant fresh(it) && it.owner == m && Follows(it, p) && Exact(s, p, n)
      invariant es == p.yielded && (ok <==> !p.ended)
      decreases |c| - p.at, ok
    {
      ExactStep(m.cb, s, p, n);
      var key, value;
      ok, key, value := NextCall(it, p);
      p, n := React(m.cb, p, Next), n + 1;
      if ok {
        es := es + [(key, value)];
      }
    }
    LiveBefore(c, p.at);
    assert c[..|c|] == c;
  }
}
