/** With string keys the hashmap is a map from string contents: what the INI parser relies on. Each call
    sees the memory of its moment; an address may carry other strings later, once the map no longer holds it. */
module StringKeys {
  import opened Callbacks
  import opened Tables
  import opened States
  import opened Refinement
  import Relinking
  import opened Options

  type Texts<S> = map<S, Pointer>

  /** For any legal key, the comparison is equality of what the keys carry. */
  ghost predicate ByContent<S(!new)>(text: Pointer -> S, cb: Callbacks) {
    forall l: Pointer, r: Pointer :: r != NULL ==> (cb.compare(l, r) <==> l != NULL && text(l) == text(r))
  }

  ghost predicate Carried<S(!new)>(text: Pointer -> S, m: Model, s: S) {
    exists k :: k in m && text(k) == s
  }

  /** t is m seen through the strings its keys carry: no two keys carry the same one. */
  ghost predicate Shows<S(!new)>(text: Pointer -> S, m: Model, t: Texts<S>) {
    && |m| == |t|
    && (forall k :: k in m ==> k != NULL && text(k) in t && t[text(k)] == m[k])
    && (forall a, b :: a in m && b in m && text(a) == text(b) ==> a == b)
    && (forall s :: s in t ==> Carried(text, m, s))
  }

  /** The textbook operations on a map from strings. */
  ghost function TextStep<S(!new)>(text: Pointer -> S, m: Texts<S>, op: Op): (Texts<S>, Answer) {
    match op
    case OpPut(k, v) => (m[text(k) := v], Truth(true))
    case OpGet(k) => (m, Address(if text(k) in m then m[text(k)] else NULL))
    case OpContains(k) => (m, Truth(text(k) in m && m[text(k)] != NULL))
    case OpRemove(k, _) => (m - {text(k)}, Truth(text(k) in m))
    case OpSize => (m, Count(|m|))
  }

  lemma HasIsIn<S(!new)>(text: Pointer -> S, cb: Callbacks, m: Model, t: Texts<S>, k: Pointer)
    requires Shows(text, m, t) && k != NULL && ByContent(text, cb)
    ensures Has(cb, m, k) <==> text(k) in t
    ensures Has(cb, m, k) ==> ValueOf(cb, m, k) == t[text(k)]
  {
    if text(k) in t {
      assert Carried(text, m, text(k));
      var k' :| k' in m && text(k') == text(k);
      assert cb.compare(k', k);
    }
  }

  lemma StillCarried<S(!new)>(text: Pointer -> S, m: Model, m': Model, s: S)
    requires Carried(text, m, s) && forall k :: k in m && text(k) == s ==> k in m'
    ensures Carried(text, m', s)
  {
  }

  lemma OneLess<K, V>(m: map<K, V>, k: K)
    requires k in m
    ensures |m - {k}| == |m| - 1
  {
    assert (m - {k}).Keys == m.Keys - {k};
  }

  lemma DeleteOne<S(!new)>(text: Pointer -> S, m: Model, t: Texts<S>, k: Pointer)
    requires Shows(text, m, t) && k in m
    ensures Shows(text, m - {k}, t - {text(k)})
  {
    OneLess(m, k);
    OneLess(t, text(k));
    forall s | s in t - {text(k)}
      ensures Carried(text, m - {k}, s)
    {
      StillCarried(text, m, m - {k}, s);
    }
  }

  lemma WithoutOne<S(!new)>(text: Pointer -> S, cb: Callbacks, m: Model, k: Pointer, k': Pointer)
    requires k != NULL && ByContent(text, cb)
    requires forall a :: a in m ==> (a != NULL && text(a) == text(k) <==> a == k')
    ensures Without(cb, m, k) == m - {k'}
  {
    assert forall a :: a in m ==> (cb.compare(a, k) <==> a == k');
  }

  lemma DeleteNone<K, V>(m: map<K, V>, k: K)
    requires k !in m
    ensures m - {k} == m
  {
  }

  lemma WithoutIsDeletion<S(!new)>(text: Pointer -> S, cb: Callbacks, m: Model, t: Texts<S>, k: Pointer)
    requires Shows(text, m, t) && k != NULL && ByContent(text, cb)
    ensures Shows(text, Without(cb, m, k), t - {text(k)})
  {
    if text(k) in t {
      assert Carried(text, m, text(k));
      var k' :| k' in m && text(k') == text(k);
      WithoutOne(text, cb, m, k, k');
      DeleteOne(text, m, t, k');
    } else {
      WithoutOne(text, cb, m, k, NULL);
      DeleteNone(m, NULL);
      DeleteNone(t, text(k));
    }
  }

  lemma PutIsUpdate<S(!new)>(text: Pointer -> S, m: Model, t: Texts<S>, k: Pointer, v: Pointer)
    requires Shows(text, m, t) && k != NULL && text(k) !in t
    ensures Shows(text, m[k := v], t[text(k) := v])
  {
    var m' := m[k := v];
    assert k in m' && Carried(text, m', text(k));
    forall s | s in t
      ensures Carried(text, m', s)
    {
      StillCarried(text, m, m', s);
    }
    assert k !in m;
  }

  lemma Overwrite<S>(t: Texts<S>, s: S, v: Pointer)
    ensures (t - {s})[s := v] == t[s := v]
  {
  }

  lemma PutAgrees<S(!new)>(text: Pointer -> S, cb: Callbacks, m: Model, t: Texts<S>, k: Pointer, v: Pointer)
    requires Shows(text, m, t) && k != NULL && ByContent(text, cb)
    ensures Shows(text, Without(cb, m, k)[k := v], t[text(k) := v])
  {
    WithoutIsDeletion(text, cb, m, t, k);
    PutIsUpdate(text, Without(cb, m, k), t - {text(k)}, k, v);
    Overwrite(t, text(k), v);
  }

  lemma RemoveAgrees<S(!new)>(text: Pointer -> S, cb: Callbacks, m: Model, t: Texts<S>, k: Pointer)
    requires Shows(text, m, t) && k != NULL && ByContent(text, cb)
    ensures Shows(text, Without(cb, m, k), t - {text(k)})
    ensures Has(cb, m, k) <==> text(k) in t
  {
    WithoutIsDeletion(text, cb, m, t, k);
    HasIsIn(text, cb, m, t, k);
  }

  /** One call on the model, seen through the strings. */
  lemma TextStepAgrees<S(!new)>(text: Pointer -> S, cb: Callbacks, m: Model, t: Texts<S>, op: Op)
    requires Shows(text, m, t) && LegalOp(op) && ByContent(text, cb)
    ensures Shows(text, ModelStep(cb, m, op).0, TextStep(text, t, op).0)
    ensures ModelStep(cb, m, op).1 == TextStep(text, t, op).1
  {
    match op
    case OpPut(k, v) => PutAgrees(text, cb, m, t, k, v);
    case OpGet(k) => HasIsIn(text, cb, m, t, k);
    case OpContains(k) => HasIsIn(text, cb, m, t, k);
    case OpRemove(k, _) => RemoveAgrees(text, cb, m, t, k);
    case OpSize =>
  }

  // ---------------------------------------------------------------- runs

  /** What the string pointers point at. */
  type Memory = Pointer -> CString

  /** A call and the memory it is made in. */
  datatype Call = Call(text: Memory, op: Op)

  /** Which cleanup callbacks the map has. */
  datatype Cleanup = Cleanup(keys: bool, values: bool)

  function Seen(f: Cleanup, text: Memory): Callbacks {
    StringCallbacks(text, f.keys, f.values)
  }

  function CallsAfter(f: Cleanup, calls: seq<Call>): (s: State)
    ensures |s.table| > 0
  {
    if calls == [] then New()
    else
      var c := calls[|calls| - 1];
      Step(Seen(f, c.text), CallsAfter(f, calls[..|calls| - 1]), c.op).0
  }

  function CallAnswers(f: Cleanup, calls: seq<Call>): seq<Answer> {
    if calls == [] then []
    else
      var front, c := calls[..|calls| - 1], calls[|calls| - 1];
      CallAnswers(f, front) + [Step(Seen(f, c.text), CallsAfter(f, front), c.op).1]
  }

  ghost function TextAfter(calls: seq<Call>): Texts<CString> {
    if calls == [] then map[]
    else
      var c := calls[|calls| - 1];
      TextStep(c.text, TextAfter(calls[..|calls| - 1]), c.op).0
  }

  ghost function TextAnswers(calls: seq<Call>): seq<Answer> {
    if calls == [] then []
    else
      var front, c := calls[..|calls| - 1], calls[|calls| - 1];
      TextAnswers(front) + [TextStep(c.text, TextAfter(front), c.op).1]
  }

  /** The keys the map holds carry the same strings in both memories. */
  ghost predicate Kept(s: State, text: Memory, text': Memory) {
    forall e :: e in Entries(s.table) ==> text(e.0) == text'(e.0)
  }

  ghost predicate SteadyAt(f: Cleanup, calls: seq<Call>, i: nat)
    requires 0 < i < |calls|
  {
    Kept(CallsAfter(f, calls[..i]), calls[i - 1].text, calls[i].text)
  }

  /** From one call to the next nobody rewrites a key while the map holds it. Everything else may change:
      buffers passed to lookups, and keys that the map has given back or had freed. */
  ghost predicate Steady(f: Cleanup, calls: seq<Call>) {
    forall i :: 0 < i < |calls| ==> SteadyAt(f, calls, i)
  }

  ghost predicate LegalCalls(calls: seq<Call>) {
    forall i :: 0 <= i < |calls| ==> LegalOp(calls[i].op)
  }

  /** The last memory of a run, or any for an empty one, keeps the keys held at its end. */
  ghost predicate KeptSince(f: Cleanup, calls: seq<Call>, text: Memory) {
    calls != [] ==> Kept(CallsAfter(f, calls), calls[|calls| - 1].text, text)
  }

  lemma SteadyPrefix(f: Cleanup, calls: seq<Call>, i: nat)
    requires i < |calls| && Steady(f, calls)
    ensures Steady(f, calls[..i])
    ensures KeptSince(f, calls[..i], calls[i].text)
  {
    forall j | 0 < j < i
      ensures SteadyAt(f, calls[..i], j)
    {
      assert SteadyAt(f, calls, j) && calls[..i][..j] == calls[..j];
    }
    assert i > 0 ==> SteadyAt(f, calls, i);
  }

  /** In this memory the state is sound and shows the map t. */
  ghost predicate Reads(f: Cleanup, text: Memory, s: State, t: Texts<CString>) {
    Inv(Seen(f, text), s) && exists m: Model :: Represents(s, m) && Shows(text, m, t)
  }

  lemma ShapeKept(f: Cleanup, s: State, text: Memory, text': Memory)
    requires Inv(Seen(f, text), s) && Kept(s, text, text')
    ensures Inv(Seen(f, text'), s)
  {
    forall i, j | 0 <= i < |s.table| && 0 <= j < |s.table[i]| && s.table[i][j].Live?
      ensures text(s.table[i][j].key) == text'(s.table[i][j].key)
    {
      var l := s.table[i][j];
      assert l in s.table[i];
      EntriesMember(s.table, (l.key, l.value));
    }
  }

  lemma ShowsKept(m: Model, t: Texts<CString>, text: Memory, text': Memory)
    requires Shows(text, m, t) && forall k :: k in m ==> text(k) == text'(k)
    ensures Shows(text', m, t)
  {
    forall w | w in t
      ensures Carried(text', m, w)
    {
      assert Carried(text, m, w);
    }
  }

  lemma ReadsKept(f: Cleanup, s: State, t: Texts<CString>, text: Memory, text': Memory)
    requires Reads(f, text, s, t) && Kept(s, text, text')
    ensures Reads(f, text', s, t)
  {
    ShapeKept(f, s, text, text');
    var m: Model :| Represents(s, m) && Shows(text, m, t);
    forall k | k in m
      ensures text(k) == text'(k)
    {
      ItemIsEntry(s, m, (k, m[k]));
    }
    ShowsKept(m, t, text, text');
  }

  lemma ReadsStep(f: Cleanup, text: Memory, s: State, t: Texts<CString>, op: Op)
    requires Reads(f, text, s, t) && LegalOp(op)
    ensures Reads(f, text, Step(Seen(f, text), s, op).0, TextStep(text, t, op).0)
    ensures Step(Seen(f, text), s, op).1 == TextStep(text, t, op).1
  {
    var cb := Seen(f, text);
    var m: Model :| Represents(s, m) && Shows(text, m, t);
    StockCallbacksLegal(text, f.keys, f.values);
    StepIsModel(cb, s, m, op);
    TextStepAgrees(text, cb, m, t, op);
  }

  lemma ReadsCall(f: Cleanup, s: State, t: Texts<CString>, c: Call, text: Memory)
    requires Reads(f, c.text, s, t) && LegalOp(c.op)
    requires Kept(Step(Seen(f, c.text), s, c.op).0, c.text, text)
    ensures Reads(f, text, Step(Seen(f, c.text), s, c.op).0, TextStep(c.text, t, c.op).0)
    ensures Step(Seen(f, c.text), s, c.op).1 == TextStep(c.text, t, c.op).1
  {
    ReadsStep(f, c.text, s, t, c.op);
    ReadsKept(f, Step(Seen(f, c.text), s, c.op).0, TextStep(c.text, t, c.op).0, c.text, text);
  }

  lemma ReadsNew(f: Cleanup, text: Memory)
    ensures Reads(f, text, New(), map[])
  {
    NewInv(Seen(f, text));
    assert Represents(New(), map[]) && Shows(text, map[], map[]);
  }

  /** The calls have gone as on a plain map, which the memory `text` still shows. */
  ghost predicate Agree(f: Cleanup, calls: seq<Call>, text: Memory) {
    && Reads(f, text, CallsAfter(f, calls), TextAfter(calls))
    && CallAnswers(f, calls) == TextAnswers(calls)
  }

  lemma AgreeNew(f: Cleanup, text: Memory)
    ensures Agree(f, [], text)
  {
    ReadsNew(f, text);
  }

  lemma AgreeNext(f: Cleanup, calls: seq<Call>, text: Memory)
    requires calls != [] && LegalOp(calls[|calls| - 1].op)
    requires Agree(f, calls[..|calls| - 1], calls[|calls| - 1].text)
    requires KeptSince(f, calls, text)
    ensures Agree(f, calls, text)
  {
    var front, c := calls[..|calls| - 1], calls[|calls| - 1];
    ReadsCall(f, CallsAfter(f, front), TextAfter(front), c, text);
  }

  lemma {:induction false} CallsRead(f: Cleanup, calls: seq<Call>, text: Memory)
    requires Steady(f, calls) && LegalCalls(calls) && KeptSince(f, calls, text)
    ensures Agree(f, calls, text)
  {
    if calls == [] {
      AgreeNew(f, text);
    } else {
      SteadyPrefix(f, calls, |calls| - 1);
      CallsRead(f, calls[..|calls| - 1], calls[|calls| - 1].text);
      AgreeNext(f, calls, text);
    }
  }

  /** For every run over string keys, whatever pointers carry the strings and however memory changes off
      the held keys, the answers are those of a plain map from strings with the textbook update and
      deletion, and the table shows that map. */
  lemma StringRun(f: Cleanup, calls: seq<Call>)
    requires Steady(f, calls) && LegalCalls(calls)
    ensures CallAnswers(f, calls) == TextAnswers(calls)
    ensures calls != [] ==> Reads(f, calls[|calls| - 1].text, CallsAfter(f, calls), TextAfter(calls))
  {
    if calls != [] {
      CallsRead(f, calls, calls[|calls| - 1].text);
    }
  }

  // ---------------------------------------------------------------- the code as written

  function CallsAsWritten(f: Cleanup, calls: seq<Call>): (r: Option<State>)
    ensures r.Some? ==> |r.value.table| > 0
  {
    if calls == [] then Some(New())
    else
      var c := calls[|calls| - 1];
      match CallsAsWritten(f, calls[..|calls| - 1])
      case None => None
      case Some(s) => Relinking.StepAsWritten(Seen(f, c.text), s, c.op)
  }

  ghost predicate CallSafe(f: Cleanup, calls: seq<Call>, i: nat)
    requires i < |calls|
  {
    var c := calls[i];
    c.op.OpPut? ==> Relinking.PutSafe(Seen(f, c.text), CallsAfter(f, calls[..i]), c.op.k)
  }

  /** Every put meets the guard of Relinking. */
  ghost predicate CallsSafe(f: Cleanup, calls: seq<Call>) {
    forall i :: 0 <= i < |calls| ==> CallSafe(f, calls, i)
  }

  lemma SafeInFront(f: Cleanup, front: seq<Call>, calls: seq<Call>, i: nat)
    requires front <= calls && i < |front|
    ensures CallSafe(f, front, i) <==> CallSafe(f, calls, i)
  {
    assert front[..i] == calls[..i];
  }

  lemma SafeCallsSnoc(f: Cleanup, calls: seq<Call>)
    requires calls != []
    ensures CallsSafe(f, calls) <==> CallsSafe(f, calls[..|calls| - 1]) && CallSafe(f, calls, |calls| - 1)
  {
    var front := calls[..|calls| - 1];
    forall i | 0 <= i < |front|
      ensures CallSafe(f, front, i) <==> CallSafe(f, calls, i)
    {
      SafeInFront(f, front, calls, i);
    }
  }

  /** The code as written closes no circle exactly when every put meets the guard, and then it goes through
      the intended states. */
  lemma {:induction false} CallsAsWrittenExact(f: Cleanup, calls: seq<Call>)
    ensures CallsSafe(f, calls) <==> CallsAsWritten(f, calls).Some?
    ensures CallsSafe(f, calls) ==> CallsAsWritten(f, calls) == Some(CallsAfter(f, calls))
  {
    if calls != [] {
      var front, c := calls[..|calls| - 1], calls[|calls| - 1];
      CallsAsWrittenExact(f, front);
      SafeCallsSnoc(f, calls);
      if c.op.OpPut? {
        Relinking.PutAsWrittenExact(Seen(f, c.text), CallsAfter(f, front), c.op.k, c.op.v);
      }
    }
  }

  ghost predicate NoRemovalCalls(calls: seq<Call>) {
    forall i :: 0 <= i < |calls| ==> !calls[i].op.OpRemove?
  }

  lemma {:induction false} RemovalFreeCalls(f: Cleanup, calls: seq<Call>)
    requires NoRemovalCalls(calls)
    ensures Relinking.Compact(CallsAfter(f, calls).table) && CallsSafe(f, calls)
  {
    if calls != [] {
      var front, c := calls[..|calls| - 1], calls[|calls| - 1];
      RemovalFreeCalls(f, front);
      SafeCallsSnoc(f, calls);
      Relinking.CompactStep(Seen(f, c.text), CallsAfter(f, front), c.op);
    }
  }

  /** What the INI parser rests on: without removals the code as written, relinking included, goes through
      these states and gives these answers. */
  lemma ParserMap(f: Cleanup, calls: seq<Call>)
    requires Steady(f, calls) && LegalCalls(calls) && NoRemovalCalls(calls)
    ensures CallsSafe(f, calls) && CallsAsWritten(f, calls) == Some(CallsAfter(f, calls))
    ensures CallAnswers(f, calls) == TextAnswers(calls)
    ensures calls != [] ==> Reads(f, calls[|calls| - 1].text, CallsAfter(f, calls), TextAfter(calls))
  {
    RemovalFreeCalls(f, calls);
    CallsAsWrittenExact(f, calls);
    StringRun(f, calls);
  }

  // ---------------------------------------------------------------- one memory

  function InMemory(text: Memory, ops: seq<Op>): (calls: seq<Call>)
    ensures |calls| == |ops| && forall i :: 0 <= i < |ops| ==> calls[i] == Call(text, ops[i])
  {
    seq(|ops|, i requires 0 <= i < |ops| => Call(text, ops[i]))
  }

  lemma {:induction false} SameRun(f: Cleanup, text: Memory, ops: seq<Op>)
    ensures CallsAfter(f, InMemory(text, ops)) == After(Seen(f, text), ops)
    ensures CallAnswers(f, InMemory(text, ops)) == Answers(Seen(f, text), ops)
  {
    if ops != [] {
      var calls := InMemory(text, ops);
      SameRun(f, text, ops[..|ops| - 1]);
      assert calls[..|ops| - 1] == InMemory(text, ops[..|ops| - 1]);
    }
  }

  lemma {:induction false} SteadyMemory(f: Cleanup, text: Memory, ops: seq<Op>)
    ensures Steady(f, InMemory(text, ops))
  {
  }

  /** When memory never changes, these are the runs of Refinement. */
  lemma {:induction false} OneMemory(f: Cleanup, text: Memory, ops: seq<Op>)
    requires forall i :: 0 <= i < |ops| ==> LegalOp(ops[i])
    ensures Answers(Seen(f, text), ops) == TextAnswers(InMemory(text, ops))
    ensures Reads(f, text, After(Seen(f, text), ops), TextAfter(InMemory(text, ops)))
  {
    SameRun(f, text, ops);
    SteadyMemory(f, text, ops);
    CallsRead(f, InMemory(text, ops), text);
  }
}
