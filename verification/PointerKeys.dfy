/** With the default callbacks the hashmap is a map from addresses. */
module PointerKeys {
  import opened Callbacks
  import opened States
  import opened Refinement
  import opened StringKeys

  /** A pointer key stands for itself. */
  function Self(p: Pointer): Pointer {
    p
  }

  /** The plain map after a run, and the answers it gives. */
  ghost function PlainAfter(ops: seq<Op>): map<Pointer, Pointer> {
    if ops == [] then map[] else TextStep(Self, PlainAfter(ops[..|ops| - 1]), ops[|ops| - 1]).0
  }

  ghost function PlainAnswers(ops: seq<Op>): seq<Answer> {
    if ops == [] then []
    else
      var front := ops[..|ops| - 1];
      PlainAnswers(front) + [TextStep(Self, PlainAfter(front), ops[|ops| - 1]).1]
  }

  lemma {:induction false} PlainRun(cb: Callbacks, ops: seq<Op>)
    requires ByContent(Self, cb) && forall i :: 0 <= i < |ops| ==> LegalOp(ops[i])
    ensures ModelAnswers(cb, ops) == PlainAnswers(ops)
    ensures Shows(Self, ModelAfter(cb, ops), PlainAfter(ops))
  {
    if ops != [] {
      var front := ops[..|ops| - 1];
      PlainRun(cb, front);
      TextStepAgrees(Self, cb, ModelAfter(cb, front), PlainAfter(front), ops[|ops| - 1]);
    }
  }

  lemma ShowsSelf(m: Model, t: map<Pointer, Pointer>)
    requires Shows(Self, m, t)
    ensures m == t
  {
    forall k | k in t
      ensures k in m
    {
      assert Carried(Self, m, k);
    }
    assert m.Keys == t.Keys;
  }

  /** For every run under the default callbacks the answers are those of a plain map from addresses, with
      the textbook update and deletion, and the table holds exactly its bindings. */
  lemma {:induction false} PointerRun(cb: Callbacks, ops: seq<Op>)
    requires cb == SimpleCallbacks(cb.keyFree, cb.valueFree)
    requires forall i :: 0 <= i < |ops| ==> LegalOp(ops[i])
    ensures Answers(cb, ops) == PlainAnswers(ops)
    ensures Represents(After(cb, ops), PlainAfter(ops)) && After(cb, ops).size == |PlainAfter(ops)|
  {
    StockCallbacksLegal(p => [], cb.keyFree, cb.valueFree);
    RunIsModel(cb, ops);
    PlainRun(cb, ops);
    ShowsSelf(ModelAfter(cb, ops), PlainAfter(ops));
  }
}
