/** The hashmap behaves as a mathematical map, for every run of its operations. */
module Refinement {
  import opened Callbacks
  import opened Chains
  import opened Tables
  import opened States

  /** The map's meaning: each stored key pointer with its value. */
  type Model = map<Pointer, Pointer>

  /** The table holds exactly the bindings of m, each once. */
  ghost predicate Represents(s: State, m: Model) {
    multiset(Entries(s.table)) == multiset(m.Items)
  }

  ghost predicate Has(cb: Callbacks, m: Model, k: Pointer) {
    exists k' :: k' in m && cb.compare(k', k)
  }

  /** The value bound to a key equal to k, or NULL. */
  ghost function ValueOf(cb: Callbacks, m: Model, k: Pointer): Pointer {
    if Has(cb, m, k) then
      var k' :| k' in m && cb.compare(k', k); m[k']
    else NULL
  }

  ghost function Without(cb: Callbacks, m: Model, k: Pointer): Model {
    map k' | k' in m && !cb.compare(k', k) :: m[k']
  }

  // ---------------------------------------------------------------- operations and runs

  /** A call; OpRemove is `remove` or, with the flag false, `steal`. */
  datatype Op =
    | OpPut(k: Pointer, v: Pointer)
    | OpGet(k: Pointer)
    | OpContains(k: Pointer)
    | OpRemove(k: Pointer, remove: bool)
    | OpSize

  datatype Answer = Truth(b: bool) | Address(p: Pointer) | Count(n: int)

  ghost predicate LegalOp(op: Op) {
    op.OpSize? || op.k != NULL
  }

  function Step(cb: Callbacks, s: State, op: Op): (State, Answer)
    requires |s.table| > 0
  {
    match op
    case OpPut(k, v) => (Put(cb, s, k, v), Truth(true))
    case OpGet(k) => (s, Address(Get(cb, s, k)))
    case OpContains(k) => (s, Truth(Get(cb, s, k) != NULL))
    case OpRemove(k, remove) => var r := Remove(cb, s, k, remove); (r.0, Truth(r.1))
    case OpSize => (s, Count(s.size))
  }

  ghost function ModelStep(cb: Callbacks, m: Model, op: Op): (Model, Answer) {
    match op
    case OpPut(k, v) => (Without(cb, m, k)[k := v], Truth(true))
    case OpGet(k) => (m, Address(ValueOf(cb, m, k)))
    case OpContains(k) => (m, Truth(ValueOf(cb, m, k) != NULL))
    case OpRemove(k, _) => (Without(cb, m, k), Truth(Has(cb, m, k)))
    case OpSize => (m, Count(|m|))
  }

  /** The state a new map is in after a run, and what each call returned. */
  function After(cb: Callbacks, ops: seq<Op>): (s: State)
    ensures |s.table| > 0
  {
    if ops == [] then New() else Step(cb, After(cb, ops[..|ops| - 1]), ops[|ops| - 1]).0
  }

  function Answers(cb: Callbacks, ops: seq<Op>): seq<Answer> {
    if ops == [] then []
    else
      var front := ops[..|ops| - 1];
      Answers(cb, front) + [Step(cb, After(cb, front), ops[|ops| - 1]).1]
  }

  ghost function ModelAfter(cb: Callbacks, ops: seq<Op>): Model {
    if ops == [] then map[] else ModelStep(cb, ModelAfter(cb, ops[..|ops| - 1]), ops[|ops| - 1]).0
  }

  ghost function ModelAnswers(cb: Callbacks, ops: seq<Op>): seq<Answer> {
    if ops == [] then []
    else
      var front := ops[..|ops| - 1];
      ModelAnswers(cb, front) + [ModelStep(cb, ModelAfter(cb, front), ops[|ops| - 1]).1]
  }

  // ---------------------------------------------------------------- one step

  lemma ItemIsEntry(s: State, m: Model, p: Pair)
    requires Represents(s, m)
    ensures p in Entries(s.table) <==> p.0 in m && m[p.0] == p.1
  {
    assert p in Entries(s.table) <==> p in multiset(Entries(s.table));
    assert p in m.Items <==> p in multiset(m.Items);
  }

  lemma OneKey(cb: Callbacks, t: Table, p: Pair, q: Pair, k: Pointer)
    requires Legal(cb) && Shaped(cb, t) && k != NULL
    requires p in Entries(t) && q in Entries(t)
    requires cb.compare(p.0, k) && cb.compare(q.0, k)
    ensures p == q
  {
    EntriesDistinct(cb, t);
    var es := Entries(t);
    var i :| 0 <= i < |es| && es[i] == p;
    var j :| 0 <= j < |es| && es[j] == q;
    LegalAt(cb, es, i);
    LegalAt(cb, es, j);
    assert cb.compare(k, p.0) && cb.compare(k, q.0);
    assert cb.compare(p.0, q.0) && cb.compare(q.0, p.0);
    if i < j {
      DistinctAt(cb, es, i, j);
    } else if j < i {
      DistinctAt(cb, es, j, i);
    }
  }

  /** The stored key equal to k is the only one, and the lookup finds it. */
  lemma LookupIsModel(cb: Callbacks, s: State, m: Model, k: Pointer)
    requires Legal(cb) && Inv(cb, s) && Represents(s, m) && k != NULL
    ensures Lookup(cb, s.table, k).Live? <==> Has(cb, m, k)
    ensures Lookup(cb, s.table, k).Live? ==>
      var l := Lookup(cb, s.table, k);
      l.key in m && m[l.key] == l.value && cb.compare(l.key, k)
      && forall k' :: k' in m && cb.compare(k', k) ==> k' == l.key
  {
    LookupMeaning(cb, s.table, k);
    var l := Lookup(cb, s.table, k);
    if l.Live? {
      ItemIsEntry(s, m, (l.key, l.value));
      forall k' | k' in m && cb.compare(k', k)
        ensures k' == l.key
      {
        ItemIsEntry(s, m, (k', m[k']));
        OneKey(cb, s.table, (l.key, l.value), (k', m[k']), k);
      }
    } else {
      forall k' | k' in m
        ensures !cb.compare(k', k)
      {
        ItemIsEntry(s, m, (k', m[k']));
      }
    }
  }

  lemma WithoutItems(cb: Callbacks, s: State, m: Model, k: Pointer)
    requires Legal(cb) && Inv(cb, s) && Represents(s, m) && k != NULL
    ensures multiset(Without(cb, m, k).Items) + multiset(PairOf(Lookup(cb, s.table, k))) == multiset(m.Items)
  {
    LookupIsModel(cb, s, m, k);
    var l := Lookup(cb, s.table, k);
    forall p: Pair
      ensures (multiset(Without(cb, m, k).Items) + multiset(PairOf(l)))[p] == multiset(m.Items)[p]
    {
      assert p in m.Items <==> p.0 in m && m[p.0] == p.1;
      assert p in Without(cb, m, k).Items <==> p in m.Items && !cb.compare(p.0, k);
    }
  }

  lemma GetIsModel(cb: Callbacks, s: State, m: Model, k: Pointer)
    requires Legal(cb) && Inv(cb, s) && Represents(s, m) && k != NULL
    ensures Get(cb, s, k) == ValueOf(cb, m, k)
  {
    EntryIsLookup(cb, s, k);
    LookupIsModel(cb, s, m, k);
  }

  lemma Cancel(a: multiset<Pair>, b: multiset<Pair>, o: multiset<Pair>)
    requires a + o == b + o
    ensures a == b
  {
    forall p: Pair
      ensures a[p] == b[p]
    {
      assert (a + o)[p] == (b + o)[p];
    }
  }

  lemma SamePairs(a: multiset<Pair>, b: multiset<Pair>)
    requires forall p: Pair :: a[p] == b[p]
    ensures a == b
  {
  }

  lemma NewItem(m: Model, k: Pointer, v: Pointer)
    requires k !in m
    ensures multiset(m[k := v].Items) == multiset(m.Items) + multiset{(k, v)}
  {
    var a, b := multiset(m[k := v].Items), multiset(m.Items) + multiset{(k, v)};
    forall p: Pair
      ensures a[p] == b[p]
    {
      assert p in m[k := v].Items <==> p in m.Items || p == (k, v);
    }
    SamePairs(a, b);
  }

  lemma RemoveIsModel(cb: Callbacks, s: State, m: Model, k: Pointer, remove: bool)
    requires Legal(cb) && Inv(cb, s) && Represents(s, m) && k != NULL
    ensures Inv(cb, Remove(cb, s, k, remove).0)
    ensures Represents(Remove(cb, s, k, remove).0, Without(cb, m, k))
    ensures Remove(cb, s, k, remove).1 == Has(cb, m, k)
  {
    RemoveInv(cb, s, k, remove);
    RemoveEntries(cb, s, k, remove);
    LookupIsModel(cb, s, m, k);
    WithoutItems(cb, s, m, k);
    Cancel(multiset(Entries(Remove(cb, s, k, remove).0.table)), multiset(Without(cb, m, k).Items),
      multiset(PairOf(Lookup(cb, s.table, k))));
  }

  lemma InsertIsModel(cb: Callbacks, s: State, m: Model, k: Pointer, v: Pointer)
    requires Legal(cb) && Inv(cb, s) && Represents(s, m) && k != NULL
    ensures Represents(Insert(cb, s, k, v), Without(cb, m, k)[k := v])
  {
    PutRowEntries(cb, s.table, k, v);
    WithoutItems(cb, s, m, k);
    var w := Without(cb, m, k);
    assert k !in w;
    NewItem(w, k, v);
    Cancel(multiset(Entries(PutRow(cb, s.table, k, v))), multiset(w[k := v].Items),
      multiset(PairOf(Lookup(cb, s.table, k))));
  }

  lemma PutIsModel(cb: Callbacks, s: State, m: Model, k: Pointer, v: Pointer)
    requires Legal(cb) && Inv(cb, s) && Represents(s, m) && k != NULL
    ensures Inv(cb, Put(cb, s, k, v))
    ensures Represents(Put(cb, s, k, v), Without(cb, m, k)[k := v])
  {
    PutInv(cb, s, k, v);
    GrownKeeps(cb, s);
    InsertIsModel(cb, Grown(cb, s), m, k, v);
  }

  lemma SizeIsModel(cb: Callbacks, s: State, m: Model)
    requires Inv(cb, s) && Represents(s, m)
    ensures s.size == |m|
  {
    assert |multiset(Entries(s.table))| == |multiset(m.Items)|;
    assert |m.Items| == |m|;
  }

  /** One call, from related states: related states again and the same answer. */
  lemma StepIsModel(cb: Callbacks, s: State, m: Model, op: Op)
    requires Legal(cb) && Inv(cb, s) && Represents(s, m) && LegalOp(op)
    ensures Inv(cb, Step(cb, s, op).0)
    ensures Represents(Step(cb, s, op).0, ModelStep(cb, m, op).0)
    ensures Step(cb, s, op).1 == ModelStep(cb, m, op).1
  {
    match op
    case OpPut(k, v) => PutIsModel(cb, s, m, k, v);
    case OpGet(k) => GetIsModel(cb, s, m, k);
    case OpContains(k) => GetIsModel(cb, s, m, k);
    case OpRemove(k, remove) => RemoveIsModel(cb, s, m, k, remove);
    case OpSize => SizeIsModel(cb, s, m);
  }

  // ---------------------------------------------------------------- every run

  /** For every run of legal calls on a new map: the table represents the mathematical map the calls
      build, every answer is that map's answer, and the invariant (shape, placement, uniqueness, size,
      capacity and load) holds at the end. */
  lemma {:induction false} RunIsModel(cb: Callbacks, ops: seq<Op>)
    requires Legal(cb) && forall i :: 0 <= i < |ops| ==> LegalOp(ops[i])
    ensures Inv(cb, After(cb, ops))
    ensures Represents(After(cb, ops), ModelAfter(cb, ops))
    ensures Answers(cb, ops) == ModelAnswers(cb, ops)
    ensures After(cb, ops).size == |ModelAfter(cb, ops)|
  {
    if ops == [] {
      NewInv(cb);
    } else {
      var front, op := ops[..|ops| - 1], ops[|ops| - 1];
      RunIsModel(cb, front);
      StepIsModel(cb, After(cb, front), ModelAfter(cb, front), op);
    }
    SizeIsModel(cb, After(cb, ops), ModelAfter(cb, ops));
  }
}
