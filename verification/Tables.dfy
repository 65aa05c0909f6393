/** The bucket array as a value: a sequence of chains, with the invariant that makes it a map. */
module Tables {
  import opened Callbacks
  import opened Chains

  type Table = seq<Chain>

  /** A freshly allocated array: every inline head is free. */
  function Empty(n: nat): Table {
    seq(n, _ => [Vacant])
  }

  function Row(cb: Callbacks, t: Table, k: Pointer): nat
    requires |t| > 0
  {
    cb.hash(k) % |t|
  }

  /** The entry a legal key is found in, or Vacant. */
  function Lookup(cb: Callbacks, t: Table, k: Pointer): Slot
    requires |t| > 0
  {
    Found(cb, t[Row(cb, t, k)], k)
  }

  function PutRow(cb: Callbacks, t: Table, k: Pointer, v: Pointer): Table
    requires |t| > 0
  {
    var b := Row(cb, t, k);
    t[b := ChainPut(cb, t[b], k, v)]
  }

  /** All entries, bucket after bucket. */
  function Flat(t: Table): Chain {
    if t == [] then [] else Flat(t[..|t| - 1]) + t[|t| - 1]
  }

  /** The occupied pairs in scan order. */
  function Entries(t: Table): seq<Pair> {
    LivePairs(Flat(t))
  }

  ghost predicate Placed(cb: Callbacks, t: Table) {
    forall i, j :: 0 <= i < |t| && 0 <= j < |t[i]| && t[i][j].Live? ==>
      t[i][j].key != NULL && cb.hash(t[i][j].key) % |t| == i
  }

  /** Every bucket has its head; occupied keys are legal, sit in the bucket of their hash, and differ
      from each other within the bucket. */
  ghost predicate Shaped(cb: Callbacks, t: Table) {
    && |t| > 0
    && (forall i :: 0 <= i < |t| ==> |t[i]| >= 1)
    && Placed(cb, t)
    && (forall i :: 0 <= i < |t| ==> DistinctSlots(cb, t[i]))
  }

  lemma {:induction false} FlatConcat(a: Table, b: Table)
    ensures Flat(a + b) == Flat(a) + Flat(b)
  {
    if b == [] {
      assert a + b == a;
    } else {
      var front, last := b[..|b| - 1], b[|b| - 1];
      assert (a + b)[..|a + b| - 1] == a + front && (a + b)[|a + b| - 1] == last;
      FlatConcat(a, front);
      assert Flat(a) + Flat(front) + last == Flat(a) + (Flat(front) + last);
    }
  }

  lemma FlatSplit(t: Table, b: nat, c: Chain)
    requires b < |t|
    ensures Flat(t[b := c]) == Flat(t[..b]) + c + Flat(t[b + 1..])
  {
    assert t[b := c] == (t[..b] + [c]) + t[b + 1..];
    FlatConcat(t[..b] + [c], t[b + 1..]);
    assert (t[..b] + [c])[..b] == t[..b];
  }

  lemma EntriesSplit(t: Table, b: nat)
    requires b < |t|
    ensures Entries(t) == Entries(t[..b]) + LivePairs(t[b]) + Entries(t[b + 1..])
  {
    FlatSplit(t, b, t[b]);
    assert t[b := t[b]] == t;
    LivePairsConcat(Flat(t[..b]) + t[b], Flat(t[b + 1..]));
    LivePairsConcat(Flat(t[..b]), t[b]);
  }

  /** Rewriting one bucket exchanges its pairs. */
  lemma EntriesOfUpdate(t: Table, b: nat, c: Chain)
    requires b < |t|
    ensures multiset(Entries(t[b := c])) + multiset(LivePairs(t[b])) == multiset(Entries(t)) + multiset(LivePairs(c))
    ensures |Entries(t[b := c])| + |LivePairs(t[b])| == |Entries(t)| + |LivePairs(c)|
  {
    FlatSplit(t, b, c);
    FlatSplit(t, b, t[b]);
    assert t[b := t[b]] == t;
    var l, r := Flat(t[..b]), Flat(t[b + 1..]);
    LivePairsConcat(l + c, r);
    LivePairsConcat(l, c);
    LivePairsConcat(l + t[b], r);
    LivePairsConcat(l, t[b]);
  }

  lemma {:induction false} FlatMember(t: Table, s: Slot)
    ensures s in Flat(t) <==> exists i :: 0 <= i < |t| && s in t[i]
  {
    if t != [] {
      FlatMember(t[..|t| - 1], s);
      if s in Flat(t[..|t| - 1]) {
        var i :| 0 <= i < |t| - 1 && s in t[..|t| - 1][i];
        assert s in t[i];
      }
    }
  }

  lemma EntriesMember(t: Table, p: Pair)
    ensures p in Entries(t) <==> exists i :: 0 <= i < |t| && Live(p.0, p.1) in t[i]
  {
    LivePairsMember(Flat(t), p);
    FlatMember(t, Live(p.0, p.1));
  }

  lemma EmptyShaped(cb: Callbacks, n: nat)
    requires n > 0
    ensures Shaped(cb, Empty(n))
  {
  }

  lemma {:induction false} EmptyEntries(n: nat)
    ensures Entries(Empty(n)) == []
  {
    if n > 0 {
      EmptyEntries(n - 1);
      assert Empty(n)[..n - 1] == Empty(n - 1);
      LivePairsConcat(Flat(Empty(n - 1)), [Vacant]);
      LivePairsOne(Vacant);
    }
  }

  /** Keys in different buckets hash differently, so the whole table holds pairwise different keys. */
  lemma {:induction false} FlatDistinct(cb: Callbacks, t: Table, m: nat)
    requires Legal(cb) && Shaped(cb, t) && m <= |t|
    ensures DistinctSlots(cb, Flat(t[..m]))
    ensures forall s :: s in Flat(t[..m]) && s.Live? ==> s.key != NULL && cb.hash(s.key) % |t| < m
  {
    if m > 0 {
      FlatDistinct(cb, t, m - 1);
      assert t[..m][..m - 1] == t[..m - 1];
      assert Flat(t[..m]) == Flat(t[..m - 1]) + t[m - 1];
      var l, c := Flat(t[..m - 1]), t[m - 1];
      forall i, j | 0 <= i < |l| && 0 <= j < |c| && l[i].Live? && c[j].Live?
        ensures !cb.compare(l[i].key, c[j].key)
      {
        assert l[i] in l;
        assert cb.hash(c[j].key) % |t| == m - 1;
      }
    }
  }

  lemma EntriesDistinct(cb: Callbacks, t: Table)
    requires Legal(cb) && Shaped(cb, t)
    ensures DistinctPairs(cb, Entries(t))
  {
    FlatDistinct(cb, t, |t|);
    assert t[..|t|] == t;
    assert forall j :: 0 <= j < |Flat(t)| ==> Flat(t)[j] in Flat(t);
    DistinctSlotsPairs(cb, Flat(t));
  }

  /** Looking in one bucket is looking in the whole table. */
  lemma LookupMeaning(cb: Callbacks, t: Table, k: Pointer)
    requires Legal(cb) && Shaped(cb, t) && k != NULL
    ensures Lookup(cb, t, k).Live? ==>
      (Lookup(cb, t, k).key, Lookup(cb, t, k).value) in Entries(t) && cb.compare(Lookup(cb, t, k).key, k)
    ensures Lookup(cb, t, k).Vacant? ==> forall p :: p in Entries(t) ==> !cb.compare(p.0, k)
  {
    var b := Row(cb, t, k);
    var i := Find(cb, t[b], k);
    if i < |t[b]| {
      EntriesMember(t, (t[b][i].key, t[b][i].value));
    } else {
      forall p | p in Entries(t)
        ensures !cb.compare(p.0, k)
      {
        EntriesMember(t, p);
        var r :| 0 <= r < |t| && Live(p.0, p.1) in t[r];
        var j :| 0 <= j < |t[r]| && t[r][j] == Live(p.0, p.1);
        assert cb.hash(p.0) % |t| == r;
        assert r == b ==> !Matches(cb, t[b][j], k);
      }
    }
  }

  lemma Exchange(a': multiset<Pair>, l: multiset<Pair>, a: multiset<Pair>, l': multiset<Pair>,
                 o: multiset<Pair>, n: multiset<Pair>)
    requires a' + l == a + l' && l' + o == l + n
    ensures a' + o == a + n
  {
    forall p: Pair
      ensures (a' + o)[p] == (a + n)[p]
    {
      assert (a' + l)[p] == (a + l')[p] && (l' + o)[p] == (l + n)[p];
    }
  }

  /** What one insertion does to the stored pairs: the matching pair, if any, is replaced. */
  lemma PutRowEntries(cb: Callbacks, t: Table, k: Pointer, v: Pointer)
    requires |t| > 0
    ensures multiset(Entries(PutRow(cb, t, k, v))) + multiset(PairOf(Lookup(cb, t, k)))
      == multiset(Entries(t)) + multiset{(k, v)}
    ensures |Entries(PutRow(cb, t, k, v))| + |PairOf(Lookup(cb, t, k))| == |Entries(t)| + 1
  {
    var b := Row(cb, t, k);
    EntriesOfUpdate(t, b, ChainPut(cb, t[b], k, v));
    PutPairs(cb, t[b], k, v);
    Exchange(multiset(Entries(PutRow(cb, t, k, v))), multiset(LivePairs(t[b])), multiset(Entries(t)),
      multiset(LivePairs(ChainPut(cb, t[b], k, v))), multiset(PairOf(Lookup(cb, t, k))), multiset{(k, v)});
  }

  lemma PutDistinct(cb: Callbacks, c: Chain, k: Pointer, v: Pointer)
    requires Legal(cb) && k != NULL && DistinctSlots(cb, c)
    requires forall j :: 0 <= j < |c| && c[j].Live? ==> c[j].key != NULL
    ensures DistinctSlots(cb, ChainPut(cb, c, k, v))
  {
    var f, t := Find(cb, c, k), LastVacant(c);
    var at := if f < |c| then f else if t >= 0 then t else |c|;
    forall j | 0 <= j < |c| && c[j].Live? && j != at
      ensures !cb.compare(c[j].key, k) && !cb.compare(k, c[j].key)
    {
      assert Matches(cb, c[j], k) == cb.compare(c[j].key, k);
      if f < |c| {
        assert cb.compare(c[f].key, k) && cb.compare(k, c[f].key);
        assert !cb.compare(c[f].key, c[j].key) || j < f;
      }
    }
  }

  /** Insertion keeps the table's shape. */
  lemma PutRowShaped(cb: Callbacks, t: Table, k: Pointer, v: Pointer)
    requires Legal(cb) && Shaped(cb, t) && k != NULL
    ensures Shaped(cb, PutRow(cb, t, k, v))
  {
    var b := Row(cb, t, k);
    PutDistinct(cb, t[b], k, v);
    var t': Table := PutRow(cb, t, k, v);
    forall i, j | 0 <= i < |t'| && 0 <= j < |t'[i]| && t'[i][j].Live?
      ensures t'[i][j].key != NULL && cb.hash(t'[i][j].key) % |t'| == i
    {
      assert (i == b && t'[i][j] == Live(k, v)) || (j < |t[i]| && t'[i][j] == t[i][j]);
    }
  }

  /** Clearing one entry keeps the shape. */
  lemma ClearShaped(cb: Callbacks, t: Table, b: nat, i: nat)
    requires Shaped(cb, t) && b < |t| && i < |t[b]|
    ensures Shaped(cb, t[b := t[b][i := Vacant]])
  {
    var t': Table := t[b := t[b][i := Vacant]];
    forall r, j | 0 <= r < |t'| && 0 <= j < |t'[r]| && t'[r][j].Live?
      ensures t'[r][j] == t[r][j]
    {
    }
  }

  /** The occupied pairs met before entry j of bucket i. */
  function Scanned(t: Table, i: nat, j: nat): seq<Pair>
    requires i < |t| && j <= |t[i]|
  {
    Entries(t[..i]) + LivePairs(t[i][..j])
  }

  lemma ScanNext(t: Table, i: nat, j: nat)
    requires i < |t| && j < |t[i]|
    ensures LivePairs(t[i][..j + 1]) == LivePairs(t[i][..j]) + PairOf(t[i][j])
    ensures Scanned(t, i, j + 1) == Scanned(t, i, j) + PairOf(t[i][j])
  {
    assert t[i][..j + 1][..j] == t[i][..j];
  }

  lemma LivePairsSplit(c: Chain, j: nat)
    requires j <= |c|
    ensures LivePairs(c) == LivePairs(c[..j]) + LivePairs(c[j..])
  {
    assert c == c[..j] + c[j..];
    LivePairsConcat(c[..j], c[j..]);
  }

  lemma Prefix(a: seq<Pair>, b: seq<Pair>, c: seq<Pair>, d: seq<Pair>)
    ensures a + b <= a + (b + c) + d
  {
  }

  /** The scan of buckets and chains meets the occupied pairs in the order of Entries. */
  lemma ScanPrefix(t: Table, i: nat, j: nat)
    requires i < |t| && j <= |t[i]|
    ensures Scanned(t, i, j) <= Entries(t)
  {
    EntriesSplit(t, i);
    LivePairsSplit(t[i], j);
    Prefix(Entries(t[..i]), LivePairs(t[i][..j]), LivePairs(t[i][j..]), Entries(t[i + 1..]));
  }

  lemma ScanMeets(t: Table, i: nat, j: nat)
    requires i < |t| && j < |t[i]| && t[i][j].Live?
    ensures var done := Scanned(t, i, j); var es := Entries(t);
      |done| < |es| && es[..|done|] == done && es[|done|] == (t[i][j].key, t[i][j].value)
  {
    ScanNext(t, i, j);
    ScanPrefix(t, i, j + 1);
    var done, es := Scanned(t, i, j), Entries(t);
    var next := Scanned(t, i, j + 1);
    assert next[|done|] == es[|done|];
    assert next[..|done|] == done;
  }

  lemma ScanRow(t: Table, i: nat)
    requires i < |t|
    ensures Entries(t[..i + 1]) == Entries(t[..i]) + LivePairs(t[i])
    ensures Scanned(t, i, 0) == Entries(t[..i]) && Scanned(t, i, |t[i]|) == Entries(t[..i + 1])
  {
    assert t[..i + 1][..i] == t[..i];
    assert t[i][..|t[i]|] == t[i];
    LivePairsConcat(Flat(t[..i]), t[i]);
  }
}
