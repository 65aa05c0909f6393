/** The iterator (hashmap.c:392-458) over the flat scan order, also with removals between its calls. */
module Iteration {
  import opened Callbacks
  import opened Chains
  import opened Tables
  import opened States
  import opened Refinement

  /** The first occupied place at or after p, or |c|. */
  function NextLive(c: Chain, p: nat): (q: nat)
    ensures q <= |c| && (p <= |c| ==> p <= q)
    ensures q < |c| ==> c[q].Live?
    ensures forall i :: p <= i < q ==> c[i].Vacant?
    decreases |c| - p
  {
    if p >= |c| then |c| else if c[p].Live? then p else NextLive(c, p + 1)
  }

  // ---------------------------------------------------------------- the cursor

  datatype Item = NoItem | At(row: nat, col: nat)

  /** The iterator's fields: the current bucket, and the entry to resume from or none. */
  datatype Cursor = Cursor(bucket: int, item: Item)

  /** How many places of the scan order lie before bucket r. */
  function Before(t: Table, r: nat): nat
    requires r <= |t|
  {
    if r == 0 then 0 else Before(t, r - 1) + |t[r - 1]|
  }

  /** How many lie before the cursor. */
  function Position(t: Table, c: Cursor): nat
    requires c.bucket >= -1 && (c.item.At? ==> c.item.row < |t|)
  {
    match c.item
    case NoItem => Before(t, if c.bucket < |t| then c.bucket + 1 else |t|)
    case At(row, col) => Before(t, row) + col
  }

  /** An entry to resume from is in the current bucket, unless the iterator is exhausted. */
  ghost predicate CursorOk(t: Table, c: Cursor) {
    && c.bucket >= -1
    && (c.item.At? ==>
          && c.item.row < |t| && c.item.col < |t[c.item.row]|
          && (c.item.row == c.bucket || (c.bucket >= |t| && NextLive(Flat(t), Position(t, c)) == |Flat(t)|)))
  }

  /** The cursor is fine and the next live place is q. */
  ghost predicate Facing(t: Table, c: Cursor, q: nat) {
    CursorOk(t, c) && NextLive(Flat(t), Position(t, c)) == q
  }

  lemma {:induction false} FlatLength(t: Table, r: nat)
    requires r <= |t|
    ensures |Flat(t[..r])| == Before(t, r)
  {
    if r > 0 {
      FlatLength(t, r - 1);
      assert t[..r][..r - 1] == t[..r - 1];
    }
  }

  lemma EndPlace(t: Table)
    ensures Before(t, |t|) == |Flat(t)|
  {
    FlatLength(t, |t|);
    assert t[..|t|] == t;
  }

  lemma PlaceOf(t: Table, r: nat, j: nat)
    requires r < |t| && j < |t[r]|
    ensures Before(t, r) + j < |Flat(t)| && Flat(t)[Before(t, r) + j] == t[r][j]
  {
    FlatLength(t, r);
    FlatSplit(t, r, t[r]);
    assert t[r := t[r]] == t;
  }

  /** Where `next` leads from an entry. */
  function Following(t: Table, r: nat, j: nat): Item
    requires r < |t| && j < |t[r]|
  {
    if j + 1 < |t[r]| then At(r, j + 1) else NoItem
  }

  lemma SkipFree(c: Chain, p: nat)
    requires p < |c| && c[p].Vacant?
    ensures NextLive(c, p) == NextLive(c, p + 1)
    ensures NextLive(c, p) == |c| ==> NextLive(c, |c|) == |c|
  {
  }

  /** Passing over a free entry keeps what there is left to find. */
  lemma StepOver(t: Table, b: int, r: nat, j: nat, q: nat)
    requires Facing(t, Cursor(b, At(r, j)), q) && t[r][j].Vacant?
    ensures Facing(t, Cursor(b, Following(t, r, j)), q)
  {
    PlaceOf(t, r, j);
    EndPlace(t);
    SkipFree(Flat(t), Before(t, r) + j);
  }

  /** Entering the next bucket does not move the cursor. */
  lemma StepIn(t: Table, b: int, q: nat)
    requires -1 <= b < |t| - 1 && |t[b + 1]| > 0 && Facing(t, Cursor(b, NoItem), q)
    ensures Facing(t, Cursor(b + 1, At(b + 1, 0)), q)
  {
  }

  lemma NothingLeft(t: Table, b: int, q: nat)
    requires Facing(t, Cursor(b, NoItem), q)
    ensures b >= |t| - 1 ==> q == |Flat(t)|
  {
    EndPlace(t);
  }

  /** Stopping at an occupied entry: it is the next live one, and the cursor moves right behind it. */
  lemma StopAt(t: Table, b: int, r: nat, j: nat)
    requires CursorOk(t, Cursor(b, At(r, j))) && t[r][j].Live?
    ensures Position(t, Cursor(b, At(r, j))) < |Flat(t)|
    ensures NextLive(Flat(t), Position(t, Cursor(b, At(r, j)))) == Position(t, Cursor(b, At(r, j)))
    ensures Flat(t)[Position(t, Cursor(b, At(r, j)))] == t[r][j]
    ensures CursorOk(t, Cursor(b, Following(t, r, j)))
    ensures Position(t, Cursor(b, Following(t, r, j))) == Position(t, Cursor(b, At(r, j))) + 1
  {
    PlaceOf(t, r, j);
  }

  /** Past the last bucket there is nothing left. */
  lemma PastEnd(t: Table, c: Cursor)
    requires CursorOk(t, c) && (if c.item.At? then c.bucket >= |t| else c.bucket >= |t| - 1)
    ensures NextLive(Flat(t), Position(t, c)) == |Flat(t)|
  {
    EndPlace(t);
  }

  /** A cursor that failed keeps its entry, and has nothing left wherever its bucket now is. */
  lemma Failed(t: Table, c: Cursor, b: int)
    requires CursorOk(t, c) && NextLive(Flat(t), Position(t, c)) == |Flat(t)| && b >= |t|
    ensures Facing(t, Cursor(b, c.item), |Flat(t)|)
  {
    EndPlace(t);
  }

  // ---------------------------------------------------------------- removals between calls

  datatype Event = Next | Take(k: Pointer, remove: bool)

  /** The map, the cursor's position, what it has yielded, and whether a call has failed. */
  datatype Pass = Pass(s: State, at: nat, yielded: seq<Pair>, ended: bool)

  ghost predicate PassOk(p: Pass) {
    |p.s.table| > 0 && p.at <= |Flat(p.s.table)|
  }

  /** d is c with some entries cleared. */
  predicate Cleared(c: Chain, d: Chain) {
    |c| == |d| && forall i :: 0 <= i < |c| ==> d[i] == c[i] || d[i].Vacant?
  }

  lemma ClearOne(t: Table, b: nat, i: nat)
    requires b < |t| && i < |t[b]|
    ensures Cleared(Flat(t), Flat(t[b := t[b][i := Vacant]]))
  {
    var c := t[b];
    FlatSplit(t, b, c);
    assert t[b := c] == t;
    FlatSplit(t, b, c[i := Vacant]);
    var l, r := Flat(t[..b]), Flat(t[b + 1..]);
    assert forall k :: 0 <= k < |l + c + r| ==>
      (l + c[i := Vacant] + r)[k] == if k == |l| + i then Vacant else (l + c + r)[k];
  }

  lemma RemoveClears(cb: Callbacks, s: State, k: Pointer, remove: bool)
    requires |s.table| > 0
    ensures var t' := Remove(cb, s, k, remove).0.table;
      && Cleared(Flat(s.table), Flat(t'))
      && |t'| == |s.table| && forall i :: 0 <= i < |t'| ==> |t'[i]| == |s.table[i]|
  {
    var b := Row(cb, s.table, k);
    if EntryOf(cb, s, k) < |s.table[b]| {
      ClearOne(s.table, b, EntryOf(cb, s, k));
    }
  }

  function React(cb: Callbacks, p: Pass, e: Event): (r: Pass)
    requires PassOk(p)
    ensures PassOk(r) && Cleared(Flat(p.s.table), Flat(r.s.table))
  {
    match e
    case Next =>
      var c := Flat(p.s.table);
      var q := NextLive(c, p.at);
      if q == |c| then p.(ended := true)
      else p.(at := q + 1, yielded := p.yielded + [(c[q].key, c[q].value)])
    case Take(k, remove) =>
      RemoveClears(cb, p.s, k, remove);
      p.(s := Remove(cb, p.s, k, remove).0)
  }

  function Reacted(cb: Callbacks, s: State, es: seq<Event>): (p: Pass)
    requires |s.table| > 0
    ensures PassOk(p)
  {
    if es == [] then Pass(s, 0, [], false)
    else React(cb, Reacted(cb, s, es[..|es| - 1]), es[|es| - 1])
  }

  /** One event more. */
  lemma ReactNext(cb: Callbacks, s: State, es: seq<Event>, i: nat)
    requires |s.table| > 0 && i < |es|
    ensures Reacted(cb, s, es[..i + 1]) == React(cb, Reacted(cb, s, es[..i]), es[i])
  {
    assert es[..i + 1][..i] == es[..i];
  }

  lemma ClearedEntries(t: Table, t': Table, p: Pair)
    requires Cleared(Flat(t), Flat(t'))
    ensures p in Entries(t') ==> p in Entries(t)
  {
    LivePairsMember(Flat(t), p);
    LivePairsMember(Flat(t'), p);
  }

  /** An exhausted iterator stays exhausted when entries are only cleared. */
  lemma ExhaustedStays(c: Chain, d: Chain, p: nat)
    requires Cleared(c, d) && NextLive(c, p) == |c|
    ensures NextLive(d, p) == |d|
  {
    assert forall i :: p <= i < |c| ==> c[i].Vacant? && d[i].Vacant?;
  }

  lemma {:induction false} SameOffsets(t: Table, t': Table, r: nat)
    requires |t| == |t'| && r <= |t| && forall i :: 0 <= i < |t| ==> |t'[i]| == |t[i]|
    ensures Before(t', r) == Before(t, r)
  {
    if r > 0 {
      SameOffsets(t, t', r - 1);
    }
  }

  /** A cursor that was fine before a removal is fine after it. */
  lemma CursorStays(t: Table, t': Table, c: Cursor)
    requires CursorOk(t, c) && |t| == |t'| && Cleared(Flat(t), Flat(t'))
    requires forall i :: 0 <= i < |t| ==> |t'[i]| == |t[i]|
    ensures CursorOk(t', c) && Position(t', c) == Position(t, c)
  {
    SameOffsets(t, t', if c.item.At? then c.item.row else if c.bucket < |t| then c.bucket + 1 else |t|);
    if c.item.At? && c.item.row != c.bucket {
      ExhaustedStays(Flat(t), Flat(t'), Position(t, c));
    }
  }

  /** What holds of a pass in progress over the scan order c the map had at the start: the places
      yielded so far are increasing and before the cursor, and nothing live before the cursor is missing. */
  ghost predicate Tracks(c: Chain, p: Pass, places: seq<nat>) {
    && PassOk(p) && Cleared(c, Flat(p.s.table))
    && |places| == |p.yielded|
    && (forall i :: 0 <= i < |places| ==>
          places[i] < p.at && c[places[i]] == Live(p.yielded[i].0, p.yielded[i].1))
    && (forall i, j :: 0 <= i < j < |places| ==> places[i] < places[j])
    && (forall q :: 0 <= q < p.at && Flat(p.s.table)[q].Live? ==> q in places)
    && (p.ended ==> NextLive(Flat(p.s.table), p.at) == |c|)
  }

  lemma TracksStep(cb: Callbacks, c: Chain, p: Pass, places: seq<nat>, e: Event) returns (places': seq<nat>)
    requires Tracks(c, p, places)
    ensures Tracks(c, React(cb, p, e), places')
  {
    places' := places;
    var d, d' := Flat(p.s.table), Flat(React(cb, p, e).s.table);
    if e.Take? {
      if p.ended {
        ExhaustedStays(d, d', p.at);
      }
    } else if NextLive(d, p.at) < |d| {
      places' := places + [NextLive(d, p.at)];
    }
  }

  lemma {:induction false} TracksRun(cb: Callbacks, s: State, es: seq<Event>) returns (places: seq<nat>)
    requires |s.table| > 0
    ensures Tracks(Flat(s.table), Reacted(cb, s, es), places)
  {
    if es == [] {
      places := [];
    } else {
      places := TracksRun(cb, s, es[..|es| - 1]);
      places := TracksStep(cb, Flat(s.table), Reacted(cb, s, es[..|es| - 1]), places, es[|es| - 1]);
    }
  }

  lemma YieldedWasThere(c: Chain, p: Pass, places: seq<nat>, e: Pair)
    requires Tracks(c, p, places) && e in p.yielded
    ensures e in LivePairs(c)
  {
    var i :| 0 <= i < |p.yielded| && p.yielded[i] == e;
    assert c[places[i]] == Live(e.0, e.1);
    LivePairsMember(c, e);
  }

  lemma NoneMissing(c: Chain, p: Pass, places: seq<nat>, e: Pair)
    requires Tracks(c, p, places) && p.ended && e in Entries(p.s.table)
    ensures e in p.yielded
  {
    var d := Flat(p.s.table);
    LivePairsMember(d, e);
    var q :| 0 <= q < |d| && d[q] == Live(e.0, e.1);
    assert q < p.at;
    var i :| 0 <= i < |places| && places[i] == q;
    assert p.yielded[i] == e;
  }

  lemma {:induction false} YieldsDistinct(cb: Callbacks, c: Chain, es: seq<Pair>, places: seq<nat>)
    requires |places| == |es| && DistinctSlots(cb, c)
    requires forall i :: 0 <= i < |es| ==> places[i] < |c| && c[places[i]] == Live(es[i].0, es[i].1)
    requires forall i, j :: 0 <= i < j < |places| ==> places[i] < places[j]
    requires forall s :: s in c && s.Live? ==> s.key != NULL
    ensures DistinctPairs(cb, es)
  {
    if es != [] {
      var m := |es| - 1;
      YieldsDistinct(cb, c, es[..m], places[..m]);
      assert c[places[m]] in c;
      assert forall i :: 0 <= i < m ==> c[places[i]].key == es[i].0 && places[i] < places[m];
    }
  }

  /** For every interleaving of calls to next with removals and steals: every pair yielded was live at the
      start, no key is yielded twice, and once a call has failed every pair still live has been yielded. */
  lemma PassSound(cb: Callbacks, s: State, es: seq<Event>)
    requires Legal(cb) && Inv(cb, s)
    ensures var p := Reacted(cb, s, es);
      && (forall e :: e in p.yielded ==> e in Entries(s.table))
      && DistinctPairs(cb, p.yielded)
      && (p.ended ==> forall e :: e in Entries(p.s.table) ==> e in p.yielded)
  {
    var places := TracksRun(cb, s, es);
    var p, c := Reacted(cb, s, es), Flat(s.table);
    forall e | e in p.yielded
      ensures e in Entries(s.table)
    {
      YieldedWasThere(c, p, places, e);
    }
    if p.ended {
      forall e | e in Entries(p.s.table)
        ensures e in p.yielded
      {
        NoneMissing(c, p, places, e);
      }
    }
    FlatDistinct(cb, s.table, |s.table|);
    assert s.table[..|s.table|] == s.table;
    YieldsDistinct(cb, c, p.yielded, places);
  }

  function NextCount(es: seq<Event>): nat {
    if es == [] then 0 else NextCount(es[..|es| - 1]) + if es[|es| - 1].Next? then 1 else 0
  }

  /** As long as no call has failed, each has yielded a pair. */
  lemma {:induction false} YieldsCounted(cb: Callbacks, s: State, es: seq<Event>)
    requires |s.table| > 0
    ensures var p := Reacted(cb, s, es); !p.ended ==> |p.yielded| == NextCount(es)
  {
    if es != [] {
      YieldsCounted(cb, s, es[..|es| - 1]);
    }
  }

  /** Increasing live places are at most the live pairs. */
  lemma {:induction false} PlacesBounded(c: Chain, places: seq<nat>)
    requires forall i :: 0 <= i < |places| ==> places[i] < |c| && c[places[i]].Live?
    requires forall i, j :: 0 <= i < j < |places| ==> places[i] < places[j]
    ensures |places| <= |LivePairs(c)|
  {
    if places != [] {
      var m := |places| - 1;
      assert places[m] < |c|;
      var front := c[..|c| - 1];
      if places[m] == |c| - 1 {
        PlacesBounded(front, places[..m]);
      } else {
        PlacesBounded(front, places);
      }
    }
  }

  /** Every pass ends, whatever is removed in between: with more calls to next than the map had pairs, one
      has failed. */
  lemma PassEnds(cb: Callbacks, s: State, es: seq<Event>)
    requires |s.table| > 0 && NextCount(es) > |Entries(s.table)|
    ensures Reacted(cb, s, es).ended
  {
    var places := TracksRun(cb, s, es);
    YieldsCounted(cb, s, es);
    PlacesBounded(Flat(s.table), places);
  }

  /** No pair is yielded after its removal: what later calls yield is live at every earlier moment. */
  lemma {:induction false} LaterYieldsLive(cb: Callbacks, s: State, es: seq<Event>, i: nat)
    requires |s.table| > 0 && i <= |es|
    ensures var p, r := Reacted(cb, s, es[..i]), Reacted(cb, s, es);
      && p.yielded <= r.yielded
      && (forall e :: e in r.yielded[|p.yielded|..] ==> e in Entries(p.s.table))
      && (forall e :: e in Entries(r.s.table) ==> e in Entries(p.s.table))
    decreases |es|
  {
    if i == |es| {
      assert es[..i] == es;
    } else {
      var front, last := es[..|es| - 1], es[|es| - 1];
      LaterYieldsLive(cb, s, front, i);
      assert front[..i] == es[..i];
      var m, r := Reacted(cb, s, front), Reacted(cb, s, es);
      var c := Flat(m.s.table);
      var q := NextLive(c, m.at);
      if last.Next? && q < |c| {
        LivePairsMember(c, (c[q].key, c[q].value));
      }
      forall e | e in Entries(r.s.table)
        ensures e in Entries(m.s.table)
      {
        ClearedEntries(m.s.table, r.s.table, e);
      }
    }
  }

  lemma GoneOnce(t: Table, t': Table, e: Pair)
    requires multiset(Entries(t')) + multiset([e]) == multiset(Entries(t)) && multiset(Entries(t))[e] == 1
    ensures e !in Entries(t')
  {
    assert (multiset(Entries(t')) + multiset([e]))[e] == multiset(Entries(t'))[e] + 1;
  }

  lemma StillThere(t: Table, t': Table, gone: seq<Pair>, e: Pair)
    requires multiset(Entries(t')) + multiset(gone) == multiset(Entries(t))
    ensures e in Entries(t') ==> e in Entries(t)
    ensures e in Entries(t) && e !in gone ==> e in Entries(t')
  {
    assert e in Entries(t) <==> e in multiset(Entries(t));
    assert e in Entries(t') <==> e in multiset(Entries(t'));
    assert e in gone <==> e in multiset(gone);
  }

  lemma {:induction false} DistinctCount(cb: Callbacks, es: seq<Pair>, e: Pair)
    requires Legal(cb) && DistinctPairs(cb, es)
    ensures multiset(es)[e] <= 1
  {
    if es != [] {
      var front, last := es[..|es| - 1], es[|es| - 1];
      DistinctCount(cb, front, e);
      assert es == front + [last];
      if e == last {
        assert forall i :: 0 <= i < |front| ==> !cb.compare(front[i].0, last.0);
        assert last !in front;
      }
    }
  }

  lemma OnlyOnce(cb: Callbacks, t: Table, e: Pair)
    requires Legal(cb) && Shaped(cb, t) && e in Entries(t)
    ensures multiset(Entries(t))[e] == 1
  {
    EntriesDistinct(cb, t);
    DistinctCount(cb, Entries(t), e);
  }

  /** A removal that succeeds takes its pair out of the live ones, so it is not yielded afterwards. */
  lemma TakenIsGone(cb: Callbacks, s: State, k: Pointer, remove: bool)
    requires Legal(cb) && Inv(cb, s) && k != NULL
    ensures forall e :: e in Entries(Remove(cb, s, k, remove).0.table) ==> !cb.compare(e.0, k)
    ensures forall e :: e in Entries(s.table) && !cb.compare(e.0, k) ==>
      e in Entries(Remove(cb, s, k, remove).0.table)
  {
    RemoveEntries(cb, s, k, remove);
    RemoveInv(cb, s, k, remove);
    var s', l := Remove(cb, s, k, remove).0, Lookup(cb, s.table, k);
    LookupMeaning(cb, s.table, k);
    if l.Live? {
      OnlyOnce(cb, s.table, (l.key, l.value));
      GoneOnce(s.table, s'.table, (l.key, l.value));
    }
    forall e | e in Entries(s'.table)
      ensures !cb.compare(e.0, k)
    {
      StillThere(s.table, s'.table, PairOf(l), e);
      if l.Live? && cb.compare(e.0, k) {
        OneKey(cb, s.table, e, (l.key, l.value), k);
      }
    }
    forall e | e in Entries(s.table) && !cb.compare(e.0, k)
      ensures e in Entries(s'.table)
    {
      StillThere(s.table, s'.table, PairOf(l), e);
      assert e in multiset(Entries(s.table));
    }
  }

  // ---------------------------------------------------------------- an undisturbed pass

  function NextCalls(n: nat): (es: seq<Event>)
    ensures |es| == n
  {
    if n == 0 then [] else NextCalls(n - 1) + [Next]
  }

  lemma {:induction false} LiveBefore(c: Chain, p: nat)
    requires p <= |c|
    ensures LivePairs(c[..NextLive(c, p)]) == LivePairs(c[..p])
    ensures NextLive(c, p) < |c| ==>
      LivePairs(c[..NextLive(c, p) + 1]) == LivePairs(c[..p]) + PairOf(c[NextLive(c, p)])
    decreases |c| - p
  {
    if p < |c| {
      LivePairsNext(c, p);
      if c[p].Vacant? {
        LiveBefore(c, p + 1);
      }
    }
  }

  /** The pass has yielded exactly what lies before its cursor. */
  ghost predicate Exact(s: State, p: Pass, n: nat) {
    && PassOk(p) && p.s == s
    && p.yielded == LivePairs(Flat(s.table)[..p.at])
    && (p.ended ==> NextLive(Flat(s.table), p.at) == |Flat(s.table)| && n > |p.yielded|)
    && (!p.ended ==> n == |p.yielded|)
  }

  lemma ExactStep(cb: Callbacks, s: State, p: Pass, n: nat)
    requires Exact(s, p, n)
    ensures Exact(s, React(cb, p, Next), n + 1)
  {
    var c := Flat(s.table);
    LiveBefore(c, p.at);
  }

  lemma NextCallsNext(cb: Callbacks, s: State, n: nat)
    requires |s.table| > 0
    ensures Reacted(cb, s, NextCalls(n + 1)) == React(cb, Reacted(cb, s, NextCalls(n)), Next)
  {
    var es := NextCalls(n + 1);
    assert es[..n] == NextCalls(n) && es[..n + 1] == es;
    ReactNext(cb, s, es, n);
  }

  lemma {:induction false} ExactRun(cb: Callbacks, s: State, n: nat)
    requires |s.table| > 0
    ensures Exact(s, Reacted(cb, s, NextCalls(n)), n)
  {
    if n > 0 {
      ExactRun(cb, s, n - 1);
      ExactStep(cb, s, Reacted(cb, s, NextCalls(n - 1)), n - 1);
      NextCallsNext(cb, s, n - 1);
    }
  }

  /** n calls with nothing in between yield the first n entries in scan order, each once, and a call has
      failed exactly when there were fewer than n. */
  lemma Undisturbed(cb: Callbacks, s: State, n: nat)
    requires |s.table| > 0
    ensures var p, es := Reacted(cb, s, NextCalls(n)), Entries(s.table);
      p.yielded == (if n <= |es| then es[..n] else es) && (p.ended <==> n > |es|)
  {
    ExactRun(cb, s, n);
    var p, c := Reacted(cb, s, NextCalls(n)), Flat(s.table);
    LivePairsSplit(c, p.at);
    LiveBefore(c, p.at);
    assert c[..|c|] == c;
  }
}
