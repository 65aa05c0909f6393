/** hashmap.c on the heap: linked entries updated in place, each method proved against States. */
module HashMap {
  import opened Callbacks
  import opened Chains
  import opened Tables
  import opened States
  import opened Relinking
  import Iteration

  /** Which `next` assignment ends an insertion: the one in the source, which also runs for a reused
      entry, or the intended one, which links only a newly allocated entry. */
  datatype Relink = SourceRule | FreshOnly

  function Inserted(relink: Relink, cb: Callbacks, c: Chain, k: Pointer, v: Pointer): Linked {
    match relink
    case SourceRule => AsWritten(cb, c, k, v)
    case FreshOnly => Linked(ChainPut(cb, c, k, v), -1)
  }

  /** The insertion of key k closes a circle. */
  predicate Closes(relink: Relink, cb: Callbacks, c: Chain, k: Pointer) {
    relink.SourceRule? && !Safe(cb, c, k)
  }

  lemma CircleIsBack(relink: Relink, cb: Callbacks, c: Chain, k: Pointer, v: Pointer)
    ensures Closes(relink, cb, c, k) <==> Inserted(relink, cb, c, k, v).back != -1
    ensures Inserted(relink, cb, c, k, v).slots == ChainPut(cb, c, k, v)
  {
  }

  class Entry {
    var hash: Pointer
    var value: Pointer
    var next: Entry?
    var occ: bool

    /** Where the entry lives: its bucket and its place in the chain. */
    ghost var row: nat
    ghost var col: nat

    constructor (ghost row: nat, ghost col: nat)
      ensures this.row == row && this.col == col
      ensures hash == NULL && value == NULL && next == null && !occ
    {
      hash, value, next, occ := NULL, NULL, null, false;
      this.row, this.col := row, col;
    }
  }

  ghost predicate Holds(e: Entry, row: nat, col: nat, s: Slot)
    reads e
  {
    && e.row == row && e.col == col
    && e.occ == s.Live?
    && e.hash == StoredKey(s)
    && e.value == StoredValue(s)
  }

  /** The entries c are linked in order, carry the slots of l, and the last points where l says.
      Their places make them pairwise different. */
  ghost predicate Chained(c: seq<Entry>, row: nat, l: Linked)
    reads c
  {
    && |c| == |l.slots| && WellLinked(l)
    && (forall i :: 0 <= i < |c| ==> Holds(c[i], row, i, l.slots[i]))
    && (forall i :: 0 <= i < |c| - 1 ==> c[i].next == c[i + 1])
    && c[|c| - 1].next == (if l.back == -1 then null else c[l.back])
  }

  /** The entries of each bucket, all of them together, and the table they carry. */
  datatype Layout = Layout(nodes: seq<seq<Entry>>, repr: set<Entry>, table: Table)

  /** An array of inline heads whose chains end, are pairwise disjoint and carry the layout's table. */
  ghost predicate Carries(buckets: array<Entry>, l: Layout)
    reads buckets, l.repr
  {
    && buckets.Length == |l.nodes| == |l.table|
    && (forall i, j :: 0 <= i < |l.nodes| && 0 <= j < |l.nodes[i]| ==> l.nodes[i][j] in l.repr)
    && (forall i :: 0 <= i < |l.table| ==> Chained(l.nodes[i], i, Linked(l.table[i], -1)))
    && (forall i :: 0 <= i < |l.table| ==> buckets[i] == l.nodes[i][0])
  }

  /** An array with its layout: one argument, so that two-state lemmas can speak about it. */
  datatype Built = Built(buckets: array<Entry>, layout: Layout)

  /** Rewriting one chain keeps an array well formed. */
  twostate lemma RowReplaced(was: Built, new now: Layout, new b: nat)
    requires var l, buckets := was.layout, was.buckets;
      && old(Carries(buckets, l)) && unchanged(buckets) && b < |l.nodes| == |now.nodes| == |now.table|
      && (forall e :: e in l.repr && e !in l.nodes[b] ==> unchanged(e))
      && now.nodes == l.nodes[b := now.nodes[b]] && now.table == l.table[b := now.table[b]]
      && l.repr <= now.repr && (forall k :: 0 <= k < |now.nodes[b]| ==> now.nodes[b][k] in now.repr)
      && Chained(now.nodes[b], b, Linked(now.table[b], -1)) && now.nodes[b][0] == buckets[b]
    ensures Carries(was.buckets, now)
  {
    var l := was.layout;
    forall i | 0 <= i < |l.nodes| && i != b
      ensures Chained(l.nodes[i], i, Linked(l.table[i], -1))
    {
      assert forall k :: 0 <= k < |l.nodes[i]| ==> old(Holds(l.nodes[i][k], i, k, l.table[i][k]));
      assert forall k :: 0 <= k < |l.nodes[b]| ==> old(Holds(l.nodes[b][k], b, k, l.table[b][k]));
      assert forall k :: 0 <= k < |l.nodes[i]| ==> l.nodes[i][k] !in l.nodes[b];
    }
  }

  twostate lemma StillChained(c: seq<Entry>, new row: nat, new l: Linked)
    requires old(Chained(c, row, l)) && forall k :: 0 <= k < |c| ==> unchanged(c[k])
    ensures Chained(c, row, l)
  {
  }

  lemma NextEntry(c: seq<Entry>, row: nat, s: Chain, i: nat)
    requires Chained(c, row, Linked(s, -1)) && i < |s|
    ensures c[i].next == (if i + 1 < |s| then c[i + 1] else null)
    ensures Holds(c[i], row, i, s[i])
  {
  }

  /** The entry a cursor item denotes. */
  ghost predicate Stands(l: Layout, row: Entry?, item: Iteration.Item) {
    match item
    case NoItem => row == null
    case At(r, j) => r < |l.nodes| && j < |l.nodes[r]| && row == l.nodes[r][j]
  }

  lemma ChainOf(buckets: array<Entry>, l: Layout, b: nat)
    requires Carries(buckets, l) && b < |l.table|
    ensures b < |l.nodes| && Chained(l.nodes[b], b, Linked(l.table[b], -1)) && l.nodes[b][0] == buckets[b]
  {
  }

  /** What the entry a cursor stands at holds, and where its `next` leads. */
  lemma AtEntry(buckets: array<Entry>, l: Layout, row: Entry, item: Iteration.Item)
    requires Carries(buckets, l) && item.At? && Stands(l, row, item)
    ensures item.row < |l.table| && item.col < |l.table[item.row]|
    ensures Holds(row, item.row, item.col, l.table[item.row][item.col])
    ensures Stands(l, row.next, Iteration.Following(l.table, item.row, item.col))
  {
    ChainOf(buckets, l, item.row);
    NextEntry(l.nodes[item.row], item.row, l.table[item.row], item.col);
  }

  lemma OccIsLive(buckets: array<Entry>, l: Layout, row: Entry, item: Iteration.Item)
    requires Carries(buckets, l) && item.At? && Stands(l, row, item)
    ensures item.row < |l.table| && item.col < |l.table[item.row]|
    ensures row.occ == l.table[item.row][item.col].Live?
  {
    AtEntry(buckets, l, row, item);
  }

  /** Writing only outside an array's entries keeps what it carries. */
  twostate lemma StillCarries(was: Built)
    requires old(Carries(was.buckets, was.layout)) && unchanged(was.buckets)
    requires forall e :: e in was.layout.repr ==> unchanged(e)
    ensures Carries(was.buckets, was.layout)
  {
  }

  /** calloc of n inline heads. */
  method NewBuckets(n: nat) returns (buckets: array<Entry>, ghost l: Layout)
    ensures fresh(buckets) && fresh(l.repr)
    ensures Carries(buckets, l) && l.table == Empty(n)
  {
    var heads: seq<Entry> := [];
    for i := 0 to n
      invariant |heads| == i
      invariant forall j :: 0 <= j < i ==> fresh(heads[j]) && Holds(heads[j], j, 0, Vacant) && heads[j].next == null
    {
      var e := new Entry(i, 0);
      heads := heads + [e];
    }
    buckets := new Entry[n](i requires 0 <= i < n => heads[i]);
    l := Layout(seq(n, i requires 0 <= i < n => [heads[i]]), (set e | e in heads), Empty(n));
  }

  /** One step of a rehash: a free slot leaves the new table as it is; an occupied one is new to it and
      is inserted without closing a circle. */
  ghost predicate Moves(cb: Callbacks, t: Table, s: Slot, t': Table) {
    match s
    case Vacant => t' == t
    case Live(k, v) =>
      |t| > 0 && Lookup(cb, t, k).Vacant? && Safe(cb, t[Row(cb, t, k)], k) && t' == PutRow(cb, t, k, v)
  }

  /** The tables before each slot of s and after the last. */
  ghost predicate MovesAll(cb: Callbacks, s: Chain, ts: seq<Table>) {
    |ts| == |s| + 1 && forall j {:trigger s[j]} :: 0 <= j < |s| ==> Moves(cb, ts[j], s[j], ts[j + 1])
  }

  /** The overflow entries of the first n buckets: all but the inline heads. */
  ghost function Overflow(nodes: seq<seq<Entry>>, n: nat): seq<Entry>
    requires n <= |nodes| && forall i :: 0 <= i < |nodes| ==> nodes[i] != []
  {
    if n == 0 then [] else Overflow(nodes, n - 1) + nodes[n - 1][1..]
  }

  lemma ScanMoves(cb: Callbacks, t: Table, i: nat, j: nat, n: nat)
    requires i < |t| && j < |t[i]| && n > 0 && AllFresh(cb, Entries(t), n)
    ensures Moves(cb, Rehash(cb, Scanned(t, i, j), n), t[i][j], Rehash(cb, Scanned(t, i, j + 1), n))
  {
    var done, s := Scanned(t, i, j), t[i][j];
    ScanNext(t, i, j);
    if s.Live? {
      ScanMeets(t, i, j);
      FreshAt(cb, Entries(t), n, |done|);
      RehashNeverCircular(cb, done, n);
      PutCompact(cb, Rehash(cb, done, n), s.key, s.value);
      var next := done + [(s.key, s.value)];
      assert next[..|next| - 1] == done;
    } else {
      assert done + [] == done;
    }
  }

  /** The tables the new array carries before each entry of bucket i, and after the last. */
  lemma RowTables(cb: Callbacks, t: Table, i: nat, n: nat) returns (ts: seq<Table>)
    requires i < |t| && n > 0 && AllFresh(cb, Entries(t), n)
    ensures MovesAll(cb, t[i], ts)
    ensures ts[0] == Rehash(cb, Entries(t[..i]), n) && ts[|t[i]|] == Rehash(cb, Entries(t[..i + 1]), n)
    ensures |Entries(t[..i + 1])| == |Entries(t[..i])| + |LivePairs(t[i])|
  {
    ScanRow(t, i);
    ts := seq(|t[i]| + 1, j requires 0 <= j <= |t[i]| => Rehash(cb, Scanned(t, i, j), n));
    forall j | 0 <= j < |t[i]|
      ensures Moves(cb, ts[j], t[i][j], ts[j + 1])
    {
      ScanMoves(cb, t, i, j, n);
    }
  }

  /** Only the first entry of a chain is its inline head. */
  lemma FirstEntry(c: seq<Entry>, row: nat, s: Chain, i: nat)
    requires Chained(c, row, Linked(s, -1)) && i < |c|
    ensures c[i] == c[0] <==> i == 0
  {
    assert Holds(c[i], row, i, s[i]) && Holds(c[0], row, 0, s[0]);
  }

  /** The overflow entries among the first j of a chain. */
  ghost function OverflowTo(c: seq<Entry>, j: nat): seq<Entry>
    requires j <= |c|
  {
    if j == 0 then [] else c[1..j]
  }

  lemma OverflowNext(c: seq<Entry>, j: nat)
    requires j < |c|
    ensures OverflowTo(c, j + 1) == OverflowTo(c, j) + if j == 0 then [] else [c[j]]
  {
  }

  ghost predicate Different(es: seq<Entry>) {
    forall i, j :: 0 <= i < j < |es| ==> es[i] != es[j]
  }

  /** No overflow entry occurs twice: its place tells them apart. */
  lemma {:induction false} OverflowDiffers(buckets: array<Entry>, l: Layout, n: nat)
    requires Carries(buckets, l) && n <= |l.nodes|
    ensures Different(Overflow(l.nodes, n))
    ensures forall e :: e in Overflow(l.nodes, n) ==> e.row < n
  {
    if n > 0 {
      OverflowDiffers(buckets, l, n - 1);
      ChainOf(buckets, l, n - 1);
      var c := l.nodes[n - 1];
      assert forall j :: 0 <= j < |c| ==> Holds(c[j], n - 1, j, l.table[n - 1][j]);
    }
  }

  /** An entry is behind the head of a chain exactly when it is there by its place. */
  lemma AtPlace(c: seq<Entry>, row: nat, s: Chain, d: seq<Entry>, i: nat, r: Chain, j: nat)
    requires Chained(c, row, Linked(s, -1)) && Chained(d, i, Linked(r, -1)) && j < |d|
    requires row == i ==> c == d
    ensures d[j] in c[1..] <==> row == i && j >= 1
  {
    assert Holds(d[j], i, j, r[j]);
    assert forall k :: 0 <= k < |c| ==> Holds(c[k], row, k, s[k]);
    if row == i && j >= 1 {
      assert c[1..][j - 1] == d[j];
    }
  }

  /** The overflow entries are all the entries behind the heads, and no others. */
  lemma {:induction false} OverflowExact(buckets: array<Entry>, l: Layout, n: nat, i: nat, j: nat)
    requires Carries(buckets, l) && n <= |l.nodes| && i < |l.nodes| && j < |l.nodes[i]|
    ensures l.nodes[i][j] in Overflow(l.nodes, n) <==> i < n && j >= 1
  {
    if n > 0 {
      OverflowExact(buckets, l, n - 1, i, j);
      ChainOf(buckets, l, n - 1);
      ChainOf(buckets, l, i);
      AtPlace(l.nodes[n - 1], n - 1, l.table[n - 1], l.nodes[i], i, l.table[i], j);
    }
  }

  /** The fields after an insertion make up its state. */
  lemma InsertValue(cb: Callbacks, s: State, k: Pointer, v: Pointer, inc: int, keys: seq<Pointer>, values: seq<Pointer>)
    requires |s.table| > 0
    requires var prev := Lookup(cb, s.table, k);
      && inc == (if prev.Live? then 0 else 1)
      && keys == LogKeys(s.keysFreed, cb.keyFree, PairOf(prev))
      && values == LogValues(s.valuesFreed, cb.valueFree, PairOf(prev))
    ensures States.Insert(cb, s, k, v) == State(PutRow(cb, s.table, k, v), s.size + inc, s.nextSize, keys, values)
  {
  }

  class NcHashmap {
    var size: int
    var nextSize: int
    var nBuckets: int
    var buckets: array<Entry>
    const relink: Relink

    /** The callbacks, reading what the keys point at now: between calls a caller may assign this field
        to say how memory has changed. */
    var cb: Callbacks

    /** The pointers handed to key_free and value_free so far. */
    var keysFreed: seq<Pointer>
    var valuesFreed: seq<Pointer>

    ghost var layout: Layout

    ghost predicate Valid()
      reads this, buckets, layout.repr
    {
      && nBuckets == |layout.table| > 0
      && Carries(buckets, layout)
    }

    ghost function Value(): State
      reads this
    {
      State(layout.table, size, nextSize, keysFreed, valuesFreed)
    }

    constructor (cb: Callbacks, relink: Relink)
      ensures Valid() && Value() == New() && this.cb == cb && this.relink == relink
      ensures fresh(buckets) && fresh(layout.repr)
    {
      this.cb, this.relink := cb, relink;
      keysFreed, valuesFreed, size := [], [], 0;
      nBuckets := INITIAL_SIZE;
      nextSize := Threshold(INITIAL_SIZE);
      var b, l := NewBuckets(INITIAL_SIZE);
      buckets, layout := b, l;
    }

    // -------------------------------------------------------------- insertion

    /** From the given records on, with `nuke`, exactly the pairs es have gone to the cleanup callbacks. */
    ghost predicate CleanedUp(keys: seq<Pointer>, values: seq<Pointer>, nuke: bool, es: seq<Pair>)
      reads this
    {
      && keysFreed == LogKeys(keys, nuke && cb.keyFree, es)
      && valuesFreed == LogValues(values, nuke && cb.valueFree, es)
    }

    method FreePair(key: Pointer, value: Pointer)
      modifies this`keysFreed, this`valuesFreed
      ensures keysFreed == LogKeys(old(keysFreed), cb.keyFree, [(key, value)])
      ensures valuesFreed == LogValues(old(valuesFreed), cb.valueFree, [(key, value)])
    {
      assert Keys([(key, value)]) == [key] && Values([(key, value)]) == [value];
      if cb.valueFree {
        valuesFreed := valuesFreed + [value];
      }
      if cb.keyFree {
        keysFreed := keysFreed + [key];
      }
    }

    /** The loop of nc_hashmap_insert_bucket: the entry that matches, or the last entry and the last
        free entry of the chain. */
    method Scan(first: Entry, key: Pointer, ghost c: seq<Entry>, ghost b: nat, ghost s: Chain)
      returns (found: Entry?, parent: Entry, tomb: Entry?)
      requires Chained(c, b, Linked(s, -1)) && c[0] == first
      ensures found == if Find(cb, s, key) < |c| then c[Find(cb, s, key)] else null
      ensures found == null ==> parent == c[|c| - 1]
      ensures found == null ==> tomb == if LastVacant(s) == -1 then null else c[LastVacant(s)]
    {
      var row: Entry? := first;
      parent := first;
      tomb := null;
      found := null;
      ghost var j := 0;
      while row != null
        invariant 0 <= j <= |c|
        invariant row == if j < |c| then c[j] else null
        invariant parent == if j == 0 then c[0] else c[j - 1]
        invariant tomb == if LastVacant(s[..j]) == -1 then null else c[LastVacant(s[..j])]
        invariant forall i :: 0 <= i < j ==> !Matches(cb, s[i], key)
        decreases |c| - j
      {
        assert Holds(c[j], b, j, s[j]);
        assert s[..j + 1][..j] == s[..j];
        if !row.occ {
          tomb := row;
        }
        parent := row;
        if row.occ && cb.compare(row.hash, key) {
          found := row;
          return;
        }
        row := row.next;
        j := j + 1;
      }
      assert s[..|s|] == s;
    }

    /** Fill an entry of the chain. */
    method Fill(row: Entry, key: Pointer, value: Pointer,
                ghost c: seq<Entry>, ghost b: nat, ghost s: Chain, ghost i: nat)
      requires Chained(c, b, Linked(s, -1)) && i < |c| && c[i] == row
      modifies row
      ensures row.next == old(row.next)
      ensures Chained(c, b, Linked(s[i := Live(key, value)], -1))
    {
      row.hash := key;
      row.value := value;
      row.occ := true;
    }

    /** Point the last entry of the chain back at one of its entries. */
    method LinkBack(parent: Entry, row: Entry, ghost c: seq<Entry>, ghost b: nat, ghost s: Chain, ghost i: nat)
      requires Chained(c, b, Linked(s, -1)) && i < |c| && c[i] == row && c[|c| - 1] == parent
      modifies parent`next
      ensures Chained(c, b, Linked(s, i))
    {
      parent.next := row;
    }

    /** Append a newly allocated entry. */
    method LinkNew(parent: Entry, key: Pointer, value: Pointer, ghost c: seq<Entry>, ghost b: nat, ghost s: Chain)
      returns (row: Entry)
      requires Chained(c, b, Linked(s, -1)) && c[|c| - 1] == parent
      modifies parent`next
      ensures fresh(row) && Chained(c + [row], b, Linked(s + [Live(key, value)], -1))
    {
      row := new Entry(b, |c|);
      row.hash := key;
      row.value := value;
      row.occ := true;
      parent.next := row;
    }

    /** nc_hashmap_insert_bucket on the chain of bucket b; c and s are its entries and slots. */
    method InsertChain(first: Entry, key: Pointer, value: Pointer, ghost c: seq<Entry>, ghost b: nat, ghost s: Chain)
      returns (ret: int, ghost c': seq<Entry>)
      requires Chained(c, b, Linked(s, -1)) && c[0] == first
      modifies c, this`keysFreed, this`valuesFreed
      ensures Chained(c', b, Inserted(relink, cb, s, key, value))
      ensures c' == c || (|c'| == |c| + 1 && c' == c + [c'[|c|]] && fresh(c'[|c|]))
      ensures ret == if Found(cb, s, key).Live? then 0 else 1
      ensures CleanedUp(old(keysFreed), old(valuesFreed), true, PairOf(Found(cb, s, key)))
    {
      var found, parent, tomb := Scan(first, key, c, b, s);
      c' := c;
      if found != null {
        assert Holds(found, b, Find(cb, s, key), s[Find(cb, s, key)]);
        FreePair(found.hash, found.value);
        Fill(found, key, value, c, b, s, Find(cb, s, key));
        return 0, c;
      }
      LogNothing(keysFreed, []);
      LogNothing(valuesFreed, []);
      if tomb != null {
        Fill(tomb, key, value, c, b, s, LastVacant(s));
        if relink.SourceRule? && parent != tomb {
          LinkBack(parent, tomb, c, b, s[LastVacant(s) := Live(key, value)], LastVacant(s));
        }
      } else {
        var row := LinkNew(parent, key, value, c, b, s);
        c' := c + [row];
      }
      ret := 1;
    }

    /** nc_hashmap_insert_bucket; b is the bucket of the hash. */
    method InsertBucket(buckets: array<Entry>, nBuckets: int, hash: Unsigned, key: Pointer, value: Pointer,
                        ghost l: Layout, ghost b: nat)
      returns (ret: int, ghost l': Layout)
      requires Carries(buckets, l) && nBuckets == |l.table| > 0 && b == hash % nBuckets
      modifies l.repr, this`keysFreed, this`valuesFreed
      ensures |l'.nodes| == |l.nodes| && l'.nodes == l.nodes[b := l'.nodes[b]] && fresh(l'.repr - l.repr)
      ensures l'.table == l.table[b := ChainPut(cb, l.table[b], key, value)]
      ensures Chained(l'.nodes[b], b, Inserted(relink, cb, l.table[b], key, value))
      ensures !Closes(relink, cb, l.table[b], key) ==> Carries(buckets, l')
      ensures ret == if Found(cb, l.table[b], key).Live? then 0 else 1
      ensures CleanedUp(old(keysFreed), old(valuesFreed), true, PairOf(Found(cb, l.table[b], key)))
    {
      ghost var c, s := l.nodes[b], l.table[b];
      ghost var c';
      ChainOf(buckets, l, b);
      ret, c' := InsertChain(buckets[hash % nBuckets], key, value, c, b, s);
      CircleIsBack(relink, cb, s, key, value);
      ghost var now := Inserted(relink, cb, s, key, value);
      l' := Layout(l.nodes[b := c'], l.repr + (if c' == c then {} else {c'[|c|]}), l.table[b := now.slots]);
      if now.back == -1 {
        assert now == Linked(now.slots, -1);
        RowReplaced(Built(buckets, l), l', b);
      }
    }

    // -------------------------------------------------------------- resize

    /** The inner loop body of the resize: an occupied entry goes into the new array. */
    method MoveEntry(entry: Entry, newBuckets: array<Entry>, newSize: int,
                     ghost s: Slot, ghost goal: Table, ghost l: Layout)
      returns (incr: int, ghost l': Layout)
      requires entry.occ == s.Live? && entry.hash == StoredKey(s) && entry.value == StoredValue(s)
      requires Carries(newBuckets, l) && newSize == |l.table| && Moves(cb, l.table, s, goal)
      modifies l.repr, this`keysFreed, this`valuesFreed
      ensures Carries(newBuckets, l') && l'.table == goal
      ensures incr == |PairOf(s)|
      ensures fresh(l'.repr - l.repr)
      ensures keysFreed == old(keysFreed) && valuesFreed == old(valuesFreed)
    {
      incr := 0;
      l' := l;
      if entry.occ {
        LogNothing(keysFreed, []);
        LogNothing(valuesFreed, []);
        var hash := cb.hash(entry.hash);
        incr, l' := InsertBucket(newBuckets, newSize, hash, entry.hash, entry.value, l, hash % newSize);
        if incr <= 0 {
          assert false;
        }
      }
    }

    /** One round of the loop below. */
    method MoveNext(entry: Entry, newBuckets: array<Entry>, newSize: int, ghost c: seq<Entry>, ghost i: nat,
                    ghost s: Chain, ghost ts: seq<Table>, ghost j: nat, ghost l: Layout)
      returns (next: Entry?, incr: int, ghost l': Layout)
      requires Chained(c, i, Linked(s, -1)) && j < |c| && c[j] == entry
      requires forall k :: 0 <= k < |c| ==> c[k] !in l.repr
      requires Carries(newBuckets, l) && newSize == |l.table| && MovesAll(cb, s, ts) && l.table == ts[j]
      modifies l.repr, this`keysFreed, this`valuesFreed
      ensures Chained(c, i, Linked(s, -1)) && forall k :: 0 <= k < |c| ==> c[k] !in l'.repr
      ensures Carries(newBuckets, l') && l'.table == ts[j + 1]
      ensures next == (if j + 1 < |c| then c[j + 1] else null) && incr == |PairOf(s[j])|
      ensures fresh(l'.repr - l.repr)
      ensures keysFreed == old(keysFreed) && valuesFreed == old(valuesFreed)
    {
      NextEntry(c, i, s, j);
      incr, l' := MoveEntry(entry, newBuckets, newSize, s[j], ts[j + 1], l);
      StillChained(c, i, Linked(s, -1));
      next := entry.next;
    }

    /** The inner loop of the resize: move the occupied entries of bucket i. The tables ts are those the
        new array carries before each entry and at the end. */
    method MoveChain(first: Entry, newBuckets: array<Entry>, newSize: int,
                     ghost c: seq<Entry>, ghost i: nat, ghost s: Chain, ghost ts: seq<Table>, ghost l: Layout)
      returns (items: int, ghost l': Layout)
      requires Chained(c, i, Linked(s, -1)) && c[0] == first
      requires MovesAll(cb, s, ts)
      requires Carries(newBuckets, l) && newSize == |l.table| > 0 && l.table == ts[0]
      requires forall k :: 0 <= k < |c| ==> c[k] !in l.repr
      modifies l.repr, this`keysFreed, this`valuesFreed
      ensures Carries(newBuckets, l') && l'.table == ts[|s|]
      ensures items == |LivePairs(s)|
      ensures fresh(l'.repr - l.repr)
      ensures keysFreed == old(keysFreed) && valuesFreed == old(valuesFreed)
    {
      var entry: Entry? := first;
      items := 0;
      l' := l;
      ghost var j := 0;
      while entry != null
        invariant 0 <= j <= |c| && entry == if j < |c| then c[j] else null
        invariant Chained(c, i, Linked(s, -1)) && forall k :: 0 <= k < |c| ==> c[k] !in l'.repr
        invariant Carries(newBuckets, l') && newSize == |l'.table| && l'.table == ts[j]
        invariant fresh(l'.repr - l.repr)
        invariant items == |LivePairs(s[..j])|
        invariant keysFreed == old(keysFreed) && valuesFreed == old(valuesFreed)
        decreases |c| - j
      {
        var incr;
        entry, incr, l' := MoveNext(entry, newBuckets, newSize, c, i, s, ts, j, l');
        LivePairsNext(s, j);
        items := items + incr;
        j := j + 1;
      }
      assert s[..|s|] == s;
    }

    /** The same with the pairs es and those of the first j slots of s. */
    ghost predicate CleanedTo(keys: seq<Pointer>, values: seq<Pointer>, nuke: bool, es: seq<Pair>, s: Chain, j: nat)
      reads this
      requires j <= |s|
    {
      CleanedUp(keys, values, nuke, es + LivePairs(s[..j]))
    }

    /** With `nuke`, the pair of an occupied entry goes to the cleanup callbacks. */
    method CleanEntry(row: Entry, nuke: bool, ghost keys: seq<Pointer>, ghost values: seq<Pointer>,
                      ghost es: seq<Pair>, ghost s: Slot)
      requires CleanedUp(keys, values, nuke, es)
      requires row.occ == s.Live? && row.hash == StoredKey(s) && row.value == StoredValue(s)
      modifies this`keysFreed, this`valuesFreed
      ensures CleanedUp(keys, values, nuke, es + PairOf(s))
    {
      LogNothing(keysFreed, PairOf(s));
      LogNothing(valuesFreed, PairOf(s));
      LogConcat(keys, nuke && cb.keyFree, es, PairOf(s));
      LogConcat(values, nuke && cb.valueFree, es, PairOf(s));
      if nuke && row.occ {
        FreePair(row.hash, row.value);
      }
    }

    /** One round of the loop below: an entry after the inline head is freed. */
    method FreeEntry(tmp: Entry, root: Entry, nuke: bool, ghost c: seq<Entry>, ghost b: nat, ghost s: Chain,
                     ghost j: nat, ghost keys: seq<Pointer>, ghost values: seq<Pointer>, ghost es: seq<Pair>)
      returns (bk: Entry?)
      requires Chained(c, b, Linked(s, -1)) && j < |c| && c[j] == tmp && c[0] == root
      requires CleanedTo(keys, values, nuke, es, s, j)
      modifies this`keysFreed, this`valuesFreed
      ensures Chained(c, b, Linked(s, -1))
      ensures bk == if j + 1 < |c| then c[j + 1] else null
      ensures tmp == root <==> j == 0
      ensures CleanedTo(keys, values, nuke, es, s, j + 1)
    {
      NextEntry(c, b, s, j);
      FirstEntry(c, b, s, j);
      LivePairsNext(s, j);
      bk := tmp.next;
      CleanEntry(tmp, nuke, keys, values, es + LivePairs(s[..j]), s[j]);
      assert es + LivePairs(s[..j]) + PairOf(s[j]) == es + LivePairs(s[..j + 1]);
    }

    /** nc_hashmap_free_bucket: with `nuke`, the occupied pairs go to the cleanup callbacks, after the pairs
        es of other buckets; the entries after the inline head are freed, in order, and nothing is written
        to any entry. */
    method FreeBucket(bucket: Entry, nuke: bool, ghost c: seq<Entry>, ghost b: nat, ghost s: Chain,
                      ghost keys: seq<Pointer>, ghost values: seq<Pointer>, ghost es: seq<Pair>)
      returns (ghost freed: seq<Entry>)
      requires Chained(c, b, Linked(s, -1)) && c[0] == bucket && CleanedUp(keys, values, nuke, es)
      modifies this`keysFreed, this`valuesFreed
      ensures freed == c[1..]
      ensures CleanedUp(keys, values, nuke, es + LivePairs(s))
    {
      var tmp: Entry? := bucket;
      var root := bucket;
      ghost var j := 0;
      freed := [];
      assert es + LivePairs(s[..0]) == es;
      while tmp != null
        invariant 0 <= j <= |c| && tmp == if j < |c| then c[j] else null
        invariant Chained(c, b, Linked(s, -1)) && freed == OverflowTo(c, j)
        invariant CleanedTo(keys, values, nuke, es, s, j)
        decreases |c| - j
      {
        OverflowNext(c, j);
        var bk := FreeEntry(tmp, root, nuke, c, b, s, j, keys, values, es);
        if tmp != root {
          freed := freed + [tmp];
        }
        tmp := bk;
        j := j + 1;
      }
      assert s[..|s|] == s;
    }

    /** Every bucket through nc_hashmap_free_bucket: the last loop of a resize, with `nuke` false, and of
        nc_hashmap_free, with `nuke` true. */
    method FreeBuckets(buckets: array<Entry>, nBuckets: int, nuke: bool) returns (ghost freed: seq<Entry>)
      requires Carries(buckets, layout) && nBuckets == |layout.table|
      modifies this`keysFreed, this`valuesFreed
      ensures freed == Overflow(layout.nodes, |layout.nodes|) && Different(freed)
      ensures CleanedUp(old(keysFreed), old(valuesFreed), nuke, Entries(layout.table))
    {
      ghost var nodes, t := layout.nodes, layout.table;
      ghost var keys, values := keysFreed, valuesFreed;
      ghost var es: seq<Pair> := [];
      freed := [];
      OverflowDiffers(buckets, layout, nBuckets);
      LogNothing(keys, []);
      LogNothing(values, []);
      for i := 0 to nBuckets
        invariant freed == Overflow(nodes, i)
        invariant es == Entries(t[..i]) && CleanedUp(keys, values, nuke, es)
      {
        ChainOf(buckets, layout, i);
        ghost var f := FreeBucket(buckets[i], nuke, nodes[i], i, t[i], keys, values, es);
        ScanRow(t, i);
        es := es + LivePairs(t[i]);
        freed := freed + f;
      }
      assert t[..nBuckets] == t;
    }

    /** One round of the loop below. */
    method MoveRow(oldBuckets: array<Entry>, i: int, newBuckets: array<Entry>, newSize: int,
                   ghost was: Layout, ghost l: Layout)
      returns (moved: int, ghost l': Layout)
      requires Carries(oldBuckets, was) && 0 <= i < |was.table| && was.repr !! l.repr
      requires newSize > 0 && AllFresh(cb, Entries(was.table), newSize)
      requires Carries(newBuckets, l) && l.table == Rehash(cb, Entries(was.table[..i]), newSize)
      modifies l.repr, this`keysFreed, this`valuesFreed
      ensures Carries(oldBuckets, was) && was.repr !! l'.repr
      ensures Carries(newBuckets, l') && l'.table == Rehash(cb, Entries(was.table[..i + 1]), newSize)
      ensures |Entries(was.table[..i + 1])| == |Entries(was.table[..i])| + moved
      ensures fresh(l'.repr - l.repr)
      ensures keysFreed == old(keysFreed) && valuesFreed == old(valuesFreed)
    {
      ChainOf(oldBuckets, was, i);
      ghost var ts := RowTables(cb, was.table, i, newSize);
      moved, l' := MoveChain(oldBuckets[i], newBuckets, newSize, was.nodes[i], i, was.table[i], ts, l);
      StillCarries(Built(oldBuckets, was));
    }

    /** The first loop of the resize. */
    method MoveAll(oldBuckets: array<Entry>, oldSize: int, newBuckets: array<Entry>, newSize: int,
                   ghost was: Layout, ghost start: Layout)
      returns (items: int, ghost l: Layout)
      requires Carries(oldBuckets, was) && oldSize == |was.table|
      requires newSize > 0 && Carries(newBuckets, start) && start.table == Empty(newSize)
      requires AllFresh(cb, Entries(was.table), newSize)
      requires was.repr !! start.repr
      modifies start.repr, this`keysFreed, this`valuesFreed
      ensures Carries(newBuckets, l) && l.table == Rehash(cb, Entries(was.table), newSize)
      ensures items == |Entries(was.table)|
      ensures fresh(l.repr - start.repr)
      ensures keysFreed == old(keysFreed) && valuesFreed == old(valuesFreed)
    {
      items := 0;
      l := start;
      for i := 0 to oldSize
        invariant Carries(oldBuckets, was) && was.repr !! l.repr
        invariant Carries(newBuckets, l) && l.table == Rehash(cb, Entries(was.table[..i]), newSize)
        invariant fresh(l.repr - start.repr)
        invariant items == |Entries(was.table[..i])|
        invariant keysFreed == old(keysFreed) && valuesFreed == old(valuesFreed)
      {
        var moved;
        moved, l := MoveRow(oldBuckets, i, newBuckets, newSize, was, l);
        items := items + moved;
      }
      assert was.table[..oldSize] == was.table;
    }

    /** The closing assignments of the resize. */
    method Install(newBuckets: array<Entry>, newSize: int, items: int, ghost l: Layout)
      requires Carries(newBuckets, l) && newSize == |l.table| > 0
      modifies this
      ensures Valid() && buckets == newBuckets && layout == l
      ensures cb == old(cb)
      ensures Value() == State(l.table, items, Threshold(newSize), old(keysFreed), old(valuesFreed))
    {
      nBuckets := newSize;
      size := items;
      buckets := newBuckets;
      nextSize := Threshold(newSize);
      layout := l;
    }

    /** The last loop of the resize. */
    method FreeOld() returns (ghost freed: seq<Entry>)
      requires Valid()
      modifies this`keysFreed, this`valuesFreed
      ensures freed == Overflow(layout.nodes, |layout.nodes|) && Different(freed)
      ensures keysFreed == old(keysFreed) && valuesFreed == old(valuesFreed)
    {
      LogNothing(keysFreed, Entries(layout.table));
      LogNothing(valuesFreed, Entries(layout.table));
      freed := FreeBuckets(buckets, nBuckets, false);
    }

    /** nc_hashmap_resize. It also reports, for the specification, the entries it frees and how many it
        inserted into the new array. */
    method Resize() returns (ok: bool, ghost freed: seq<Entry>, ghost moved: int)
      requires Valid() && AllFresh(cb, Entries(layout.table), INCREASE_FACTOR * |layout.table|)
      modifies this
      ensures ok && Valid() && Value() == States.Resize(cb, old(Value()))
      ensures cb == old(cb)
      ensures fresh(buckets) && fresh(layout.repr)
      ensures freed == Overflow(old(layout).nodes, |old(layout).nodes|) && Different(freed)
      ensures moved == |Entries(old(layout).table)|
    {
      var newSize := INCREASE_FACTOR * nBuckets;
      var newBuckets, l := NewBuckets(newSize);
      var items;
      items, l := MoveAll(buckets, nBuckets, newBuckets, newSize, layout, l);
      moved := items;
      StillCarries(Built(buckets, layout));
      label moved:
      freed := FreeOld();
      StillCarries@moved(Built(newBuckets, l));
      Install(newBuckets, newSize, items, l);
      ok := true;
    }

    // -------------------------------------------------------------- the public operations

    /** The first half of a put: resize at the load threshold. */
    method Grow() returns (ok: bool, ghost moved: int)
      requires Valid() && Legal(cb) && Inv(cb, Value())
      modifies this
      ensures ok && Valid() && Value() == Grown(cb, old(Value()))
      ensures cb == old(cb)
      ensures fresh(layout.repr - old(layout.repr))
      ensures moved == if old(size) >= old(nextSize) then |Entries(old(layout).table)| else 0
    {
      moved := 0;
      if size >= nextSize {
        ResizeKeeps(cb, Value());
        var grown;
        ghost var freed;
        grown, freed, moved := Resize();
        if !grown {
          assert false;
        }
      }
      ok := true;
    }

    /** The counter after an insertion into bucket b, which left its chain as `now` says. */
    method Record(inc: int, ghost l: Layout, ghost b: nat, ghost now: Linked)
      requires nBuckets == |l.table| == |l.nodes| && b < |l.nodes|
      requires Chained(l.nodes[b], b, now) && (now.back == -1 ==> Carries(buckets, l))
      modifies this`layout, this`size
      ensures layout == l && size == old(size) + inc && Chained(l.nodes[b], b, now)
      ensures Valid() <==> now.back == -1
    {
      if now.back != -1 {
        assert l.nodes[b][|l.nodes[b]| - 1].next != null;
        assert Carries(buckets, l) ==> Chained(l.nodes[b], b, Linked(l.table[b], -1));
      }
      layout := l;
      size := size + inc;
    }

    /** The second half: insert into the current array. */
    method Insert(key: Pointer, value: Pointer) returns (ok: bool)
      requires Valid()
      modifies this, layout.repr
      ensures ok && fresh(layout.repr - old(layout.repr))
      ensures Value() == States.Insert(cb, old(Value()), key, value)
      ensures cb == old(cb)
      ensures var t := old(layout.table); var b := Row(cb, t, key);
        b < |layout.nodes| && Chained(layout.nodes[b], b, Inserted(relink, cb, t[b], key, value))
      ensures Valid() <==> !Closes(relink, cb, old(layout.table)[Row(cb, old(layout.table), key)], key)
    {
      ghost var t := layout.table;
      ghost var b := Row(cb, t, key);
      var hash := cb.hash(key);
      var inc, l := InsertBucket(buckets, nBuckets, hash, key, value, layout, b);
      assert l.table == PutRow(cb, t, key, value) && Found(cb, t[b], key) == Lookup(cb, t, key);
      CircleIsBack(relink, cb, t[b], key, value);
      InsertValue(cb, old(Value()), key, value, inc, keysFreed, valuesFreed);
      Record(inc, l, b, Inserted(relink, cb, t[b], key, value));
      ok := inc >= 0;
    }

    /** nc_hashmap_put. With the source's relinking the map stays valid exactly when the guard of
        Relinking.PutSafe holds; the bucket's chain is described either way. For the specification it reports
        how many entries a resize inserted into a new array. */
    method Put(key: Pointer, value: Pointer) returns (ok: bool, ghost moved: int)
      requires Valid() && Legal(cb) && Inv(cb, Value())
      modifies this, layout.repr
      ensures ok && fresh(layout.repr - old(layout.repr))
      ensures Value() == States.Put(cb, old(Value()), key, value)
      ensures cb == old(cb)
      ensures var t := Grown(cb, old(Value())).table; var b := Row(cb, t, key);
        b < |layout.nodes| && Chained(layout.nodes[b], b, Inserted(relink, cb, t[b], key, value))
      ensures Valid() <==> relink.FreshOnly? || PutSafe(cb, old(Value()), key)
      ensures moved == if old(size) >= old(nextSize) then |Entries(old(layout).table)| else 0
    {
      ok, moved := Grow();
      if !ok {
        return;
      }
      ok := Insert(key, value);
    }

    /** nc_hashmap_get_entry: the entry the lookup stops at, and its place. */
    method GetEntry(key: Pointer) returns (row: Entry?, ghost i: nat)
      requires Valid()
      ensures i == EntryOf(cb, Value(), key)
      ensures var b := Row(cb, layout.table, key);
        i <= |layout.nodes[b]| == |layout.table[b]| && row == if i < |layout.nodes[b]| then layout.nodes[b][i] else null
    {
      ghost var b := Row(cb, layout.table, key);
      ghost var c, s := layout.nodes[b], layout.table[b];
      var hash := cb.hash(key);
      row := buckets[hash % nBuckets];
      ChainOf(buckets, layout, b);
      i := 0;
      while row != null
        invariant i <= |c| && row == if i < |c| then c[i] else null
        invariant forall j :: 0 <= j < i ==> !cb.compare(StoredKey(s[j]), key)
        decreases |c| - i
      {
        assert Holds(c[i], b, i, s[i]);
        if cb.compare(row.hash, key) {
          return;
        }
        row := row.next;
        i := i + 1;
      }
    }

    method Get(key: Pointer) returns (value: Pointer)
      requires Valid()
      ensures value == States.Get(cb, Value(), key)
    {
      ghost var b := Row(cb, layout.table, key);
      ChainOf(buckets, layout, b);
      var row, i := GetEntry(key);
      if row != null {
        assert Holds(row, b, i, layout.table[b][i]);
        return row.value;
      }
      value := NULL;
    }

    method Contains(key: Pointer) returns (found: bool)
      requires Valid()
      ensures found <==> States.Get(cb, Value(), key) != NULL
    {
      var value := Get(key);
      found := value != NULL;
    }

    method Size() returns (n: int)
      ensures n == Value().size
    {
      n := size;
    }

    /** Clear an entry of the chain; it stays linked. */
    method Clear(row: Entry, ghost c: seq<Entry>, ghost b: nat, ghost s: Chain, ghost i: nat)
      requires Chained(c, b, Linked(s, -1)) && i < |c| && c[i] == row
      modifies row
      ensures Chained(c, b, Linked(s[i := Vacant], -1))
    {
      row.hash := NULL;
      row.value := NULL;
      row.occ := false;
    }

    method ClearAt(row: Entry, ghost b: nat, ghost i: nat)
      requires Valid() && b < |layout.table| && i < |layout.nodes[b]| && row == layout.nodes[b][i]
      modifies this`layout, layout.repr
      ensures Valid() && layout == old(layout).(table := old(layout).table[b := old(layout).table[b][i := Vacant]])
    {
      ghost var c, s := layout.nodes[b], layout.table[b];
      ChainOf(buckets, layout, b);
      Clear(row, c, b, s, i);
      ghost var l := layout.(table := layout.table[b := s[i := Vacant]]);
      RowReplaced(Built(buckets, layout), l, b);
      layout := l;
    }

    /** Free the pair of entry i of bucket b, unless it is stolen, and clear the entry. */
    method TakeOut(row: Entry, remove: bool, ghost b: nat, ghost i: nat)
      requires Valid() && b < |layout.table| && i < |layout.nodes[b]| == |layout.table[b]| && row == layout.nodes[b][i]
      modifies this`keysFreed, this`valuesFreed, this`size, this`layout, layout.repr
      ensures Valid() && layout.nodes == old(layout.nodes) && layout.repr == old(layout.repr)
      ensures Value() == TakenOut(cb, old(Value()), b, i, remove)
    {
      ChainOf(buckets, layout, b);
      assert Holds(row, b, i, layout.table[b][i]);
      if remove {
        FreePair(row.hash, row.value);
      }
      size := size - 1;
      ClearAt(row, b, i);
    }

    /** nc_hashmap_remove_internal: `remove` and, with the flag false, `steal`. */
    method Remove(key: Pointer, remove: bool) returns (ok: bool)
      requires Valid()
      modifies this, layout.repr
      ensures Valid() && (Value(), ok) == States.Remove(cb, old(Value()), key, remove)
      ensures layout.nodes == old(layout.nodes) && layout.repr == old(layout.repr) && buckets == old(buckets)
      ensures cb == old(cb)
    {
      var row, i := GetEntry(key);
      if row == null {
        return false;
      }
      TakeOut(row, remove, Row(cb, layout.table, key), i);
      ok := true;
    }

    /** nc_hashmap_free: every pair still held goes to the cleanup callbacks, every overflow entry to free. */
    method Free() returns (ghost freed: seq<Entry>)
      requires Valid()
      modifies this`keysFreed, this`valuesFreed
      ensures Value() == States.Free(cb, old(Value()))
      ensures freed == Overflow(layout.nodes, |layout.nodes|) && Different(freed)
    {
      freed := FreeBuckets(buckets, nBuckets, true);
    }
  }

  class NcHashmapIter {
    var bucket: int
    var owner: NcHashmap
    var item: Entry?

    /** The same fields as a value: which entry `item` is. */
    ghost var at: Iteration.Item

    ghost function Cursor(): Iteration.Cursor
      reads this
    {
      Iteration.Cursor(bucket, at)
    }

    ghost predicate Valid()
      reads this, owner, owner.buckets, owner.layout.repr
    {
      && owner.Valid()
      && Iteration.CursorOk(owner.layout.table, Cursor())
      && Stands(owner.layout, item, at)
    }

    /** nc_hashmap_iter_init */
    constructor (owner: NcHashmap)
      requires owner.Valid()
      ensures Valid() && this.owner == owner && Iteration.Position(owner.layout.table, Cursor()) == 0
    {
      this.owner := owner;
      bucket, item, at := -1, null, Iteration.NoItem;
    }

    /** Where the loop below stops: at the next live entry, or with nothing left past the last bucket. */
    ghost predicate Stop(found: Entry?, b: int, there: Iteration.Item, q: nat)
      reads this, owner, owner.buckets, owner.layout.repr
      requires owner.Valid()
    {
      var t := owner.layout.table;
      if found == null then
        q == |Flat(t)| && b >= |t|
      else
        there.At? && Stands(owner.layout, found, there)
        && t[there.row][there.col].Live? && Iteration.Facing(t, Iteration.Cursor(b, there), q)
    }

    /** How many entries of its chain lie ahead of a cursor item, itself included. */
    ghost function Ahead(item: Iteration.Item): int
      reads this, owner
    {
      if item.At? && item.row < |owner.layout.table| then |owner.layout.table[item.row]| - item.col else 0
    }

    /** No entry to resume from: go to the head of the next bucket, if there is one. */
    method EnterBucket(b: int, ghost q: nat) returns (b': int, row: Entry?, ghost there: Iteration.Item)
      requires owner.Valid() && Iteration.Facing(owner.layout.table, Iteration.Cursor(b, Iteration.NoItem), q)
      ensures b' == b + 1 && (row == null <==> b' >= owner.nBuckets)
      ensures row == null ==> q == |Flat(owner.layout.table)|
      ensures row != null ==> there == Iteration.At(b', 0) && Stands(owner.layout, row, there)
      ensures row != null ==> Iteration.Facing(owner.layout.table, Iteration.Cursor(b', there), q)
    {
      ghost var t := owner.layout.table;
      Iteration.NothingLeft(t, b, q);
      b' := b + 1;
      there := Iteration.NoItem;
      if b' > owner.nBuckets - 1 {
        row := null;
      } else {
        ChainOf(owner.buckets, owner.layout, b');
        Iteration.StepIn(t, b, q);
        row := owner.buckets[b'];
        there := Iteration.At(b', 0);
      }
    }

    /** A free entry: go to the next of its chain. */
    method PassOver(row: Entry, ghost b: int, ghost at: Iteration.Item, ghost q: nat)
      returns (next: Entry?, ghost there: Iteration.Item)
      requires owner.Valid() && at.At? && Stands(owner.layout, row, at) && !row.occ
      requires Iteration.Facing(owner.layout.table, Iteration.Cursor(b, at), q)
      ensures there.At? ==> there.row == at.row && there.col == at.col + 1
      ensures Stands(owner.layout, next, there)
      ensures Iteration.Facing(owner.layout.table, Iteration.Cursor(b, there), q)
    {
      AtEntry(owner.buckets, owner.layout, row, at);
      Iteration.StepOver(owner.layout.table, b, at.row, at.col, q);
      next := row.next;
      there := Iteration.Following(owner.layout.table, at.row, at.col);
    }

    /** One round of the loop below: stop, or go on to a later bucket or further down the chain. */
    method Round(b0: int, row0: Entry?, ghost here: Iteration.Item, ghost q: nat)
      returns (stop: bool, found: Entry?, b: int, row: Entry?, ghost there: Iteration.Item)
      requires owner.Valid() && Iteration.Facing(owner.layout.table, Iteration.Cursor(b0, here), q)
      requires Stands(owner.layout, row0, here)
      ensures stop ==> Stop(found, b, there, q)
      ensures !stop ==>
        Iteration.Facing(owner.layout.table, Iteration.Cursor(b, there), q) && Stands(owner.layout, row, there)
      ensures !stop ==> b0 < b < owner.nBuckets || (b == b0 && 0 <= Ahead(there) < Ahead(here))
    {
      stop, found, b, row, there := true, null, b0, row0, here;
      if b >= owner.nBuckets {
        if row != null && row.next == null {
          Iteration.PastEnd(owner.layout.table, Iteration.Cursor(b, there));
          return;
        }
      }
      if row == null {
        b, row, there := EnterBucket(b, q);
        if row == null {
          return;
        }
      }
      if row.occ {
        OccIsLive(owner.buckets, owner.layout, row, there);
        found := row;
        return;
      }
      stop := false;
      row, there := PassOver(row, b, there, q);
    }

    /** The loop of nc_hashmap_iter_next, on the fields' values: where it stops and the entry it stops at. */
    method Search(ghost here: Iteration.Item, ghost q: nat) returns (found: Entry?, b: int, ghost there: Iteration.Item)
      requires Valid() && here == at && Iteration.Facing(owner.layout.table, Cursor(), q)
      ensures Stop(found, b, there, q)
    {
      var row := item;
      var stop := false;
      b, there, found := bucket, here, null;
      while true
        invariant Iteration.Facing(owner.layout.table, Iteration.Cursor(b, there), q) && Stands(owner.layout, row, there)
        decreases if b < owner.nBuckets then owner.nBuckets - b else 0, Ahead(there)
      {
        stop, found, b, row, there := Round(b, row, there, q);
        if stop {
          return;
        }
      }
    }

    method Store(b: int, item: Entry?, ghost at: Iteration.Item)
      requires owner.Valid() && Iteration.CursorOk(owner.layout.table, Iteration.Cursor(b, at))
      requires Stands(owner.layout, item, at)
      modifies this
      ensures Valid() && owner == old(owner) && Cursor() == Iteration.Cursor(b, at)
    {
      bucket := b;
      this.item := item;
      this.at := at;
    }

    /** nc_hashmap_iter_next: yields the first occupied entry at or after the cursor in scan order and
        stands right behind it; when there is none it fails and will keep failing. */
    method Next() returns (ok: bool, key: Pointer, value: Pointer)
      requires Valid()
      modifies this
      ensures Valid() && owner == old(owner)
      ensures var t := owner.layout.table; var c := Flat(t);
        var q := Iteration.NextLive(c, old(Iteration.Position(t, Cursor())));
        && (ok <==> q < |c|)
        && (ok ==> Live(key, value) == c[q] && Iteration.Position(t, Cursor()) == q + 1)
        && (!ok ==> Iteration.NextLive(c, Iteration.Position(t, Cursor())) == |c|)
    {
      ghost var t := owner.layout.table;
      var row, b, there := Search(at, Iteration.NextLive(Flat(t), Iteration.Position(t, Cursor())));
      if row == null {
        Iteration.Failed(t, Cursor(), b);
        Store(b, item, at);
        return false, NULL, NULL;
      }
      AtEntry(owner.buckets, owner.layout, row, there);
      Iteration.StopAt(t, b, there.row, there.col);
      ok, key, value := true, row.hash, row.value;
      Store(b, row.next, Iteration.Following(t, there.row, there.col));
    }
  }

  /** A removal between two calls, which clears entries in place, leaves the iterator valid and where it is. */
  twostate lemma IterSurvives(it: NcHashmapIter)
    requires old(it.Valid()) && unchanged(it) && it.owner.Valid()
    requires it.owner.layout.nodes == old(it.owner.layout.nodes)
    requires Iteration.Cleared(Flat(old(it.owner.layout.table)), Flat(it.owner.layout.table))
    requires forall i :: 0 <= i < |it.owner.layout.table| ==>
      i < |old(it.owner.layout.table)| && |it.owner.layout.table[i]| == |old(it.owner.layout.table)[i]|
    requires |it.owner.layout.table| == |old(it.owner.layout.table)|
    ensures it.Valid()
    ensures Iteration.Position(it.owner.layout.table, it.Cursor())
      == old(Iteration.Position(it.owner.layout.table, it.Cursor()))
  {
    Iteration.CursorStays(old(it.owner.layout.table), it.owner.layout.table, it.Cursor());
  }

  /** nc_hashmap_remove or nc_hashmap_steal in the middle of an iteration. */
  method RemoveDuring(it: NcHashmapIter, key: Pointer, remove: bool) returns (ok: bool)
    requires it.Valid()
    modifies it.owner, it.owner.layout.repr
    ensures it.Valid() && it.owner == old(it.owner)
    ensures it.owner.layout.repr == old(it.owner.layout.repr) && it.owner.buckets == old(it.owner.buckets)
    ensures it.owner.cb == old(it.owner.cb)
    ensures (it.owner.Value(), ok) == States.Remove(it.owner.cb, old(it.owner.Value()), key, remove)
    ensures Iteration.Position(it.owner.layout.table, it.Cursor())
      == old(Iteration.Position(it.owner.layout.table, it.Cursor()))
  {
    Iteration.RemoveClears(it.owner.cb, it.owner.Value(), key, remove);
    ok := it.owner.Remove(key, remove);
    IterSurvives(it);
  }
}
