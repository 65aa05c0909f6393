/** Writing a nested map as INI text and parsing it back, with the value scan as written. */
module IniRoundTrip {
  import opened Options
  import opened Trim
  import opened IniSpec
  import IniLayout

  /** An order in which to write the bindings of a section, and the sections of a file. */
  type Pairs = seq<(string, string)>

  type Doc = seq<(string, Pairs)>

  predicate OneLine(s: string) {
    '\n' !in s && '\0' !in s
  }

  predicate GoodKey(k: string) {
    k != "" && Trimmed(k) && '=' !in k && k[0] !in {'[', '#', ';'} && OneLine(k)
  }

  predicate GoodValue(v: string) {
    Trimmed(v) && OneLine(v)
  }

  /** Section names without newlines; keys and values the notation can carry. */
  predicate Representable(m: Root) {
    forall n :: n in m ==> OneLine(n) && forall k :: k in m[n] ==> GoodKey(k) && GoodValue(m[n][k])
  }

  // ---------------------------------------------------------------- writing

  function HeaderLine(n: string): string {
    "[" + n + "]" + "\n"
  }

  function EntryLine(k: string, v: string): string {
    k + " " + "=" + (" " + v) + "\n"
  }

  function EntryLines(ps: Pairs): seq<string> {
    if ps == [] then [] else EntryLines(ps[..|ps| - 1]) + [EntryLine(ps[|ps| - 1].0, ps[|ps| - 1].1)]
  }

  function Write(doc: Doc): seq<string> {
    if doc == [] then []
    else Write(doc[..|doc| - 1]) + ([HeaderLine(doc[|doc| - 1].0)] + EntryLines(doc[|doc| - 1].1))
  }

  // ---------------------------------------------------------------- what is written

  ghost predicate Lists(ps: Pairs, s: Section) {
    && (forall i :: 0 <= i < |ps| ==> ps[i].0 in s && s[ps[i].0] == ps[i].1)
    && (forall k :: k in s ==> (k, s[k]) in ps)
  }

  /** The document names exactly the sections of m and, in each, exactly its bindings, in some order. */
  ghost predicate ListsRoot(doc: Doc, m: Root) {
    && (forall i :: 0 <= i < |doc| ==> doc[i].0 in m && Lists(doc[i].1, m[doc[i].0]))
    && (forall n :: n in m ==> exists i :: 0 <= i < |doc| && doc[i].0 == n)
  }

  lemma {:induction false} SomePairs(s: Section) returns (ps: Pairs)
    ensures Lists(ps, s)
    decreases |s|
  {
    if s == map[] {
      ps := [];
    } else {
      var k :| k in s;
      var rest := s - {k};
      assert rest.Keys == s.Keys - {k};
      var front := SomePairs(rest);
      ps := front + [(k, s[k])];
      forall t | t in s
        ensures (t, s[t]) in ps
      {
        assert t != k ==> t in rest && (t, rest[t]) in front;
        assert ps[|front|] == (k, s[k]);
      }
    }
  }

  /** Every finite map has an order to be written in. */
  lemma {:induction false} SomeDoc(m: Root) returns (doc: Doc)
    ensures ListsRoot(doc, m)
    decreases |m|
  {
    if m == map[] {
      doc := [];
    } else {
      var n :| n in m;
      var rest := m - {n};
      assert rest.Keys == m.Keys - {n};
      var front := SomeDoc(rest);
      var ps := SomePairs(m[n]);
      doc := front + [(n, ps)];
      forall t | t in m
        ensures exists i :: 0 <= i < |doc| && doc[i].0 == t
      {
        if t == n {
          assert doc[|front|].0 == t;
        } else {
          assert t in rest;
          var i :| 0 <= i < |front| && front[i].0 == t;
          assert doc[i].0 == t;
        }
      }
    }
  }

  // ---------------------------------------------------------------- line by line

  lemma HeaderKind(scan: Scan, n: string)
    ensures Classify(scan, HeaderLine(n)) == Header(n)
  {
    var text := "[" + n + "]";
    IniLayout.ChompEnd(text, "\n");
    StripUnique("", text, "");
    assert "" + text + "" == text;
    assert text[1..|text| - 1] == n;
  }

  lemma KeyBlank(k: string)
    requires Trimmed(k)
    ensures Strip(k + " ") == k
  {
    StripUnique("", k, " ");
    assert "" + k + " " == k + " ";
  }

  lemma ValueBlank(scan: Scan, v: string)
    requires Trimmed(v)
    ensures Chewed(scan, (" " + v)[..Tail(" " + v)]) == v
  {
    var w := " " + v;
    if v == "" {
      TailIs(w, 0);
      assert w[..0] == "";
    } else {
      TailIs(w, |w|);
      LeadIs(w, 1);
      assert w[..|w|] == w;
      ChewExact(w);
      FromEndIsStrip(w);
      StripUnique(" ", v, "");
      assert " " + v + "" == w;
    }
  }

  lemma EntryKind(scan: Scan, k: string, v: string)
    requires GoodKey(k) && GoodValue(v)
    ensures Classify(scan, EntryLine(k, v)) == Assign(k, v)
  {
    KeyBlank(k);
    IniLayout.AssignmentLine(scan, k + " ", " " + v, "\n");
    ValueBlank(scan, v);
  }

  // ---------------------------------------------------------------- section by section

  function AddPairs(s: Section, ps: Pairs): Section {
    if ps == [] then s else AddPairs(s, ps[..|ps| - 1])[ps[|ps| - 1].0 := ps[|ps| - 1].1]
  }

  predicate GoodPairs(ps: Pairs) {
    forall i :: 0 <= i < |ps| ==> GoodKey(ps[i].0) && GoodValue(ps[i].1)
  }

  lemma StepEntry(r: Root, n: string, k: string, v: string)
    requires n in r && k != ""
    ensures Step(Ini(r, Some(n)), Assign(k, v)) == Ok(Ini(r[n := r[n][k := v]], Some(n)))
  {
  }

  lemma RunSnoc(st: Ini, ks: seq<Kind>, k: Kind, i: nat)
    requires Run(st, ks, i).Done? && Step(Run(st, ks, i).ini, k).Ok?
    ensures Run(st, ks + [k], i) == Done(Step(Run(st, ks, i).ini, k).ini)
  {
    RunConcat(st, ks, [k], i);
    assert [k][1..] == [];
  }

  lemma KindsSnoc(scan: Scan, lines: seq<string>, line: string)
    ensures Kinds(scan, lines + [line]) == Kinds(scan, lines) + [Classify(scan, line)]
  {
    KindsConcat(scan, lines, [line]);
    assert [line][1..] == [];
  }

  lemma Overwrite<K, V>(m: map<K, V>, k: K, v: V, v': V)
    ensures m[k := v][k := v'] == m[k := v']
  {
  }

  lemma {:induction false} RunEntries(scan: Scan, r: Root, n: string, ps: Pairs, i: nat)
    requires n in r && GoodPairs(ps)
    ensures Run(Ini(r, Some(n)), Kinds(scan, EntryLines(ps)), i)
      == Done(Ini(r[n := AddPairs(r[n], ps)], Some(n)))
  {
    if ps == [] {
      assert r[n := r[n]] == r;
    } else {
      var front, p := ps[..|ps| - 1], ps[|ps| - 1];
      RunEntries(scan, r, n, front, i);
      EntryKind(scan, p.0, p.1);
      KindsSnoc(scan, EntryLines(front), EntryLine(p.0, p.1));
      var r' := r[n := AddPairs(r[n], front)];
      StepEntry(r', n, p.0, p.1);
      RunSnoc(Ini(r, Some(n)), Kinds(scan, EntryLines(front)), Assign(p.0, p.1), i);
      Overwrite(r, n, AddPairs(r[n], front), AddPairs(r[n], ps));
    }
  }

  /** The map a document describes: repeated sections merge, later values win. */
  function ToRoot(doc: Doc): Root {
    if doc == [] then map[]
    else
      var r, s := ToRoot(doc[..|doc| - 1]), doc[|doc| - 1];
      r[s.0 := AddPairs(SectionOf(r, s.0), s.1)]
  }

  predicate GoodDoc(doc: Doc) {
    forall i :: 0 <= i < |doc| ==> OneLine(doc[i].0) && GoodPairs(doc[i].1)
  }

  lemma RunSection(scan: Scan, st: Ini, n: string, ps: Pairs, i: nat)
    requires GoodPairs(ps)
    ensures Run(st, Kinds(scan, [HeaderLine(n)] + EntryLines(ps)), i)
      == Done(Ini(st.root[n := AddPairs(SectionOf(st.root, n), ps)], Some(n)))
  {
    HeaderKind(scan, n);
    var ls := [HeaderLine(n)] + EntryLines(ps);
    assert ls[1..] == EntryLines(ps);
    var r := if n in st.root then st.root else st.root[n := map[]];
    var ks := Kinds(scan, ls);
    assert ks[0] == Header(n) && ks[1..] == Kinds(scan, EntryLines(ps));
    assert Step(st, ks[0]) == Ok(Ini(r, Some(n)));
    RunEntries(scan, r, n, ps, i + 1);
    Overwrite(st.root, n, map[], AddPairs(r[n], ps));
  }

  lemma AppendSection(scan: Scan, a: seq<string>, n: string, ps: Pairs)
    requires Parse(scan, a).Done? && GoodPairs(ps)
    ensures Parse(scan, a + ([HeaderLine(n)] + EntryLines(ps))) ==
      var r := Parse(scan, a).ini.root;
      Done(Ini(r[n := AddPairs(SectionOf(r, n), ps)], Some(n)))
  {
    var b := [HeaderLine(n)] + EntryLines(ps);
    KindsConcat(scan, a, b);
    RunConcat(START, Kinds(scan, a), Kinds(scan, b), 1);
    RunSection(scan, Parse(scan, a).ini, n, ps, 1 + |a|);
  }

  /** Parsing what was written gives the map the document describes. */
  lemma {:induction false} ParseWrite(scan: Scan, doc: Doc)
    requires GoodDoc(doc)
    ensures Parse(scan, Write(doc)).Done? && Parse(scan, Write(doc)).ini.root == ToRoot(doc)
  {
    if doc != [] {
      var front, s := doc[..|doc| - 1], doc[|doc| - 1];
      ParseWrite(scan, front);
      AppendSection(scan, Write(front), s.0, s.1);
    }
  }

  // ---------------------------------------------------------------- the described map

  lemma {:induction false} AddListed(base: Section, ps: Pairs, s: Section)
    requires forall i :: 0 <= i < |ps| ==> ps[i].0 in s && s[ps[i].0] == ps[i].1
    requires forall k :: k in base ==> k in s && s[k] == base[k]
    ensures forall k :: k in AddPairs(base, ps) ==> k in s && s[k] == AddPairs(base, ps)[k]
    ensures forall i :: 0 <= i < |ps| ==> ps[i].0 in AddPairs(base, ps)
  {
    if ps != [] {
      AddListed(base, ps[..|ps| - 1], s);
      assert forall i :: 0 <= i < |ps| - 1 ==> ps[..|ps| - 1][i] == ps[i];
    }
  }

  lemma AddAll(base: Section, ps: Pairs, s: Section)
    requires Lists(ps, s) && (base == map[] || base == s)
    ensures AddPairs(base, ps) == s
  {
    AddListed(base, ps, s);
    forall k | k in s
      ensures k in AddPairs(base, ps)
    {
      var i :| 0 <= i < |ps| && ps[i] == (k, s[k]);
    }
  }

  lemma {:induction false} ToRootPart(doc: Doc, m: Root)
    requires forall i :: 0 <= i < |doc| ==> doc[i].0 in m && Lists(doc[i].1, m[doc[i].0])
    ensures forall n :: n in ToRoot(doc) ==> n in m && ToRoot(doc)[n] == m[n]
    ensures forall i :: 0 <= i < |doc| ==> doc[i].0 in ToRoot(doc)
  {
    if doc != [] {
      var front, s := doc[..|doc| - 1], doc[|doc| - 1];
      ToRootPart(front, m);
      assert forall i :: 0 <= i < |front| ==> front[i] == doc[i];
      AddAll(SectionOf(ToRoot(front), s.0), s.1, m[s.0]);
    }
  }

  lemma ToRootIs(doc: Doc, m: Root)
    requires ListsRoot(doc, m)
    ensures ToRoot(doc) == m
  {
    ToRootPart(doc, m);
    assert forall n :: n in m ==> n in ToRoot(doc);
  }

  lemma RepresentableDoc(doc: Doc, m: Root)
    requires Representable(m) && ListsRoot(doc, m)
    ensures GoodDoc(doc)
  {
    forall i | 0 <= i < |doc|
      ensures OneLine(doc[i].0) && GoodPairs(doc[i].1)
    {
      var n, ps := doc[i].0, doc[i].1;
      forall j | 0 <= j < |ps|
        ensures GoodKey(ps[j].0) && GoodValue(ps[j].1)
      {
        assert ps[j].0 in m[n];
      }
    }
  }

  lemma WithNewline(s: string)
    requires OneLine(s)
    ensures IsLine(s + "\n")
  {
    assert (s + "\n")[..|s|] == s;
  }

  lemma {:induction false} EntryLinesAre(ps: Pairs)
    requires GoodPairs(ps)
    ensures forall i :: 0 <= i < |EntryLines(ps)| ==> IsLine(EntryLines(ps)[i])
  {
    if ps != [] {
      var p := ps[|ps| - 1];
      EntryLinesAre(ps[..|ps| - 1]);
      WithNewline(p.0 + " " + "=" + (" " + p.1));
    }
  }

  lemma {:induction false} WrittenLines(doc: Doc)
    requires GoodDoc(doc)
    ensures forall i :: 0 <= i < |Write(doc)| ==> IsLine(Write(doc)[i])
  {
    if doc != [] {
      var s := doc[|doc| - 1];
      WrittenLines(doc[..|doc| - 1]);
      EntryLinesAre(s.1);
      WithNewline("[" + s.0 + "]");
    }
  }

  /** Round trip: every representable nested map, written with its sections and keys in any order, parses
      back to exactly itself, with the value scan as written as well as with the corrected one. */
  lemma RoundTrip(scan: Scan, m: Root, doc: Doc)
    requires Representable(m) && ListsRoot(doc, m)
    ensures Parse(scan, Write(doc)).Done? && Parse(scan, Write(doc)).ini.root == m
    ensures forall i :: 0 <= i < |Write(doc)| ==> IsLine(Write(doc)[i])
  {
    RepresentableDoc(doc, m);
    ParseWrite(scan, doc);
    ToRootIs(doc, m);
    WrittenLines(doc);
  }

  // ---------------------------------------------------------------- representability is exact

  /** What a key read from a line looks like: no '=', trimmed, and starting as the line does. */
  lemma KeyShape(scan: Scan, text: string, k: string, v: string)
    requires KindOf(scan, text) == Assign(k, v) && Trimmed(text)
    ensures '=' !in k && Trimmed(k) && (k != "" ==> k[0] !in {'[', '#', ';'})
  {
    var l := text[..IndexOf(text, '=')];
    LeadIs(l, 0);
    CutAtEnd(l, scan);
    StripTrimmed(l);
    assert k == l[0..Tail(l)] || k == "";
  }

  lemma ValueShape(scan: Scan, v: string)
    requires Chewed(scan, (" " + v)[..Tail(" " + v)]) == v
    ensures Trimmed(v)
  {
    var w := " " + v;
    var x := w[..Tail(w)];
    if v != "" {
      assert x != "" by {
        assert x == "" ==> Chewed(scan, x) == "";
      }
      assert x[0] == ' ' && Lead(x) >= 1;
      assert |v| <= |x| - Lead(x);
      assert |x| == |w|;
      assert w[|w| - 1] == v[|v| - 1];
      assert v[0] == x[Lead(x)];
    }
  }

  lemma AfterHeader(n: string)
    ensures Run(START, [Header(n)], 1) == Done(Ini(map[n := map[]], Some(n)))
  {
    var ks := [Header(n)];
    assert ks[1..] == [];
  }

  lemma TwoKinds(scan: Scan, n: string, line: string)
    ensures Kinds(scan, [HeaderLine(n), line]) == [Header(n)] + [Classify(scan, line)]
  {
    HeaderKind(scan, n);
    KindsSnoc(scan, [], HeaderLine(n));
    KindsSnoc(scan, [] + [HeaderLine(n)], line);
    assert [HeaderLine(n), line] == [] + [HeaderLine(n)] + [line];
    assert [] + [Header(n)] == [Header(n)];
  }

  lemma OneKind(st: Ini, n: string, kind: Kind, k: string, v: string)
    requires st == Ini(map[n := map[]], Some(n))
    ensures Run(st, [kind], 2) == Done(Ini(map[n := map[k := v]], Some(n))) <==> k != "" && kind == Assign(k, v)
  {
    assert [kind][1..] == [];
    var goal: Root := map[n := map[k := v]];
    assert k in goal[n] && goal[n][k] == v;
    match kind
    case Skip => assert k !in st.root[n];
    case Header(name) => assert k !in st.root[n];
    case Unclosed =>
    case Plain =>
    case Assign(key, value) =>
      if key != "" {
        var r := st.root[n := st.root[n][key := value]];
        assert r[n] == map[key := value];
        assert r == goal ==> key in goal[n] && goal[n][key] == value;
      }
  }

  lemma TwoLines(scan: Scan, n: string, k: string, v: string)
    ensures Parse(scan, [HeaderLine(n), EntryLine(k, v)]) == Done(Ini(map[n := map[k := v]], Some(n)))
      <==> k != "" && Classify(scan, EntryLine(k, v)) == Assign(k, v)
  {
    var kind, st := Classify(scan, EntryLine(k, v)), Ini(map[n := map[]], Some(n));
    TwoKinds(scan, n, EntryLine(k, v));
    RunConcat(START, [Header(n)], [kind], 1);
    AfterHeader(n);
    OneKind(st, n, kind, k, v);
  }

  /** For one binding the conditions are necessary too: its two lines parse back to it exactly when the key
      is a good key and the value is trimmed. */
  lemma RepresentableExact(scan: Scan, n: string, k: string, v: string)
    requires OneLine(n) && OneLine(k) && OneLine(v)
    ensures Parse(scan, [HeaderLine(n), EntryLine(k, v)]) == Done(Ini(map[n := map[k := v]], Some(n)))
      <==> GoodKey(k) && GoodValue(v)
  {
    var kind := Classify(scan, EntryLine(k, v));
    TwoLines(scan, n, k, v);
    if GoodKey(k) && GoodValue(v) {
      EntryKind(scan, k, v);
    } else if kind == Assign(k, v) && k != "" {
      IniLayout.ChompEnd(k + " " + "=" + (" " + v), "\n");
      StripTrimmed(Chomp(EntryLine(k, v)));
      KeyShape(scan, Strip(Chomp(EntryLine(k, v))), k, v);
      KeyBlank(k);
      IniLayout.AssignmentLine(scan, k + " ", " " + v, "\n");
      ValueShape(scan, v);
    }
  }
}
