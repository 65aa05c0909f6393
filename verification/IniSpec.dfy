/** The INI dialect as a fold over lines (inifile.c:202-306, inifile.h:18-74). */
module IniSpec {
  import opened Options
  import opened Trim

  /** The failures a line can cause, with the numbers of NcIniError. */
  datatype Error = EmptyKey | NotClosed | NoSection | InvalidLine | Internal

  function Code(e: Error): int {
    match e
    case EmptyKey => 2
    case NotClosed => 3
    case NoSection => 4
    case InvalidLine => 5
    case Internal => 6
  }

  type Section = map<string, string>

  type Root = map<string, Section>

  datatype Ini = Ini(root: Root, current: Option<string>)

  const START := Ini(map[], None)

  // ---------------------------------------------------------------- lines

  datatype Kind = Skip | Header(name: string) | Unclosed | Plain | Assign(key: string, value: string)

  /** What getline returns: at least one character, no NUL, a newline at the end only. */
  predicate IsLine(line: string) {
    line != "" && '\0' !in line && '\n' !in line[..|line| - 1]
  }

  function Chomp(line: string): string {
    if line != "" && line[|line| - 1] == '\n' then line[..|line| - 1] else line
  }

  /** The first place of c in s, or |s|. */
  function IndexOf(s: string, c: char): (i: nat)
    ensures i <= |s| && (i < |s| ==> s[i] == c)
    ensures forall j :: 0 <= j < i ==> s[j] != c
  {
    if s == "" || s[0] == c then 0 else 1 + IndexOf(s[1..], c)
  }

  function KindOf(scan: Scan, text: string): Kind {
    if text == "" then Skip
    else if text[0] == '[' then
      if text[|text| - 1] != ']' then Unclosed else Header(text[1..|text| - 1])
    else if text[0] == '#' || text[0] == ';' then Skip
    else
      var i := IndexOf(text, '=');
      if i == |text| then Plain else Assign(Chewed(scan, text[..i]), Chewed(scan, text[i + 1..]))
  }

  function Classify(scan: Scan, line: string): Kind {
    KindOf(scan, Strip(Chomp(line)))
  }

  function Kinds(scan: Scan, lines: seq<string>): (ks: seq<Kind>)
    ensures |ks| == |lines|
  {
    if lines == [] then [] else [Classify(scan, lines[0])] + Kinds(scan, lines[1..])
  }

  // ---------------------------------------------------------------- the fold

  datatype Result = Ok(ini: Ini) | Err(error: Error)

  function Step(st: Ini, k: Kind): Result {
    match k
    case Skip => Ok(st)
    case Header(name) => Ok(Ini(if name in st.root then st.root else st.root[name := map[]], Some(name)))
    case Unclosed => Err(NotClosed)
    case Plain => Err(InvalidLine)
    case Assign(key, value) =>
      if st.current.None? then Err(NoSection)
      else if key == "" then Err(EmptyKey)
      else
        var s := st.current.value;
        if s !in st.root then Err(Internal) else Ok(st.(root := st.root[s := st.root[s][key := value]]))
  }

  /** The parsed map and section, or the error and the number of its line. */
  datatype Outcome = Done(ini: Ini) | Failed(error: Error, line: nat)

  function Run(st: Ini, ks: seq<Kind>, n: nat): Outcome
    decreases |ks|
  {
    if ks == [] then Done(st)
    else
      match Step(st, ks[0])
      case Err(e) => Failed(e, n)
      case Ok(st') => Run(st', ks[1..], n + 1)
  }

  function Parse(scan: Scan, lines: seq<string>): Outcome {
    Run(START, Kinds(scan, lines), 1)
  }

  lemma {:induction false} RunConcat(st: Ini, a: seq<Kind>, b: seq<Kind>, n: nat)
    ensures Run(st, a + b, n) ==
      match Run(st, a, n)
      case Failed(e, m) => Failed(e, m)
      case Done(st') => Run(st', b, n + |a|)
    decreases |a|
  {
    if a == [] {
      assert a + b == b;
    } else {
      assert (a + b)[1..] == a[1..] + b;
      match Step(st, a[0])
      case Err(_) =>
      case Ok(st') => RunConcat(st', a[1..], b, n + 1);
    }
  }

  lemma {:induction false} KindsConcat(scan: Scan, a: seq<string>, b: seq<string>)
    ensures Kinds(scan, a + b) == Kinds(scan, a) + Kinds(scan, b)
  {
    if a == [] {
      assert a + b == b;
    } else {
      assert (a + b)[1..] == a[1..] + b;
      KindsConcat(scan, a[1..], b);
    }
  }

  lemma {:induction false} KindsAt(scan: Scan, lines: seq<string>, i: nat)
    requires i < |lines|
    ensures Kinds(scan, lines)[i] == Classify(scan, lines[i])
  {
    if i > 0 {
      assert lines[1..][i - 1] == lines[i];
      KindsAt(scan, lines[1..], i - 1);
    }
  }

  lemma KindsPrefix(scan: Scan, lines: seq<string>, i: nat)
    requires i <= |lines|
    ensures Kinds(scan, lines[..i]) == Kinds(scan, lines)[..i]
  {
    assert lines == lines[..i] + lines[i..];
    KindsConcat(scan, lines[..i], lines[i..]);
  }

  // ---------------------------------------------------------------- errors

  /** The current section is always bound, so the internal error cannot happen. */
  ghost predicate Bound(st: Ini) {
    st.current.Some? ==> st.current.value in st.root
  }

  lemma {:induction false} NeverInternal(st: Ini, ks: seq<Kind>, n: nat)
    requires Bound(st)
    ensures Run(st, ks, n).Done? ==> Bound(Run(st, ks, n).ini)
    ensures Run(st, ks, n).Failed? ==> Run(st, ks, n).error != Internal
    decreases |ks|
  {
    if ks != [] {
      match Step(st, ks[0])
      case Err(_) =>
      case Ok(st') => NeverInternal(st', ks[1..], n + 1);
    }
  }

  lemma {:induction false} FailsWithin(st: Ini, ks: seq<Kind>, n: nat)
    ensures Run(st, ks, n).Failed? ==> n <= Run(st, ks, n).line < n + |ks|
    decreases |ks|
  {
    if ks != [] {
      match Step(st, ks[0])
      case Err(_) =>
      case Ok(st') => FailsWithin(st', ks[1..], n + 1);
    }
  }

  lemma FailsInRange(scan: Scan, lines: seq<string>)
    ensures Parse(scan, lines).Failed? ==> 1 <= Parse(scan, lines).line <= |lines|
  {
    FailsWithin(START, Kinds(scan, lines), 1);
  }

  lemma {:induction false} FailsAt(st: Ini, ks: seq<Kind>, n: nat, i: nat, e: Error)
    requires i < |ks|
    ensures Run(st, ks, n) == Failed(e, n + i) <==>
      Run(st, ks[..i], n).Done? && Step(Run(st, ks[..i], n).ini, ks[i]) == Err(e)
    decreases |ks|
  {
    if i == 0 {
      assert ks[..0] == [];
      FailsWithin(st, ks, n);
      match Step(st, ks[0])
      case Err(_) =>
      case Ok(st') => FailsWithin(st', ks[1..], n + 1);
    } else {
      assert ks[..i][1..] == ks[1..][..i - 1];
      match Step(st, ks[0])
      case Err(_) =>
      case Ok(st') => FailsAt(st', ks[1..], n + 1, i - 1, e);
    }
  }

  lemma FailsAtLine(scan: Scan, lines: seq<string>, e: Error, i: nat)
    requires i < |lines|
    ensures Parse(scan, lines) == Failed(e, 1 + i) <==>
      Parse(scan, lines[..i]).Done? && Step(Parse(scan, lines[..i]).ini, Classify(scan, lines[i])) == Err(e)
  {
    FailsAt(START, Kinds(scan, lines), 1, i, e);
    KindsPrefix(scan, lines, i);
    KindsAt(scan, lines, i);
  }

  /** A parse fails with error e at line m exactly when the lines before m parse and line m fails with e in
      the state they leave; whatever follows line m makes no difference. */
  lemma FirstFailure(scan: Scan, lines: seq<string>, e: Error, m: nat)
    ensures Parse(scan, lines) == Failed(e, m) <==>
      && 1 <= m <= |lines|
      && Parse(scan, lines[..m - 1]).Done?
      && Step(Parse(scan, lines[..m - 1]).ini, Classify(scan, lines[m - 1])) == Err(e)
  {
    if 1 <= m <= |lines| {
      FailsAtLine(scan, lines, e, m - 1);
    } else {
      FailsInRange(scan, lines);
    }
  }

  lemma LaterLinesIgnored(scan: Scan, lines: seq<string>, more: seq<string>)
    requires Parse(scan, lines).Failed?
    ensures Parse(scan, lines + more) == Parse(scan, lines)
  {
    KindsConcat(scan, lines, more);
    RunConcat(START, Kinds(scan, lines), Kinds(scan, more), 1);
  }

  lemma NoInternalError(scan: Scan, lines: seq<string>)
    ensures Parse(scan, lines).Failed? ==> Parse(scan, lines).error != Internal
    ensures Parse(scan, lines).Done? ==> Bound(Parse(scan, lines).ini)
  {
    NeverInternal(START, Kinds(scan, lines), 1);
  }

  // ---------------------------------------------------------------- merging

  function SectionOf(r: Root, s: string): Section {
    if s in r then r[s] else map[]
  }

  /** a overridden by b, section by section and key by key. */
  function Merge(a: Root, b: Root): Root {
    map s | s in a.Keys + b.Keys :: SectionOf(a, s) + SectionOf(b, s)
  }

  /** Merging loses nothing: exactly the sections of either, b's value where b has one, else a's. */
  lemma MergeLookup(a: Root, b: Root, s: string, k: string)
    ensures s in Merge(a, b) <==> s in a || s in b
    ensures k in SectionOf(Merge(a, b), s) <==> k in SectionOf(a, s) || k in SectionOf(b, s)
    ensures k in SectionOf(b, s) ==> SectionOf(Merge(a, b), s)[k] == SectionOf(b, s)[k]
    ensures k in SectionOf(a, s) && k !in SectionOf(b, s) ==> SectionOf(Merge(a, b), s)[k] == SectionOf(a, s)[k]
  {
  }

  /** st as it looks when it was reached from `base` instead of from nothing. */
  function Over(base: Ini, st: Ini): Ini {
    Ini(Merge(base.root, st.root), if st.current.Some? then st.current else base.current)
  }

  lemma MergeUpdate(a: Root, b: Root, s: string, v: Section)
    requires s in b
    ensures Merge(a, b[s := v]) == Merge(a, b)[s := SectionOf(a, s) + v]
  {
  }

  lemma AddUpdate<K, V>(a: map<K, V>, b: map<K, V>, k: K, v: V)
    ensures a + b[k := v] == (a + b)[k := v]
  {
  }

  lemma MergeAssign(a: Root, b: Root, s: string, k: string, v: string)
    requires s in b
    ensures Merge(a, b[s := b[s][k := v]]) == Merge(a, b)[s := Merge(a, b)[s][k := v]]
  {
    MergeUpdate(a, b, s, b[s][k := v]);
    AddUpdate(SectionOf(a, s), b[s], k, v);
  }

  lemma AddNothing<K, V>(a: map<K, V>)
    ensures a + map[] == a
  {
  }

  lemma SameRoot(m: Root, m': Root)
    requires m.Keys == m'.Keys && forall t :: t in m ==> m[t] == m'[t]
    ensures m == m'
  {
  }

  lemma OneChanged(m: Root, m': Root, s: string, v: Section)
    requires m'.Keys == m.Keys + {s} && m'[s] == v && forall t :: t in m && t != s ==> m'[t] == m[t]
    ensures m' == m[s := v]
    ensures s in m && m[s] == v ==> m' == m
  {
  }

  lemma MergeNewKeys(a: Root, b: Root, s: string)
    ensures Merge(a, b[s := map[]]).Keys == Merge(a, b).Keys + {s}
  {
  }

  lemma MergeNewAt(a: Root, b: Root, s: string, t: string)
    requires s !in b && (t in a || t in b || t == s)
    ensures Merge(a, b[s := map[]])[t] == if t == s then SectionOf(a, s) else Merge(a, b)[t]
  {
    AddNothing(SectionOf(a, s));
  }

  /** A new empty section in b changes nothing but that section, which is a's. */
  lemma MergeNew(a: Root, b: Root, s: string)
    requires s !in b
    ensures Merge(a, b[s := map[]]) == if s in Merge(a, b) then Merge(a, b) else Merge(a, b)[s := map[]]
  {
    var m, m' := Merge(a, b), Merge(a, b[s := map[]]);
    MergeNewKeys(a, b, s);
    forall t | t in m'
      ensures m'[t] == if t == s then SectionOf(a, s) else m[t]
    {
      MergeNewAt(a, b, s, t);
    }
    AddNothing(SectionOf(a, s));
    OneChanged(m, m', s, SectionOf(a, s));
  }

  lemma MergeEmpty(a: Root)
    ensures Merge(a, map[]) == a
  {
    forall t | t in a
      ensures Merge(a, map[])[t] == a[t]
    {
      AddNothing(a[t]);
    }
    SameRoot(Merge(a, map[]), a);
  }

  lemma StepOver(base: Ini, st: Ini, k: Kind)
    requires Bound(st) && Step(st, k).Ok?
    ensures Step(Over(base, st), k) == Ok(Over(base, Step(st, k).ini)) && Bound(Step(st, k).ini)
  {
    match k
    case Header(name) =>
      if name !in st.root {
        MergeNew(base.root, st.root, name);
      }
    case Assign(key, value) =>
      MergeAssign(base.root, st.root, st.current.value, key, value);
    case _ =>
  }

  lemma {:induction false} RunOver(base: Ini, st: Ini, ks: seq<Kind>, n: nat, n': nat)
    requires Bound(st) && Run(st, ks, n).Done?
    ensures Run(Over(base, st), ks, n') == Done(Over(base, Run(st, ks, n).ini))
    decreases |ks|
  {
    if ks != [] {
      StepOver(base, st, ks[0]);
      RunOver(base, Step(st, ks[0]).ini, ks[1..], n + 1, n' + 1);
    }
  }

  /** Parsing a concatenation is merging: files A and B that parse, one after the other, parse to A's map
      overridden by B's. */
  lemma ConcatIsMerge(scan: Scan, a: seq<string>, b: seq<string>)
    requires Parse(scan, a).Done? && Parse(scan, b).Done?
    ensures Parse(scan, a + b) == Done(Over(Parse(scan, a).ini, Parse(scan, b).ini))
  {
    KindsConcat(scan, a, b);
    RunConcat(START, Kinds(scan, a), Kinds(scan, b), 1);
    var base := Parse(scan, a).ini;
    RunOver(base, START, Kinds(scan, b), 1, 1 + |a|);
    MergeEmpty(base.root);
  }
}
