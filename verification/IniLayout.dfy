/** What layout does and does not change in a parse: blanks, skipped lines, and the value scan. */
module IniLayout {
  import opened Trim
  import opened IniSpec

  // ---------------------------------------------------------------- one line

  /** How a line with this text ends: with a newline, or not when it is the last of a file. */
  predicate Ended(text: string, end: string) {
    end == "\n" || (end == "" && '\n' !in text)
  }

  lemma ChompEnd(text: string, end: string)
    requires Ended(text, end)
    ensures Chomp(text + end) == text
  {
    if end == "" {
      assert text + end == text;
      assert text != "" ==> text[|text| - 1] in text;
    } else {
      assert (text + end)[..|text|] == text;
    }
  }

  /** Blanks at either end of a line make no difference. */
  lemma EndBlanks(scan: Scan, p: string, text: string, q: string, end: string)
    requires AllBlank(p) && AllBlank(q) && Ended(text, end)
    ensures Classify(scan, p + text + q + end) == Classify(scan, text + end)
  {
    ChompEnd(p + text + q, end);
    ChompEnd(text, end);
    StripPad(p, text, q);
  }

  lemma IndexIs(s: string, c: char, i: nat)
    requires i < |s| && s[i] == c && forall j :: 0 <= j < i ==> s[j] != c
    ensures IndexOf(s, c) == i
  {
    var m := IndexOf(s, c);
    assert m <= i;
  }

  /** The left part does not make the line a header or a comment. */
  predicate KeyLike(k: string) {
    '=' !in k && '\n' !in k && (Strip(k) != "" ==> Strip(k)[0] !in {'[', '#', ';'})
  }

  lemma KeyPart(scan: Scan, k: string)
    requires KeyLike(k)
    ensures var l := k[Lead(k)..];
      '=' !in l && Lead(l) == 0 && Chewed(scan, l) == Strip(k) && (l != "" ==> l[0] !in {'[', '#', ';'})
  {
    var l := k[Lead(k)..];
    StripHalf(k);
    LeadIs(l, 0);
    CutAtEnd(l, scan);
    assert l != "" ==> Strip(k) != "" && Strip(k)[0] == l[0];
  }

  lemma JoinAround(a: string, l: string, r: string, b: string)
    ensures (a + l) + "=" + (r + b) == a + (l + "=" + r) + b
  {
  }

  lemma EqualsShape(l: string, r: string)
    ensures var text := l + "=" + r;
      && |text| == |l| + 1 + |r| && text[..|l|] == l && text[|l|] == '=' && text[|l| + 1..] == r
      && text[|text| - 1] == (if r == "" then '=' else r[|r| - 1])
      && text[0] == (if l == "" then '=' else l[0])
      && forall j :: 0 <= j < |l| ==> text[j] == l[j]
  {
  }

  lemma EqualsLine(l: string, r: string)
    requires '=' !in l && Lead(l) == 0 && (r != "" ==> !Blank(r[|r| - 1]))
    ensures var text := l + "=" + r;
      && Trimmed(text) && IndexOf(text, '=') == |l| && text[..|l|] == l && text[|l| + 1..] == r
      && text[0] == if l == "" then '=' else l[0]
  {
    EqualsShape(l, r);
    IndexIs(l + "=" + r, '=', |l|);
  }

  lemma StripLine(k: string, v: string)
    requires '=' !in k
    ensures Strip(k + "=" + v) == k[Lead(k)..] + "=" + v[..Tail(v)]
  {
    var a, l, r, b := k[..Lead(k)], k[Lead(k)..], v[..Tail(v)], v[Tail(v)..];
    Halves(k, Lead(k));
    Halves(v, Tail(v));
    JoinAround(a, l, r, b);
    LeadIs(l, 0);
    EqualsLine(l, r);
    StripUnique(a, l + "=" + r, b);
  }

  lemma KindOfAssign(scan: Scan, l: string, r: string)
    requires '=' !in l && Lead(l) == 0 && (r != "" ==> !Blank(r[|r| - 1]))
    requires l != "" ==> l[0] !in {'[', '#', ';'}
    ensures KindOf(scan, l + "=" + r) == Assign(Chewed(scan, l), Chewed(scan, r))
  {
    EqualsLine(l, r);
  }

  /** An assignment line: the key is the trimmed left part, whichever way the scan goes; the value is what
      chewing makes of the right part without its trailing blanks. */
  lemma AssignmentLine(scan: Scan, k: string, v: string, end: string)
    requires KeyLike(k) && '\n' !in v && Ended("", end)
    ensures Classify(scan, k + "=" + v + end) == Assign(Strip(k), Chewed(scan, v[..Tail(v)]))
  {
    StripLine(k, v);
    ChompEnd(k + "=" + v, end);
    KeyPart(scan, k);
    KindOfAssign(scan, k[Lead(k)..], v[..Tail(v)]);
  }

  /** Blanks before the '=' make no difference. */
  lemma BlanksBeforeEquals(scan: Scan, k: string, p: string, v: string, end: string)
    requires KeyLike(k) && AllBlank(p) && '\n' !in v && Ended("", end)
    ensures Classify(scan, k + p + "=" + v + end) == Classify(scan, k + "=" + v + end)
  {
    StripBefore(k, p);
    AssignmentLine(scan, k + p, v, end);
    AssignmentLine(scan, k, v, end);
  }

  /** The value is the trimmed right part: always with the scan from the end; as written exactly when the
      guard holds of the text after the '='. */
  lemma ValueExact(scan: Scan, k: string, v: string, end: string)
    requires KeyLike(k) && '\n' !in v && Ended("", end)
    ensures Classify(scan, k + "=" + v + end) == Assign(Strip(k), Strip(v)) <==>
      scan.FromEnd? || ChewGuard(v[..Tail(v)])
  {
    AssignmentLine(scan, k, v, end);
    StripHalf(v);
    ChewExact(v[..Tail(v)]);
    if scan.FromEnd? {
      FromEndIsStrip(v[..Tail(v)]);
    }
  }

  /** The value the code as written makes of a text r with n blanks at its start and none at its end: all of
      it after the blanks, unless the place b is past them and blank; then what lies before the first place
      m down from b that is not blank, or nothing. */
  predicate CutAs(r: string, value: string, m: nat) {
    var n, b := Lead(r), |r| - Lead(r);
    if n == 0 || b <= n || !Blank(r[b]) then value == r[n..]
    else
      && n <= m < b && (forall j :: m < j <= b ==> Blank(r[j])) && (m == n || !Blank(r[m]))
      && value == r[n..m]
  }

  lemma ChewNoTail(r: string) returns (m: nat)
    requires r != "" ==> !Blank(r[|r| - 1])
    ensures CutAs(r, Chewed(AsWritten, r), m)
  {
    m := 0;
    if Lead(r) == 0 {
      CutAtEnd(r, AsWritten);
      TailIs(r, |r|);
      assert r[0..|r|] == r[0..];
    } else {
      assert Blank(r[0]) && Lead(r) < |r|;
      m := ChewAsWritten(r);
    }
  }

  lemma ChewPart(v: string) returns (m: nat)
    ensures CutAs(v[..Tail(v)], Chewed(AsWritten, v[..Tail(v)]), m)
  {
    m := ChewNoTail(v[..Tail(v)]);
  }

  /** What the code as written reads as the value, for every text v after the '='. */
  lemma ValueAsWritten(k: string, v: string, end: string) returns (value: string, m: nat)
    requires KeyLike(k) && '\n' !in v && Ended("", end)
    ensures Classify(AsWritten, k + "=" + v + end) == Assign(Strip(k), value)
    ensures CutAs(v[..Tail(v)], value, m)
  {
    AssignmentLine(AsWritten, k, v, end);
    value := Chewed(AsWritten, v[..Tail(v)]);
    m := ChewPart(v);
  }

  /** With the corrected scan, blanks after the '=' make no difference either. */
  lemma BlanksAfterEquals(k: string, p: string, v: string, end: string)
    requires KeyLike(k) && AllBlank(p) && '\n' !in v && Ended("", end)
    ensures Classify(FromEnd, k + "=" + p + v + end) == Classify(FromEnd, k + "=" + v + end)
  {
    assert k + "=" + (p + v) + end == k + "=" + p + v + end;
    assert '\n' !in p + v;
    ValueExact(FromEnd, k, p + v, end);
    ValueExact(FromEnd, k, v, end);
    StripAfter(p, v);
  }

  lemma ReadsAs(line: string, k: string, v: string, value: string)
    requires KeyLike(k) && Strip(k) == k && '\n' !in v && line == k + "=" + v + "\n"
    requires Chewed(AsWritten, v[..Tail(v)]) == value
    ensures Classify(AsWritten, line) == Assign(k, value)
  {
    AssignmentLine(AsWritten, k, v, "\n");
  }

  lemma PlainChew(v: string)
    requires v != "" && !Blank(v[0]) && !Blank(v[|v| - 1])
    ensures Chewed(AsWritten, v[..Tail(v)]) == v
  {
    TailIs(v, |v|);
    LeadIs(v, 0);
    assert v[..|v|] == v;
    CutAtEnd(v, AsWritten);
  }

  lemma KeyK()
    ensures KeyLike("k") && Strip("k") == "k"
  {
    LeadIs("k", 0);
    TailIs("k", 1);
    assert "k"[0..1] == "k";
  }

  lemma PlainValue()
    ensures Classify(AsWritten, "k=a b\n") == Assign("k", "a b")
  {
    KeyK();
    var v := "a b";
    PlainChew(v);
    ReadsAs("k=a b\n", "k", v, v);
  }

  lemma PaddedValue()
    ensures Classify(AsWritten, "k=  a b\n") == Assign("k", "")
  {
    KeyK();
    var v := "  a b";
    TailIs(v, |v|);
    assert v[..|v|] == v;
    ChewExample();
    ReadsAs("k=  a b\n", "k", v, "");
  }

  /** As written they do: "k=a b" and "k=  a b" give different values. */
  lemma BlanksAfterEqualsMatter()
    ensures Classify(AsWritten, "k=a b\n") == Assign("k", "a b")
    ensures Classify(AsWritten, "k=  a b\n") == Assign("k", "")
  {
    PlainValue();
    PaddedValue();
  }

  // ---------------------------------------------------------------- skipped lines

  /** The lines that do something. */
  function Core(ks: seq<Kind>): seq<Kind> {
    if ks == [] then [] else (if ks[0].Skip? then [] else [ks[0]]) + Core(ks[1..])
  }

  /** How many of the first i lines are skipped. */
  function Skipped(ks: seq<Kind>, i: nat): nat {
    if i == 0 || ks == [] then 0 else (if ks[0].Skip? then 1 else 0) + Skipped(ks[1..], i - 1)
  }

  /** Skipped lines only shift the number of the failing line. */
  lemma {:induction false} RunCore(st: Ini, ks: seq<Kind>, n: nat, n': nat)
    ensures Run(st, ks, n).Done? ==> Run(st, Core(ks), n') == Run(st, ks, n)
    ensures Run(st, ks, n).Failed? ==>
      var m, f := Run(st, ks, n).line, Run(st, Core(ks), n');
      && n <= m && f.Failed? && f.error == Run(st, ks, n).error
      && f.line == n' + (m - n) - Skipped(ks, m - n)
    decreases |ks|
  {
    if ks != [] {
      if ks[0].Skip? {
        assert Core(ks) == Core(ks[1..]);
        RunCore(st, ks[1..], n + 1, n');
      } else {
        assert Core(ks)[1..] == Core(ks[1..]);
        match Step(st, ks[0])
        case Err(_) =>
        case Ok(st') => RunCore(st', ks[1..], n + 1, n' + 1);
      }
    }
  }

  /** Two files whose lines mean the same, apart from blank lines and comments anywhere. */
  ghost predicate SameContent(scan: Scan, a: seq<string>, b: seq<string>) {
    Core(Kinds(scan, a)) == Core(Kinds(scan, b))
  }

  /** The same map, or the same error at lines that differ only by the skipped lines before them. */
  ghost predicate Agree(ka: seq<Kind>, f: Outcome, kb: seq<Kind>, g: Outcome) {
    match f
    case Done(_) => g == f
    case Failed(e, m) =>
      && g.Failed? && g.error == e && 1 <= m && 1 <= g.line
      && m - Skipped(ka, m - 1) == g.line - Skipped(kb, g.line - 1)
  }

  lemma CoreLine(st: Ini, ks: seq<Kind>, core: seq<Kind>)
    requires core == Core(ks)
    ensures Run(st, ks, 1).Done? ==> Run(st, core, 1) == Run(st, ks, 1)
    ensures Run(st, ks, 1).Failed? ==>
      var f, g := Run(st, ks, 1), Run(st, core, 1);
      1 <= f.line && g.Failed? && g.error == f.error && g.line == f.line - Skipped(ks, f.line - 1)
  {
    RunCore(st, ks, 1, 1);
  }

  lemma SameCore(st: Ini, ka: seq<Kind>, kb: seq<Kind>)
    requires Core(ka) == Core(kb)
    ensures Agree(ka, Run(st, ka, 1), kb, Run(st, kb, 1))
  {
    CoreLine(st, ka, Core(ka));
    CoreLine(st, kb, Core(ka));
  }

  /** Layout invariance: files with the same content parse to the same map, or fail with the same error at
      lines that differ only by the skipped lines before them. */
  lemma LayoutInvariance(scan: Scan, a: seq<string>, b: seq<string>)
    requires SameContent(scan, a, b)
    ensures Agree(Kinds(scan, a), Parse(scan, a), Kinds(scan, b), Parse(scan, b))
  {
    SameCore(START, Kinds(scan, a), Kinds(scan, b));
  }

  lemma {:induction false} CoreConcat(a: seq<Kind>, b: seq<Kind>)
    ensures Core(a + b) == Core(a) + Core(b)
  {
    if a == [] {
      assert a + b == b;
    } else {
      assert (a + b)[1..] == a[1..] + b;
      CoreConcat(a[1..], b);
    }
  }

  lemma KindsOne(scan: Scan, line: string)
    ensures Kinds(scan, [line]) == [Classify(scan, line)]
  {
    assert [line][1..] == [];
  }

  lemma ThreeParts(scan: Scan, a: seq<string>, line: string, b: seq<string>)
    ensures Kinds(scan, a + [line] + b) == Kinds(scan, a) + [Classify(scan, line)] + Kinds(scan, b)
  {
    KindsConcat(scan, a + [line], b);
    KindsConcat(scan, a, [line]);
    KindsOne(scan, line);
  }

  lemma CoreOne(k: Kind)
    ensures Core([k]) == if k.Skip? then [] else [k]
  {
    assert [k][1..] == [];
  }

  lemma CoreThree(a: seq<Kind>, k: Kind, b: seq<Kind>)
    ensures Core(a + [k] + b) == Core(a) + (if k.Skip? then [] else [k]) + Core(b)
  {
    CoreConcat(a + [k], b);
    CoreConcat(a, [k]);
    CoreOne(k);
  }

  /** A blank line or a comment may be put anywhere. */
  lemma SkipLine(scan: Scan, a: seq<string>, line: string, b: seq<string>)
    requires Strip(Chomp(line)) == "" || Strip(Chomp(line))[0] in {'#', ';'}
    ensures SameContent(scan, a + [line] + b, a + b)
  {
    ThreeParts(scan, a, line, b);
    KindsConcat(scan, a, b);
    CoreThree(Kinds(scan, a), Skip, Kinds(scan, b));
    CoreConcat(Kinds(scan, a), Kinds(scan, b));
  }

  /** Files whose lines read the same, line by line, parse alike, to the number of a failing line. */
  lemma SameLines(scan: Scan, a: seq<string>, b: seq<string>)
    requires |a| == |b| && forall i :: 0 <= i < |a| ==> Classify(scan, a[i]) == Classify(scan, b[i])
    ensures Parse(scan, a) == Parse(scan, b)
  {
    forall i | 0 <= i < |a|
      ensures Kinds(scan, a)[i] == Kinds(scan, b)[i]
    {
      KindsAt(scan, a, i);
      KindsAt(scan, b, i);
    }
    assert Kinds(scan, a) == Kinds(scan, b);
  }

  /** A text with its line end, and blanks to put around it. */
  datatype Padded = Padded(before: string, text: string, after: string, end: string)

  ghost predicate PaddedOk(l: Padded) {
    AllBlank(l.before) && AllBlank(l.after) && Ended(l.text, l.end)
  }

  function Bare(l: Padded): string {
    l.text + l.end
  }

  function Blanked(l: Padded): string {
    l.before + l.text + l.after + l.end
  }

  function Lines(ls: seq<Padded>, show: Padded -> string): (r: seq<string>)
    ensures |r| == |ls| && forall i :: 0 <= i < |ls| ==> r[i] == show(ls[i])
  {
    seq(|ls|, i requires 0 <= i < |ls| => show(ls[i]))
  }

  /** Blanks at the ends of any lines of a file make no difference to its parse. */
  lemma PaddedFile(scan: Scan, ls: seq<Padded>)
    requires forall i :: 0 <= i < |ls| ==> PaddedOk(ls[i])
    ensures Parse(scan, Lines(ls, Blanked)) == Parse(scan, Lines(ls, Bare))
  {
    var a, b := Lines(ls, Blanked), Lines(ls, Bare);
    forall i | 0 <= i < |ls|
      ensures Classify(scan, a[i]) == Classify(scan, b[i])
    {
      assert PaddedOk(ls[i]);
      EndBlanks(scan, ls[i].before, ls[i].text, ls[i].after, ls[i].end);
    }
    SameLines(scan, a, b);
  }
}
