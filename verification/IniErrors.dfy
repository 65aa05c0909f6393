/** Which lines a parse stops at, and with which number, told from the texts of the lines alone; and what
    each line that it does not stop at does (inifile.c:202-320). */
module IniErrors {
  import opened Options
  import opened Trim
  import opened IniSpec

  /** A line without its newline and the blanks at its ends. */
  function Text(line: string): string {
    Strip(Chomp(line))
  }

  predicate IsHeader(text: string) {
    text != "" && text[0] == '[' && text[|text| - 1] == ']'
  }

  predicate IsSkipped(text: string) {
    text == "" || text[0] == '#' || text[0] == ';'
  }

  /** The number a line fails with, or 0. A bracket that is not closed is -3 whatever came before; a line
      that is no assignment is -5 even before the first header; an assignment before it is -4 whatever its
      key; and an empty key is -2. */
  function FaultOf(text: string, sectionSeen: bool): int {
    if IsSkipped(text) || IsHeader(text) then 0
    else if text[0] == '[' then -3
    else if '=' !in text then -5
    else if !sectionSeen then -4
    else if AllBlank(text[..IndexOf(text, '=')]) then -2
    else 0
  }

  /** A header stands before line m, counted from 0. */
  predicate HeaderBefore(lines: seq<string>, m: nat)
    requires m <= |lines|
  {
    exists i :: 0 <= i < m && IsHeader(Text(lines[i]))
  }

  function Fault(lines: seq<string>, m: nat): int
    requires m < |lines|
  {
    FaultOf(Text(lines[m]), HeaderBefore(lines, m))
  }

  /** The first m lines are in order. */
  predicate Faultless(lines: seq<string>, m: nat)
    requires m <= |lines|
  {
    forall i :: 0 <= i < m ==> Fault(lines, i) == 0
  }

  // ---------------------------------------------------------------- one line

  /** The key of an assignment is trimmed, and empty exactly when nothing but blanks stands before the '='. */
  lemma KeyOf(scan: Scan, text: string, i: nat)
    requires i <= |text| && text != "" && !Blank(text[0])
    ensures Chewed(scan, text[..i]) == Strip(text[..i])
    ensures Strip(text[..i]) == "" <==> AllBlank(text[..i])
  {
    var k := text[..i];
    if i > 0 {
      assert k[0] == text[0];
      LeadIs(k, 0);
      CutAtEnd(k, scan);
    }
  }

  /** What the text of a line says of what it does. */
  ghost predicate Fits(scan: Scan, text: string, k: Kind) {
    match k
    case Skip => IsSkipped(text)
    case Header(name) => IsHeader(text) && name == text[1..|text| - 1]
    case Unclosed => !IsSkipped(text) && !IsHeader(text) && text[0] == '['
    case Plain => !IsSkipped(text) && text[0] != '[' && '=' !in text
    case Assign(key, value) =>
      && !IsSkipped(text) && text[0] != '[' && '=' in text
      && (key == "" <==> AllBlank(text[..IndexOf(text, '=')]))
      && key == Strip(text[..IndexOf(text, '=')]) && value == Chewed(scan, text[IndexOf(text, '=') + 1..])
  }

  lemma TextFits(scan: Scan, text: string)
    requires text != "" ==> !Blank(text[0])
    ensures Fits(scan, text, KindOf(scan, text))
  {
    if !IsSkipped(text) && text[0] != '[' {
      KeyOf(scan, text, IndexOf(text, '='));
    }
  }

  lemma LineFits(scan: Scan, line: string)
    ensures Fits(scan, Text(line), Classify(scan, line))
  {
    StripTrimmed(Chomp(line));
    TextFits(scan, Text(line));
  }

  /** One step of the fold fails exactly as the text says. */
  lemma StepFault(scan: Scan, st: Ini, text: string, k: Kind)
    requires Bound(st) && Fits(scan, text, k)
    ensures var f := FaultOf(text, st.current.Some?);
      match Step(st, k)
      case Ok(_) => f == 0
      case Err(e) => f == -Code(e) && f != 0
  {
  }

  lemma LineFault(scan: Scan, st: Ini, line: string)
    requires Bound(st)
    ensures var f := FaultOf(Text(line), st.current.Some?);
      match Step(st, Classify(scan, line))
      case Ok(_) => f == 0
      case Err(e) => f == -Code(e) && f != 0
  {
    LineFits(scan, line);
    StepFault(scan, st, Text(line), Classify(scan, line));
  }

  // ---------------------------------------------------------------- the lines of a file

  lemma OneLine(scan: Scan, line: string)
    ensures Kinds(scan, [line]) == [Classify(scan, line)]
  {
    assert [line][1..] == [];
  }

  /** A line more. */
  lemma {:induction false} ParseSnoc(scan: Scan, lines: seq<string>, line: string)
    ensures Parse(scan, lines + [line]) ==
      match Parse(scan, lines)
      case Failed(e, m) => Failed(e, m)
      case Done(st) =>
        match Step(st, Classify(scan, line))
        case Err(e) => Failed(e, |lines| + 1)
        case Ok(st') => Done(st')
  {
    KindsConcat(scan, lines, [line]);
    OneLine(scan, line);
    RunConcat(START, Kinds(scan, lines), Kinds(scan, [line]), 1);
  }

  lemma {:induction false} HeaderNext(lines: seq<string>, line: string)
    ensures HeaderBefore(lines + [line], |lines|) == HeaderBefore(lines, |lines|)
    ensures HeaderBefore(lines + [line], |lines| + 1) <==> HeaderBefore(lines, |lines|) || IsHeader(Text(line))
    ensures forall m :: 0 <= m < |lines| ==> Fault(lines + [line], m) == Fault(lines, m)
  {
    var more := lines + [line];
    assert forall i :: 0 <= i < |lines| ==> more[i] == lines[i];
    assert more[|lines|] == line;
    forall m | 0 <= m <= |lines|
      ensures HeaderBefore(more, m) == HeaderBefore(lines, m)
    {
      assert forall i :: 0 <= i < m ==> more[i] == lines[i];
    }
  }

  lemma {:induction false} FaultlessNext(lines: seq<string>, line: string, m: nat)
    requires m <= |lines|
    ensures Faultless(lines + [line], m) == Faultless(lines, m)
  {
    HeaderNext(lines, line);
  }

  lemma {:induction false} FaultNext(lines: seq<string>, line: string)
    ensures Fault(lines + [line], |lines|) == FaultOf(Text(line), HeaderBefore(lines, |lines|))
    ensures Faultless(lines, |lines|) ==>
      (Faultless(lines + [line], |lines| + 1) <==> Fault(lines + [line], |lines|) == 0)
  {
    HeaderNext(lines, line);
    FaultlessNext(lines, line, |lines|);
  }

  /** A section is current exactly when a header has been read. */
  ghost predicate SectionSeen(scan: Scan, lines: seq<string>) {
    Parse(scan, lines).Done? ==> (Parse(scan, lines).ini.current.Some? <==> HeaderBefore(lines, |lines|))
  }

  /** The outcome is what the texts say: no line at fault, or the first that is and its number. */
  ghost predicate Judged(scan: Scan, lines: seq<string>) {
    match Parse(scan, lines)
    case Done(_) => Faultless(lines, |lines|)
    case Failed(e, m) =>
      && 1 <= m <= |lines| && Faultless(lines, m - 1)
      && Fault(lines, m - 1) == -Code(e) && Fault(lines, m - 1) != 0
  }

  lemma CurrentNext(scan: Scan, st: Ini, text: string, k: Kind)
    requires Fits(scan, text, k) && Step(st, k).Ok?
    ensures Step(st, k).ini.current.Some? <==> st.current.Some? || IsHeader(text)
  {
  }

  lemma {:induction false} SeenNext(scan: Scan, lines: seq<string>, line: string)
    requires SectionSeen(scan, lines)
    ensures SectionSeen(scan, lines + [line])
  {
    ParseSnoc(scan, lines, line);
    HeaderNext(lines, line);
    LineFits(scan, line);
    if Parse(scan, lines + [line]).Done? {
      CurrentNext(scan, Parse(scan, lines).ini, Text(line), Classify(scan, line));
    }
  }

  lemma {:induction false} JudgedDone(scan: Scan, lines: seq<string>, line: string)
    requires SectionSeen(scan, lines) && Judged(scan, lines) && Parse(scan, lines).Done?
    ensures Judged(scan, lines + [line])
  {
    ParseSnoc(scan, lines, line);
    FaultNext(lines, line);
    FaultlessNext(lines, line, |lines|);
    NoInternalError(scan, lines);
    LineFault(scan, Parse(scan, lines).ini, line);
  }

  lemma {:induction false} JudgedFailed(scan: Scan, lines: seq<string>, line: string)
    requires Judged(scan, lines) && Parse(scan, lines).Failed?
    ensures Judged(scan, lines + [line])
  {
    ParseSnoc(scan, lines, line);
    HeaderNext(lines, line);
    FaultlessNext(lines, line, Parse(scan, lines).line - 1);
  }

  lemma {:induction false} JudgedNext(scan: Scan, lines: seq<string>, line: string)
    requires SectionSeen(scan, lines) && Judged(scan, lines)
    ensures Judged(scan, lines + [line])
  {
    if Parse(scan, lines).Done? {
      JudgedDone(scan, lines, line);
    } else {
      JudgedFailed(scan, lines, line);
    }
  }

  lemma {:induction false} JudgedLast(scan: Scan, lines: seq<string>)
    requires lines != [] && SectionSeen(scan, lines[..|lines| - 1]) && Judged(scan, lines[..|lines| - 1])
    ensures SectionSeen(scan, lines) && Judged(scan, lines)
  {
    var front, line := lines[..|lines| - 1], lines[|lines| - 1];
    assert front + [line] == lines;
    SeenNext(scan, front, line);
    JudgedNext(scan, front, line);
  }

  /** A file parses exactly when none of its lines is at fault; otherwise the parse stops at the first one
      that is, with its number. */
  lemma {:induction false} ParseFaults(scan: Scan, lines: seq<string>)
    ensures SectionSeen(scan, lines) && Judged(scan, lines)
  {
    if lines != [] {
      ParseFaults(scan, lines[..|lines| - 1]);
      JudgedLast(scan, lines);
    }
  }

  // ---------------------------------------------------------------- what the other lines do

  /** A binding in the current section. */
  function Bind(ini: Ini, key: string, value: string): Ini {
    if ini.current.None? then ini
    else
      var s := ini.current.value;
      ini.(root := ini.root[s := SectionOf(ini.root, s)[key := value]])
  }

  /** What a line that is not at fault makes of what was read before it: a blank line or comment nothing; a
      header makes its section current, and adds it if it is new; an assignment binds its trimmed key, in
      the current section, to what chewing makes of the text after the first '='. */
  function Meaning(scan: Scan, ini: Ini, text: string): Ini {
    if IsSkipped(text) then ini
    else if IsHeader(text) then
      var name := text[1..|text| - 1];
      Ini(ini.root[name := SectionOf(ini.root, name)], Some(name))
    else
      var i := IndexOf(text, '=');
      if i == |text| then ini else Bind(ini, Strip(text[..i]), Chewed(scan, text[i + 1..]))
  }

  lemma StepMeaning(scan: Scan, st: Ini, text: string, k: Kind)
    requires Bound(st) && Fits(scan, text, k) && Step(st, k).Ok?
    ensures Step(st, k).ini == Meaning(scan, st, text)
  {
  }

  /** After lines that parse, a line that is not at fault does what its text means. */
  lemma {:induction false} LineMeaning(scan: Scan, lines: seq<string>, line: string)
    requires Parse(scan, lines).Done? && FaultOf(Text(line), HeaderBefore(lines, |lines|)) == 0
    ensures Parse(scan, lines + [line]) == Done(Meaning(scan, Parse(scan, lines).ini, Text(line)))
  {
    var st, k := Parse(scan, lines).ini, Classify(scan, line);
    ParseSnoc(scan, lines, line);
    ParseFaults(scan, lines);
    NoInternalError(scan, lines);
    LineFits(scan, line);
    StepFault(scan, st, Text(line), k);
    StepMeaning(scan, st, Text(line), k);
  }
}
