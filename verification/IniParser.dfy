/** nc_ini_file_parse_full from the first getline on: in-place buffers, a map of section maps, and the
    current section, proved equal to the fold of IniSpec. */
module IniParser {
  import opened Options
  import opened Trim
  import opened IniSpec
  import opened IniErrors

  /** A section's hashmap, behind the contract of a map from strings (StringKeys.ParserMap). */
  class SectionMap {
    var entries: Section

    constructor ()
      ensures entries == map[]
    {
      entries := map[];
    }

    method Put(key: string, value: string)
      modifies this
      ensures entries == old(entries)[key := value]
    {
      entries := entries[key := value];
    }
  }

  /** The root hashmap: section names to section maps, no two sections sharing one. */
  class RootMap {
    var sections: map<string, SectionMap>
    ghost var view: Root

    ghost predicate Valid()
      reads this, sections.Values
    {
      && sections.Keys == view.Keys
      && (forall s :: s in sections ==> sections[s].entries == view[s])
      && (forall s, t :: s in sections && t in sections && s != t ==> sections[s] != sections[t])
    }

    constructor ()
      ensures Valid() && view == map[] && fresh(sections.Values)
    {
      sections, view := map[], map[];
    }

    method Contains(name: string) returns (found: bool)
      requires Valid()
      ensures found <==> name in view
    {
      found := name in sections;
    }

    /** Put a new empty section. */
    method Create(name: string)
      requires Valid() && name !in view
      modifies this
      ensures Valid() && view == old(view)[name := map[]]
      ensures fresh(sections.Values - old(sections.Values))
    {
      var sectionMap := new SectionMap();
      assert forall s :: s in sections ==> sections[s] in sections.Values;
      sections := sections[name := sectionMap];
      view := view[name := map[]];
    }

    /** Get a section and put a pair in it. */
    method PutIn(section: string, key: string, value: string)
      requires Valid() && section in view
      modifies this`view, sections.Values
      ensures Valid() && view == old(view)[section := old(view)[section][key := value]]
      ensures sections == old(sections)
    {
      assert sections[section] in sections.Values;
      sections[section].Put(key, value);
      view := view[section := view[section][key := value]];
    }
  }

  // ---------------------------------------------------------------- C strings

  /** The line as getline leaves it in a buffer. */
  method Load(line: string) returns (buf: array<char>)
    requires '\0' !in line
    ensures fresh(buf) && Holds(buf, line)
  {
    buf := new char[|line| + 1](i => if 0 <= i < |line| then line[i] else '\0');
  }

  /** The text of a NUL-terminated buffer. */
  method TextOf(buf: array<char>, from: nat, ghost s: string) returns (t: string)
    requires Holds(buf, s) && from <= |s|
    ensures t == s[from..]
  {
    t := "";
    var i := from;
    while buf[i] != '\0'
      invariant from <= i <= |s| && t == s[from..i]
      decreases |s| - i
    {
      t := t + [buf[i]];
      i := i + 1;
    }
  }

  /** strchr, as an offset; -1 for NULL. */
  method StrChr(buf: array<char>, c: char, ghost s: string) returns (offset: int)
    requires Holds(buf, s) && c != '\0'
    ensures offset == if IndexOf(s, c) == |s| then -1 else IndexOf(s, c)
  {
    var i := 0;
    while buf[i] != '\0'
      invariant 0 <= i <= |s| && i <= IndexOf(s, c)
      decreases |s| - i
    {
      if buf[i] == c {
        return i;
      }
      i := i + 1;
    }
    offset := -1;
  }

  // ---------------------------------------------------------------- one line

  /** Newline fix and strip. */
  method Prepare(line: string) returns (buf: array<char>, strLen: nat)
    requires IsLine(line)
    ensures fresh(buf) && Holds(buf, Strip(Chomp(line))) && strLen == |Strip(Chomp(line))|
  {
    buf := Load(line);
    var r := |line|;
    if buf[r - 1] == '\n' {
      buf[r - 1] := '\0';
      r := r - 1;
    }
    buf, strLen := StringStrip(buf, r, Chomp(line));
  }

  /** An assignment line, split at the '='. */
  method SplitAssignment(scan: Scan, buf: array<char>, offset: nat, ghost text: string)
    returns (key: string, value: string)
    requires Holds(buf, text) && offset < |text|
    modifies buf
    ensures key == Chewed(scan, text[..offset]) && value == Chewed(scan, text[offset + 1..])
  {
    var valueBuf := Duplicate(buf, offset + 1, text);
    buf[offset] := '\0';
    var keyBuf := Duplicate(buf, 0, text[..offset]);
    assert text[..offset][0..] == text[..offset];
    keyBuf := StringChew(scan, keyBuf, text[..offset]);
    valueBuf := StringChew(scan, valueBuf, text[offset + 1..]);
    key := TextOf(keyBuf, 0, Chewed(scan, text[..offset]));
    value := TextOf(valueBuf, 0, Chewed(scan, text[offset + 1..]));
  }

  /** A header: find the section's map, or create it. */
  method EnterSection(name: string, root: RootMap)
    requires root.Valid()
    modifies root
    ensures root.Valid() && fresh(root.sections.Values - old(root.sections.Values))
    ensures root.view == if name in old(root.view) then old(root.view) else old(root.view)[name := map[]]
  {
    var found := root.Contains(name);
    if !found {
      root.Create(name);
    }
  }

  /** The outcome of one line: 0 and the state after it, or its error code and the state before it. */
  ghost predicate LineDone(st: Ini, k: Kind, errRet: int, st': Ini) {
    match Step(st, k)
    case Ok(ini) => errRet == 0 && st' == ini
    case Err(e) => errRet == Code(e) && st' == st
  }

  /** The last part of an assignment: reject an empty key, find the section, put the pair. */
  method PutPair(root: RootMap, section: string, key: string, value: string) returns (errRet: int)
    requires root.Valid()
    modifies root, root.sections.Values
    ensures root.Valid() && root.sections == old(root.sections)
    ensures LineDone(Ini(old(root.view), Some(section)), Assign(key, value), errRet, Ini(root.view, Some(section)))
  {
    if key == "" {
      return Code(EmptyKey);
    }
    var found := root.Contains(section);
    if !found {
      return Code(Internal);
    }
    root.PutIn(section, key, value);
    errRet := 0;
  }

  lemma KindOfText(scan: Scan, text: string)
    ensures text == "" || text[0] in {'#', ';'} ==> KindOf(scan, text) == Skip
    ensures text != "" && text[0] == '[' ==>
      KindOf(scan, text) == if text[|text| - 1] != ']' then Unclosed else Header(text[1..|text| - 1])
    ensures text != "" && text[0] !in {'[', '#', ';'} ==>
      var i := IndexOf(text, '=');
      KindOf(scan, text) ==
        if i == |text| then Plain else Assign(Chewed(scan, text[..i]), Chewed(scan, text[i + 1..]))
  {
  }

  /** A line that starts a section: its name, or no closing bracket. */
  method ParseHeader(buf: array<char>, strLen: nat, ghost text: string) returns (name: Option<string>)
    requires Holds(buf, text) && strLen == |text| > 0 && text[0] == '['
    modifies buf
    ensures name == if text[|text| - 1] != ']' then None else Some(text[1..|text| - 1])
  {
    if buf[strLen - 1] != ']' {
      return None;
    }
    buf[strLen - 1] := '\0';
    var t := TextOf(buf, 1, text[..strLen - 1]);
    name := Some(t);
  }

  /** Any other line: key = value, in the current section. */
  method ParseAssignment(scan: Scan, buf: array<char>, root: RootMap, current: Option<string>, ghost text: string)
    returns (errRet: int)
    requires Holds(buf, text) && text != "" && text[0] !in {'[', '#', ';'} && root.Valid()
    modifies buf, root, root.sections.Values
    ensures root.Valid() && root.sections == old(root.sections)
    ensures LineDone(Ini(old(root.view), current), KindOf(scan, text), errRet, Ini(root.view, current))
  {
    KindOfText(scan, text);
    var ch := StrChr(buf, '=', text);
    if ch == -1 {
      return Code(InvalidLine);
    }
    if current.None? {
      return Code(NoSection);
    }
    var key, value := SplitAssignment(scan, buf, ch, text);
    errRet := PutPair(root, current.value, key, value);
  }

  /** The body of the loop from the trimmed line on. */
  method ParseText(scan: Scan, buf: array<char>, strLen: nat, root: RootMap, current: Option<string>,
                   ghost text: string)
    returns (errRet: int, current': Option<string>)
    requires Holds(buf, text) && strLen == |text| && root.Valid()
    modifies buf, root, root.sections.Values
    ensures root.Valid() && fresh(root.sections.Values - old(root.sections.Values))
    ensures LineDone(Ini(old(root.view), current), KindOf(scan, text), errRet, Ini(root.view, current'))
  {
    current', errRet := current, 0;
    KindOfText(scan, text);
    if buf[0] == '\0' {
      return;
    }
    if buf[0] == '[' {
      var name := ParseHeader(buf, strLen, text);
      if name.None? {
        errRet := Code(NotClosed);
        return;
      }
      EnterSection(name.value, root);
      current' := name;
      return;
    } else if buf[0] == '#' || buf[0] == ';' {
      return;
    }
    errRet := ParseAssignment(scan, buf, root, current, text);
  }

  /** The body of the loop. */
  method ParseLine(scan: Scan, line: string, root: RootMap, current: Option<string>)
    returns (errRet: int, current': Option<string>)
    requires IsLine(line) && root.Valid()
    modifies root, root.sections.Values
    ensures root.Valid() && fresh(root.sections.Values - old(root.sections.Values))
    ensures LineDone(Ini(old(root.view), current), Classify(scan, line), errRet, Ini(root.view, current'))
    ensures Bound(Ini(old(root.view), current)) ==> -errRet == FaultOf(Text(line), current.Some?)
  {
    var buf, strLen := Prepare(line);
    if Bound(Ini(root.view, current)) {
      LineFault(scan, Ini(root.view, current), line);
    }
    errRet, current' := ParseText(scan, buf, strLen, root, current, Text(line));
  }

  // ---------------------------------------------------------------- the file

  lemma RunRest(st: Ini, ks: seq<Kind>, i: nat)
    requires i < |ks|
    ensures Run(st, ks[i..], i + 1) ==
      match Step(st, ks[i])
      case Err(e) => Failed(e, i + 1)
      case Ok(st') => Run(st', ks[i + 1..], i + 2)
  {
    assert ks[i..][0] == ks[i] && ks[i..][1..] == ks[i + 1..];
  }

  lemma StepBound(st: Ini, k: Kind)
    requires Bound(st)
    ensures match Step(st, k)
      case Ok(st') => Bound(st')
      case Err(e) => e != Internal
  {
  }

  /** One round of the fold. */
  lemma RunNext(scan: Scan, lines: seq<string>, i: nat, st: Ini, errRet: int, st': Ini)
    requires i < |lines| && Bound(st)
    requires Parse(scan, lines) == Run(st, Kinds(scan, lines)[i..], i + 1)
    requires LineDone(st, Classify(scan, lines[i]), errRet, st')
    ensures errRet == 0 ==> Parse(scan, lines) == Run(st', Kinds(scan, lines)[i + 1..], i + 2) && Bound(st')
    ensures errRet != 0 ==>
      var p := Parse(scan, lines);
      p.Failed? && p.line == i + 1 && errRet == Code(p.error) && p.error != Internal
  {
    KindsAt(scan, lines, i);
    RunRest(st, Kinds(scan, lines), i);
    StepBound(st, Classify(scan, lines[i]));
  }

  /** One round of the loop below. */
  method ParseNext(scan: Scan, lines: seq<string>, i: nat, root: RootMap, current: Option<string>)
    returns (errRet: int, current': Option<string>)
    requires i < |lines| && IsLine(lines[i]) && root.Valid() && Bound(Ini(root.view, current))
    requires Parse(scan, lines) == Run(Ini(root.view, current), Kinds(scan, lines)[i..], i + 1)
    modifies root, root.sections.Values
    ensures root.Valid() && fresh(root.sections.Values - old(root.sections.Values))
    ensures errRet == 0 ==>
      && Bound(Ini(root.view, current'))
      && Parse(scan, lines) == Run(Ini(root.view, current'), Kinds(scan, lines)[i + 1..], i + 2)
    ensures errRet != 0 ==>
      var p := Parse(scan, lines);
      p.Failed? && p.line == i + 1 && errRet == Code(p.error) && p.error != Internal
  {
    ghost var st := Ini(root.view, current);
    errRet, current' := ParseLine(scan, lines[i], root, current);
    RunNext(scan, lines, i, st, errRet, Ini(root.view, current'));
  }

  /** 0 and the map, or the negated error code and the number of the failing line. */
  ghost predicate Answered(p: Outcome, r: int, view: Root, errorLine: int) {
    match p
    case Done(ini) => r == 0 && view == ini.root
    case Failed(e, m) => r == -Code(e) && errorLine == m && e != Internal
  }

  /** The loop: exactly the fold over the lines, and the internal error never happens. */
  method ParseLines(scan: Scan, lines: seq<string>) returns (r: int, outMap: RootMap, errorLine: int)
    requires forall i :: 0 <= i < |lines| ==> IsLine(lines[i])
    ensures outMap.Valid()
    ensures Answered(Parse(scan, lines), r, outMap.view, errorLine)
  {
    var current: Option<string> := None;
    outMap := new RootMap();
    var lineCount := 1;
    r, errorLine := 0, 0;
    assert Kinds(scan, lines)[0..] == Kinds(scan, lines);
    for i := 0 to |lines|
      invariant lineCount == i + 1
      invariant outMap.Valid() && fresh(outMap) && fresh(outMap.sections.Values)
      invariant Bound(Ini(outMap.view, current))
      invariant Parse(scan, lines) == Run(Ini(outMap.view, current), Kinds(scan, lines)[i..], i + 1)
    {
      var errRet;
      errRet, current := ParseNext(scan, lines, i, outMap, current);
      if errRet != 0 {
        errorLine := lineCount;
        r := -errRet;
        return;
      }
      lineCount := lineCount + 1;
    }
  }

  lemma {:induction false} AnswerFaults(scan: Scan, lines: seq<string>, r: int, view: Root, errorLine: int)
    requires Answered(Parse(scan, lines), r, view, errorLine)
    ensures r == 0 <==> Faultless(lines, |lines|)
    ensures r != 0 ==>
      1 <= errorLine <= |lines| && Faultless(lines, errorLine - 1) && r == Fault(lines, errorLine - 1)
  {
    ParseFaults(scan, lines);
  }

  /** The parser: what the fold over the lines says. It fails exactly when some line is at fault, and then at
      the first that is, with its number. */
  method ParseFull(scan: Scan, lines: seq<string>) returns (r: int, outMap: RootMap, errorLine: int)
    requires forall i :: 0 <= i < |lines| ==> IsLine(lines[i])
    ensures outMap.Valid()
    ensures Answered(Parse(scan, lines), r, outMap.view, errorLine)
    ensures r == 0 <==> Faultless(lines, |lines|)
    ensures r != 0 ==>
      1 <= errorLine <= |lines| && Faultless(lines, errorLine - 1) && r == Fault(lines, errorLine - 1)
  {
    r, outMap, errorLine := ParseLines(scan, lines);
    AnswerFaults(scan, lines, r, outMap.view, errorLine);
  }
}
