/** String trimming in place (inifile.c:46-150): buffers, the trimming they are meant to compute, and
    what string_chew_terminated computes as written. */
module Trim {

  predicate Blank(c: char) {
    c == ' ' || c == '\t'
  }

  predicate AllBlank(s: string) {
    forall i :: 0 <= i < |s| ==> Blank(s[i])
  }

  /** How many blanks s starts with. */
  function Lead(s: string): (n: nat)
    ensures n <= |s| && (n < |s| ==> !Blank(s[n]))
    ensures forall i :: 0 <= i < n ==> Blank(s[i])
  {
    if s == "" || !Blank(s[0]) then 0
    else
      assert forall i :: 0 < i < |s| ==> s[i] == s[1..][i - 1];
      1 + Lead(s[1..])
  }

  /** The length of s without its trailing blanks. */
  function Tail(s: string): (m: nat)
    ensures m <= |s| && (m > 0 ==> !Blank(s[m - 1]))
    ensures forall i :: m <= i < |s| ==> Blank(s[i])
  {
    if s == "" || !Blank(s[|s| - 1]) then |s| else Tail(s[..|s| - 1])
  }

  function Strip(s: string): string {
    if Lead(s) < Tail(s) then s[Lead(s)..Tail(s)] else ""
  }

  /** No blank at either end. */
  predicate Trimmed(s: string) {
    s == "" || (!Blank(s[0]) && !Blank(s[|s| - 1]))
  }

  lemma LeadIs(s: string, n: nat)
    requires n <= |s| && (n < |s| ==> !Blank(s[n])) && forall i :: 0 <= i < n ==> Blank(s[i])
    ensures Lead(s) == n
  {
    var m := Lead(s);
    assert n < |s| ==> m <= n;
  }

  lemma TailIs(s: string, m: nat)
    requires m <= |s| && (m > 0 ==> !Blank(s[m - 1])) && forall i :: m <= i < |s| ==> Blank(s[i])
    ensures Tail(s) == m
  {
    var n := Tail(s);
    assert m > 0 ==> m <= n;
  }

  lemma StripTrimmed(s: string)
    ensures Trimmed(Strip(s))
  {
  }

  /** Trimming is the only way to write s as blanks, a trimmed text, and blanks. */
  lemma StripUnique(p: string, t: string, q: string)
    requires AllBlank(p) && AllBlank(q) && Trimmed(t)
    ensures Strip(p + t + q) == t
  {
    var s := p + t + q;
    if t == "" {
      LeadIs(s, |s|);
    } else {
      LeadIs(s, |p|);
      TailIs(s, |p| + |t|);
    }
  }

  /** s is its trimmed text between blanks. */
  lemma StripParts(s: string) returns (p: string, q: string)
    ensures AllBlank(p) && AllBlank(q) && s == p + Strip(s) + q
  {
    if Lead(s) < Tail(s) {
      p, q := s[..Lead(s)], s[Tail(s)..];
    } else {
      p, q := s, "";
    }
  }

  lemma Regroup(p: string, a: string, t: string, b: string, q: string)
    ensures p + (a + t + b) + q == (p + a) + t + (b + q)
  {
  }

  /** Blanks added at the ends make no difference. */
  lemma StripPad(p: string, s: string, q: string)
    requires AllBlank(p) && AllBlank(q)
    ensures Strip(p + s + q) == Strip(s)
  {
    var a, b := StripParts(s);
    StripTrimmed(s);
    Regroup(p, a, Strip(s), b, q);
    StripUnique(p + a, Strip(s), b + q);
  }

  lemma Halves(s: string, i: nat)
    requires i <= |s|
    ensures s[..i] + s[i..] == s
  {
  }

  lemma StripAfter(p: string, s: string)
    requires AllBlank(p)
    ensures Strip(p + s) == Strip(s)
  {
    assert p + s + "" == p + s;
    StripPad(p, s, "");
  }

  lemma StripBefore(s: string, q: string)
    requires AllBlank(q)
    ensures Strip(s + q) == Strip(s)
  {
    assert "" + s + q == s + q;
    StripPad("", s, q);
  }

  lemma StripNoLead(s: string, n: nat)
    requires n <= |s| && AllBlank(s[..n])
    ensures Strip(s[n..]) == Strip(s)
  {
    Halves(s, n);
    StripAfter(s[..n], s[n..]);
  }

  lemma StripNoTail(s: string, m: nat)
    requires m <= |s| && AllBlank(s[m..])
    ensures Strip(s[..m]) == Strip(s)
  {
    Halves(s, m);
    StripBefore(s[..m], s[m..]);
  }

  /** Leading and trailing blanks may be cut off before trimming. */
  lemma StripHalf(s: string)
    ensures Strip(s[Lead(s)..]) == Strip(s) && Strip(s[..Tail(s)]) == Strip(s)
  {
    StripNoLead(s, Lead(s));
    StripNoTail(s, Tail(s));
  }

  lemma StripIdempotent(s: string)
    ensures Strip(Strip(s)) == Strip(s)
  {
    StripTrimmed(s);
    StripUnique("", Strip(s), "");
    assert "" + Strip(s) + "" == Strip(s);
  }

  // ---------------------------------------------------------------- string_chew_terminated

  /** Where the scan for trailing blanks starts and its cut is measured from: `len`, which leaves out the
      leading blanks, as written; or the end of the string, as intended. */
  datatype Scan = AsWritten | FromEnd

  function Base(scan: Scan, s: string): (b: nat)
    ensures b <= |s|
  {
    if scan.FromEnd? then |s| else |s| - Lead(s)
  }

  /** The blanks met going down from place i while above lo; the terminator at |s| is stepped over. */
  function BlankRun(s: string, i: nat, lo: nat): (n: nat)
    requires i <= |s|
    ensures lo <= i ==> n <= i - lo
  {
    if i <= lo then 0
    else if i == |s| then BlankRun(s, i - 1, lo)
    else if Blank(s[i]) then 1 + BlankRun(s, i - 1, lo)
    else 0
  }

  /** Where the chewed string ends. */
  function Cut(scan: Scan, s: string): (m: nat)
    ensures Lead(s) <= m <= |s|
  {
    var b := Base(scan, s);
    var e := BlankRun(s, b, Lead(s));
    if e > 0 then b - e else |s|
  }

  /** What string_chew_terminated returns. */
  function Chewed(scan: Scan, s: string): string {
    s[Lead(s)..Cut(scan, s)]
  }

  /** The condition a caller can check: no leading blank; or nothing but blanks; or no trailing blank, and
      the place as far from the start as the text is long is before the text or not a blank. */
  predicate ChewGuard(s: string) {
    var n := Lead(s);
    n == 0 || n == |s| || (!Blank(s[|s| - 1]) && (|s| - n <= n || !Blank(s[|s| - n])))
  }

  lemma {:induction false} BlankRunStops(s: string, i: nat, lo: nat)
    requires i < |s|
    ensures var n := BlankRun(s, i, lo);
      n <= i + 1 && (forall j :: i - n < j <= i ==> Blank(s[j])) && (i - n > lo ==> !Blank(s[i - n]))
  {
    if i > lo && Blank(s[i]) {
      BlankRunStops(s, i - 1, lo);
    }
  }

  /** A scan that starts at the end cuts exactly the trailing blanks. */
  lemma CutAtEnd(s: string, scan: Scan)
    requires Base(scan, s) == |s|
    ensures Chewed(scan, s) == Strip(s)
  {
    var n := Lead(s);
    if n < |s| {
      var e := BlankRun(s, |s| - 1, n);
      BlankRunStops(s, |s| - 1, n);
      assert BlankRun(s, |s|, n) == e;
      TailIs(s, |s| - e);
    }
  }

  /** Scanned from the end, the result is the trimmed string, for every string. */
  lemma FromEndIsStrip(s: string)
    ensures Chewed(FromEnd, s) == Strip(s)
  {
    CutAtEnd(s, FromEnd);
  }

  /** The scan as written ends the string at the end of its text exactly when nothing has to be cut and
      nothing is. */
  lemma CutExact(s: string)
    requires 0 < Lead(s) < |s|
    ensures Cut(AsWritten, s) == Tail(s) <==>
      !Blank(s[|s| - 1]) && (|s| - Lead(s) <= Lead(s) || !Blank(s[|s| - Lead(s)]))
  {
    BlankRunStops(s, |s| - Lead(s), Lead(s));
  }

  /** As written, the result is the trimmed string exactly when the guard holds, for every string. */
  lemma ChewExact(s: string)
    ensures Chewed(AsWritten, s) == Strip(s) <==> ChewGuard(s)
  {
    var n := Lead(s);
    if n == 0 {
      CutAtEnd(s, AsWritten);
    } else if n < |s| {
      assert n < Tail(s);
      CutExact(s);
    }
  }

  /** What the code as written returns for a string with n leading blanks, text, and whatever follows.
      The scan starts at place b, where the text's length ends when counted from the start of the string:
      when nothing there is blank, or b is not past the leading blanks, the rest of the string; otherwise
      the string is cut before place m, the first one down from b that is not blank, or n. */
  lemma ChewAsWritten(s: string) returns (m: nat)
    requires 0 < Lead(s) < |s|
    ensures var n, b := Lead(s), |s| - Lead(s);
      if b <= n || !Blank(s[b]) then Chewed(AsWritten, s) == s[n..]
      else
        && n <= m < b && (forall j :: m < j <= b ==> Blank(s[j])) && (m == n || !Blank(s[m]))
        && Chewed(AsWritten, s) == s[n..m]
  {
    var n, b := Lead(s), |s| - Lead(s);
    m := n;
    if b > n && Blank(s[b]) {
      BlankRunStops(s, b, n);
      m := b - BlankRun(s, b, n);
    }
  }

  /** The defect on a concrete value: two blanks and "a b" chew to the empty string. */
  lemma ChewExample()
    ensures Chewed(AsWritten, "  a b") == "" && Strip("  a b") == "a b"
  {
    var s := "  a b";
    LeadIs(s, 2);
    TailIs(s, 5);
    assert BlankRun(s, 2, 2) == 0 && BlankRun(s, 3, 2) == 1;
    assert s[2..5] == "a b";
  }

  // ---------------------------------------------------------------- buffers

  /** The buffer holds the NUL-terminated string s. */
  ghost predicate Holds(a: array<char>, s: string)
    reads a
  {
    && |s| < a.Length && a[|s|] == '\0'
    && forall i :: 0 <= i < |s| ==> a[i] == s[i] && s[i] != '\0'
  }

  /** strdup(a + from) */
  method Duplicate(a: array<char>, from: nat, ghost s: string) returns (c: array<char>)
    requires Holds(a, s) && from <= |s|
    ensures fresh(c) && Holds(c, s[from..])
  {
    var n := from;
    while a[n] != '\0'
      invariant from <= n <= |s|
      decreases |s| - n
    {
      n := n + 1;
    }
    c := new char[n - from + 1](i requires 0 <= i <= n - from && n < a.Length reads a => a[from + i]);
  }

  /** lstrip */
  method LStripBuffer(str: array<char>, len: nat, ghost s: string) returns (c: array<char>, outLen: nat)
    requires Holds(str, s) && len == |s|
    ensures (c == str || fresh(c)) && Holds(c, s[Lead(s)..]) && outLen == |s| - Lead(s)
  {
    var skipLen := 0;
    var i := 0;
    while i < len
      invariant 0 <= i == skipLen <= len && forall j :: 0 <= j < i ==> Blank(s[j])
    {
      if str[i] == ' ' || str[i] == '\t' {
        skipLen := skipLen + 1;
        i := i + 1;
        continue;
      }
      break;
    }
    LeadIs(s, skipLen);
    outLen := len - skipLen;
    if skipLen > 0 {
      c := Duplicate(str, skipLen, s);
    } else {
      c := str;
      assert s[0..] == s;
    }
  }

  /** The length rstrip leaves: it never looks at the first character. */
  function RStripLength(s: string): (n: nat)
    ensures n <= |s|
  {
    if s != "" && Tail(s) == 0 then 1 else Tail(s)
  }

  /** rstrip */
  method RStripBuffer(str: array<char>, len: nat, ghost s: string) returns (outLen: nat)
    requires Holds(str, s) && len == |s|
    modifies str
    ensures outLen == RStripLength(s) && Holds(str, s[..outLen])
  {
    var skipLen := 0;
    var i := len;
    while i > 0
      invariant 0 <= i <= len && skipLen == if i == len then 0 else len - 1 - i
      invariant forall j :: len - skipLen <= j < len ==> Blank(s[j])
    {
      if str[i] == ' ' || str[i] == '\t' {
        skipLen := skipLen + 1;
        i := i - 1;
        continue;
      } else if str[i] == '\0' {
        i := i - 1;
        continue;
      }
      break;
    }
    outLen := len - skipLen;
    if i > 0 || len == 0 || !Blank(s[0]) {
      TailIs(s, outLen);
    } else {
      TailIs(s, 0);
    }
    if len == skipLen {
      return;
    }
    str[len - skipLen] := '\0';
  }

  /** Cutting off leading blanks moves the trailing ones along. */
  lemma TailAfter(s: string, n: nat)
    requires n < |s| && !Blank(s[n])
    ensures n < Tail(s) && Tail(s[n..]) == Tail(s) - n
  {
    assert s[n..][Tail(s) - n - 1] == s[Tail(s) - 1];
    TailIs(s[n..], Tail(s) - n);
  }

  lemma CutTwice(s: string, n: nat, m: nat)
    requires n <= m <= |s|
    ensures s[n..][..m - n] == s[n..m]
  {
  }

  lemma StripInTwo(s: string)
    ensures var t := s[Lead(s)..]; t[..RStripLength(t)] == Strip(s)
  {
    var n, t := Lead(s), s[Lead(s)..];
    if n < |s| {
      TailAfter(s, n);
      CutTwice(s, n, Tail(s));
    }
  }

  /** string_strip: the trimmed string, and its real length. */
  method StringStrip(str: array<char>, len: nat, ghost s: string) returns (c: array<char>, outLen: nat)
    requires Holds(str, s) && len == |s|
    modifies str
    ensures (c == str || fresh(c)) && Holds(c, Strip(s)) && outLen == |Strip(s)|
  {
    var myLen;
    c, myLen := LStripBuffer(str, len, s);
    ghost var t := s[Lead(s)..];
    outLen := RStripBuffer(c, myLen, t);
    StripInTwo(s);
  }

  /** The first loop of string_chew_terminated: the leading blanks, and the characters after them. */
  method CountChars(inp: array<char>, ghost s: string) returns (skipOffset: nat, len: nat)
    requires Holds(inp, s)
    ensures skipOffset == Lead(s) && skipOffset + len == |s|
  {
    skipOffset, len := 0, 0;
    var count := true;
    var p := 0;
    while inp[p] != '\0'
      invariant 0 <= p <= |s| && skipOffset + len == p
      invariant count ==> len == 0 && forall j :: 0 <= j < p ==> Blank(s[j])
      invariant !count ==> skipOffset == Lead(s)
      decreases |s| - p
    {
      if count && (inp[p] == ' ' || inp[p] == '\t') {
        skipOffset := skipOffset + 1;
        p := p + 1;
        continue;
      } else {
        if count {
          LeadIs(s, p);
        }
        count := false;
      }
      len := len + 1;
      p := p + 1;
    }
    if count {
      LeadIs(s, p);
    }
  }

  /** The second loop: the blanks found going down from `base`. */
  method CountBlanks(inp: array<char>, base: nat, skipOffset: nat, ghost s: string) returns (endLen: nat)
    requires Holds(inp, s) && base <= |s|
    ensures endLen == BlankRun(s, base, skipOffset)
  {
    endLen := 0;
    var i := base;
    while i > skipOffset
      invariant 0 <= i <= base
      invariant endLen + BlankRun(s, i, skipOffset) == BlankRun(s, base, skipOffset)
    {
      if inp[i] == ' ' || inp[i] == '\t' {
        endLen := endLen + 1;
        i := i - 1;
        continue;
      } else if inp[i] == '\0' {
        i := i - 1;
        continue;
      }
      break;
    }
  }

  /** string_chew_terminated */
  method StringChew(scan: Scan, inp: array<char>, ghost s: string) returns (c: array<char>)
    requires Holds(inp, s)
    modifies inp
    ensures (c == inp || fresh(c)) && Holds(c, Chewed(scan, s))
  {
    var skipOffset, len := CountChars(inp, s);
    var base := if scan.AsWritten? then len else skipOffset + len;
    var endLen := CountBlanks(inp, base, skipOffset, s);
    ghost var t := s[..Cut(scan, s)];
    if endLen > 0 {
      inp[base - endLen] := '\0';
    }
    assert t[skipOffset..] == Chewed(scan, s);
    if skipOffset > 0 {
      c := Duplicate(inp, skipOffset, t);
    } else {
      c := inp;
      assert t[0..] == t;
    }
  }
}
