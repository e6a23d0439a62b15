/**
 src/ivydiscovery.h as it runs: a cursor moves over a C string, numbers are
 accumulated under a guard against overflow, and the results go to the caller's
 variables only when the whole line has been accepted.
 */
module IvyDiscovery {
  import opened Sequences
  import opened DiscoveryGrammar

  /** *p for a pointer into the line: the terminator stands at its end. */
  function CharAt(line: string, p: nat): char
    requires p <= |line|
  {
    if p < |line| then line[p] else '\0'
  }

  ghost predicate CString(line: string) {
    forall i :: 0 <= i < |line| ==> line[i] != '\0'
  }

  lemma SpanStep(f: char -> bool, line: string, p: nat)
    requires p < |line| && f(line[p])
    ensures Span(f, line[p..]) == 1 + Span(f, line[p + 1..])
  {
    assert line[p..][1..] == line[p + 1..];
  }

  method SkipBlanks(line: string, p0: nat) returns (p: nat)
    requires p0 <= |line| && CString(line)
    ensures p <= |line| && p == p0 + Span(Blank, line[p0..])
  {
    p := p0;
    while CharAt(line, p) == ' ' || CharAt(line, p) == '\t'
      invariant p0 <= p <= |line|
      invariant p - p0 + Span(Blank, line[p..]) == Span(Blank, line[p0..])
      decreases |line| - p
    {
      SpanStep(Blank, line, p);
      p := p + 1;
    }
  }

  /** What the loop has accumulated after the digits from a up to p. */
  ghost predicate Accumulated(line: string, a: nat, p: nat, number: nat, limit: nat) {
    && a <= p <= |line|
    && (forall i :: a <= i < p ==> Digit(line[i]))
    && number == Decimal(line[a..p]) <= limit
    && Span(Digit, line[a..]) == p - a + Span(Digit, line[p..])
  }

  lemma AnotherDigit(line: string, a: nat, p: nat, number: nat, limit: nat)
    requires Accumulated(line, a, p, number, limit) && p < |line| && Digit(line[p])
    ensures Decimal(line[a..p + 1]) == 10 * number + DigitValue(line[p])
    ensures Span(Digit, line[a..]) == p + 1 - a + Span(Digit, line[p + 1..])
    ensures 10 * number + DigitValue(line[p]) <= limit ==> Accumulated(line, a, p + 1, 10 * number + DigitValue(line[p]), limit)
  {
    assert line[a..p + 1][..p - a] == line[a..p];
    SpanStep(Digit, line, p);
  }

  lemma NoDigitsYet(line: string, a: nat, limit: nat)
    requires a <= |line|
    ensures Accumulated(line, a, a, 0, limit)
  {
  }

  lemma AccumulatedBounds(line: string, a: nat, p: nat, number: nat, limit: nat)
    requires Accumulated(line, a, p, number, limit)
    ensures a <= p <= |line| && number <= limit && forall i :: a <= i < p ==> Digit(line[i])
  {
  }

  /** Once a prefix of the digits is beyond the limit the whole numeral is. */
  lemma BeyondLimit(line: string, a: nat, p: nat, limit: nat)
    requires a < p <= |line| && p - a <= Span(Digit, line[a..])
    requires forall i :: a <= i < p ==> Digit(line[i])
    requires Decimal(line[a..p]) > limit
    ensures forall i :: 0 <= i < Span(Digit, line[a..]) ==> Digit(line[a..][i])
    ensures Decimal(line[a..][..Span(Digit, line[a..])]) > limit
  {
    var s1 := line[a..];
    var n := Span(Digit, s1);
    SpanSplits(Digit, s1);
    forall i | 0 <= i < n
      ensures Digit(s1[i])
    {
      assert s1[i] == s1[..n][i];
    }
    DecimalGrows(s1[..n], p - a);
    assert s1[..n][..p - a] == line[a..p];
  }

  /** The do-while loop of IvyDiscoveryNumber: the exact value, or the finding that it is beyond the limit. */
  method Accumulate(line: string, a: nat, limit: nat) returns (ok: bool, p: nat, number: nat)
    requires a < |line| && CString(line) && Digit(line[a]) && limit >= 9
    ensures a < p <= |line|
    ensures var s1 := line[a..]; var n := Span(Digit, s1);
      && n > 0 && (forall i :: 0 <= i < n ==> Digit(s1[i]))
      && (ok <==> Decimal(s1[..n]) <= limit)
      && (ok ==> p == a + n && number == Decimal(s1[..n]))
  {
    hide Accumulated, Decimal, Span;
    p, number := a, 0;
    SpanStep(Digit, line, a);
    NoDigitsYet(line, a, limit);
    var again := true;
    while again
      invariant Accumulated(line, a, p, number, limit)
      invariant a <= p <= |line| && (again ==> p < |line| && Digit(line[p]))
      invariant !again ==> p > a && (p < |line| ==> !Digit(line[p]))
      decreases |line| - p, again
    {
      var digit := CharAt(line, p) as int - '0' as int;
      AccumulatedBounds(line, a, p, number, limit);
      AnotherDigit(line, a, p, number, limit);
      if number > (limit - digit) / 10 {
        BeyondLimit(line, a, p + 1, limit);
        return false, p + 1, number;
      }
      number := number * 10 + digit;
      p := p + 1;
      again := '0' <= CharAt(line, p) <= '9';
    }
    AccumulatedBounds(line, a, p, number, limit);
    AllDigits(line, a, p, number, limit);
    ok := true;
  }

  lemma AllDigits(line: string, a: nat, p: nat, number: nat, limit: nat)
    requires Accumulated(line, a, p, number, limit) && a < p && (p < |line| ==> !Digit(line[p]))
    ensures var s1 := line[a..]; var n := Span(Digit, s1);
      n == p - a && (forall i :: 0 <= i < n ==> Digit(s1[i])) && Decimal(s1[..n]) == number
  {
    assert Span(Digit, line[p..]) == 0;
    assert line[a..][..p - a] == line[a..p];
  }

  lemma SliceOfRest(line: string, p: nat, n: nat)
    requires p + n <= |line|
    ensures line[p..][..n] == line[p..p + n] && line[p..][n..] == line[p + n..]
  {
  }

  lemma Suffix(line: string, p: nat, n: nat)
    requires p + n <= |line|
    ensures line[p..][n..] == line[p + n..]
    ensures p < |line| ==> line[p..] != [] && line[p..][0] == line[p]
    ensures p == |line| ==> line[p..] == []
  {
  }

  lemma NumberReadsOff(s: string, limit: nat, s1: string, n: nat, s2: string, blank: bool, s3: string)
    requires s1 == s[Span(Blank, s)..] && n == Span(Digit, s1) && s2 == s1[n..]
    requires blank == (s2 != [] && Blank(s2[0])) && s3 == s2[Span(Blank, s2)..]
    ensures forall i :: 0 <= i < n ==> Digit(s1[i])
    ensures Number(s, limit) == if n == 0 || Decimal(s1[..n]) > limit || !blank then None else Some((Decimal(s1[..n]), s3))
  {
    hide Span, Decimal;
    SpanSplits(Digit, s1);
    assert forall i :: 0 <= i < n ==> s1[i] == s1[..n][i];
  }

  /** Number read off the positions the cursor goes through: a after the blanks, b after the digits, c after more blanks. */
  lemma NumberAt(line: string, cursor: nat, limit: nat, a: nat, n: nat, b: nat, c: nat)
    requires cursor <= |line| && a == cursor + Span(Blank, line[cursor..])
    requires n == Span(Digit, line[a..]) && b == a + n && c == b + Span(Blank, line[b..])
    ensures forall i :: 0 <= i < n ==> Digit(line[a..][i])
    ensures Number(line[cursor..], limit) ==
      if n == 0 || Decimal(line[a..][..n]) > limit || !(b < |line| && Blank(line[b])) then None
      else Some((Decimal(line[a..][..n]), line[c..]))
  {
    hide Span, Decimal, Number, Digit, Blank;
    Suffix(line, cursor, a - cursor);
    Suffix(line, a, n);
    Suffix(line, b, c - b);
    NumberReadsOff(line[cursor..], limit, line[a..], n, line[b..], b < |line| && Blank(line[b]), line[c..]);
  }

  /** IvyDiscoveryNumber: *value and *cursor keep their contents when the result is 0 */
  method IvyDiscoveryNumber(line: string, cursor: nat, limit: nat, value0: nat)
    returns (ok: bool, cursor': nat, value: nat)
    requires cursor <= |line| && CString(line) && limit >= 9
    ensures cursor' <= |line|
    ensures match Number(line[cursor..], limit)
      case None => !ok && cursor' == cursor && value == value0
      case Some((v, rest)) => ok && value == v <= limit && line[cursor'..] == rest
  {
    hide Number, Decimal;
    var p := SkipBlanks(line, cursor);
    ghost var n := Span(Digit, line[p..]);
    NumberAt(line, cursor, limit, p, n, p + n, p + n + Span(Blank, line[p + n..]));
    if CharAt(line, p) < '0' || CharAt(line, p) > '9' {
      return false, cursor, value0;
    }
    var small, q, number := Accumulate(line, p, limit);
    if !small {
      return false, cursor, value0;
    }
    if CharAt(line, q) != ' ' && CharAt(line, q) != '	' {
      return false, cursor, value0;
    }
    cursor' := SkipBlanks(line, q);
    return true, cursor', number;
  }

  /** The variables that IvyParseDiscovery writes through its pointers. */
  class Target {
    var version: int
    var port: nat
    const appid: array<char>
    const appname: array<char>

    constructor (idSize: nat, nameSize: nat)
      ensures appid.Length == idSize && appname.Length == nameSize && fresh(appid) && fresh(appname) && appid != appname
    {
      appid := new char[idSize];
      appname := new char[nameSize];
    }
  }

  /** memcpy of a field and its terminator */
  method CopyField(dst: array<char>, text: string)
    requires |text| < dst.Length
    modifies dst
    ensures dst[..|text|] == text && dst[|text|] == '\0'
    ensures dst[|text| + 1..] == old(dst[|text| + 1..])
  {
    forall i | 0 <= i < |text| {
      dst[i] := text[i];
    }
    dst[|text|] := '\0';
  }

  /** The cursor at the end of the line: an optional CR, an optional LF, the terminator. */
  method AtLineEnd(line: string, p0: nat) returns (ok: bool)
    requires p0 <= |line| && CString(line)
    ensures ok == LineOver(line[p0..])
  {
    var p := p0;
    if CharAt(line, p) == '\r' {
      assert line[p..][1..] == line[p + 1..];
      p := p + 1;
    }
    if CharAt(line, p) == '\n' {
      assert line[p..][1..] == line[p + 1..];
      p := p + 1;
    }
    ok := CharAt(line, p) == '\0';
  }

  /** The part of IvyParseDiscovery from the name on; strcspn is Span. */
  method ParseName(line: string, p: nat, nameSize: nat) returns (ok: bool, name: string)
    requires p <= |line| && CString(line)
    ensures match NameField(line[p..], nameSize)
      case None => !ok
      case Some(n) => ok && name == n && |n| < nameSize
  {
    hide LineOver, Span;
    ok, name := false, "";
    var nameLength := Span(NameChar, line[p..]);
    SliceOfRest(line, p, nameLength);
    if nameLength == 0 || nameLength >= nameSize {
      return;
    }
    name := line[p..p + nameLength];
    ok := AtLineEnd(line, p + nameLength);
  }

  /** The part of IvyParseDiscovery from the identity on. */
  method ParseTail(line: string, p: nat, idSize: nat, nameSize: nat) returns (ok: bool, id: string, name: string)
    requires p <= |line| && CString(line)
    ensures match Tail(line[p..], idSize, nameSize)
      case None => !ok
      case Some((i, n)) => ok && id == i && name == n && |i| < idSize && |n| < nameSize
  {
    hide NameField, Span;
    ok, id, name := false, "", "";
    var idLength := Span(IdChar, line[p..]);
    SliceOfRest(line, p, idLength);
    if idLength == 0 || idLength >= idSize {
      return;
    }
    id := line[p..p + idLength];
    var q := p + idLength;
    if CharAt(line, q) != ' ' && CharAt(line, q) != '\t' {
      return;
    }
    var r := SkipBlanks(line, q);
    SliceOfRest(line, q, r - q);
    ok, name := ParseName(line, r, nameSize);
  }

  /** IvyParseDiscovery: all four results are written, or none. */
  method IvyParseDiscovery(line: string, t: Target) returns (ok: bool)
    requires CString(line) && t.appid != t.appname
    modifies t, t.appid, t.appname
    ensures match Parse(line, t.appid.Length, t.appname.Length)
      case None =>
        && !ok && t.version == old(t.version) && t.port == old(t.port)
        && t.appid[..] == old(t.appid[..]) && t.appname[..] == old(t.appname[..])
      case Some(f) =>
        && ok && t.version == f.version && t.port == f.port
        && |f.id| < t.appid.Length && t.appid[..|f.id|] == f.id && t.appid[|f.id|] == '\0'
        && |f.name| < t.appname.Length && t.appname[..|f.name|] == f.name && t.appname[|f.name|] == '\0'
  {
    hide Number, Tail;
    assert line[0..] == line;
    var gotVersion, p, parsedVersion := IvyDiscoveryNumber(line, 0, INT_MAX, 0);
    if !gotVersion {
      return false;
    }
    var gotPort, q, parsedPort := IvyDiscoveryNumber(line, p, PORT_MAX, 0);
    if !gotPort || parsedPort == 0 {
      return false;
    }
    var gotTail, id, name := ParseTail(line, q, t.appid.Length, t.appname.Length);
    if !gotTail {
      return false;
    }
    CopyField(t.appid, id);
    CopyField(t.appname, name);
    t.version := parsedVersion;
    t.port := parsedPort;
    return true;
  }
}
