/**
 The lines that src/ivydiscovery.h accepts: the parser as a function on
 strings, the grammar as a way to put a line together, and why they agree.
 A line is a C string: what comes after its last character is the terminator.
 */
module DiscoveryGrammar {
  import opened Sequences

  const INT_MAX: nat := 2147483647
  const PORT_MAX: nat := 65535

  datatype Fields = Fields(version: nat, port: nat, id: string, name: string)

  // ---- character classes ----

  predicate Blank(c: char) { c == ' ' || c == '\t' }

  predicate Digit(c: char) { '0' <= c <= '9' }

  predicate IdChar(c: char) { c != ' ' && c != '\t' && c != '\r' && c != '\n' }

  predicate NameChar(c: char) { c != '\r' && c != '\n' }

  ghost predicate All(f: char -> bool, s: string) {
    forall i :: 0 <= i < |s| ==> f(s[i])
  }

  /** How many characters from the start of s are in the class. */
  function Span(f: char -> bool, s: string): (n: nat)
    ensures n <= |s|
  {
    if s != [] && f(s[0]) then 1 + Span(f, s[1..]) else 0
  }

  lemma {:induction false} SpanIs(f: char -> bool, x: string, y: string)
    requires All(f, x) && (y != [] ==> !f(y[0]))
    ensures Span(f, x + y) == |x| && (x + y)[..|x|] == x && (x + y)[|x|..] == y
  {
    if x == [] {
      assert x + y == y;
    } else {
      assert (x + y)[0] == x[0] && (x + y)[1..] == x[1..] + y;
      SpanIs(f, x[1..], y);
    }
  }

  lemma {:induction false} SpanSplits(f: char -> bool, s: string)
    ensures var n := Span(f, s);
      All(f, s[..n]) && (n < |s| ==> !f(s[n])) && s == s[..n] + s[n..]
  {
    if s != [] && f(s[0]) {
      SpanSplits(f, s[1..]);
      var n := Span(f, s[1..]);
      forall i | 0 <= i < n + 1
        ensures f(s[i])
      {
        assert i > 0 ==> s[i] == s[1..][..n][i - 1];
      }
    }
  }

  // ---- decimal numbers ----

  function DigitValue(c: char): nat
    requires Digit(c)
  {
    c as int - '0' as int
  }

  /** The exact value of a string of digits. */
  function Decimal(s: string): nat
    requires forall i :: 0 <= i < |s| ==> Digit(s[i])
  {
    if s == [] then 0 else 10 * Decimal(s[..|s| - 1]) + DigitValue(s[|s| - 1])
  }

  /** More digits never make the value smaller. */
  lemma {:induction false} DecimalGrows(s: string, n: nat)
    requires n <= |s| && forall i :: 0 <= i < |s| ==> Digit(s[i])
    ensures Decimal(s[..n]) <= Decimal(s)
    decreases |s| - n
  {
    if n == |s| {
      assert s[..n] == s;
    } else {
      assert s[..n + 1][..n] == s[..n];
      DecimalGrows(s, n + 1);
    }
  }

  /** A number field: its value and what follows it and its blanks. */
  function Number(s: string, limit: nat): Option<(nat, string)> {
    var s1 := s[Span(Blank, s)..];
    var n := Span(Digit, s1);
    SpanSplits(Digit, s1);
    assert forall i :: 0 <= i < n ==> s1[i] == s1[..n][i];
    var s2 := s1[n..];
    if n == 0 || Decimal(s1[..n]) > limit || s2 == [] || !Blank(s2[0]) then None
    else Some((Decimal(s1[..n]), s2[Span(Blank, s2)..]))
  }

  // ---- the whole line ----

  /** Nothing but an optional CR and an optional LF. */
  predicate LineOver(s: string) {
    var s1 := if s != [] && s[0] == '\r' then s[1..] else s;
    var s2 := if s1 != [] && s1[0] == '\n' then s1[1..] else s1;
    s2 == []
  }

  /** The name field and the line ending. */
  function NameField(s: string, nameSize: nat): Option<string> {
    var m := Span(NameChar, s);
    if m == 0 || m >= nameSize || !LineOver(s[m..]) then None else Some(s[..m])
  }

  /** The identity and name fields and the line ending. */
  function Tail(s: string, idSize: nat, nameSize: nat): Option<(string, string)> {
    var n := Span(IdChar, s);
    var s3 := s[n..];
    if n == 0 || n >= idSize || s3 == [] || !Blank(s3[0]) then None
    else
      match NameField(s3[Span(Blank, s3)..], nameSize)
      case None => None
      case Some(name) => Some((s[..n], name))
  }

  function Parse(s: string, idSize: nat, nameSize: nat): Option<Fields> {
    match Number(s, INT_MAX)
    case None => None
    case Some((version, s1)) =>
      match Number(s1, PORT_MAX)
      case None => None
      case Some((port, s2)) =>
        if port == 0 then None
        else
          match Tail(s2, idSize, nameSize)
          case None => None
          case Some((id, name)) => Some(Fields(version, port, id, name))
  }

  // ---- the grammar ----

  datatype Parts = Parts(ws0: string, version: string, ws1: string, port: string, ws2: string,
                         id: string, ws3: string, name: string, eol: string)

  function Line(p: Parts): string {
    p.ws0 + (p.version + (p.ws1 + (p.port + (p.ws2 + (p.id + (p.ws3 + (p.name + p.eol)))))))
  }

  ghost predicate Numeral(s: string, limit: nat) {
    s != [] && (forall i :: 0 <= i < |s| ==> Digit(s[i])) && Decimal(s) <= limit
  }

  ghost predicate Separator(s: string) {
    s != [] && All(Blank, s)
  }

  ghost predicate IdText(s: string, size: nat) {
    0 < |s| < size && All(IdChar, s)
  }

  ghost predicate NameText(s: string, size: nat) {
    0 < |s| < size && All(NameChar, s) && !Blank(s[0])
  }

  ghost predicate LineEnd(s: string) {
    s == "" || s == "\r" || s == "\n" || s == "\r\n"
  }

  ghost predicate Grammatical(p: Parts, idSize: nat, nameSize: nat) {
    && All(Blank, p.ws0)
    && Numeral(p.version, INT_MAX) && Separator(p.ws1)
    && Numeral(p.port, PORT_MAX) && Decimal(p.port) != 0 && Separator(p.ws2)
    && IdText(p.id, idSize) && Separator(p.ws3)
    && NameText(p.name, nameSize) && LineEnd(p.eol)
  }

  function FieldsOf(p: Parts): Fields
    requires forall i :: 0 <= i < |p.version| ==> Digit(p.version[i])
    requires forall i :: 0 <= i < |p.port| ==> Digit(p.port[i])
  {
    Fields(Decimal(p.version), Decimal(p.port), p.id, p.name)
  }

  // ---- every grammatical line is accepted, with its fields ----

  lemma StartsWith(x: string, y: string)
    requires x != []
    ensures x + y != [] && (x + y)[0] == x[0]
  {
  }

  lemma NumberReads(ws: string, d: string, ws': string, rest: string, limit: nat)
    requires All(Blank, ws) && Numeral(d, limit) && Separator(ws')
    requires rest != [] ==> !Blank(rest[0])
    ensures Number(ws + (d + (ws' + rest)), limit) == Some((Decimal(d), rest))
  {
    hide Span, Decimal;
    var s2 := ws' + rest;
    var s1 := d + s2;
    StartsWith(d, s2);
    StartsWith(ws', rest);
    assert Digit(d[0]) && Blank(ws'[0]);
    SpanIs(Blank, ws, s1);
    SpanIs(Digit, d, s2);
    SpanIs(Blank, ws', rest);
  }

  lemma NameReads(name: string, eol: string, nameSize: nat)
    requires NameText(name, nameSize) && LineEnd(eol)
    ensures NameField(name + eol, nameSize) == Some(name)
  {
    hide Span;
    SpanIs(NameChar, name, eol);
  }

  lemma TailReads(id: string, ws: string, name: string, eol: string, idSize: nat, nameSize: nat)
    requires IdText(id, idSize) && Separator(ws) && NameText(name, nameSize) && LineEnd(eol)
    ensures Tail(id + (ws + (name + eol)), idSize, nameSize) == Some((id, name))
  {
    hide Span, NameField, LineEnd;
    var s4 := name + eol;
    var s3 := ws + s4;
    StartsWith(ws, s4);
    StartsWith(name, eol);
    assert Blank(ws[0]);
    SpanIs(IdChar, id, s3);
    SpanIs(Blank, ws, s4);
    NameReads(name, eol, nameSize);
  }

  lemma AcceptsGrammatical(p: Parts, idSize: nat, nameSize: nat)
    requires Grammatical(p, idSize, nameSize)
    ensures Parse(Line(p), idSize, nameSize) == Some(FieldsOf(p))
  {
    hide Number, Tail;
    var s2 := p.id + (p.ws3 + (p.name + p.eol));
    assert s2[0] == p.id[0] && IdChar(p.id[0]);
    NumberReads("", p.port, p.ws2, s2, PORT_MAX);
    var s1 := p.port + (p.ws2 + s2);
    assert "" + s1 == s1;
    assert s1[0] == p.port[0] && Digit(p.port[0]);
    NumberReads(p.ws0, p.version, p.ws1, s1, INT_MAX);
    TailReads(p.id, p.ws3, p.name, p.eol, idSize, nameSize);
  }

  // ---- and every accepted line is grammatical ----

  lemma NumberSplits(s: string, limit: nat) returns (ws: string, d: string, ws': string)
    requires Number(s, limit).Some?
    ensures All(Blank, ws) && Numeral(d, limit) && Separator(ws')
    ensures var (v, rest) := Number(s, limit).value;
      Decimal(d) == v && s == ws + (d + (ws' + rest)) && (rest != [] ==> !Blank(rest[0]))
  {
    var n0 := Span(Blank, s);
    SpanSplits(Blank, s);
    var s1 := s[n0..];
    var n := Span(Digit, s1);
    SpanSplits(Digit, s1);
    var s2 := s1[n..];
    var n2 := Span(Blank, s2);
    SpanSplits(Blank, s2);
    ws, d, ws' := s[..n0], s1[..n], s2[..n2];
  }

  lemma TailSplits(s: string, idSize: nat, nameSize: nat) returns (ws: string, eol: string)
    requires Tail(s, idSize, nameSize).Some?
    ensures var (id, name) := Tail(s, idSize, nameSize).value;
      IdText(id, idSize) && Separator(ws) && NameText(name, nameSize) && LineEnd(eol)
      && s == id + (ws + (name + eol))
  {
    var n := Span(IdChar, s);
    SpanSplits(IdChar, s);
    var s3 := s[n..];
    var n3 := Span(Blank, s3);
    SpanSplits(Blank, s3);
    var s4 := s3[n3..];
    var m := Span(NameChar, s4);
    SpanSplits(NameChar, s4);
    ws, eol := s3[..n3], s4[m..];
    LineEnds(eol);
    assert s4[..m][0] == s4[0];
  }

  lemma LineEnds(s: string)
    requires LineOver(s)
    ensures LineEnd(s)
  {
    if s != [] && s[0] == '\r' {
      assert s == ['\r'] + s[1..];
    }
  }

  lemma NoLeadingBlank(s: string, ws: string, rest: string)
    requires s == ws + rest && All(Blank, ws) && (s != [] ==> !Blank(s[0]))
    ensures ws == []
  {
    assert forall i :: 0 <= i < |ws| ==> s[i] == ws[i];
  }

  lemma AcceptedIsGrammatical(s: string, idSize: nat, nameSize: nat) returns (p: Parts)
    requires Parse(s, idSize, nameSize).Some?
    ensures Grammatical(p, idSize, nameSize) && s == Line(p)
    ensures Parse(s, idSize, nameSize) == Some(FieldsOf(p))
  {
    var ws0, version, ws1 := NumberSplits(s, INT_MAX);
    var s1 := Number(s, INT_MAX).value.1;
    var ws1', port, ws2 := NumberSplits(s1, PORT_MAX);
    NoLeadingBlank(s1, ws1', port + (ws2 + Number(s1, PORT_MAX).value.1));
    var s2 := Number(s1, PORT_MAX).value.1;
    var (id, name) := Tail(s2, idSize, nameSize).value;
    var ws3, eol := TailSplits(s2, idSize, nameSize);
    assert s1 == port + (ws2 + s2);
    p := Parts(ws0, version, ws1, port, ws2, id, ws3, name, eol);
  }

  /** The accepted language, exactly: fields come out precisely when the line is put together from them. */
  lemma Language(s: string, idSize: nat, nameSize: nat, f: Fields)
    ensures Parse(s, idSize, nameSize) == Some(f) <==>
      exists p: Parts :: Grammatical(p, idSize, nameSize) && Line(p) == s && FieldsOf(p) == f
  {
    if Parse(s, idSize, nameSize) == Some(f) {
      var p := AcceptedIsGrammatical(s, idSize, nameSize);
    }
    if p: Parts :| Grammatical(p, idSize, nameSize) && Line(p) == s && FieldsOf(p) == f {
      AcceptsGrammatical(p, idSize, nameSize);
    }
  }

  // ---- printing ----

  /** The decimal numeral of n. */
  function Show(n: nat): (s: string)
    ensures s != [] && forall i :: 0 <= i < |s| ==> Digit(s[i])
  {
    var last := [('0' as int + n % 10) as char];
    if n < 10 then last else Show(n / 10) + last
  }

  lemma {:induction false} ShowDecimal(n: nat)
    ensures Decimal(Show(n)) == n
  {
    var s := Show(n);
    if n >= 10 {
      ShowDecimal(n / 10);
      assert s[..|s| - 1] == Show(n / 10);
    } else {
      assert s[..0] == [];
    }
  }

  /** The fields a message can carry to a receiver with the given buffer sizes. */
  ghost predicate Valid(f: Fields, idSize: nat, nameSize: nat) {
    && f.version <= INT_MAX && 0 < f.port <= PORT_MAX
    && IdText(f.id, idSize) && NameText(f.name, nameSize)
  }

  function Print(f: Fields, eol: string): string {
    Show(f.version) + (" " + (Show(f.port) + (" " + (f.id + (" " + (f.name + eol))))))
  }

  /** Printing and parsing gives the fields back, whatever the line ending. */
  lemma PrintParse(f: Fields, eol: string, idSize: nat, nameSize: nat)
    requires Valid(f, idSize, nameSize) && LineEnd(eol)
    ensures Parse(Print(f, eol), idSize, nameSize) == Some(f)
  {
    var p := Parts("", Show(f.version), " ", Show(f.port), " ", f.id, " ", f.name, eol);
    ShowDecimal(f.version);
    ShowDecimal(f.port);
    AcceptsGrammatical(p, idSize, nameSize);
    assert Line(p) == Print(f, eol);
  }

  /** What an accepted line yields is valid, so that printing it again changes nothing. */
  lemma ParsePrint(s: string, eol: string, idSize: nat, nameSize: nat)
    requires Parse(s, idSize, nameSize).Some? && LineEnd(eol)
    ensures var f := Parse(s, idSize, nameSize).value;
      Valid(f, idSize, nameSize) && Parse(Print(f, eol), idSize, nameSize) == Some(f)
  {
    var p := AcceptedIsGrammatical(s, idSize, nameSize);
    PrintParse(FieldsOf(p), eol, idSize, nameSize);
  }
}
