/**
 The discovery line once more, as documents would give it: its fields, its
 characters and its limits written out, and numbers valued from the front.
 The parser accepts exactly these lines, with exactly these values.
 */
module DiscoveryLanguage {
  import opened Sequences
  import opened DiscoveryGrammar

  ghost predicate MadeOf(s: string, chars: string) {
    forall i :: 0 <= i < |s| ==> s[i] in chars
  }

  ghost predicate Without(s: string, chars: string) {
    forall i :: 0 <= i < |s| ==> s[i] !in chars
  }

  /** What a digit is worth with k digits after it. */
  function Place(digit: nat, k: nat): nat {
    if k == 0 then digit else 10 * Place(digit, k - 1)
  }

  /** Each digit counts its position in the row of digits, times ten for each digit after it. */
  function Value(s: string): nat {
    if s == "" then 0 else Place(Find(s[0], "0123456789"), |s| - 1) + Value(s[1..])
  }

  ghost predicate NumberBetween(s: string, low: nat, high: nat) {
    s != "" && MadeOf(s, "0123456789") && low <= Value(s) <= high
  }

  /** s is: blanks, version, blanks, port, blanks, identity, blanks, name, line end. */
  ghost predicate Spells(s: string, p: Parts, idSize: nat, nameSize: nat) {
    && s == p.ws0 + p.version + p.ws1 + p.port + p.ws2 + p.id + p.ws3 + p.name + p.eol
    && MadeOf(p.ws0, " \t")
    && NumberBetween(p.version, 0, 2147483647) && p.ws1 != "" && MadeOf(p.ws1, " \t")
    && NumberBetween(p.port, 1, 65535) && p.ws2 != "" && MadeOf(p.ws2, " \t")
    && 0 < |p.id| < idSize && Without(p.id, " \t\r\n") && p.ws3 != "" && MadeOf(p.ws3, " \t")
    && 0 < |p.name| < nameSize && Without(p.name, "\r\n") && p.name[0] !in " \t"
    && p.eol in {"", "\r", "\n", "\r\n"}
  }

  // ---- the value of a number ----

  /** The digits are worth what their names say. */
  lemma DigitWorth(c: char)
    ensures Digit(c) <==> c in "0123456789"
    ensures Digit(c) ==> DigitValue(c) == Find(c, "0123456789")
  {
    var row := "0123456789";
    assert forall i :: 0 <= i < 10 ==> row[i] as int == '0' as int + i;
    if Digit(c) {
      assert row[c as int - '0' as int] == c;
    }
  }

  lemma Digits(s: string)
    ensures MadeOf(s, "0123456789") <==> forall i :: 0 <= i < |s| ==> Digit(s[i])
  {
    forall i | 0 <= i < |s|
      ensures s[i] in "0123456789" <==> Digit(s[i])
    {
      DigitWorth(s[i]);
    }
  }

  /** One digit more at the end. */
  lemma {:induction false} ValueAppend(s: string, c: char)
    ensures Value(s + [c]) == 10 * Value(s) + Find(c, "0123456789")
  {
    hide Find;
    var t := s + [c];
    if s == "" {
      assert t[1..] == "";
    } else {
      ValueAppend(s[1..], c);
      assert t[1..] == s[1..] + [c];
    }
  }

  /** The value accumulated from the front, digit by digit, is the value. */
  lemma {:induction false} DecimalIsValue(s: string)
    requires forall i :: 0 <= i < |s| ==> Digit(s[i])
    ensures Decimal(s) == Value(s)
    decreases |s|
  {
    hide Find;
    if s != "" {
      var front, last := s[..|s| - 1], s[|s| - 1];
      DecimalIsValue(front);
      ValueAppend(front, last);
      DigitWorth(last);
      assert s == front + [last];
    }
  }

  // ---- the language ----

  lemma Classes(s: string)
    ensures All(Blank, s) <==> MadeOf(s, " \t")
    ensures All(IdChar, s) <==> Without(s, " \t\r\n")
    ensures All(NameChar, s) <==> Without(s, "\r\n")
  {
    assert forall c: char :: (c in " \t" <==> c == ' ' || c == '\t');
    assert forall c: char :: (c in "\r\n" <==> c == '\r' || c == '\n');
    assert forall c: char :: (c in " \t\r\n" <==> c == ' ' || c == '\t' || c == '\r' || c == '\n');
  }

  lemma Numerals(s: string, low: nat, high: nat)
    ensures NumberBetween(s, low, high) <==> Numeral(s, high) && low <= Decimal(s)
  {
    Digits(s);
    if MadeOf(s, "0123456789") {
      DecimalIsValue(s);
    }
  }

  lemma LinePlain(p: Parts)
    ensures Line(p) == p.ws0 + p.version + p.ws1 + p.port + p.ws2 + p.id + p.ws3 + p.name + p.eol
  {
  }

  lemma SpellsIsGrammatical(s: string, p: Parts, idSize: nat, nameSize: nat)
    ensures Spells(s, p, idSize, nameSize) <==> Grammatical(p, idSize, nameSize) && s == Line(p)
  {
    hide MadeOf, Without, Decimal, Value, All, Line, Numeral, NumberBetween;
    LinePlain(p);
    Classes(p.ws0);
    Classes(p.ws1);
    Classes(p.ws2);
    Classes(p.ws3);
    Classes(p.id);
    Classes(p.name);
    Numerals(p.version, 0, 2147483647);
    Numerals(p.port, 1, 65535);
  }

  /** A line is accepted with given fields exactly when it spells them. */
  lemma AcceptsExactly(s: string, idSize: nat, nameSize: nat, f: Fields)
    ensures Parse(s, idSize, nameSize) == Some(f) <==>
      exists p: Parts :: Spells(s, p, idSize, nameSize) && f == Fields(Value(p.version), Value(p.port), p.id, p.name)
  {
    hide Spells, Parse, Value, Decimal;
    if Parse(s, idSize, nameSize) == Some(f) {
      var p := AcceptedIsGrammatical(s, idSize, nameSize);
      SpellsIsGrammatical(s, p, idSize, nameSize);
      DecimalIsValue(p.version);
      DecimalIsValue(p.port);
    }
    if p: Parts :| Spells(s, p, idSize, nameSize) && f == Fields(Value(p.version), Value(p.port), p.id, p.name) {
      SpellsIsGrammatical(s, p, idSize, nameSize);
      AcceptsGrammatical(p, idSize, nameSize);
      DecimalIsValue(p.version);
      DecimalIsValue(p.port);
    }
  }

  /** The fields of an accepted line are in range. */
  lemma FieldsInRange(s: string, idSize: nat, nameSize: nat)
    requires Parse(s, idSize, nameSize).Some?
    ensures var f := Parse(s, idSize, nameSize).value;
      f.version <= 2147483647 && 1 <= f.port <= 65535 && 0 < |f.id| < idSize && 0 < |f.name| < nameSize
  {
    hide Parse;
    var p := AcceptedIsGrammatical(s, idSize, nameSize);
  }

  /** Fields in range can be sent: printed with single blanks they come back, whatever the line end. */
  lemma RangeIsSendable(version: nat, port: nat, id: string, name: string, eol: string, idSize: nat, nameSize: nat)
    requires version <= 2147483647 && 1 <= port <= 65535 && eol in {"", "\r", "\n", "\r\n"}
    requires 0 < |id| < idSize && Without(id, " \t\r\n")
    requires 0 < |name| < nameSize && Without(name, "\r\n") && name[0] !in " \t"
    ensures Value(Show(version)) == version && Value(Show(port)) == port
    ensures Parse(Show(version) + " " + Show(port) + " " + id + " " + name + eol, idSize, nameSize) ==
      Some(Fields(version, port, id, name))
  {
    hide Parse, Decimal, Value, Show;
    ShowDecimal(version);
    ShowDecimal(port);
    DecimalIsValue(Show(version));
    DecimalIsValue(Show(port));
    Classes(id);
    Classes(name);
    PrintParse(Fields(version, port, id, name), eol, idSize, nameSize);
    var f := Fields(version, port, id, name);
    PrintPlain(f, eol);
  }

  lemma PrintPlain(f: Fields, eol: string)
    ensures Print(f, eol) == Show(f.version) + " " + Show(f.port) + " " + f.id + " " + f.name + eol
  {
    hide Show;
  }
}
