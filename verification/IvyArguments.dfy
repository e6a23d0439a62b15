/**
 The captured substrings of a matched message on their way from one Ivy
 application to another: src/ivy.c formats them into one buffer, each closed by
 ARG_END, and its receiver cuts the line up again in place.
 */
module IvyArguments {
  import opened IvyBuffers
  import opened Sequences

  const ARG_END: char := '\U{3}'
  const MAX_MATCHING_ARGS: nat := 120

  // ---- the format ----

  /** Each argument with an ETX character, number 3, after it. */
  function Joined(args: seq<string>): string {
    if args == [] then "" else args[0] + ['\U{3}'] + Joined(args[1..])
  }

  /** The arguments of a received line: what stands before each ARG_END, and what is left after the last if anything. */
  function Split(s: string): seq<string>
    decreases |s|
  {
    if s == "" then [] else [First(s)] + Split(Others(s))
  }

  function First(s: string): string {
    s[..Find(ARG_END, s)]
  }

  /** Past the first argument and its ARG_END. */
  function Others(s: string): (t: string)
    ensures s != "" ==> |t| < |s|
  {
    var e := Find(ARG_END, s);
    if e < |s| then s[e + 1..] else ""
  }

  lemma JoinedCut(a: string, rest: seq<string>)
    ensures var s := Joined([a] + rest);
      s == a + [ARG_END] + Joined(rest) && s != "" && |First(s)| <= |a| &&
      (ARG_END in a ==> |First(s)| < |a|) &&
      (ARG_END !in a ==> First(s) == a && Others(s) == Joined(rest))
  {
    FindPrefix(ARG_END, a, Joined(rest));
    JoinedCons(a, rest);
  }

  /** The arguments come back as they were sent exactly when none of them holds an ARG_END; empty ones do too. */
  lemma {:induction false} ArgumentsRoundTrip(args: seq<string>)
    ensures Split(Joined(args)) == args <==> forall i :: 0 <= i < |args| ==> '\U{3}' !in args[i]
    decreases |args|
  {
    hide Split, Joined;
    if args == [] {
      NoArguments();
    } else {
      var a, rest := args[0], args[1..];
      assert args == [a] + rest;
      RoundTripStep(a, rest);
      ArgumentsRoundTrip(rest);
      assert forall i :: 0 <= i < |rest| ==> rest[i] == args[i + 1];
      assert forall i :: 0 < i < |args| ==> args[i] == rest[i - 1];
    }
  }

  lemma NoArguments()
    ensures Split(Joined([])) == []
  {
  }

  lemma RoundTripStep(a: string, rest: seq<string>)
    ensures Split(Joined([a] + rest)) == [a] + rest <==> ARG_END !in a && Split(Joined(rest)) == rest
  {
    hide First, Others, Joined, Find;
    JoinedCut(a, rest);
    var s := Joined([a] + rest);
    var cut := Split(s);
    assert cut == [First(s)] + Split(Others(s));
    assert cut[0] == First(s) && cut[1..] == Split(Others(s)) && ([a] + rest)[1..] == rest;
  }

  lemma JoinedCons(a: string, rest: seq<string>)
    ensures Joined([a] + rest) == a + [ARG_END] + Joined(rest)
  {
    assert ([a] + rest)[1..] == rest;
  }

  lemma CutInThree(s: string, e: nat)
    requires e < |s|
    ensures s == s[..e] + [s[e]] + s[e + 1..]
  {
  }

  lemma FirstAndOthers(s: string)
    ensures var e := Find(ARG_END, s);
      s == if e < |s| then First(s) + [ARG_END] + Others(s) else First(s)
  {
    hide Find;
    var e := Find(ARG_END, s);
    if e < |s| {
      CutInThree(s, e);
    }
  }

  lemma SplitStep(s: string)
    requires s != ""
    ensures Split(s) == [First(s)] + Split(Others(s))
    ensures Joined(Split(s)) == First(s) + [ARG_END] + Joined(Split(Others(s)))
  {
    hide First, Others, Joined;
    JoinedCons(First(s), Split(Others(s)));
  }

  /** s with the ARG_END it may lack at its end. */
  function Closed(s: string): string {
    if s == "" || s[|s| - 1] == ARG_END then s else s + [ARG_END]
  }

  lemma ClosedAfter(f: string, t: string)
    ensures Closed(f + [ARG_END] + t) == f + [ARG_END] + Closed(t)
  {
    var s := f + [ARG_END] + t;
    assert s[|s| - 1] == if t == "" then ARG_END else t[|t| - 1];
    assert s + [ARG_END] == f + [ARG_END] + (t + [ARG_END]);
  }

  lemma EmptyClosed()
    ensures Closed("") == ""
  {
  }

  lemma ClosedLast(f: string)
    requires f != "" && ARG_END !in f
    ensures Closed(f) == f + [ARG_END] + ""
  {
  }

  /** Any line is the arguments it is cut into, up to an ARG_END missing at its end. */
  lemma {:induction false} LineRoundTrip(s: string)
    ensures Joined(Split(s)) == Closed(s)
    decreases |s|
  {
    hide First, Closed;
    if s == "" {
      EmptyClosed();
    } else {
      SplitStep(s);
      FirstAndOthers(s);
      LineRoundTrip(Others(s));
      if Find(ARG_END, s) == |s| {
        FirstHasNone(s);
        ClosedLast(s);
        EmptyClosed();
      } else {
        ClosedAfter(First(s), Others(s));
      }
    }
  }

  /** No argument holds an ARG_END. */
  lemma {:induction false} SplitHasNone(s: string, i: nat)
    requires i < |Split(s)|
    ensures ARG_END !in Split(s)[i]
    decreases |s|
  {
    SplitStep(s);
    if i == 0 {
      FirstHasNone(s);
    } else {
      SplitHasNone(Others(s), i - 1);
    }
  }

  lemma {:induction false} FirstHasNone(s: string)
    ensures ARG_END !in First(s)
    decreases |s|
  {
    if s != "" && s[0] != ARG_END {
      FirstHasNone(s[1..]);
      assert First(s) == [s[0]] + First(s[1..]);
    }
  }

  // ---- the sender ----

  lemma {:induction false} JoinedAppend(args: seq<string>, a: string)
    ensures Joined(args + [a]) == Joined(args) + (a + [ARG_END])
  {
    if args == [] {
      assert [a][1..] == [];
    } else {
      JoinedAppend(args[1..], a);
      assert (args + [a])[1..] == args[1..] + [a];
    }
  }

  /** The line RegexpCall sends after its header, formatted in the static bufferArg whatever it held before. */
  method FormatArguments(bufferArg: IvyBuffer, conv: Convention, args: seq<string>)
    requires bufferArg.Valid()
    modifies bufferArg, bufferArg.data
    ensures bufferArg.Valid() && (bufferArg.data == old(bufferArg.data) || fresh(bufferArg.data))
    ensures bufferArg.Text() == Joined(args) + "\n"
  {
    bufferArg.offset := 0;
    for i := 0 to |args|
      invariant bufferArg.Valid() && (bufferArg.data == old(bufferArg.data) || fresh(bufferArg.data))
      invariant bufferArg.Text() == Joined(args[..i])
    {
      var _, _ := bufferArg.MakeMessage(conv, args[i] + [ARG_END]);
      JoinedAppend(args[..i], args[i]);
      assert args[..i + 1] == args[..i] + [args[i]];
    }
    assert args[..|args|] == args;
    var _, _ := bufferArg.MakeMessage(conv, "\n");
  }

  // ---- C strings in a buffer ----

  ghost predicate Terminated(b: seq<char>) {
    |b| > 0 && b[|b| - 1] == '\0'
  }

  /** The string that starts at i. */
  function CString(b: seq<char>, i: nat): (s: string)
    requires i < |b| && Terminated(b)
    ensures i + |s| < |b| && b[i..i + |s|] == s && b[i + |s|] == '\0'
    decreases |b| - i
  {
    if b[i] == '\0' then "" else [b[i]] + CString(b, i + 1)
  }

  /** It depends on its characters and its terminator alone. */
  lemma {:induction false} CStringAt(b: seq<char>, i: nat, s: string)
    requires Terminated(b) && i + |s| < |b|
    requires b[i..i + |s|] == s && b[i + |s|] == '\0' && '\0' !in s
    ensures CString(b, i) == s
    decreases |s|
  {
    if s != "" {
      assert b[i] == s[0] && b[i + 1..i + 1 + |s[1..]|] == s[1..];
      CStringAt(b, i + 1, s[1..]);
    }
  }

  lemma {:induction false} NoTerminatorInside(b: seq<char>, i: nat)
    requires Terminated(b) && i < |b|
    ensures '\0' !in CString(b, i)
    decreases |b| - i
  {
    if b[i] != '\0' {
      NoTerminatorInside(b, i + 1);
    }
  }

  lemma CStringBytes(b: seq<char>, b': seq<char>, i: nat, e: nat)
    requires i < e <= |b| == |b'| && b[..e] == b'[..e]
    ensures forall j, k :: i <= j <= k <= e ==> b[j..k] == b'[j..k]
  {
    forall j, k | i <= j <= k <= e
      ensures b[j..k] == b'[j..k]
    {
      assert b[j..k] == b[..e][j..k] && b'[j..k] == b'[..e][j..k];
    }
  }

  /** A string that ends before e survives writes from e on. */
  lemma CStringKept(b: seq<char>, b': seq<char>, i: nat, e: nat)
    requires Terminated(b) && Terminated(b') && i < |b| == |b'| && i + |CString(b, i)| < e <= |b|
    requires b[..e] == b'[..e]
    ensures CString(b', i) == CString(b, i)
  {
    var s := CString(b, i);
    NoTerminatorInside(b, i);
    CStringBytes(b, b', i, e);
    assert b'[i + |s|] == b'[..e][i + |s|] == b[..e][i + |s|] == '\0';
    CStringAt(b', i, s);
  }

  lemma CutBytes(b: seq<char>, i: nat, m: nat, s: string)
    requires m <= |s| && i + |s| < |b| && b[i..i + |s|] == s
    ensures var b' := b[i + m := '\0'];
      b'[i..i + m] == s[..m] && (m < |s| ==> b'[i + m + 1..i + |s|] == s[m + 1..])
  {
    var b' := b[i + m := '\0'];
    assert b'[i..i + m] == b[i..i + |s|][..m];
    if m < |s| {
      assert b'[i + m + 1..i + |s|] == b[i..i + |s|][m + 1..];
    }
  }

  /** Cutting the string at i after m characters. */
  lemma CutAt(b: seq<char>, i: nat, m: nat)
    requires Terminated(b) && i < |b| && m <= |CString(b, i)|
    ensures var b' := b[i + m := '\0'];
      Terminated(b') && CString(b', i) == CString(b, i)[..m] &&
      (m < |CString(b, i)| ==> CString(b', i + m + 1) == CString(b, i)[m + 1..])
  {
    hide CString;
    var s := CString(b, i);
    var b' := b[i + m := '\0'];
    NoTerminatorInside(b, i);
    CutBytes(b, i, m, s);
    CStringAt(b', i, s[..m]);
    if m < |s| {
      CStringAt(b', i + m + 1, s[m + 1..]);
    }
  }

  /** Where the scan for ARG_END stops. */
  function Stop(b: seq<char>, i: nat): nat
    requires i < |b| && Terminated(b)
    decreases |b| - i
  {
    if b[i] == '\0' || b[i] == ARG_END then i else Stop(b, i + 1)
  }

  lemma FindInCons(x: char, s: string)
    ensures Find(ARG_END, [x] + s) == if x == ARG_END then 0 else 1 + Find(ARG_END, s)
  {
    assert ([x] + s)[1..] == s;
  }

  lemma {:induction false} StopIsFind(b: seq<char>, i: nat)
    requires i < |b| && Terminated(b)
    ensures Stop(b, i) == i + Find(ARG_END, CString(b, i)) < |b|
    ensures b[Stop(b, i)] == ARG_END <==> Stop(b, i) < i + |CString(b, i)|
    decreases |b| - i
  {
    if b[i] != '\0' {
      FindInCons(b[i], CString(b, i + 1));
      if b[i] != ARG_END {
        StopIsFind(b, i + 1);
      }
    }
  }

  // ---- the receiver ----

  /** What a call of nextArg does to the line. */
  ghost predicate Called(b: seq<char>, e: nat, b': seq<char>, e': nat, arg: Option<nat>) {
    Terminated(b) && Terminated(b') && |b| == |b'| && e <= e' < |b| && b[..e] == b'[..e] &&
    var rest := CString(b, e);
    if rest == "" then arg == None && b' == b
    else
      arg == Some(e) && CString(b', e) == First(rest) && CString(b', e') == Others(rest) &&
      (e + |First(rest)| < e' || CString(b', e') == "")
  }

  lemma CalledAtStop(b: seq<char>, e: nat)
    requires Terminated(b) && e < |b|
    ensures var stop := Stop(b, e);
      stop < |b| &&
      if b[stop] == ARG_END then Called(b, e, b[stop := '\0'], stop + 1, Some(e))
      else Called(b, e, b, stop, if stop == e then None else Some(e))
  {
    hide Called, CString, Find, Stop;
    StopIsFind(b, e);
    var stop := Stop(b, e);
    if b[stop] == ARG_END {
      CutAt(b, e, stop - e);
      CalledCut(b, e, stop);
    } else {
      CalledWhole(b, e, stop);
    }
  }

  lemma CalledWhole(b: seq<char>, e: nat, stop: nat)
    requires Terminated(b) && e < |b|
    requires stop == e + Find(ARG_END, CString(b, e)) && stop >= e + |CString(b, e)|
    ensures Called(b, e, b, stop, if stop == e then None else Some(e))
  {
    hide Find, CString;
    CStringEnd(b, e);
    NothingLeft(CString(b, e));
  }

  lemma CStringEnd(b: seq<char>, e: nat)
    requires Terminated(b) && e < |b|
    ensures CString(b, e + |CString(b, e)|) == ""
  {
  }

  /** Without a separator, the string is the argument. */
  lemma NothingLeft(rest: string)
    requires Find(ARG_END, rest) == |rest|
    ensures First(rest) == rest && Others(rest) == ""
  {
  }

  lemma CalledCut(b: seq<char>, e: nat, stop: nat)
    requires Terminated(b) && e <= stop < |b| && b[stop] == ARG_END
    requires stop == e + Find(ARG_END, CString(b, e)) < e + |CString(b, e)|
    requires var b', rest := b[stop := '\0'], CString(b, e);
      Terminated(b') && CString(b', e) == rest[..stop - e] && CString(b', stop + 1) == rest[stop - e + 1..]
    ensures Called(b, e, b[stop := '\0'], stop + 1, Some(e))
  {
    hide Find, CString, Terminated;
    var b', rest := b[stop := '\0'], CString(b, e);
    assert First(rest) == rest[..stop - e] && Others(rest) == rest[stop - e + 1..];
  }

  /** nextArg, with its static end; the line is cut in place. */
  class ArgumentReader {
    const line: array<char>
    var end: nat

    ghost predicate Valid()
      reads this, line
    {
      Terminated(line[..]) && end < line.Length
    }

    /** What is still to be cut up. */
    ghost function Remaining(): string
      requires Valid()
      reads this, line
    {
      CString(line[..], end)
    }

    constructor (line: array<char>, start: nat)
      requires Terminated(line[..]) && start < line.Length
      ensures this.line == line && end == start && Valid()
    {
      this.line, end := line, start;
    }

    method NextArg() returns (arg: Option<nat>)
      requires Valid()
      modifies this`end, line
      ensures Valid() && Called(old(line[..]), old(end), line[..], end, arg)
    {
      hide CString, First, Others, Find, Called;
      var start := end;
      ghost var b := line[..];
      CalledAtStop(b, start);
      while line[end] != '\0' && line[end] != ARG_END
        invariant start <= end < line.Length && Stop(b, end) == Stop(b, start)
        invariant line[..] == b
        decreases line.Length - end
      {
        end := end + 1;
      }
      if line[end] == ARG_END {
        line[end] := '\0';
        end := end + 1;
        assert line[..] == b[end - 1 := '\0'];
      }
      arg := if end == start then None else Some(start);
    }
  }

  /** The strings at argv are the given ones, and end before e unless nothing is to be cut any more. */
  ghost predicate ArgumentsAt(b: seq<char>, argv: seq<nat>, args: seq<string>, e: nat, last: bool) {
    Terminated(b) && |argv| == |args| && e < |b| &&
    forall i :: 0 <= i < |argv| ==>
      argv[i] < |b| && CString(b, argv[i]) == args[i] && (last || argv[i] + |args[i]| < e)
  }

  /** One more cut. */
  lemma ArgumentsStep(b: seq<char>, b': seq<char>, argv: seq<nat>, args: seq<string>, e: nat, e': nat, first: string, last: bool)
    requires ArgumentsAt(b, argv, args, e, false) && Terminated(b') && |b| == |b'| && e <= e' < |b|
    requires b[..e] == b'[..e]
    requires CString(b', e) == first && (e + |first| < e' || last)
    ensures ArgumentsAt(b', argv + [e], args + [first], e', last)
  {
    forall i | 0 <= i < |argv|
      ensures CString(b', argv[i]) == args[i]
    {
      CStringKept(b, b', argv[i], e);
    }
  }

  /** Part of the string s is cut: the strings at argv are its first arguments, and the rest starts at e. */
  ghost predicate Reading(s: string, b: seq<char>, argv: seq<nat>, args: seq<string>, e: nat) {
    Terminated(b) && e < |b| && ArgumentsAt(b, argv, args, e, CString(b, e) == "") && args + Split(CString(b, e)) == Split(s)
  }

  lemma ReadingStarts(b: seq<char>, e: nat)
    requires Terminated(b) && e < |b|
    ensures Reading(CString(b, e), b, [], [], e)
  {
    assert [] + Split(CString(b, e)) == Split(CString(b, e));
  }

  lemma ReadingStep(s: string, b: seq<char>, b': seq<char>, argv: seq<nat>, args: seq<string>, e: nat, e': nat)
    requires Reading(s, b, argv, args, e) && CString(b, e) != ""
    requires Called(b, e, b', e', Some(e))
    ensures Reading(s, b', argv + [e], args + [First(CString(b, e))], e')
  {
    hide First, Others, CString, ArgumentsAt, Split, Terminated;
    var rest := CString(b, e);
    ArgumentsStep(b, b', argv, args, e, e', First(rest), CString(b', e') == "");
    SplitStep(rest);
    assert args + ([First(rest)] + Split(Others(rest))) == args + [First(rest)] + Split(Others(rest));
  }

  lemma ReadingEnds(s: string, b: seq<char>, argv: seq<nat>, args: seq<string>, e: nat)
    requires Reading(s, b, argv, args, e)
    ensures |argv| <= |Split(s)|
    ensures CString(b, e) == "" ==>
      (|argv| == |Split(s)| && forall i :: 0 <= i < |argv| ==> argv[i] < |b| && CString(b, argv[i]) == Split(s)[i])
  {
  }

  /** The arguments of a received message, as the callback gets them: None when there are too many. */
  method Arguments(line: array<char>, start: nat) returns (argv: Option<seq<nat>>)
    requires Terminated(line[..]) && start < line.Length
    modifies line
    ensures Terminated(line[..])
    ensures var args := Split(old(CString(line[..], start)));
      argv == None <==> |args| > 120
    ensures var args := Split(old(CString(line[..], start)));
      argv != None ==> |argv.value| == |args| && forall i :: 0 <= i < |args| ==>
        argv.value[i] < line.Length && CString(line[..], argv.value[i]) == args[i]
  {
    hide ArgumentsAt, Terminated, CString, First, Others, Find, Split, Reading;
    var reader := new ArgumentReader(line, start);
    ghost var s, args := reader.Remaining(), [];
    var given: seq<nat> := [];
    ghost var b, e: nat, rest := line[..], start, s;
    ReadingStarts(b, e);
    var arg := reader.NextArg();
    while arg != None
      invariant reader.Valid() && reader.line == line && |given| <= MAX_MATCHING_ARGS
      invariant Terminated(b) && |b| == line.Length && e < |b| && rest == CString(b, e) && Reading(s, b, given, args, e)
      invariant Called(b, e, line[..], reader.end, arg)
      decreases arg != None, |rest|
    {
      ReadingStep(s, b, line[..], given, args, e, reader.end);
      if |given| >= MAX_MATCHING_ARGS {
        ReadingEnds(s, line[..], given + [e], args + [First(rest)], reader.end);
        return None;
      }
      given := given + [arg.value];
      args := args + [First(rest)];
      b, e, rest := line[..], reader.end, reader.Remaining();
      arg := reader.NextArg();
    }
    ReadingEnds(s, b, given, args, e);
    argv := Some(given);
  }
}
