/**
 The option scanner of tools/getopt.c as a function on what is left of the
 argument vector, and the rewritings of a command line that it cannot see.
 */
module GetoptSpec {
  import opened Sequences

  /** What getopt returns: the end of the options, or a character, '?' among them for an error. */
  datatype Result = Eof | Opt(c: char)

  /** argv from optind on, the position in its first string, and optarg. */
  datatype View = View(rest: seq<string>, pos: nat, optarg: Option<string>)

  /** Between calls the position is at the first option character, or inside a string with characters left. */
  ghost predicate Ok(v: View) {
    v.pos >= 1 && (v.pos > 1 ==> v.rest != [] && v.pos < |v.rest[0]|)
  }

  predicate Known(opts: string, c: char) {
    c != ':' && c in opts
  }

  predicate TakesArgument(opts: string, c: char) {
    var i := Find(c, opts);
    Known(opts, c) && i + 1 < |opts| && opts[i + 1] == ':'
  }

  /** No option starts here: no string, not a dash, a dash alone, or two dashes. */
  predicate AtEnd(v: View) {
    v.pos == 1 && (v.rest == [] || v.rest[0] == "" || v.rest[0][0] != '-' || |v.rest[0]| == 1 || v.rest[0] == "--")
  }

  /** Past the current character. */
  function Advanced(v: View): View
    requires v.rest != []
  {
    if v.pos + 1 >= |v.rest[0]| then v.(rest := v.rest[1..], pos := 1) else v.(pos := v.pos + 1)
  }

  /** One call of getopt. */
  function Next(opts: string, v: View): (View, Result)
    requires Ok(v)
  {
    if AtEnd(v) then (v, Eof)
    else
      var arg := v.rest[0];
      var c := arg[v.pos];
      if !Known(opts, c) then (Advanced(v), Opt('?'))
      else if !TakesArgument(opts, c) then (Advanced(v).(optarg := None), Opt(c))
      else if v.pos + 1 < |arg| then (View(v.rest[1..], 1, Some(arg[v.pos + 1..])), Opt(c))
      else if |v.rest| == 1 then (View([], 1, None), Opt('?'))
      else (View(v.rest[2..], 1, Some(v.rest[1])), Opt(c))
  }

  // ---- what a call answers, by the shape of the option string and of the argument ----

  /** The character is an option where it first stands in the option string, with an argument if a colon follows. */
  lemma OptionAt(pre: string, c: char, post: string)
    requires c != ':' && c !in pre
    ensures Known(pre + [c] + post, c)
    ensures TakesArgument(pre + [c] + post, c) <==> post != [] && post[0] == ':'
  {
    FindPrefix(c, pre, post);
    var opts := pre + [c] + post;
    assert opts[|pre|] == c && opts[|pre| + 1..] == post;
  }

  /** The options end before a string that is missing, empty, no dash at its start, or a dash or two alone. */
  lemma AnswersEnd(opts: string, v: View)
    requires Ok(v)
    ensures Next(opts, v).1 == Eof <==>
      v.pos == 1 && (v.rest == [] || v.rest[0] in {"", "-", "--"} || v.rest[0][0] != '-')
    ensures Next(opts, v).1 == Eof ==> Next(opts, v).0 == v
  {
    if v.rest != [] && |v.rest[0]| == 1 {
      assert v.rest[0] == [v.rest[0][0]];
    }
  }

  /** A dash and the characters x, the next one c, and y after it. */
  ghost predicate Reading(v: View, x: string, c: char, y: string, more: seq<string>) {
    v.rest == ["-" + x + [c] + y] + more && v.pos == 1 + |x| && (x != "" || y != "" || c != '-')
  }

  lemma ReadingFacts(v: View, x: string, c: char, y: string, more: seq<string>)
    requires Reading(v, x, c, y, more)
    ensures Ok(v) && !AtEnd(v) && v.rest[0][v.pos] == c && v.rest[1..] == more
    ensures |v.rest| == 1 + |more| && |v.rest[0]| == v.pos + 1 + |y| && v.rest[0][v.pos + 1..] == y
  {
    var s := "-" + x + [c] + y;
    assert s[0] == '-' && s[1 + |x|] == c && s[2 + |x|..] == y;
    assert |s| == 2 + |x| + |y| && "--"[1] == '-';
  }

  /** A character that is no option: a question mark, and on to the next character. */
  lemma AnswersUnknown(opts: string, v: View, x: string, c: char, y: string, more: seq<string>)
    requires Reading(v, x, c, y, more) && (c == ':' || c !in opts)
    ensures Ok(v)
    ensures y == "" ==> Next(opts, v) == (View(more, 1, v.optarg), Opt('?'))
    ensures y != "" ==> Next(opts, v) == (View(v.rest, v.pos + 1, v.optarg), Opt('?'))
  {
    ReadingFacts(v, x, c, y, more);
  }

  /** An option without argument: itself, and on to the next character. */
  lemma AnswersFlag(pre: string, post: string, v: View, x: string, c: char, y: string, more: seq<string>)
    requires Reading(v, x, c, y, more) && c != ':' && c !in pre && (post == "" || post[0] != ':')
    ensures Ok(v)
    ensures y == "" ==> Next(pre + [c] + post, v) == (View(more, 1, None), Opt(c))
    ensures y != "" ==> Next(pre + [c] + post, v) == (View(v.rest, v.pos + 1, None), Opt(c))
  {
    hide TakesArgument, Known, AtEnd, Reading;
    ReadingFacts(v, x, c, y, more);
    OptionAt(pre, c, post);
  }

  /** An option with argument: the rest of its string, or all of the next one, or a question mark when there is none. */
  lemma AnswersOption(pre: string, post: string, v: View, x: string, c: char, y: string, more: seq<string>)
    requires Reading(v, x, c, y, more) && c != ':' && c !in pre
    ensures Ok(v)
    ensures y != "" ==> Next(pre + [c] + ":" + post, v) == (View(more, 1, Some(y)), Opt(c))
    ensures y == "" && more != [] ==> Next(pre + [c] + ":" + post, v) == (View(more[1..], 1, Some(more[0])), Opt(c))
    ensures y == "" && more == [] ==> Next(pre + [c] + ":" + post, v) == (View([], 1, None), Opt('?'))
  {
    hide TakesArgument, Known, AtEnd, Reading;
    ReadingFacts(v, x, c, y, more);
    OptionAt(pre, c, ":" + post);
    assert pre + [c] + ":" + post == pre + [c] + (":" + post);
    if more != [] {
      assert v.rest[2..] == v.rest[1..][1..] == more[1..] && v.rest[1] == v.rest[1..][0];
    }
  }

  // ---- termination ----

  function Total(args: seq<string>): nat {
    if args == [] then 0 else |args[0]| + Total(args[1..])
  }

  /** The characters not yet read. */
  function Unread(v: View): nat
    requires Ok(v)
  {
    if v.rest == [] then 0 else Total(v.rest) - (v.pos - 1)
  }

  /** A call either reports the end and changes nothing, or reads a character, never a terminator, for good. */
  lemma CallProgress(opts: string, v: View)
    requires Ok(v)
    ensures var (w, r) := Next(opts, v);
      && Ok(w) && (r == Eof <==> AtEnd(v)) && (r == Eof ==> w == v)
      && (r != Eof ==> v.rest != [] && v.pos < |v.rest[0]| && (r == Opt(v.rest[0][v.pos]) || r == Opt('?')) && Unread(w) < Unread(v))
  {
    if !AtEnd(v) {
      assert Total(v.rest) == |v.rest[0]| + Total(v.rest[1..]);
      if |v.rest| > 1 {
        assert v.rest[1..][1..] == v.rest[2..];
        assert Total(v.rest[1..]) == |v.rest[1]| + Total(v.rest[2..]);
      }
    }
  }

  datatype Scanned = Scanned(results: seq<(char, Option<string>)>, last: View)

  /** All the calls up to the end: what each returned, with optarg after it, and the final state. */
  function Scan(opts: string, v: View): Scanned
    requires Ok(v)
    decreases Unread(v)
  {
    CallProgress(opts, v);
    var (w, r) := Next(opts, v);
    match r
    case Eof => Scanned([], v)
    case Opt(c) =>
      var s := Scan(opts, w);
      Scanned([(c, w.optarg)] + s.results, s.last)
  }

  /** There are no more results than characters, and the final state is at an end. */
  lemma {:induction false} ScanBounded(opts: string, v: View)
    requires Ok(v)
    ensures |Scan(opts, v).results| <= Unread(v)
    ensures Ok(Scan(opts, v).last) && Next(opts, Scan(opts, v).last) == (Scan(opts, v).last, Eof)
    decreases Unread(v)
  {
    CallProgress(opts, v);
    var (w, r) := Next(opts, v);
    if r != Eof {
      ScanBounded(opts, w);
    }
  }

  // ---- grouped and separate flags ----

  /** The result and the new optarg for one option character without argument. */
  function FlagResult(opts: string, c: char, optarg: Option<string>): (char, Option<string>) {
    if Known(opts, c) then (c, None) else ('?', optarg)
  }

  /** The flags g one after the other, then a scan of post. */
  function FlagsThen(opts: string, g: string, optarg: Option<string>, post: seq<string>): Scanned
    decreases |g|
  {
    if g == [] then Scan(opts, View(post, 1, optarg))
    else
      var r := FlagResult(opts, g[0], optarg);
      var s := FlagsThen(opts, g[1..], r.1, post);
      Scanned([r] + s.results, s.last)
  }

  ghost predicate Flags(opts: string, g: string) {
    forall i :: 0 <= i < |g| ==> !TakesArgument(opts, g[i])
  }

  function Separate(g: string): seq<string> {
    if g == [] then [] else [['-', g[0]]] + Separate(g[1..])
  }

  lemma NotDashDash(g: string)
    ensures "-" + g == "--" <==> g == "-"
  {
    assert ("-" + g)[1..] == g && "--"[1..] == "-";
  }

  /** In one string: from position k + 1 of "-g" on. */
  lemma {:induction false} GroupedScan(opts: string, g: string, k: nat, optarg: Option<string>, post: seq<string>)
    requires Flags(opts, g) && k < |g| && g != "-"
    ensures Scan(opts, View(["-" + g] + post, k + 1, optarg)) == FlagsThen(opts, g[k..], optarg, post)
    decreases |g| - k
  {
    var v := View(["-" + g] + post, k + 1, optarg);
    assert v.rest[0] == "-" + g && v.rest[0][k + 1] == g[k] && v.rest[1..] == post;
    NotDashDash(g);
    CallProgress(opts, v);
    var r := FlagResult(opts, g[k], optarg);
    assert g[k..][1..] == g[k + 1..];
    if k + 1 < |g| {
      GroupedScan(opts, g, k + 1, r.1, post);
    } else {
      assert g[k + 1..] == [];
    }
  }

  /** The call for the first flag. */
  lemma SeparateCall(opts: string, g: string, optarg: Option<string>, post: seq<string>)
    requires Flags(opts, g) && g != [] && g[0] != '-'
    ensures var r := FlagResult(opts, g[0], optarg);
      Next(opts, View(Separate(g) + post, 1, optarg)) == (View(Separate(g[1..]) + post, 1, r.1), Opt(r.0))
  {
    SeparateRest(g, post);
    NextOfFlag(opts, g[0], optarg, Separate(g[1..]) + post);
  }

  lemma SeparateRest(g: string, post: seq<string>)
    requires g != []
    ensures Separate(g) + post == [['-', g[0]]] + (Separate(g[1..]) + post)
  {
  }

  lemma NextOfFlag(opts: string, c: char, optarg: Option<string>, rest: seq<string>)
    requires !TakesArgument(opts, c) && c != '-'
    ensures var r := FlagResult(opts, c, optarg);
      Next(opts, View([['-', c]] + rest, 1, optarg)) == (View(rest, 1, r.1), Opt(r.0))
  {
    hide TakesArgument, Known;
    var v := View([['-', c]] + rest, 1, optarg);
    assert v.rest[0] == ['-', c] && v.rest[1..] == rest;
  }

  /** In strings of their own, as long as none of them is a dash. */
  lemma {:induction false} SeparateScan(opts: string, g: string, optarg: Option<string>, post: seq<string>)
    requires Flags(opts, g) && '-' !in g
    ensures Scan(opts, View(Separate(g) + post, 1, optarg)) == FlagsThen(opts, g, optarg, post)
    decreases |g|
  {
    if g == [] {
      assert Separate(g) + post == post;
    } else {
      var v := View(Separate(g) + post, 1, optarg);
      SeparateCall(opts, g, optarg, post);
      CallProgress(opts, v);
      hide Next, Separate;
      SeparateScan(opts, g[1..], FlagResult(opts, g[0], optarg).1, post);
    }
  }

  /** Separated, a dash among the flags is the string "--" and ends the options there. */
  lemma {:induction false} SeparateStops(opts: string, g: string, optarg: Option<string>, post: seq<string>)
    requires Flags(opts, g) && '-' in g
    ensures |Scan(opts, View(Separate(g) + post, 1, optarg)).results| < |g|
    decreases |g|
  {
    var v := View(Separate(g) + post, 1, optarg);
    assert v.rest[0] == ['-', g[0]] && v.rest[1..] == Separate(g[1..]) + post;
    if g[0] == '-' {
      assert v.rest[0] == "--";
    } else {
      CallProgress(opts, v);
      SeparateStops(opts, g[1..], FlagResult(opts, g[0], optarg).1, post);
    }
  }

  lemma {:induction false} FlagsThenLength(opts: string, g: string, optarg: Option<string>, post: seq<string>)
    ensures |FlagsThen(opts, g, optarg, post).results| >= |g|
    decreases |g|
  {
    if g != [] {
      FlagsThenLength(opts, g[1..], FlagResult(opts, g[0], optarg).1, post);
    }
  }

  /** Grouping argument-less flags is invisible exactly when no dash is among them, or a dash is all there is. */
  lemma GroupingExact(opts: string, g: string, optarg: Option<string>, post: seq<string>)
    requires Flags(opts, g) && g != []
    ensures Scan(opts, View(["-" + g] + post, 1, optarg)) == Scan(opts, View(Separate(g) + post, 1, optarg))
      <==> '-' !in g || g == "-"
  {
    if g == "-" {
      assert Separate(g) == [['-', '-']] + Separate([]) == ["--"];
      assert "-" + g == "--";
    } else {
      GroupedScan(opts, g, 0, optarg, post);
      assert g[0..] == g;
      if '-' in g {
        SeparateStops(opts, g, optarg, post);
        FlagsThenLength(opts, g, optarg, post);
      } else {
        SeparateScan(opts, g, optarg, post);
      }
    }
  }

  /** An argument may follow its option directly or as the next string, exactly when the option is not a dash. */
  lemma AttachedArgument(opts: string, o: char, file: string, optarg: Option<string>, post: seq<string>)
    requires TakesArgument(opts, o) && file != ""
    ensures Scan(opts, View([['-', o] + file] + post, 1, optarg)) == Scan(opts, View([['-', o], file] + post, 1, optarg))
      <==> o != '-'
  {
    var v, w := View([['-', o] + file] + post, 1, optarg), View([['-', o], file] + post, 1, optarg);
    assert v.rest[0] == ['-', o] + file && v.rest[0][2..] == file && v.rest[1..] == post;
    assert v.rest[0][1] == o && |v.rest[0]| > 2;
    assert w.rest[0] == ['-', o] && w.rest[1] == file && w.rest[2..] == post;
    CallProgress(opts, v);
    CallProgress(opts, w);
    assert Next(opts, v) == (View(post, 1, Some(file)), Opt(o));
    if o == '-' {
      assert w.rest[0] == "--";
    } else {
      assert Next(opts, w) == (View(post, 1, Some(file)), Opt(o));
    }
  }

  // ---- any command line, one option to a string ----

  /** The strings that spell the next option on its own, its argument in a string of its own. */
  function Spelled(opts: string, v: View): seq<string>
    requires Ok(v) && !AtEnd(v)
  {
    var c := v.rest[0][v.pos];
    if TakesArgument(opts, c) && Next(opts, v).0.optarg.Some? then [['-', c], Next(opts, v).0.optarg.value]
    else [['-', c]]
  }

  /** The command line rewritten with every option in a string of its own, up to the first non-option. */
  function Normal(opts: string, v: View): seq<string>
    requires Ok(v)
    decreases Unread(v)
  {
    CallProgress(opts, v);
    if AtEnd(v) then v.rest else Spelled(opts, v) + Normal(opts, Next(opts, v).0)
  }

  /** Some call takes a dash for an option character. */
  predicate ReadsDash(opts: string, v: View)
    requires Ok(v)
    decreases Unread(v)
  {
    CallProgress(opts, v);
    !AtEnd(v) && (v.rest[0][v.pos] == '-' || ReadsDash(opts, Next(opts, v).0))
  }

  /** The normal form gives back what the first call gave, unless that was for a dash. */
  lemma NormalCall(opts: string, v: View)
    requires Ok(v) && !AtEnd(v)
    ensures var (w, r) := Next(opts, v);
      Next(opts, View(Normal(opts, v), 1, v.optarg)) ==
      if v.rest[0][v.pos] == '-' then (View(Normal(opts, v), 1, v.optarg), Eof) else (View(Normal(opts, w), 1, w.optarg), r)
  {
    CallProgress(opts, v);
    var (w, r) := Next(opts, v);
    var c := v.rest[0][v.pos];
    var n := Normal(opts, v);
    assert n[0] == ['-', c];
    if c == '-' {
      assert n[0] == "--";
    } else if TakesArgument(opts, c) && w.optarg == None {
      assert w.rest == [] && Normal(opts, w) == [];
    } else if TakesArgument(opts, c) {
      assert r == Opt(c);
      assert n[2..] == Normal(opts, w);
    } else {
      assert n[1..] == Normal(opts, w);
    }
  }

  /** Rewriting any command line to its normal form is invisible exactly when no dash is read as an option. */
  lemma {:induction false} NormalExact(opts: string, v: View)
    requires Ok(v)
    ensures Scan(opts, View(Normal(opts, v), 1, v.optarg)).results == Scan(opts, v).results <==> !ReadsDash(opts, v)
    ensures !ReadsDash(opts, v) ==> Scan(opts, View(Normal(opts, v), 1, v.optarg)) == Scan(opts, v)
    decreases Unread(v)
  {
    CallProgress(opts, v);
    if !AtEnd(v) {
      var w, u := Next(opts, v).0, View(Normal(opts, v), 1, v.optarg);
      NormalCall(opts, v);
      CallProgress(opts, u);
      NormalExact(opts, w);
      if v.rest[0][v.pos] == '-' {
        assert |Scan(opts, u).results| == 0 < |Scan(opts, v).results|;
      } else {
        var first := [(Next(opts, v).1.c, w.optarg)];
        var s, t := Scan(opts, View(Normal(opts, w), 1, w.optarg)), Scan(opts, w);
        assert Scan(opts, v).results == first + t.results;
        assert Scan(opts, u).results == first + s.results;
        assert (first + s.results)[1..] == s.results && (first + t.results)[1..] == t.results;
      }
    }
  }
}
