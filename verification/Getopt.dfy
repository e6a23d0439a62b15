/** tools/getopt.c in place: its two globals and its static position. */
module Getopt {
  import opened Sequences
  import opened GetoptSpec

  /** argv from optind on; optind may lie past its end. */
  function Rest(argv: seq<string>, optind: nat): seq<string> {
    if optind <= |argv| then argv[optind..] else []
  }

  lemma RestFrom(argv: seq<string>, optind: nat)
    requires optind < |argv|
    ensures Rest(argv, optind) != [] && Rest(argv, optind)[0] == argv[optind]
    ensures Rest(argv, optind)[1..] == Rest(argv, optind + 1)
    ensures |Rest(argv, optind)| > 1 <==> optind + 1 < |argv|
    ensures optind + 1 < |argv| ==> Rest(argv, optind)[1] == argv[optind + 1]
    ensures optind + 1 < |argv| ==> Rest(argv, optind)[2..] == Rest(argv, optind + 2)
  {
  }

  /** Where the next option character is. */
  function Onward(argv: seq<string>, optind: nat, pos: nat): (nat, nat)
    requires optind < |argv|
  {
    if pos + 1 < |argv[optind]| then (optind, pos + 1) else (optind + 1, 1)
  }

  /** The end of the options, in terms of argv. */
  lemma EndAt(opts: string, argv: seq<string>, optind: nat, pos: nat, optarg: Option<string>)
    requires Ok(View(Rest(argv, optind), pos, optarg))
    ensures var v := View(Rest(argv, optind), pos, optarg);
      && (AtEnd(v) ==> Next(opts, v) == (v, Eof))
      && (AtEnd(v) <==> pos == 1 && (optind >= |argv| || argv[optind] == "" || argv[optind][0] != '-' || |argv[optind]| == 1 || argv[optind] == "--"))
      && (!AtEnd(v) ==> optind < |argv| && pos < |argv[optind]|)
  {
  }

  /** A call for an option, in terms of argv. */
  lemma CallAt(opts: string, argv: seq<string>, optind: nat, pos: nat, optarg: Option<string>)
    requires Ok(View(Rest(argv, optind), pos, optarg)) && !AtEnd(View(Rest(argv, optind), pos, optarg))
    requires optind < |argv| && pos < |argv[optind]|
    ensures var c := argv[optind][pos];
      var (i, p) := Onward(argv, optind, pos);
      Next(opts, View(Rest(argv, optind), pos, optarg)) ==
        if !Known(opts, c) then (View(Rest(argv, i), p, optarg), Opt('?'))
        else if !TakesArgument(opts, c) then (View(Rest(argv, i), p, None), Opt(c))
        else if pos + 1 < |argv[optind]| then (View(Rest(argv, optind + 1), 1, Some(argv[optind][pos + 1..])), Opt(c))
        else if optind + 1 < |argv| then (View(Rest(argv, optind + 2), 1, Some(argv[optind + 1])), Opt(c))
        else (View(Rest(argv, optind + 1), 1, None), Opt('?'))
  {
    hide Known, TakesArgument;
    RestFrom(argv, optind);
  }

  class Scanner {
    var optind: nat
    var optarg: Option<string>
    var position: nat

    ghost function State(argv: seq<string>): View
      reads this
    {
      View(Rest(argv, optind), position, optarg)
    }

    ghost predicate Valid(argv: seq<string>)
      reads this
    {
      Ok(State(argv))
    }

    constructor ()
      ensures optind == 1 && optarg == None && position == 1
      ensures forall argv :: Valid(argv)
    {
      optind, optarg, position := 1, None, 1;
    }

    /** strchr(optstring, c): where c first stands, None for NULL. */
    static method Strchr(s: string, c: char) returns (cp: Option<nat>)
      ensures cp == if c in s then Some(Find(c, s)) else None
    {
      var i := 0;
      while i < |s| && s[i] != c
        invariant i <= |s| && c !in s[..i]
        invariant Find(c, s) == i + Find(c, s[i..])
      {
        assert s[i..][1..] == s[i + 1..];
        i := i + 1;
      }
      assert s == s[..i] + s[i..];
      cp := if i < |s| then Some(i) else None;
    }

    method Getopt(argv: seq<string>, optstring: string) returns (r: Result)
      requires Valid(argv)
      modifies this
      ensures Valid(argv)
      ensures (State(argv), r) == Next(optstring, old(State(argv)))
      ensures old(optind) <= optind && (old(optind) <= |argv| ==> optind <= |argv|)
      ensures r == Eof ==> optind == old(optind)
    {
      hide Next, Rest, AtEnd;
      EndAt(optstring, argv, optind, position, optarg);
      CallProgress(optstring, State(argv));
      if !AtEnd(State(argv)) {
        CallAt(optstring, argv, optind, position, optarg);
      }
      if position == 1 {
        if optind >= |argv| || argv[optind] == "" || argv[optind][0] != '-' || |argv[optind]| == 1 {
          return Eof;
        }
        if argv[optind] == "--" {
          return Eof;
        }
      }
      var current := argv[optind][position];
      var cp := None;
      if current != ':' {
        cp := Strchr(optstring, current);
      }
      if cp == None {
        position := position + 1;
        if position == |argv[optind]| {
          optind := optind + 1;
          position := 1;
        }
        return Opt('?');
      }
      optarg := None;
      if cp.value + 1 < |optstring| && optstring[cp.value + 1] == ':' {
        if position + 1 < |argv[optind]| {
          optarg := Some(argv[optind][position + 1..]);
          optind := optind + 1;
        } else {
          optind := optind + 1;
          if optind >= |argv| {
            optarg := None;
            position := 1;
            return Opt('?');
          } else {
            optarg := Some(argv[optind]);
            optind := optind + 1;
          }
        }
        position := 1;
      } else {
        position := position + 1;
        if position == |argv[optind]| {
          position := 1;
          optind := optind + 1;
        }
      }
      r := Opt(current);
    }

    /** The caller's loop, `while ((c = getopt(argc, argv, optstring)) != EOF)`. */
    method ScanAll(argv: seq<string>, optstring: string) returns (results: seq<(char, Option<string>)>)
      requires Valid(argv)
      modifies this
      ensures Valid(argv)
      ensures Scanned(results, State(argv)) == Scan(optstring, old(State(argv)))
      ensures old(optind) == 1 == old(position) && argv != [] ==> results == Scan(optstring, View(argv[1..], 1, old(optarg))).results
    {
      results := [];
      CallProgress(optstring, State(argv));
      var r := Getopt(argv, optstring);
      while r != Eof
        invariant Valid(argv)
        invariant r == Eof ==> Scanned(results, State(argv)) == Scan(optstring, old(State(argv)))
        invariant r != Eof ==> Prefixed(results + [(r.c, optarg)], Scan(optstring, State(argv))) == Scan(optstring, old(State(argv)))
        decreases Unread(State(argv)), r != Eof
      {
        results := results + [(r.c, optarg)];
        ghost var v := State(argv);
        CallProgress(optstring, v);
        r := Getopt(argv, optstring);
        if r != Eof {
          assert results + [(r.c, optarg)] + Scan(optstring, State(argv)).results == results + ([(r.c, optarg)] + Scan(optstring, State(argv)).results);
        }
      }
    }
  }

  ghost function Prefixed(done: seq<(char, Option<string>)>, s: Scanned): Scanned {
    Scanned(done + s.results, s.last)
  }
}
