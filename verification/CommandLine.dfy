/** `CLIParser`: options under a short and a long flag, and what a command line says about them. */
module CommandLine {
  import opened Canonical

  const MIN_LONG_FLAG_SIZE := 3

  datatype CmdOption = CmdOption(short_flag: string, long_flag: string, description: string, take_arg: bool)

  datatype CmdArgResult = CmdArgResult(found: bool, argument: string)

  /** The two maps are inverse to each other and no flag is empty. */
  ghost predicate Inverse(options: map<string, CmdOption>, shorts: map<string, string>)
  {
    && (forall l :: l in options ==>
          options[l].long_flag == l && |l| > 0 && |options[l].short_flag| > 0
          && options[l].short_flag in shorts && shorts[options[l].short_flag] == l)
    && (forall s :: s in shorts ==> shorts[s] in options && options[shorts[s]].short_flag == s)
  }

  // ----- reading a command line -----

  /** The option an argument names, by its long flag. Arguments that look like a long flag are never
      taken for short ones. */
  function Resolve(options: map<string, CmdOption>, shorts: map<string, string>, arg: string): (r: Option<string>)
    ensures r.Some? ==> r.value in options
  {
    if |arg| >= MIN_LONG_FLAG_SIZE && arg[0] == '-' && arg[1] == '-' then
      if arg[2..] in options then Some(arg[2..]) else None
    else if |arg| > 1 && arg[0] == '-' then
      if arg[1..] in shorts && shorts[arg[1..]] in options then Some(shorts[arg[1..]]) else None
    else None
  }

  /** `m_results[l].found = true`: an entry that is not there yet starts without argument. */
  function Mark(results: map<string, CmdArgResult>, l: string): map<string, CmdArgResult>
  {
    results[l := CmdArgResult(true, if l in results then results[l].argument else "")]
  }

  /** The results after the arguments from the `i`-th on. */
  function Run(options: map<string, CmdOption>, shorts: map<string, string>, args: seq<string>, i: nat,
               results: map<string, CmdArgResult>): map<string, CmdArgResult>
    decreases |args| - i
  {
    if i >= |args| then results else
    match Resolve(options, shorts, args[i])
    case None => Run(options, shorts, args, i + 1, results)
    case Some(l) =>
      if options[l].take_arg && i + 1 < |args| then
        Run(options, shorts, args, i + 2, results[l := CmdArgResult(true, args[i + 1])])
      else
        Run(options, shorts, args, i + 1, Mark(results, l))
  }

  lemma RunStep(options: map<string, CmdOption>, shorts: map<string, string>, args: seq<string>, i: nat,
                results: map<string, CmdArgResult>)
    ensures i >= |args| ==> Run(options, shorts, args, i, results) == results
    ensures i < |args| ==>
              Run(options, shorts, args, i, results) ==
              match Resolve(options, shorts, args[i])
              case None => Run(options, shorts, args, i + 1, results)
              case Some(l) =>
                if options[l].take_arg && i + 1 < |args| then
                  Run(options, shorts, args, i + 2, results[l := CmdArgResult(true, args[i + 1])])
                else
                  Run(options, shorts, args, i + 1, Mark(results, l))
  {}

  class CLIParser {
    var m_options: map<string, CmdOption>
    var m_short_to_long: map<string, string>
    var m_results: map<string, CmdArgResult>

    ghost predicate Valid()
      reads this
    {
      Inverse(m_options, m_short_to_long)
    }

    constructor ()
      ensures Valid() && m_options == map[] && m_results == map[]
    {
      m_options, m_short_to_long, m_results := map[], map[], map[];
    }

    /** Flags must not be empty and must be new, in both maps; a refused option changes nothing. */
    method AddOption(short_flag: string, long_flag: string, desc: string, take_arg: bool) returns (ok: bool)
      requires Valid()
      modifies `m_options, `m_short_to_long
      ensures Valid()
      ensures ok <==> short_flag != "" && long_flag != "" && long_flag !in old(m_options)
                      && forall l :: l in old(m_options) ==> old(m_options)[l].short_flag != short_flag
      ensures m_options == if ok then old(m_options)[long_flag := CmdOption(short_flag, long_flag, desc, take_arg)]
                           else old(m_options)
      ensures m_short_to_long == if ok then old(m_short_to_long)[short_flag := long_flag] else old(m_short_to_long)
    {
      if short_flag == "" || long_flag == "" { return false; }
      if long_flag in m_options { return false; }
      if short_flag in m_short_to_long { return false; }
      m_options := m_options[long_flag := CmdOption(short_flag, long_flag, desc, take_arg)];
      m_short_to_long := m_short_to_long[short_flag := long_flag];
      ok := true;
    }

    /** The option an argument names: by its long flag, or by its short one. */
    method FindOption(arg: string) returns (opt_it: Option<string>)
      requires Valid()
      ensures opt_it == Resolve(m_options, m_short_to_long, arg)
    {
      opt_it := None;
      if |arg| >= MIN_LONG_FLAG_SIZE && arg[0] == '-' && arg[1] == '-' {
        var long_flag := arg[2..];
        if long_flag in m_options { opt_it := Some(long_flag); }
      } else if |arg| > 1 && arg[0] == '-' {
        var short_flag := arg[1..];
        if short_flag in m_short_to_long { opt_it := Some(m_short_to_long[short_flag]); }
      }
    }

    /** The first argument is the program's name. */
    method Parse(argv: seq<string>)
      requires Valid()
      modifies `m_results
      ensures m_results == Run(m_options, m_short_to_long, argv, 1, map[])
    {
      hide Resolve, Run, Inverse;
      m_results := map[];
      var i := 1;
      while i < |argv|
        invariant 1 <= i
        invariant Run(m_options, m_short_to_long, argv, i, m_results) == Run(m_options, m_short_to_long, argv, 1, map[])
        decreases |argv| - i
      {
        RunStep(m_options, m_short_to_long, argv, i, m_results);
        var opt_it := FindOption(argv[i]);
        if opt_it.Some? {
          var long_flag := opt_it.value;
          ghost var before := m_results;
          m_results := Mark(m_results, long_flag);
          if m_options[long_flag].take_arg && i + 1 < |argv| {
            m_results := m_results[long_flag := m_results[long_flag].(argument := argv[i + 1])];
            assert m_results == before[long_flag := CmdArgResult(true, argv[i + 1])];
            i := i + 1;
          }
        }
        i := i + 1;
      }
      RunStep(m_options, m_short_to_long, argv, i, m_results);
    }

    method WasOptionFound(option: string) returns (found: bool)
      ensures found <==> option in FoundSet(m_results)
    {
      found := option in m_results && m_results[option].found;
    }

    method GetOptionValue(option: string) returns (value: string)
      ensures value == ValueOf(m_results, option)
    {
      if option in m_results { return m_results[option].argument; }
      value := "";
    }

    method GetOptionCount() returns (count: nat)
      ensures count == |FoundSet(m_results)|
    {
      count := 0;
      var rest := m_results.Keys;
      ghost var seen: set<string> := {};
      while rest != {}
        invariant rest + seen == m_results.Keys && rest !! seen
        invariant count == |set l | l in seen && m_results[l].found|
        decreases |rest|
      {
        var l :| l in rest;
        ghost var before := set k | k in seen && m_results[k].found;
        rest, seen := rest - {l}, seen + {l};
        ghost var now := set k | k in seen && m_results[k].found;
        if m_results[l].found {
          assert now == before + {l};
          count := count + 1;
        } else {
          assert now == before;
        }
      }
      assert FoundSet(m_results) == set l | l in seen && m_results[l].found;
    }
  }

  function FoundSet(results: map<string, CmdArgResult>): set<string>
  {
    set l | l in results && results[l].found
  }

  function ValueOf(results: map<string, CmdArgResult>, l: string): string
  {
    if l in results then results[l].argument else ""
  }

  // ----- writing a command line -----

  /** An option in its short or long form, with a value if it takes one; or some other word. */
  datatype Use = Use(long: string, short: bool, value: string) | Other(word: string)

  function Flag(options: map<string, CmdOption>, u: Use): string
    requires u.Use? && u.long in options
  {
    if u.short then "-" + options[u.long].short_flag else "--" + u.long
  }

  /** Two dashes and at least one more character: never taken for a short flag. */
  predicate LongForm(word: string)
  {
    |word| >= 3 && word[0] == '-' && word[1] == '-'
  }

  /** The word is two dashes and the long flag of the option, or, not looking like that, one dash and its
      short flag. */
  predicate Names(options: map<string, CmdOption>, word: string, l: string)
  {
    l in options && (word == "--" + l || (!LongForm(word) && word == "-" + options[l].short_flag))
  }

  /** An argument names an option just when it is written so; one without a dash, or a dash alone, names none. */
  lemma ResolveIs(options: map<string, CmdOption>, shorts: map<string, string>, word: string, l: string)
    requires Inverse(options, shorts)
    ensures Resolve(options, shorts, word) == Some(l) <==> Names(options, word, l)
    ensures |word| <= 1 || word[0] != '-' ==> Resolve(options, shorts, word).None?
  {
    if l in options {
      assert ("--" + l)[2..] == l && ("-" + options[l].short_flag)[1..] == options[l].short_flag;
    }
    if LongForm(word) {
      assert word == "--" + word[2..];
    } else if |word| > 1 && word[0] == '-' {
      assert word == "-" + word[1..];
    }
  }

  lemma NamesNone(options: map<string, CmdOption>, shorts: map<string, string>, word: string)
    requires Inverse(options, shorts) && forall l :: l in options ==> !Names(options, word, l)
    ensures Resolve(options, shorts, word).None?
  {
    hide Names, Inverse;
    var r := Resolve(options, shorts, word);
    if r.Some? { ResolveIs(options, shorts, word, r.value); }
  }

  /** A registered option, or a word that is no flag of any. */
  predicate UseOk(options: map<string, CmdOption>, u: Use)
  {
    match u
    case Use(l, short, _) => l in options && (short ==> ShortReadable(options[l]))
    case Other(word) => forall l :: l in options ==> !Names(options, word, l)
  }

  /** The short form does not look like the long form of something else. */
  predicate ShortReadable(o: CmdOption)
  {
    |o.short_flag| < 2 || o.short_flag[0] != '-' || o.short_flag[1..] == o.long_flag
  }

  function Words(options: map<string, CmdOption>, u: Use): seq<string>
    requires u.Use? ==> u.long in options
  {
    match u
    case Use(l, _, value) => if options[l].take_arg then [Flag(options, u), value] else [Flag(options, u)]
    case Other(word) => [word]
  }

  predicate UsesOk(options: map<string, CmdOption>, uses: seq<Use>)
  {
    forall k {:trigger uses[k]} :: 0 <= k < |uses| ==> UseOk(options, uses[k])
  }

  function Render(options: map<string, CmdOption>, uses: seq<Use>): seq<string>
    requires forall k {:trigger uses[k]} :: 0 <= k < |uses| ==> uses[k].Use? ==> uses[k].long in options
  {
    if uses == [] then [] else Words(options, uses[0]) + Render(options, uses[1..])
  }

  /** The long form always names its option; the short form does exactly when it is readable. */
  lemma FlagResolves(options: map<string, CmdOption>, shorts: map<string, string>, l: string)
    requires Inverse(options, shorts) && l in options
    ensures Resolve(options, shorts, "--" + l) == Some(l)
    ensures Resolve(options, shorts, "-" + options[l].short_flag) == Some(l) <==> ShortReadable(options[l])
  {
    var s := options[l].short_flag;
    assert ("--" + l)[2..] == l;
    assert ("-" + s)[1..] == s;
    if |s| >= 2 { assert ("-" + s)[2..] == s[1..]; }
  }

  /** Both flags below can be registered, but the short form of the first reads as the second option. */
  lemma ShortMisread() returns (options: map<string, CmdOption>, shorts: map<string, string>, l: string, other: string)
    ensures Inverse(options, shorts) && l in options && options[l].short_flag == "-x" && other != l
    ensures Resolve(options, shorts, "-" + options[l].short_flag) == Some(other)
  {
    l, other := "all", "x";
    options := map[l := CmdOption("-x", l, "", false), other := CmdOption("y", other, "", false)];
    shorts := map["-x" := l, "y" := other];
    assert "-x" != "y" && l != other by { assert |"-x"| == 2 && |"y"| == 1 && |l| == 3 && |other| == 1; }
    assert ("-" + "-x")[2..] == other;
  }

  /** What the uses say about option `l`: the value given last. */
  function LastValue(options: map<string, CmdOption>, uses: seq<Use>, l: string): string
  {
    if uses == [] then ""
    else
      var u := uses[|uses| - 1];
      if u.Use? && u.long == l && l in options && options[l].take_arg then u.value
      else LastValue(options, uses[..|uses| - 1], l)
  }

  predicate Mentioned(uses: seq<Use>, l: string)
  {
    exists k :: 0 <= k < |uses| && uses[k].Use? && uses[k].long == l
  }

  /** The results tell of exactly these uses. */
  ghost predicate Tells(results: map<string, CmdArgResult>, options: map<string, CmdOption>, uses: seq<Use>)
  {
    forall l {:trigger l in results} {:trigger Mentioned(uses, l)} ::
      (l in results <==> Mentioned(uses, l))
      && (l in results ==> results[l] == CmdArgResult(true, LastValue(options, uses, l)))
  }

  lemma MentionedMore(uses: seq<Use>, u: Use, l: string)
    ensures Mentioned(uses + [u], l) <==> Mentioned(uses, l) || (u.Use? && u.long == l)
  {
    var more := uses + [u];
    if Mentioned(uses, l) {
      var k :| 0 <= k < |uses| && uses[k].Use? && uses[k].long == l;
      assert more[k].Use? && more[k].long == l;
    }
    if u.Use? && u.long == l { assert more[|uses|].Use? && more[|uses|].long == l; }
  }

  lemma NotMentioned(options: map<string, CmdOption>, uses: seq<Use>, l: string)
    requires !Mentioned(uses, l)
    ensures LastValue(options, uses, l) == ""
  {
    if uses != [] {
      var n := |uses| - 1;
      assert uses == uses[..n] + [uses[n]];
      MentionedMore(uses[..n], uses[n], l);
      NotMentioned(options, uses[..n], l);
    }
  }

  /** What reading one use makes of the results. */
  function Told(options: map<string, CmdOption>, results: map<string, CmdArgResult>, u: Use): map<string, CmdArgResult>
    requires u.Use? ==> u.long in options
  {
    if u.Other? then results
    else if options[u.long].take_arg then results[u.long := CmdArgResult(true, u.value)]
    else Mark(results, u.long)
  }

  lemma TellsMore(results: map<string, CmdArgResult>, options: map<string, CmdOption>, uses: seq<Use>, u: Use)
    requires Tells(results, options, uses) && (u.Use? ==> u.long in options)
    ensures Tells(Told(options, results, u), options, uses + [u])
  {
    hide Mentioned;
    var next := Told(options, results, u);
    assert (uses + [u])[..|uses|] == uses;
    forall l ensures (l in next <==> Mentioned(uses + [u], l))
                     && (l in next ==> next[l] == CmdArgResult(true, LastValue(options, uses + [u], l)))
    {
      MentionedMore(uses, u, l);
      if !Mentioned(uses, l) { NotMentioned(options, uses, l); }
    }
  }

  /** Reading one use. */
  lemma UseRead(options: map<string, CmdOption>, shorts: map<string, string>, args: seq<string>, i: nat, u: Use,
        rest: seq<string>, results: map<string, CmdArgResult>)
    requires Inverse(options, shorts) && UseOk(options, u)
    requires i <= |args| && args[i..] == Words(options, u) + rest
    ensures var next := i + |Words(options, u)|;
            && next <= |args| && args[next..] == rest
            && Run(options, shorts, args, i, results) == Run(options, shorts, args, next, Told(options, results, u))
  {
    hide Resolve, Run, Names, Inverse;
    RunStep(options, shorts, args, i, results);
    var words := Words(options, u);
    assert args[i..][0] == words[0] && args[i..][|words|..] == rest;
    if |words| == 2 { assert args[i..][1] == words[1]; }
    match u {
      case Use(l, _, _) => FlagResolves(options, shorts, l);
      case Other(word) => NamesNone(options, shorts, word);
    }
  }

  /** Reading the rendered uses from word `i` on, the earlier ones having been read. */
  lemma {:induction false} RunTells(options: map<string, CmdOption>, shorts: map<string, string>, args: seq<string>,
        i: nat, done: seq<Use>, uses: seq<Use>, tail: seq<string>, results: map<string, CmdArgResult>)
      returns (after: map<string, CmdArgResult>)
    requires Inverse(options, shorts) && UsesOk(options, done + uses) && UsesOk(options, uses)
    requires i <= |args| && args[i..] == Render(options, uses) + tail && Tells(results, options, done)
    ensures |tail| <= |args|
    ensures Run(options, shorts, args, i, results) == Run(options, shorts, args, |args| - |tail|, after)
    ensures Tells(after, options, done + uses)
    decreases |uses|
  {
    hide Tells, Run, Names, Inverse, ShortReadable;
    if uses == [] {
      assert done + uses == done;
      after := results;
    } else {
      var u := uses[0];
      assert args[i..] == Words(options, u) + (Render(options, uses[1..]) + tail);
      UseRead(options, shorts, args, i, u, Render(options, uses[1..]) + tail, results);
      TellsMore(results, options, done, u);
      assert done + uses == (done + [u]) + uses[1..];
      after := RunTells(options, shorts, args, i + |Words(options, u)|, done + [u], uses[1..], tail,
        Told(options, results, u));
    }
  }

  /** An option at the very end that takes a value and has none. */
  predicate LastOk(options: map<string, CmdOption>, last: Option<Use>)
  {
    last.Some? ==> last.value.Use? && UseOk(options, last.value) && options[last.value.long].take_arg
  }

  function Tail(options: map<string, CmdOption>, last: Option<Use>): seq<string>
    requires LastOk(options, last)
  {
    if last.Some? then [Flag(options, last.value)] else []
  }

  /** The words of a command line behind the name of the program. */
  function Arguments(options: map<string, CmdOption>, program: string, uses: seq<Use>, last: Option<Use>): seq<string>
    requires UsesOk(options, uses) && LastOk(options, last)
  {
    [program] + (Render(options, uses) + Tail(options, last))
  }

  predicate AtEnd(last: Option<Use>, l: string)
  {
    last.Some? && last.value.Use? && last.value.long == l
  }

  /** Any list of registered options, each in a readable form and with a value if it takes one, even one that
      looks like a flag, mixed with any words that are no flags, is read back exactly. An option at the end
      without its value is found, and keeps the value it was given before. */
  lemma CommandLineRoundTrip(options: map<string, CmdOption>, shorts: map<string, string>, program: string,
        uses: seq<Use>, last: Option<Use>)
    requires Inverse(options, shorts) && UsesOk(options, uses) && LastOk(options, last)
    ensures var results := Run(options, shorts, Arguments(options, program, uses, last), 1, map[]);
            (forall l :: l in FoundSet(results) <==> Mentioned(uses, l) || AtEnd(last, l))
            && (forall l :: ValueOf(results, l) == LastValue(options, uses, l))
  {
    hide Run, Resolve, Inverse, Render, Mentioned, LastValue;
    var args, tail := Arguments(options, program, uses, last), Tail(options, last);
    assert args[1..] == Render(options, uses) + tail;
    assert [] + uses == uses;
    NothingTold(options);
    var after := RunTells(options, shorts, args, 1, [], uses, tail, map[]);
    RunStep(options, shorts, args, |args| - |tail|, after);
    if last.Some? {
      FlagResolves(options, shorts, last.value.long);
      RunStep(options, shorts, args, |args|, Mark(after, last.value.long));
    }
    forall l ensures ValueOf(after, l) == LastValue(options, uses, l) {
      if !Mentioned(uses, l) { NotMentioned(options, uses, l); }
    }
  }

  lemma NothingTold(options: map<string, CmdOption>)
    ensures Tells(map[], options, [])
  {}

  function MentionedOptions(uses: seq<Use>, last: Option<Use>): set<string>
  {
    (set k | 0 <= k < |uses| && uses[k].Use? :: uses[k].long)
    + (if last.Some? && last.value.Use? then {last.value.long} else {})
  }

  /** What a caller of the parser sees of a command line made of `uses`. */
  method ParseRendered(parser: CLIParser, program: string, uses: seq<Use>, last: Option<Use>, option: string)
      returns (found: bool, value: string, count: nat)
    requires parser.Valid() && UsesOk(parser.m_options, uses) && LastOk(parser.m_options, last)
    modifies parser`m_results
    ensures found <==> Mentioned(uses, option) || AtEnd(last, option)
    ensures value == LastValue(parser.m_options, uses, option)
    ensures count == |MentionedOptions(uses, last)|
  {
    hide Run, Inverse, Resolve, LastValue, Render, Names, UseOk;
    CommandLineRoundTrip(parser.m_options, parser.m_short_to_long, program, uses, last);
    parser.Parse(Arguments(parser.m_options, program, uses, last));
    found := parser.WasOptionFound(option);
    value := parser.GetOptionValue(option);
    count := parser.GetOptionCount();
    assert FoundSet(parser.m_results) == MentionedOptions(uses, last) by {
      forall l ensures l in FoundSet(parser.m_results) <==> l in MentionedOptions(uses, last) {
        assert l in FoundSet(parser.m_results) <==> Mentioned(uses, l) || AtEnd(last, l);
      }
    }
  }
}
