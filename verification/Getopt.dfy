/** The stateful option reader of lib/argtable/argtable3.c: `parse_long_options`,
    `getopt_internal` and the loop of `arg_parse_tagged` that drives it.  It reads
    and permutes the argument vector in place; the proofs tie it to the parse of
    the original vector in GetoptSpec.dfy. */
module Getopt {
  import opened Wrappers
  import opened GetoptSpec
  import GetoptSpelling
  import Permute

  /** getopt(3)'s mode prefix: '+' or POSIXLY_CORRECT stop at the first operand,
      '-' delivers operands in place, otherwise they are permuted to the end. */
  function ModeOf(options: string, posixly: bool): Mode {
    if posixly || (options != "" && options[0] == '+') then StopAtFirst
    else if options != "" && options[0] == '-' then InOrder
    else PermuteArgv
  }

  function ConfigOf(options: string, long: seq<LongOpt>, longOnly: bool): Config {
    Config(if options != "" && (options[0] == '+' || options[0] == '-') then options[1..] else options, long, longOnly)
  }

  /** The first character of the option string sets the mode and is no option. */
  lemma FirstCharacter(options: string, long: seq<LongOpt>, longOnly: bool)
    ensures ModeOf("+" + options, false) == StopAtFirst && ModeOf("-" + options, false) == InOrder
    ensures ModeOf(options, true) == StopAtFirst
    ensures options == "" || (options[0] != '+' && options[0] != '-') ==>
              ModeOf(options, false) == PermuteArgv && ConfigOf(options, long, longOnly).options == options
    ensures ConfigOf("+" + options, long, longOnly).options == options && ConfigOf("-" + options, long, longOnly).options == options
  {
    assert ("+" + options)[1..] == options && ("-" + options)[1..] == options;
  }

  // ---------------------------------------------------------------- the invariant

  /** Where things stand in the vector `v`, `orig` being the vector as given:
      everything before `i` has been read, as the program name, the option
      arguments `opts` and the operands `operands`; the operands form one block,
      which is [ns, ne), or [ns, i) while no option has followed it. `inside`
      tells that the reader stands inside the option argument v[i]. */
  ghost predicate Layout(v: seq<string>, orig: seq<string>, i: int, ns: int, ne: int, inside: bool,
                         opts: seq<string>, operands: seq<string>)
  {
    && |v| == |orig| && 1 <= i <= |v| && (inside ==> i < |v|)
    && v[i..] == orig[i..]
    && (ns == -1 ==> ne == -1 && operands == [] && v[..i] == orig[..1] + opts)
    && (ns != -1 && ne == -1 ==>
          1 <= ns < i && !inside && v[..ns] == orig[..1] + opts && v[ns..i] == operands)
    && (ne != -1 ==>
          1 <= ns < ne <= i && (ne < i || inside) && v[..ns] + v[ne..i] == orig[..1] + opts && v[ns..ne] == operands)
  }

  lemma LayoutBounds(v: seq<string>, orig: seq<string>, i: int, ns: int, ne: int, inside: bool,
                     opts: seq<string>, operands: seq<string>)
    requires Layout(v, orig, i, ns, ne, inside, opts, operands)
    ensures |v| == |orig| && 1 <= i <= |v|
    ensures i < |v| ==> v[i] == orig[i]
    ensures v[i..] == orig[i..]
    ensures ne != -1 ==> 0 <= ns < ne <= i && (!inside ==> ne < i)
    ensures ns == -1 ==> ne == -1
    ensures inside ==> (ns == -1 <==> ne == -1) && i < |v|
    ensures ns != -1 ==> 0 <= ns < i
  {
    if i < |v| {
      assert v[i] == v[i..][0];
    }
  }

  lemma LayoutStart(orig: seq<string>)
    requires |orig| >= 1
    ensures Layout(orig, orig, 1, -1, -1, false, [], [])
  {
  }

  /** The first operand of a block, or one more. */
  lemma OperandAppended(v: seq<string>, orig: seq<string>, i: int, ns: int, opts: seq<string>, operands: seq<string>)
    requires Layout(v, orig, i, ns, -1, false, opts, operands) && i < |v|
    ensures Layout(v, orig, i + 1, if ns == -1 then i else ns, -1, false, opts, operands + [orig[i]])
  {
    LayoutBounds(v, orig, i, ns, -1, false, opts, operands);
    if ns != -1 {
      assert v[ns..i + 1] == v[ns..i] + [v[i]];
    }
  }

  /** `permute_args` moves the operands behind the options read since. */
  lemma BlockMoved(v: seq<string>, orig: seq<string>, i: int, ns: int, ne: int, opts: seq<string>, operands: seq<string>)
    requires Layout(v, orig, i, ns, ne, false, opts, operands) && ne != -1
    ensures 0 <= ns <= ne <= i <= |v|
    ensures Layout(Permute.Exchanged(v, ns, ne, i), orig, i, i - (ne - ns), -1, false, opts, operands)
  {
    var w := Permute.Exchanged(v, ns, ne, i);
    var k := i - (ne - ns);
    assert w[..k] == v[..ns] + v[ne..i];
    assert w[k..i] == v[ns..ne];
    assert w[i..] == v[i..];
  }

  /** An option starts at i: it closes the block of operands, if there is one. */
  lemma OptionStarts(v: seq<string>, orig: seq<string>, i: int, ns: int, ne: int, opts: seq<string>, operands: seq<string>)
    requires Layout(v, orig, i, ns, ne, false, opts, operands) && i < |v|
    ensures Layout(v, orig, i, ns, if ns != -1 && ne == -1 then i else ne, true, opts, operands)
  {
    if ns != -1 && ne == -1 {
      assert v[..ns] + v[i..i] == v[..ns];
    }
  }

  /** The option argument at i and the arguments it takes, up to k, have been read. */
  lemma OptionConsumed(v: seq<string>, orig: seq<string>, i: int, ns: int, ne: int, opts: seq<string>, operands: seq<string>, k: int)
    requires Layout(v, orig, i, ns, ne, true, opts, operands) && i < k <= |v|
    ensures 0 <= i < k <= |orig|
    ensures Layout(v, orig, k, ns, ne, false, opts + orig[i..k], operands)
  {
    assert orig[i..k] == v[i..k] by {
      assert v[i..k] == v[i..][..k - i];
      assert orig[i..k] == orig[i..][..k - i];
    }
    assert v[k..] == v[i..][k - i..];
    assert orig[k..] == orig[i..][k - i..];
    if ns == -1 {
      assert v[..k] == v[..i] + v[i..k];
    } else {
      assert v[..ns] + v[ne..k] == v[..ns] + v[ne..i] + v[i..k];
    }
  }

  /** The end of a run: program name, options, operands, unread rest; the operands start at `e`. */
  ghost predicate Final(v: seq<string>, orig: seq<string>, e: int, p: Parsed) {
    && |orig| >= 1
    && v == orig[..1] + p.opts + p.operands
    && e == 1 + |p.opts|
  }

  lemma FinalFromBlock(v: seq<string>, orig: seq<string>, i: int, ns: int, opts: seq<string>, operands: seq<string>, p: Parsed)
    requires Layout(v, orig, i, ns, -1, false, opts, operands)
    requires p.opts == opts && p.operands == operands + orig[i..]
    ensures Final(v, orig, if ns == -1 then i else ns, p)
  {
    assert v == v[..i] + v[i..];
    if ns != -1 {
      assert v[..i] == v[..ns] + v[ns..i];
      assert |v[..ns]| == |orig[..1] + opts|;
    } else {
      assert |v[..i]| == |orig[..1] + opts|;
    }
  }

  // ---------------------------------------------------------------- progress against the parse

  /** The run over `orig` yields `done` and then what the parse from (i, s) yields. */
  ghost predicate Continues(cfg: Config, mode: Mode, orig: seq<string>, done: Parsed, i: int, s: string) {
    && 1 <= i <= |orig| && (s != "" ==> i < |orig|)
    && var all := Parse(cfg, mode, orig, 1, "");
       var p := Parse(cfg, mode, orig, i, s);
       && all.events == done.events + p.events
       && all.opts == done.opts + p.opts
       && all.operands == done.operands + p.operands
  }

  /** What was read before, plus these. */
  function Add(done: Parsed, events: seq<Event>, opts: seq<string>, operands: seq<string>): (r: Parsed)
    ensures events == [] ==> r.events == done.events
    ensures opts == [] ==> r.opts == done.opts
    ensures operands == [] ==> r.operands == done.operands
  {
    Parsed(done.events + events, done.opts + opts, done.operands + operands)
  }

  /** The parse of a whole run ends with `done`, with the arguments from i unread. */
  ghost predicate Ends(cfg: Config, mode: Mode, orig: seq<string>, done: Parsed, i: int) {
    && 1 <= i <= |orig|
    && var all := Parse(cfg, mode, orig, 1, "");
       all.events == done.events && all.opts == done.opts && all.operands == done.operands + orig[i..]
  }

  lemma ContinuesAtStart(cfg: Config, mode: Mode, orig: seq<string>)
    requires |orig| >= 1
    ensures Continues(cfg, mode, orig, Parsed([], [], []), 1, "")
  {
  }

  lemma EndsAtEnd(cfg: Config, mode: Mode, orig: seq<string>, done: Parsed, i: int)
    requires Continues(cfg, mode, orig, done, i, "") && i == |orig|
    ensures Ends(cfg, mode, orig, done, i)
  {
  }

  lemma EndsAtOperand(cfg: Config, orig: seq<string>, done: Parsed, i: int)
    requires Continues(cfg, StopAtFirst, orig, done, i, "") && i < |orig| && IsOperand(cfg, orig[i])
    ensures Ends(cfg, StopAtFirst, orig, done, i)
  {
  }

  lemma EndsAtDashes(cfg: Config, mode: Mode, orig: seq<string>, done: Parsed, i: int)
    requires Continues(cfg, mode, orig, done, i, "") && i < |orig| && orig[i] == "--" && !IsOperand(cfg, "--")
    ensures Ends(cfg, mode, orig, Add(done, [], ["--"], []), i + 1)
  {
  }

  lemma ContinuesAfterOperand(cfg: Config, orig: seq<string>, done: Parsed, i: int)
    requires Continues(cfg, PermuteArgv, orig, done, i, "") && i < |orig| && IsOperand(cfg, orig[i])
    ensures Continues(cfg, PermuteArgv, orig, Add(done, [], [], [orig[i]]), i + 1, "")
  {
    ParseAtOperand(cfg, orig, i);
    MoreDone(cfg, PermuteArgv, orig, done, i, "", [], [], [orig[i]], i + 1, "");
  }

  lemma ContinuesAfterInOrder(cfg: Config, orig: seq<string>, done: Parsed, i: int)
    requires Continues(cfg, InOrder, orig, done, i, "") && i < |orig| && IsOperand(cfg, orig[i])
    ensures Continues(cfg, InOrder, orig, Add(done, [Event(INORDER, Some(orig[i]), None, None)], [orig[i]], []), i + 1, "")
  {
    ParseAtOperand(cfg, orig, i);
    MoreDone(cfg, InOrder, orig, done, i, "", [Event(INORDER, Some(orig[i]), None, None)], [orig[i]], [], i + 1, "");
  }

  lemma ParseAtOperand(cfg: Config, orig: seq<string>, i: int)
    requires 1 <= i < |orig| && IsOperand(cfg, orig[i])
    ensures var p := Parse(cfg, PermuteArgv, orig, i + 1, "");
            Parse(cfg, PermuteArgv, orig, i, "") == Parsed([] + p.events, [] + p.opts, [orig[i]] + p.operands)
    ensures var p := Parse(cfg, InOrder, orig, i + 1, "");
            Parse(cfg, InOrder, orig, i, "") ==
              Parsed([Event(INORDER, Some(orig[i]), None, None)] + p.events, [orig[i]] + p.opts, [] + p.operands)
  {
    hide ReadOption, IsOperand;
  }

  /** The reader is about to read an option from `s` in argument i. */
  ghost predicate AtOption(cfg: Config, orig: seq<string>, i: int, place: string, s: string, whole: bool) {
    && 1 <= i < |orig| && s != ""
    && if place != "" then s == place && !whole
       else !IsOperand(cfg, orig[i]) && orig[i] != "--" && s == Unread(orig[i]) && whole == (|orig[i]| == 1)
  }

  lemma ContinuesAfterOption(cfg: Config, mode: Mode, orig: seq<string>, done: Parsed, i: int, place: string, s: string, whole: bool)
    requires Continues(cfg, mode, orig, done, i, place) && AtOption(cfg, orig, i, place, s, whole)
    requires ReadOption(cfg, orig, i, s, whole).event.code != -1
    ensures var o := ReadOption(cfg, orig, i, s, whole);
            Continues(cfg, mode, orig, Add(done, [o.event], orig[i..o.next], []), o.next, o.rest)
  {
    hide ReadOption;
    var o := ReadOption(cfg, orig, i, s, whole);
    ParseAtOption(cfg, mode, orig, i, place, s, whole);
    MoreDone(cfg, mode, orig, done, i, place, [o.event], orig[i..o.next], [], o.next, o.rest);
  }

  lemma ParseAtOption(cfg: Config, mode: Mode, orig: seq<string>, i: int, place: string, s: string, whole: bool)
    requires AtOption(cfg, orig, i, place, s, whole)
    requires ReadOption(cfg, orig, i, s, whole).event.code != -1
    ensures var o := ReadOption(cfg, orig, i, s, whole);
            var p := Parse(cfg, mode, orig, o.next, o.rest);
            Parse(cfg, mode, orig, i, place) == Parsed([o.event] + p.events, orig[i..o.next] + p.opts, p.operands)
  {
    hide ReadOption;
    assert Parse(cfg, mode, orig, i, place) == ParseOption(cfg, mode, orig, i, s, whole);
  }

  /** One piece of the rest of the parse has been done. */
  lemma MoreDone(cfg: Config, mode: Mode, orig: seq<string>, done: Parsed, i: int, s: string,
                 events: seq<Event>, opts: seq<string>, operands: seq<string>, i': int, s': string)
    requires Continues(cfg, mode, orig, done, i, s)
    requires 1 <= i' <= |orig| && (s' != "" ==> i' < |orig|)
    requires var p, p' := Parse(cfg, mode, orig, i, s), Parse(cfg, mode, orig, i', s');
             p == Parsed(events + p'.events, opts + p'.opts, operands + p'.operands)
    ensures Continues(cfg, mode, orig, Add(done, events, opts, operands), i', s')
  {
    hide Parse;
    var p' := Parse(cfg, mode, orig, i', s');
    assert done.events + (events + p'.events) == (done.events + events) + p'.events;
    assert done.opts + (opts + p'.opts) == (done.opts + opts) + p'.opts;
    assert done.operands + (operands + p'.operands) == (done.operands + operands) + p'.operands;
  }

  /** No option read in a run answers -1. */
  lemma OptionNeverEnds(cfg: Config, orig: seq<string>, i: int, place: string, s: string, whole: bool)
    requires ValuesOk(cfg) && AtOption(cfg, orig, i, place, s, whole)
    ensures ReadOption(cfg, orig, i, s, whole).event.code != -1
  {
    if whole {
      assert s[0] == '-' && '-' in cfg.options;
    }
  }

  lemma LayoutAfterOption(v: seq<string>, orig: seq<string>, i: int, ns: int, ne: int, done: Parsed, o: Outcome)
    requires Layout(v, orig, i, ns, ne, true, done.opts, done.operands)
    requires i <= o.next <= |v| && (o.next > i ==> o.rest == "") && (o.next == i ==> o.rest != "")
    ensures 0 <= i <= o.next <= |orig|
    ensures var d := Add(done, [o.event], orig[i..o.next], []);
            Layout(v, orig, o.next, ns, ne, o.rest != "", d.opts, d.operands)
  {
    if o.next > i {
      hide Layout;
      OptionConsumed(v, orig, i, ns, ne, done.opts, done.operands, o.next);
    }
  }

  lemma AtCluster(cfg: Config, orig: seq<string>, i: int, place: string, ns: int, ne: int, done: Parsed, v: seq<string>)
    requires place != "" && Layout(v, orig, i, ns, ne, true, done.opts, done.operands)
    ensures i >= 1 && AtOption(cfg, orig, i, place, place, false)
  {
  }

  lemma EventsBound(cfg: Config, mode: Mode, orig: seq<string>, done: Parsed, i: int, s: string)
    requires Continues(cfg, mode, orig, done, i, s)
    ensures |orig| >= 1 && |done.events| <= |Parse(cfg, mode, orig, 1, "").events|
  {
  }

  /** What a caller sees of an event. */
  datatype Answer = Answer(ret: int, optarg: Option<string>, longIndex: Option<nat>)

  function Answers(events: seq<Event>): (a: seq<Answer>)
    ensures |a| == |events|
  {
    seq(|events|, k requires 0 <= k < |events| => Answer(events[k].code, events[k].optarg, events[k].longIndex))
  }

  lemma AnswersAppend(events: seq<Event>, e: Event)
    ensures Answers(events + [e]) == Answers(events) + [Answer(e.code, e.optarg, e.longIndex)]
  {
  }

  // ---------------------------------------------------------------- the reader

  /** The static state of getopt, together with the vector it works on. */
  class Reader {
    const argv: array<string>
    var optind: int
    var optreset: bool
    var place: string
    var nonoptStart: int
    var nonoptEnd: int
    var optarg: Option<string>
    var optopt: int
    var flagValue: int

    constructor (argv: array<string>)
      ensures this.argv == argv && optind == 0
    {
      this.argv := argv;
      optind, optreset, place := 0, false, "";
      nonoptStart, nonoptEnd := -1, -1;
      optarg, optopt, flagValue := None, '?' as int, 0;
    }

    /** Between two calls of a run: `done` has been read of `orig`. */
    ghost predicate Between(cfg: Config, mode: Mode, orig: seq<string>, done: Parsed)
      reads this, argv
    {
      && !optreset
      && (mode != PermuteArgv ==> nonoptStart == nonoptEnd == -1)
      && Layout(argv[..], orig, optind, nonoptStart, nonoptEnd, place != "", done.opts, done.operands)
      && Continues(cfg, mode, orig, done, optind, place)
    }

    /** A run may begin or go on. */
    ghost predicate Ready(cfg: Config, mode: Mode, orig: seq<string>, done: Parsed)
      reads this, argv
    {
      if optind == 0 then |orig| >= 1 && argv[..] == orig && done == Parsed([], [], [])
      else Between(cfg, mode, orig, done)
    }

    /** The answer `o` of a call that had `optopt` set to `was`, and the flag to `flagWas`. */
    ghost predicate Answered(cfg: Config, o: Event, ret: int, longIndex: Option<nat>, was: int, flagWas: int)
      reads this
    {
      && ret == o.code && optarg == o.optarg && longIndex == o.longIndex
      && optopt == (if o.optopt.Some? then o.optopt.value else was)
      && flagValue == (if longIndex.Some? && longIndex.value < |cfg.long| && cfg.long[longIndex.value].hasFlag
                       then cfg.long[longIndex.value].val else flagWas)
    }

    /** The table search of `parse_long_options`. */
    method SearchTable(key: string, table: seq<LongOpt>, shortToo: bool) returns (m: int)
      ensures m == Lookup(key, table, 0, NO_MATCH, shortToo)
    {
      m := NO_MATCH;
      var i := 0;
      while i < |table|
        invariant 0 <= i <= |table| && (m == NO_MATCH || 0 <= m < i)
        invariant Lookup(key, table, i, m, shortToo) == Lookup(key, table, 0, NO_MATCH, shortToo)
      {
        if key <= table[i].name {
          if |table[i].name| == |key| {
            assert Names(key, table[i]);
            return i;
          }
          if !(shortToo && |key| == 1) {
            if m == NO_MATCH {
              m := i;
            } else {
              return AMBIGUOUS;
            }
          }
        }
        i := i + 1;
      }
    }

    method ParseLongOptions(cfg: Config, shortToo: bool) returns (ret: int, longIndex: Option<nat>)
      requires 0 <= optind < argv.Length && optarg == None
      modifies this`optind, this`optarg, this`optopt, this`flagValue
      ensures var o := ReadLong(cfg, argv[..], old(optind) + 1, place, shortToo);
              optind == o.next && Answered(cfg, o.event, ret, longIndex, old(optopt), old(flagValue))
    {
      hide Lookup;
      longIndex := None;
      optind := optind + 1;
      var e := IndexOf(place, '=');
      var hasEqual := e < |place|;
      var m := SearchTable(place[..e], cfg.long, shortToo);
      if m == AMBIGUOUS {
        optopt := 0;
        return BADCH, None;
      }
      if m != NO_MATCH {
        var l := cfg.long[m];
        if l.hasArg == NoArgument && hasEqual {
          optopt := OptOptOf(l);
          return BadArg(cfg), None;
        }
        if l.hasArg == RequiredArgument || l.hasArg == OptionalArgument {
          if hasEqual {
            optarg := Some(place[e + 1..]);
          } else if l.hasArg == RequiredArgument {
            // one past the end the vector holds NULL
            optarg := if optind < argv.Length then Some(argv[optind]) else None;
            optind := optind + 1;
          }
        }
        if l.hasArg == RequiredArgument && optarg == None {
          optopt := OptOptOf(l);
          optind := optind - 1;
          return BadArg(cfg), None;
        }
        longIndex := Some(m);
        if l.hasFlag {
          flagValue := l.val;
          ret := 0;
        } else {
          ret := l.val;
        }
      } else {
        if shortToo {
          optind := optind - 1;
          return -1, None;
        }
        optopt := 0;
        return BADCH, None;
      }
    }

    /** The part of `getopt_internal` that reads one short option letter. */
    method ParseShortOption(cfg: Config) returns (ret: int, longIndex: Option<nat>)
      requires 0 <= optind < argv.Length && optarg == None && place != ""
      modifies this`optind, this`optarg, this`optopt, this`flagValue, this`place
      ensures var o := ReadShort(cfg, argv[..], old(optind), old(place));
              optind == o.next && place == o.rest && Answered(cfg, o.event, ret, longIndex, old(optopt), old(flagValue))
    {
      hide ReadLong, IndexOf, BadArg;
      longIndex := None;
      var c := place[0];
      place := place[1..];
      var oli := IndexOf(cfg.options, c);
      if c == ':' || (c == '-' && place != "") || oli == |cfg.options| {
        if c == '-' && place == "" {
          return -1, None;
        }
        if place == "" {
          optind := optind + 1;
        }
        optopt := c as int;
        return BADCH, None;
      }
      if c == 'W' && oli + 1 < |cfg.options| && cfg.options[oli + 1] == ';' {
        if place != "" {
        } else {
          optind := optind + 1;
          if optind >= argv.Length {
            place := "";
            optopt := c as int;
            return BadArg(cfg), None;
          }
          place := argv[optind];
        }
        ret, longIndex := ParseLongOptions(cfg, false);
        place := "";
        return;
      }
      if !(oli + 1 < |cfg.options| && cfg.options[oli + 1] == ':') {
        if place == "" {
          optind := optind + 1;
        }
      } else {
        if place != "" {
          optarg := Some(place);
        } else if !(oli + 2 < |cfg.options| && cfg.options[oli + 2] == ':') {
          optind := optind + 1;
          if optind >= argv.Length {
            place := "";
            optopt := c as int;
            return BadArg(cfg), None;
          }
          optarg := Some(argv[optind]);
        }
        place := "";
        optind := optind + 1;
      }
      return c as int, None;
    }

    /** The rest of `getopt_internal` once `place` points at an option; `whole`
        says that `place` is still the start of argv[optind]. */
    method ParseAnOption(cfg: Config, whole: bool) returns (ret: int, longIndex: Option<nat>)
      requires ValuesOk(cfg)
      requires 0 <= optind < argv.Length && optarg == None && place != ""
      modifies this`optind, this`optarg, this`optopt, this`flagValue, this`place
      ensures var o := ReadOption(cfg, argv[..], old(optind), old(place), whole);
              optind == o.next && place == o.rest && Answered(cfg, o.event, ret, longIndex, old(optopt), old(flagValue))
    {
      hide ReadLong, ReadShort;
      if !whole && (place[0] == '-' || cfg.longOnly) {
        var shortToo := false;
        if place[0] == '-' {
          place := place[1..];
        } else if place[0] != ':' && IndexOf(cfg.options, place[0]) < |cfg.options| {
          shortToo := true;
        }
        ret, longIndex := ParseLongOptions(cfg, shortToo);
        if ret != -1 {
          place := "";
          return;
        }
      }
      ret, longIndex := ParseShortOption(cfg);
    }

    /** `permute_args` on the block of operands, which then ends at optind. */
    method PermuteBlock(ghost orig: seq<string>, ghost done: Parsed)
      requires nonoptEnd != -1
      requires Layout(argv[..], orig, optind, nonoptStart, nonoptEnd, false, done.opts, done.operands)
      modifies argv
      ensures Layout(argv[..], orig, optind, optind - (nonoptEnd - nonoptStart), -1, false, done.opts, done.operands)
      ensures nonoptStart < nonoptEnd < optind
    {
      hide Layout;
      LayoutBounds(argv[..], orig, optind, nonoptStart, nonoptEnd, false, done.opts, done.operands);
      BlockMoved(argv[..], orig, optind, nonoptStart, nonoptEnd, done.opts, done.operands);
      Permute.PermuteArgs(nonoptStart, nonoptEnd, optind, argv);
    }

    /** The end of a run, after the last argument or after "--". */
    method Finish(ghost cfg: Config, ghost mode: Mode, ghost orig: seq<string>, ghost done: Parsed)
      requires Layout(argv[..], orig, optind, nonoptStart, nonoptEnd, false, done.opts, done.operands)
      requires Ends(cfg, mode, orig, done, optind)
      modifies this`optind, this`nonoptStart, this`nonoptEnd, argv
      ensures Final(argv[..], orig, optind, Parse(cfg, mode, orig, 1, ""))
      ensures done.events == Parse(cfg, mode, orig, 1, "").events
      ensures nonoptStart == nonoptEnd == -1
    {
      hide Layout, Parse, Final;
      LayoutBounds(argv[..], orig, optind, nonoptStart, nonoptEnd, false, done.opts, done.operands);
      ghost var i := optind;
      ghost var ns := nonoptStart;
      if nonoptEnd != -1 {
        PermuteBlock(orig, done);
        ns := optind - (nonoptEnd - nonoptStart);
        LayoutBounds(argv[..], orig, optind, ns, -1, false, done.opts, done.operands);
        optind := optind - (nonoptEnd - nonoptStart);
      } else if nonoptStart != -1 {
        optind := nonoptStart;
      }
      nonoptStart, nonoptEnd := -1, -1;
      FinalFromBlock(argv[..], orig, i, ns, done.opts, done.operands, Parse(cfg, mode, orig, 1, ""));
    }

    /** Passes over one operand when permuting: it joins the block of operands,
        which is first moved behind the options read since. */
    method SkipOperand(ghost cfg: Config, ghost orig: seq<string>, ghost done: Parsed) returns (ghost done': Parsed)
      requires Between(cfg, PermuteArgv, orig, done) && place == "" && optind < argv.Length
      requires IsOperand(cfg, argv[optind])
      modifies this`optind, this`nonoptStart, this`nonoptEnd, argv
      ensures Between(cfg, PermuteArgv, orig, done') && optind == old(optind) + 1
      ensures done'.events == done.events
    {
      hide Layout, Continues, IsOperand;
      LayoutBounds(argv[..], orig, optind, nonoptStart, nonoptEnd, false, done.opts, done.operands);
      ContinuesAfterOperand(cfg, orig, done, optind);
      done' := Add(done, [], [], [orig[optind]]);
      if nonoptStart == -1 {
        OperandAppended(argv[..], orig, optind, -1, done.opts, done.operands);
        nonoptStart := optind;
      } else if nonoptEnd != -1 {
        PermuteBlock(orig, done);
        nonoptStart := optind - (nonoptEnd - nonoptStart);
        nonoptEnd := -1;
        OperandAppended(argv[..], orig, optind, nonoptStart, done.opts, done.operands);
      } else {
        OperandAppended(argv[..], orig, optind, nonoptStart, done.opts, done.operands);
      }
      optind := optind + 1;
    }

    /** An option, or "--", starts at optind: the block of operands ends there. */
    method CloseBlock(ghost orig: seq<string>, ghost done: Parsed)
      requires Layout(argv[..], orig, optind, nonoptStart, nonoptEnd, false, done.opts, done.operands) && optind < argv.Length
      modifies this`nonoptEnd
      ensures Layout(argv[..], orig, optind, nonoptStart, nonoptEnd, true, done.opts, done.operands)
    {
      hide Layout;
      OptionStarts(argv[..], orig, optind, nonoptStart, nonoptEnd, done.opts, done.operands);
      if nonoptStart != -1 && nonoptEnd == -1 {
        nonoptEnd := optind;
      }
    }

    /** "--" at optind: it counts as an option, and all that follows is left alone. */
    method FinishAtDashes(ghost cfg: Config, ghost mode: Mode, ghost orig: seq<string>, ghost done: Parsed)
      requires Layout(argv[..], orig, optind, nonoptStart, nonoptEnd, true, done.opts, done.operands)
      requires Continues(cfg, mode, orig, done, optind, "") && optind < argv.Length
      requires argv[optind] == "--" && !IsOperand(cfg, "--")
      modifies this`optind, this`nonoptStart, this`nonoptEnd, argv
      ensures Final(argv[..], orig, optind, Parse(cfg, mode, orig, 1, ""))
      ensures done.events == Parse(cfg, mode, orig, 1, "").events
      ensures nonoptStart == nonoptEnd == -1
    {
      hide Layout, Continues, IsOperand, Ends, Final, Parse;
      LayoutBounds(argv[..], orig, optind, nonoptStart, nonoptEnd, true, done.opts, done.operands);
      OptionConsumed(argv[..], orig, optind, nonoptStart, nonoptEnd, done.opts, done.operands, optind + 1);
      assert orig[optind..optind + 1] == ["--"];
      EndsAtDashes(cfg, mode, orig, done, optind);
      optind := optind + 1;
      Finish(cfg, mode, orig, Add(done, [], ["--"], []));
    }

    /** The scan for the next option (`start:` in `getopt_internal`).  `ret` is -1
        at the end of the run, INORDER for an operand delivered in place, and 0
        when `place` points at an option. */
    method UpdatePlace(cfg: Config, mode: Mode, ghost orig: seq<string>, ghost done: Parsed)
        returns (ret: int, whole: bool, ghost done': Parsed)
      requires Between(cfg, mode, orig, done) && place == "" && optarg == None
      modifies this`optind, this`nonoptStart, this`nonoptEnd, this`place, this`optarg, argv
      ensures done'.events == done.events
      ensures ret == -1 || ret == INORDER || ret == 0
      ensures ret == -1 ==>
                && Final(argv[..], orig, optind, Parse(cfg, mode, orig, 1, ""))
                && done.events == Parse(cfg, mode, orig, 1, "").events
                && nonoptStart == nonoptEnd == -1 && place == ""
      ensures ret == INORDER ==>
                && optarg.Some?
                && Between(cfg, mode, orig, Add(done', [Event(INORDER, optarg, None, None)], [optarg.value], []))
      ensures ret != -1 ==> optind >= 1
      ensures ret == 0 ==>
                && optarg == None
                && (mode != PermuteArgv ==> nonoptStart == nonoptEnd == -1)
                && Layout(argv[..], orig, optind, nonoptStart, nonoptEnd, true, done'.opts, done'.operands)
                && Continues(cfg, mode, orig, done', optind, "")
                && AtOption(cfg, orig, optind, "", place, whole)
    {
      hide Layout, Continues, Ends, Final, Parse;
      done' := done;
      whole := false;
      while true
        invariant Between(cfg, mode, orig, done') && place == "" && optarg == None
        invariant done'.events == done.events
        decreases argv.Length - optind
      {
        LayoutBounds(argv[..], orig, optind, nonoptStart, nonoptEnd, false, done'.opts, done'.operands);
        if optind >= argv.Length {
          EndsAtEnd(cfg, mode, orig, done', optind);
          Finish(cfg, mode, orig, done');
          return -1, false, done';
        }
        if !IsOperand(cfg, argv[optind]) {
          break;
        }
        if mode == InOrder {
          optarg := DeliverOperand(cfg, orig, done');
          return INORDER, false, done';
        }
        if mode == StopAtFirst {
          EndsAtOperand(cfg, orig, done', optind);
          FinalFromBlock(argv[..], orig, optind, -1, done'.opts, done'.operands, Parse(cfg, mode, orig, 1, ""));
          return -1, false, done';
        }
        done' := SkipOperand(cfg, orig, done');
      }
      CloseBlock(orig, done');
      LayoutBounds(argv[..], orig, optind, nonoptStart, nonoptEnd, true, done'.opts, done'.operands);
      place := argv[optind];
      if |place| > 1 {
        place := place[1..];
        if place == "-" {
          place := "";
          FinishAtDashes(cfg, mode, orig, done');
          return -1, false, done';
        }
        return 0, false, done';
      }
      return 0, true, done';
    }

    /** An operand delivered in place, as the argument of option number 1. */
    method DeliverOperand(ghost cfg: Config, ghost orig: seq<string>, ghost done: Parsed) returns (operand: Option<string>)
      requires Between(cfg, InOrder, orig, done) && place == "" && optind < argv.Length
      requires IsOperand(cfg, argv[optind])
      modifies this`optind
      ensures operand.Some? && optind >= 1
      ensures Between(cfg, InOrder, orig, Add(done, [Event(INORDER, operand, None, None)], [operand.value], []))
    {
      hide Layout, Continues, IsOperand;
      LayoutBounds(argv[..], orig, optind, nonoptStart, nonoptEnd, false, done.opts, done.operands);
      ContinuesAfterInOrder(cfg, orig, done, optind);
      OptionStarts(argv[..], orig, optind, nonoptStart, nonoptEnd, done.opts, done.operands);
      OptionConsumed(argv[..], orig, optind, nonoptStart, nonoptEnd, done.opts, done.operands, optind + 1);
      assert orig[optind..optind + 1] == [orig[optind]];
      operand := Some(argv[optind]);
      optind := optind + 1;
    }

    /** The option at `place` is read, and with it the arguments it takes. */
    method ReadTheOption(cfg: Config, ghost mode: Mode, ghost orig: seq<string>, ghost done: Parsed, ghost prev: string, whole: bool)
        returns (ret: int, longIndex: Option<nat>, ghost e: Event)
      requires ValuesOk(cfg) && optarg == None && !optreset
      requires mode != PermuteArgv ==> nonoptStart == nonoptEnd == -1
      requires Layout(argv[..], orig, optind, nonoptStart, nonoptEnd, true, done.opts, done.operands)
      requires Continues(cfg, mode, orig, done, optind, prev)
      requires AtOption(cfg, orig, optind, prev, place, whole)
      modifies this`optind, this`optarg, this`optopt, this`flagValue, this`place
      ensures ret != -1
      ensures Answered(cfg, e, ret, longIndex, old(optopt), old(flagValue))
      ensures exists opts :: Between(cfg, mode, orig, Add(done, [e], opts, []))
      ensures optind >= old(optind)
    {
      hide Layout, Continues, ReadOption, Add;
      ghost var i, ns, ne := optind, nonoptStart, nonoptEnd;
      LayoutBounds(argv[..], orig, i, ns, ne, true, done.opts, done.operands);
      ReadOptionLocal(cfg, argv[..], orig, i, place, whole);
      OptionNeverEnds(cfg, orig, i, prev, place, whole);
      ContinuesAfterOption(cfg, mode, orig, done, i, prev, place, whole);
      ghost var o := ReadOption(cfg, orig, i, place, whole);
      e := o.event;
      ret, longIndex := ParseAnOption(cfg, whole);
      LayoutAfterOption(argv[..], orig, i, ns, ne, done, o);
      assert Between(cfg, mode, orig, Add(done, [e], orig[i..o.next], []));
    }

    /** Parses one step of the vector: `getopt_internal`. */
    method GetoptInternal(options: string, long: seq<LongOpt>, longOnly: bool, posixly: bool,
                          ghost orig: seq<string>, ghost done: Parsed)
        returns (ret: int, longIndex: Option<nat>, ghost e: Event, ghost done': Parsed)
      requires ValuesOk(ConfigOf(options, long, longOnly))
      requires Ready(ConfigOf(options, long, longOnly), ModeOf(options, posixly), orig, done)
      modifies this, argv
      ensures ret == -1 ==>
                && Final(argv[..], orig, optind, Parse(ConfigOf(options, long, longOnly), ModeOf(options, posixly), orig, 1, ""))
                && done.events == Parse(ConfigOf(options, long, longOnly), ModeOf(options, posixly), orig, 1, "").events
      ensures ret != -1 ==>
                && optind != 0
                && Answered(ConfigOf(options, long, longOnly), e, ret, longIndex, old(optopt), old(flagValue))
                && Between(ConfigOf(options, long, longOnly), ModeOf(options, posixly), orig, done')
                && done'.events == done.events + [e]
    {
      hide Layout, Continues, Final, Parse, AtOption, ValuesOk, IsOperand;
      var cfg, mode := ConfigOf(options, long, longOnly), ModeOf(options, posixly);
      done' := done;
      e := Event(INORDER, None, None, None);
      longIndex := None;
      if optind == 0 {
        optind := 1;
        optreset := true;
        ContinuesAtStart(cfg, mode, orig);
        LayoutStart(orig);
      }
      optarg := None;
      if optreset {
        nonoptStart, nonoptEnd := -1, -1;
      }
      var whole := false;
      ghost var prev := "";
      if optreset || place == "" {
        optreset := false;
        place := "";
        ret, whole, done' := UpdatePlace(cfg, mode, orig, done);
        if ret == -1 {
          return;
        }
        if ret == INORDER {
          e := Event(INORDER, optarg, None, None);
          done' := Add(done', [e], [optarg.value], []);
          return;
        }
      } else {
        prev := place;
        AtCluster(cfg, orig, optind, place, nonoptStart, nonoptEnd, done, argv[..]);
      }
      ret, longIndex, e := ReadTheOption(cfg, mode, orig, done', prev, whole);
      ghost var opts :| Between(cfg, mode, orig, Add(done', [e], opts, []));
      done' := Add(done', [e], opts, []);
    }

    /** A whole run, as `arg_parse_tagged` makes it: every option is delivered in
        the order of the original vector, and the vector ends up partitioned. */
    method RunGetoptLong(options: string, long: seq<LongOpt>, posixly: bool) returns (answers: seq<Answer>)
      requires argv.Length >= 1 && ValuesOk(ConfigOf(options, long, false))
      modifies this, argv
      ensures var p := Parse(ConfigOf(options, long, false), ModeOf(options, posixly), old(argv[..]), 1, "");
              && answers == Answers(p.events)
              && argv[..] == old(argv[..])[..1] + p.opts + p.operands
              && optind == 1 + |p.opts|
      ensures forall ws, end :: GetoptSpelling.Spells(ConfigOf(options, long, false), ModeOf(options, posixly), old(argv[..]), ws, end) ==>
                answers == Answers(GetoptSpelling.Events(ConfigOf(options, long, false), ModeOf(options, posixly), ws, end))
    {
      hide Layout, Continues, Parse, ValuesOk, GetoptSpelling.Spells, GetoptSpelling.Events;
      ghost var orig := argv[..];
      ghost var cfg, mode := ConfigOf(options, long, false), ModeOf(options, posixly);
      GetoptSpelling.Spelled(cfg, mode, orig);
      optind := 0;
      answers := [];
      ghost var done := Parsed([], [], []);
      var copt := 0;
      while copt != -1
        invariant copt != -1 ==> Ready(cfg, mode, orig, done) && answers == Answers(done.events)
        invariant copt == -1 ==>
            && Final(argv[..], orig, optind, Parse(cfg, mode, orig, 1, ""))
            && answers == Answers(Parse(cfg, mode, orig, 1, "").events)
        invariant |done.events| <= |Parse(cfg, mode, orig, 1, "").events|
        decreases |Parse(cfg, mode, orig, 1, "").events| - |done.events|, if copt == -1 then 0 else 1
      {
        ghost var before := done;
        var longIndex;
        ghost var e;
        copt, longIndex, e, done := GetoptInternal(options, long, false, posixly, orig, done);
        if copt != -1 {
          answers := answers + [Answer(copt, optarg, longIndex)];
          AnswersAppend(before.events, e);
          EventsBound(cfg, mode, orig, done, optind, place);
        } else {
          done := before;
        }
      }
    }
  }
}
