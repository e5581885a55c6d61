/** What a run of getopt reads from an argument vector, stated on a vector that
    never changes: a left-to-right parse without any permutation.  The stateful
    reader in Getopt.dfy, which permutes the vector while it reads, is proved to
    deliver exactly these events (lib/argtable/argtable3.c, `parse_long_options`
    and `getopt_internal`). */
module GetoptSpec {
  import opened Wrappers

  datatype ArgKind = NoArgument | RequiredArgument | OptionalArgument

  datatype LongOpt = LongOpt(name: string, hasArg: ArgKind, hasFlag: bool, val: int)

  /** `options` is the short option string without its mode prefix. */
  datatype Config = Config(options: string, long: seq<LongOpt>, longOnly: bool)

  /** What to do with an argument that is not an option. */
  datatype Mode = PermuteArgv | StopAtFirst | InOrder

  const INORDER: int := 1
  const BADCH: int := '?' as int

  /** One answer of getopt; `optopt` is `Some` when the answer sets it. */
  datatype Event = Event(code: int, optarg: Option<string>, optopt: Option<int>, longIndex: Option<nat>)

  /** An answer, the index of the next argument to look at and the part of it
      that is still unread (empty when a whole argument was finished). */
  datatype Outcome = Outcome(event: Event, next: nat, rest: string)

  datatype Parsed = Parsed(events: seq<Event>, opts: seq<string>, operands: seq<string>)

  /** -1 is getopt's end marker, so no long option may be given it as value. */
  ghost predicate ValuesOk(cfg: Config) {
    forall o <- cfg.long :: o.hasFlag || o.val != -1
  }

  function BadArg(cfg: Config): int {
    if cfg.options != "" && cfg.options[0] == ':' then ':' as int else '?' as int
  }

  /** Index of the first `c` in `s`, or |s|. */
  function IndexOf(s: string, c: char): (k: nat)
    ensures k <= |s|
    ensures k < |s| ==> s[k] == c
    ensures (forall i :: 0 <= i < k ==> s[i] != c) && (k < |s| <==> c in s)
  {
    if s == "" || s[0] == c then 0 else
      var rest := IndexOf(s[1..], c);
      assert forall i :: 1 <= i <= rest ==> s[i] == s[1..][i - 1];
      rest + 1
  }

  // ---------------------------------------------------------------- long options

  const NO_MATCH: int := -1
  const AMBIGUOUS: int := -2

  /** `key` may stand for option `o`: a prefix, unless a one-letter key could also
      be a short option. */
  predicate Abbreviates(key: string, o: LongOpt, shortToo: bool) {
    key <= o.name && |key| < |o.name| && !(shortToo && |key| == 1)
  }

  /** The name is the key and something behind it. */
  lemma AbbreviationIs(key: string, o: LongOpt, shortToo: bool)
    ensures Abbreviates(key, o, shortToo) <==> !(shortToo && |key| == 1) && exists rest :: rest != "" && o.name == key + rest
  {
    if Abbreviates(key, o, shortToo) {
      assert o.name == key + o.name[|key|..];
    }
  }

  predicate Names(key: string, o: LongOpt) {
    key == o.name
  }

  /** The table search from entry `k` on, `best` being the abbreviation found so far. */
  function Lookup(key: string, table: seq<LongOpt>, k: nat, best: int, shortToo: bool): (m: int)
    requires k <= |table| && (best == NO_MATCH || 0 <= best < k)
    ensures m == NO_MATCH || m == AMBIGUOUS || 0 <= m < |table|
    decreases |table| - k
  {
    if k == |table| then best
    else if Names(key, table[k]) then k
    else if !Abbreviates(key, table[k], shortToo) then Lookup(key, table, k + 1, best, shortToo)
    else if best == NO_MATCH then Lookup(key, table, k + 1, k, shortToo)
    else AMBIGUOUS
  }

  /** How many entries in table[lo..hi] `key` abbreviates. */
  function Abbreviations(key: string, table: seq<LongOpt>, lo: nat, hi: nat, shortToo: bool): nat
    requires lo <= hi <= |table|
    decreases hi - lo
  {
    if lo == hi then 0
    else (if Abbreviates(key, table[lo], shortToo) then 1 else 0) + Abbreviations(key, table, lo + 1, hi, shortToo)
  }

  /** Entry `e` is the first that `key` names exactly. */
  ghost predicate FirstExact(key: string, table: seq<LongOpt>, e: nat) {
    e < |table| && Names(key, table[e]) && forall j :: 0 <= j < e ==> !Names(key, table[j])
  }

  /** An exact name wins the search exactly when at most one entry before it is
      an abbreviation match; otherwise the search already gave up as ambiguous. */
  lemma {:induction false} ExactWinsIff(key: string, table: seq<LongOpt>, k: nat, best: int, e: nat, shortToo: bool)
    requires FirstExact(key, table, e) && k <= e && (best == NO_MATCH || 0 <= best < k)
    ensures Lookup(key, table, k, best, shortToo) ==
              if Abbreviations(key, table, k, e, shortToo) + (if best == NO_MATCH then 0 else 1) <= 1 then e else AMBIGUOUS
    decreases e - k
  {
    if k < e {
      if Abbreviates(key, table[k], shortToo) {
        if best == NO_MATCH {
          ExactWinsIff(key, table, k + 1, k, e, shortToo);
        }
      } else {
        ExactWinsIff(key, table, k + 1, best, e, shortToo);
      }
    }
  }

  /** Without an exact name the search answers the only abbreviation match, and
      "ambiguous" exactly when there is more than one. */
  lemma {:induction false} AbbreviationOnlyIfUnique(key: string, table: seq<LongOpt>, k: nat, best: int, shortToo: bool)
    requires k <= |table| && (best == NO_MATCH || 0 <= best < k)
    requires forall j :: k <= j < |table| ==> !Names(key, table[j])
    ensures var n := Abbreviations(key, table, k, |table|, shortToo) + (if best == NO_MATCH then 0 else 1);
            var m := Lookup(key, table, k, best, shortToo);
            && (m == NO_MATCH <==> n == 0)
            && (m == AMBIGUOUS <==> n >= 2)
            && (n == 1 && best == NO_MATCH ==> k <= m && Abbreviates(key, table[m], shortToo))
            && (n == 1 && best != NO_MATCH ==> m == best)
    decreases |table| - k
  {
    if k < |table| {
      if Abbreviates(key, table[k], shortToo) {
        if best == NO_MATCH {
          AbbreviationOnlyIfUnique(key, table, k + 1, k, shortToo);
        }
      } else {
        AbbreviationOnlyIfUnique(key, table, k + 1, best, shortToo);
      }
    }
  }

  /** An exact name does not always win: two longer names listed before it make it ambiguous. */
  lemma ExactCanLose()
    ensures var o := (n: string) => LongOpt(n, NoArgument, false, 0);
            Lookup("ab", [o("abc"), o("abd"), o("ab")], 0, NO_MATCH, false) == AMBIGUOUS
  {
    var o := (n: string) => LongOpt(n, NoArgument, false, 0);
    var t := [o("abc"), o("abd"), o("ab")];
    assert Abbreviates("ab", t[0], false) && Abbreviates("ab", t[1], false);
    assert Lookup("ab", t, 1, 0, false) == AMBIGUOUS;
  }

  function OptOptOf(o: LongOpt): int {
    if o.hasFlag then 0 else o.val
  }

  /** `s` is the text after the dashes of the argument before index `next`. */
  function ReadLong(cfg: Config, args: seq<string>, next: nat, s: string, shortToo: bool): (o: Outcome)
    requires 0 < next <= |args|
    ensures next - 1 <= o.next <= |args|
    ensures o.rest == ""
    ensures o.event.code == -1 && ValuesOk(cfg) ==> shortToo && o == Outcome(Event(-1, None, None, None), next - 1, "")
    ensures !(o.event.code == -1 && shortToo) ==> o.next >= next
  {
    var e := IndexOf(s, '=');
    var m := Lookup(s[..e], cfg.long, 0, NO_MATCH, shortToo);
    if m == AMBIGUOUS then Outcome(Event(BADCH, None, Some(0), None), next, "")
    else if m == NO_MATCH then
      if shortToo then Outcome(Event(-1, None, None, None), next - 1, "")
      else Outcome(Event(BADCH, None, Some(0), None), next, "")
    else
      var l := cfg.long[m];
      var code := if l.hasFlag then 0 else l.val;
      if e < |s| then
        if l.hasArg == NoArgument then Outcome(Event(BadArg(cfg), None, Some(OptOptOf(l)), None), next, "")
        else Outcome(Event(code, Some(s[e + 1..]), None, Some(m)), next, "")
      else if l.hasArg == RequiredArgument then
        if next == |args| then Outcome(Event(BadArg(cfg), None, Some(OptOptOf(l)), None), next, "")
        else Outcome(Event(code, Some(args[next]), None, Some(m)), next + 1, "")
      else Outcome(Event(code, None, None, Some(m)), next, "")
  }

  // ---------------------------------------------------------------- short options

  /** Reads one letter of a cluster of short options, `s` being what is left of args[i]. */
  function ReadShort(cfg: Config, args: seq<string>, i: nat, s: string): (o: Outcome)
    requires i < |args| && s != ""
    ensures i <= o.next <= |args|
    ensures o.next > i ==> o.rest == ""
    ensures o.next == i && o.event.code != -1 ==> o.rest != "" && |o.rest| < |s|
  {
    var c, rest, p := s[0], s[1..], IndexOf(cfg.options, s[0]);
    var done := if rest == "" then i + 1 else i;
    var follows := (k: nat, d: char) => p + k < |cfg.options| && cfg.options[p + k] == d;
    if c == ':' || (c == '-' && rest != "") || p == |cfg.options| then
      if c == '-' && rest == "" then Outcome(Event(-1, None, None, None), i, "")
      else Outcome(Event(BADCH, None, Some(c as int), None), done, rest)
    else if c == 'W' && follows(1, ';') then
      if rest != "" then ReadLong(cfg, args, i + 1, rest, false)
      else if i + 1 == |args| then Outcome(Event(BadArg(cfg), None, Some(c as int), None), i + 1, "")
      else ReadLong(cfg, args, i + 2, args[i + 1], false)
    else if !follows(1, ':') then Outcome(Event(c as int, None, None, None), done, rest)
    else if rest != "" then Outcome(Event(c as int, Some(rest), None, None), i + 1, "")
    else if follows(2, ':') then Outcome(Event(c as int, None, None, None), i + 1, "")
    else if i + 1 == |args| then Outcome(Event(BadArg(cfg), None, Some(c as int), None), i + 1, "")
    else Outcome(Event(c as int, Some(args[i + 1]), None, None), i + 2, "")
  }

  // ---------------------------------------------------------------- one option

  predicate IsOperand(cfg: Config, a: string) {
    a == "" || a[0] != '-' || (|a| == 1 && '-' !in cfg.options)
  }

  /** Reads the next option from `s`, the unread part of args[i]; `whole` says that
      nothing of args[i] has been skipped, which only happens for the argument "-". */
  function ReadOption(cfg: Config, args: seq<string>, i: nat, s: string, whole: bool): (o: Outcome)
    requires i < |args| && s != ""
    ensures i <= o.next <= |args|
    ensures o.next > i ==> o.rest == ""
    ensures o.next == i && o.event.code != -1 ==> o.rest != "" && |o.rest| < |s|
  {
    if !whole && (s[0] == '-' || cfg.longOnly) then
      var shortToo := s[0] != '-' && s[0] != ':' && s[0] in cfg.options;
      var long := ReadLong(cfg, args, i + 1, if s[0] == '-' then s[1..] else s, shortToo);
      if long.event.code != -1 then long else ReadShort(cfg, args, i, s)
    else ReadShort(cfg, args, i, s)
  }

  lemma ReadLongLocal(cfg: Config, a: seq<string>, b: seq<string>, next: nat, s: string, shortToo: bool)
    requires 0 < next <= |a| == |b| && a[next..] == b[next..]
    ensures ReadLong(cfg, a, next, s, shortToo) == ReadLong(cfg, b, next, s, shortToo)
  {
    hide Lookup, IndexOf, BadArg;
    if next < |a| {
      assert a[next] == a[next..][0] && b[next] == b[next..][0];
    }
  }

  lemma ReadShortLocal(cfg: Config, a: seq<string>, b: seq<string>, i: nat, s: string)
    requires i < |a| == |b| && s != "" && a[i..] == b[i..]
    ensures ReadShort(cfg, a, i, s) == ReadShort(cfg, b, i, s)
  {
    hide ReadLong, IndexOf, BadArg;
    assert a[i + 1..] == a[i..][1..] && b[i + 1..] == b[i..][1..];
    ReadLongLocal(cfg, a, b, i + 1, s[1..], false);
    if i + 1 < |a| {
      assert a[i + 1] == a[i..][1] && b[i + 1] == b[i..][1];
      assert a[i + 2..] == a[i..][2..] && b[i + 2..] == b[i..][2..];
      ReadLongLocal(cfg, a, b, i + 2, a[i + 1], false);
    }
  }

  /** Reading an option in a vector only looks at the arguments from index i on. */
  lemma ReadOptionLocal(cfg: Config, a: seq<string>, b: seq<string>, i: nat, s: string, whole: bool)
    requires i < |a| == |b| && s != "" && a[i..] == b[i..]
    ensures ReadOption(cfg, a, i, s, whole) == ReadOption(cfg, b, i, s, whole)
  {
    hide ReadLong, ReadShort;
    assert a[i + 1..] == a[i..][1..] && b[i + 1..] == b[i..][1..];
    ReadShortLocal(cfg, a, b, i, s);
    var shortToo := s[0] != '-' && s[0] != ':' && s[0] in cfg.options;
    ReadLongLocal(cfg, a, b, i + 1, if s[0] == '-' then s[1..] else s, shortToo);
  }

  // ---------------------------------------------------------------- a whole run

  /** The unread text of the option argument `a`, and whether that is all of it. */
  function Unread(a: string): string
    requires a != ""
  {
    if |a| == 1 then a else a[1..]
  }

  /** The parse from argument `i` on; `s` is the unread rest of args[i] when the
      reader stands inside a cluster, and empty otherwise. */
  function Parse(cfg: Config, mode: Mode, args: seq<string>, i: nat, s: string): Parsed
    requires i <= |args| && (s != "" ==> i < |args|)
    decreases |args| - i, if s != "" then |s| else if i < |args| then |args[i]| + 1 else 0
  {
    if s != "" then
      ParseOption(cfg, mode, args, i, s, false)
    else if i == |args| then
      Parsed([], [], [])
    else
      var a := args[i];
      if IsOperand(cfg, a) then
        match mode
        case StopAtFirst => Parsed([], [], args[i..])
        case InOrder =>
          var p := Parse(cfg, mode, args, i + 1, "");
          Parsed([Event(INORDER, Some(a), None, None)] + p.events, [a] + p.opts, p.operands)
        case PermuteArgv =>
          var p := Parse(cfg, mode, args, i + 1, "");
          Parsed(p.events, p.opts, [a] + p.operands)
      else if a == "--" then
        Parsed([], [a], args[i + 1..])
      else
        ParseOption(cfg, mode, args, i, Unread(a), |a| == 1)
  }

  function ParseOption(cfg: Config, mode: Mode, args: seq<string>, i: nat, s: string, whole: bool): Parsed
    requires i < |args| && s != ""
    decreases |args| - i, |s|, 0
  {
    var o := ReadOption(cfg, args, i, s, whole);
    if o.event.code == -1 then Parsed([], [], args[i..])
    else
      var p := Parse(cfg, mode, args, o.next, o.rest);
      Parsed([o.event] + p.events, args[i..o.next] + p.opts, p.operands)
  }

  // ---------------------------------------------------------------- the partition

  function Keep(s: seq<string>, mask: seq<bool>, want: bool): seq<string>
    requires |s| == |mask|
  {
    if s == [] then [] else (if mask[0] == want then [s[0]] else []) + Keep(s[1..], mask[1..], want)
  }

  lemma {:induction false} KeepConcat(a: seq<string>, m: seq<bool>, b: seq<string>, n: seq<bool>, want: bool)
    requires |a| == |m| && |b| == |n|
    ensures Keep(a + b, m + n, want) == Keep(a, m, want) + Keep(b, n, want)
  {
    if a == [] {
      assert a + b == b && m + n == n;
    } else {
      assert (a + b)[1..] == a[1..] + b && (m + n)[1..] == m[1..] + n;
      KeepConcat(a[1..], m[1..], b, n, want);
    }
  }

  lemma {:induction false} KeepAll(s: seq<string>, role: bool, want: bool)
    ensures Keep(s, seq(|s|, _ => role), want) == if role == want then s else []
  {
    if s != [] {
      assert seq(|s|, _ => role)[1..] == seq(|s| - 1, _ => role);
      KeepAll(s[1..], role, want);
    }
  }

  /** Each argument's role: `true` for options and the arguments they take. */
  ghost predicate Splits(s: seq<string>, mask: seq<bool>, opts: seq<string>, operands: seq<string>) {
    |mask| == |s| && opts == Keep(s, mask, true) && operands == Keep(s, mask, false)
  }

  lemma PrependRole(a: seq<string>, role: bool, s: seq<string>, mask: seq<bool>, opts: seq<string>, operands: seq<string>)
    requires Splits(s, mask, opts, operands)
    ensures Splits(a + s, seq(|a|, _ => role) + mask, if role then a + opts else opts, if role then operands else a + operands)
  {
    KeepAll(a, role, true);
    KeepAll(a, role, false);
    KeepConcat(a, seq(|a|, _ => role), s, mask, true);
    KeepConcat(a, seq(|a|, _ => role), s, mask, false);
  }

  /** The parse is a stable partition: one role per argument, and the options
      and the operands each keep the order they were given in. */
  lemma {:induction false} StablePartition(cfg: Config, mode: Mode, args: seq<string>, i: nat, s: string) returns (mask: seq<bool>)
    requires i <= |args| && (s != "" ==> i < |args|)
    ensures Splits(args[i..], mask, Parse(cfg, mode, args, i, s).opts, Parse(cfg, mode, args, i, s).operands)
    decreases |args| - i, if s != "" then |s| else if i < |args| then |args[i]| + 1 else 0
  {
    hide ReadOption, Splits;
    if s != "" {
      mask := PartitionOption(cfg, mode, args, i, s, false);
    } else if i == |args| {
      mask := AllOperands([]);
    } else {
      var a := args[i];
      assert args[i..] == [a] + args[i + 1..];
      if IsOperand(cfg, a) {
        match mode
        case StopAtFirst => mask := AllOperands(args[i..]);
        case InOrder =>
          var m := StablePartition(cfg, mode, args, i + 1, "");
          PrependRole([a], true, args[i + 1..], m, Parse(cfg, mode, args, i + 1, "").opts, Parse(cfg, mode, args, i + 1, "").operands);
          mask := seq(|[a]|, _ => true) + m;
        case PermuteArgv =>
          var m := StablePartition(cfg, mode, args, i + 1, "");
          PrependRole([a], false, args[i + 1..], m, Parse(cfg, mode, args, i + 1, "").opts, Parse(cfg, mode, args, i + 1, "").operands);
          mask := seq(|[a]|, _ => false) + m;
      } else if a == "--" {
        var m := AllOperands(args[i + 1..]);
        PrependRole([a], true, args[i + 1..], m, [], args[i + 1..]);
        mask := seq(|[a]|, _ => true) + m;
        assert [a] + [] == [a];
      } else {
        mask := PartitionOption(cfg, mode, args, i, Unread(a), |a| == 1);
      }
    }
  }

  lemma AllOperands(s: seq<string>) returns (mask: seq<bool>)
    ensures Splits(s, mask, [], s)
  {
    KeepAll(s, false, true);
    KeepAll(s, false, false);
    mask := seq(|s|, _ => false);
  }

  lemma {:induction false} PartitionOption(cfg: Config, mode: Mode, args: seq<string>, i: nat, s: string, whole: bool) returns (mask: seq<bool>)
    requires i < |args| && s != ""
    ensures var p := ParseOption(cfg, mode, args, i, s, whole); Splits(args[i..], mask, p.opts, p.operands)
    decreases |args| - i, |s|, 0
  {
    hide ReadOption, Splits;
    var o := ReadOption(cfg, args, i, s, whole);
    if o.event.code == -1 {
      mask := AllOperands(args[i..]);
    } else {
      var m := StablePartition(cfg, mode, args, o.next, o.rest);
      var p := Parse(cfg, mode, args, o.next, o.rest);
      PrependRole(args[i..o.next], true, args[o.next..], m, p.opts, p.operands);
      assert args[i..] == args[i..o.next] + args[o.next..];
      mask := seq(|args[i..o.next]|, _ => true) + m;
    }
  }
}
