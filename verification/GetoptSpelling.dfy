/** Options as a user writes them, and that reading gives them back: arguments are
    spelled from a list of options, values and operands, errors included, and the
    parse of the spelling is that list (lib/argtable/argtable3.c, `getopt_internal`). */
module GetoptSpelling {
  import opened Wrappers
  import opened GetoptSpec

  // ---------------------------------------------------------------- words

  /** The value of a long option: none, behind "=", in the next argument, or missing
      although one is required. */
  datatype Given = NoValue | Equals(value: string) | NextArg(value: string) | Missing

  /** A long option by the name or abbreviation `key` for entry m of the table, or a text
      that stands for no entry, or for several. */
  datatype Long = Long(key: string, m: nat, given: Given) | BadLong(text: string)

  /** The end of a cluster of short options: one without a value, with a value in the
      same argument or in the next, with its optional value left out, with its value
      missing, or "W" with a long option in the same argument, in the next, or missing. */
  datatype Final =
    | Alone(c: char)
    | Attached(c: char, value: string)
    | Apart(c: char, value: string)
    | LeftOut(c: char)
    | Lacking(c: char)
    | WLong(attached: bool, long: Long)
    | WLacking

  /** A cluster of letters and its end, a long option behind two dashes or one, or an operand. */
  datatype Word = Cluster(letters: string, final: Final) | Dashed(dashes: nat, long: Long) | Operand(arg: string)

  function LongText(l: Long): string {
    match l
    case Long(key, _, given) => if given.Equals? then key + "=" + given.value else key
    case BadLong(text) => text
  }

  function LongNext(l: Long): seq<string> {
    if l.Long? && l.given.NextArg? then [l.given.value] else []
  }

  function FinalText(f: Final): (s: string)
    ensures s != ""
  {
    match f
    case Alone(c) => [c]
    case Attached(c, value) => [c] + value
    case Apart(c, _) => [c]
    case LeftOut(c) => [c]
    case Lacking(c) => [c]
    case WLong(attached, long) => if attached then "W" + LongText(long) else "W"
    case WLacking => "W"
  }

  function FinalNext(f: Final): seq<string> {
    match f
    case Apart(_, value) => [value]
    case WLong(attached, long) => (if attached then [] else [LongText(long)]) + LongNext(long)
    case _ => []
  }

  function Dashes(n: nat): string {
    if n == 1 then "-" else "--"
  }

  /** The arguments of a word. */
  function Text(w: Word): (args: seq<string>)
    ensures args != []
  {
    match w
    case Cluster(letters, final) => ["-" + letters + FinalText(final)] + FinalNext(final)
    case Dashed(dashes, long) => [Dashes(dashes) + LongText(long)] + LongNext(long)
    case Operand(arg) => [arg]
  }

  // ---------------------------------------------------------------- what a word means

  /** The answer for an argument missing or unwanted. */
  function Complaint(cfg: Config): int {
    if cfg.options != "" && cfg.options[0] == ':' then ':' as int else '?' as int
  }

  function LongEvent(cfg: Config, l: Long): Event
    requires l.Long? ==> l.m < |cfg.long|
  {
    match l
    case BadLong(_) => Event('?' as int, None, Some(0), None)
    case Long(_, m, given) =>
      var code := if cfg.long[m].hasFlag then 0 else cfg.long[m].val;
      match given
      case NoValue => Event(code, None, None, Some(m))
      case NextArg(value) => Event(code, Some(value), None, Some(m))
      case Missing => Event(Complaint(cfg), None, Some(code), None)
      case Equals(value) =>
        if cfg.long[m].hasArg == NoArgument then Event(Complaint(cfg), None, Some(code), None)
        else Event(code, Some(value), None, Some(m))
  }

  function LetterEvent(cfg: Config, c: char): Event {
    if c == ':' || c !in cfg.options then Event('?' as int, None, Some(c as int), None)
    else Event(c as int, None, None, None)
  }

  function FinalEvent(cfg: Config, f: Final): Event
    requires f.WLong? && f.long.Long? ==> f.long.m < |cfg.long|
  {
    match f
    case Alone(c) => LetterEvent(cfg, c)
    case Attached(c, value) => Event(c as int, Some(value), None, None)
    case Apart(c, value) => Event(c as int, Some(value), None, None)
    case LeftOut(c) => Event(c as int, None, None, None)
    case Lacking(c) => Event(Complaint(cfg), None, Some(c as int), None)
    case WLong(_, long) => LongEvent(cfg, long)
    case WLacking => Event(Complaint(cfg), None, Some('W' as int), None)
  }

  function LetterEvents(cfg: Config, letters: string): seq<Event> {
    if letters == "" then [] else [LetterEvent(cfg, letters[0])] + LetterEvents(cfg, letters[1..])
  }

  // ---------------------------------------------------------------- which words there are

  /** The letter first occurs in the option string at p, with `mark` behind it. */
  predicate Marked(cfg: Config, c: char, p: nat, k: nat, mark: char) {
    p + k < |cfg.options| && cfg.options[p + k] == mark
  }

  ghost predicate FirstAt(cfg: Config, c: char, p: nat) {
    p < |cfg.options| && cfg.options[p] == c && forall j :: 0 <= j < p ==> cfg.options[j] != c
  }

  /** An option letter that takes no value, or an unknown one. */
  ghost predicate LetterOk(cfg: Config, c: char) {
    && c != '-'
    && (c != ':' && c in cfg.options ==>
          exists p :: FirstAt(cfg, c, p) && !Marked(cfg, c, p, 1, ':') && !(c == 'W' && Marked(cfg, c, p, 1, ';')))
  }

  ghost predicate Takes(cfg: Config, c: char, optional: bool) {
    && c != '-' && c != ':'
    && exists p :: FirstAt(cfg, c, p) && Marked(cfg, c, p, 1, ':') && (Marked(cfg, c, p, 2, ':') <==> optional)
  }

  ghost predicate TakesLong(cfg: Config) {
    exists p :: FirstAt(cfg, 'W', p) && Marked(cfg, 'W', p, 1, ';')
  }

  function KeyOf(text: string): string {
    text[..IndexOf(text, '=')]
  }

  /** The key finds entry m: by its name, if no two entries before might be meant too, or
      as an abbreviation, if there is no other entry that might be meant. */
  ghost predicate Finds(cfg: Config, key: string, m: nat, shortToo: bool) {
    && m < |cfg.long|
    && ((FirstExact(key, cfg.long, m) &&
         forall i, j :: 0 <= i < j < m ==> !(Abbreviates(key, cfg.long[i], shortToo) && Abbreviates(key, cfg.long[j], shortToo)))
        || (Abbreviates(key, cfg.long[m], shortToo) &&
            forall j :: 0 <= j < |cfg.long| ==>
              !Names(key, cfg.long[j]) && (j != m ==> !Abbreviates(key, cfg.long[j], shortToo))))
  }

  ghost predicate FindsNone(cfg: Config, key: string, shortToo: bool) {
    forall j :: 0 <= j < |cfg.long| ==> !Names(key, cfg.long[j]) && !Abbreviates(key, cfg.long[j], shortToo)
  }

  ghost predicate FindsMany(cfg: Config, key: string, shortToo: bool) {
    && (forall j :: 0 <= j < |cfg.long| ==> !Names(key, cfg.long[j]))
    && exists i, j :: 0 <= i < j < |cfg.long| && Abbreviates(key, cfg.long[i], shortToo) && Abbreviates(key, cfg.long[j], shortToo)
  }

  ghost predicate LongOk(cfg: Config, l: Long, shortToo: bool, last: bool) {
    match l
    case BadLong(text) => FindsMany(cfg, KeyOf(text), shortToo) || (FindsNone(cfg, KeyOf(text), shortToo) && !shortToo)
    case Long(key, m, given) =>
      && '=' !in key && Finds(cfg, key, m, shortToo)
      && match given
         case NoValue => cfg.long[m].hasArg != RequiredArgument
         case Equals(_) => true
         case NextArg(_) => cfg.long[m].hasArg == RequiredArgument
         case Missing => cfg.long[m].hasArg == RequiredArgument && last
  }

  /** With one dash for long options too, what begins with an option letter is read as
      short options when no long option fits. */
  ghost predicate NotLong(cfg: Config, s: string)
    requires s != ""
  {
    cfg.longOnly ==> s[0] != ':' && s[0] in cfg.options && FindsNone(cfg, KeyOf(s), true)
  }

  ghost predicate FinalOk(cfg: Config, f: Final, last: bool) {
    match f
    case Alone(c) => LetterOk(cfg, c)
    case Attached(c, value) => (Takes(cfg, c, false) || Takes(cfg, c, true)) && value != ""
    case Apart(c, _) => Takes(cfg, c, false)
    case LeftOut(c) => Takes(cfg, c, true)
    case Lacking(c) => Takes(cfg, c, false) && last
    case WLong(attached, long) => TakesLong(cfg) && LongOk(cfg, long, false, last) && (attached ==> LongText(long) != "")
    case WLacking => TakesLong(cfg) && last
  }

  /** Whether the word may be written; `last` says that nothing comes behind it. */
  ghost predicate WordOk(cfg: Config, mode: Mode, w: Word, last: bool) {
    match w
    case Cluster(letters, final) =>
      && (forall k :: 0 <= k < |letters| ==> LetterOk(cfg, letters[k]) && NotLong(cfg, letters[k..] + FinalText(final)))
      && FinalOk(cfg, final, last) && NotLong(cfg, FinalText(final))
    case Dashed(dashes, long) =>
      var text := LongText(long);
      && text != "" && (dashes == 1 || dashes == 2)
      && (dashes == 1 ==> cfg.longOnly && text[0] != '-')
      && LongOk(cfg, long, dashes == 1 && text[0] != ':' && text[0] in cfg.options, last)
    case Operand(arg) => mode != StopAtFirst && (arg == "" || arg[0] != '-' || (arg == "-" && '-' !in cfg.options))
  }

  function WordEvents(cfg: Config, mode: Mode, w: Word): seq<Event>
    requires w.Dashed? && w.long.Long? ==> w.long.m < |cfg.long|
    requires w.Cluster? && w.final.WLong? && w.final.long.Long? ==> w.final.long.m < |cfg.long|
  {
    match w
    case Cluster(letters, final) => LetterEvents(cfg, letters) + [FinalEvent(cfg, final)]
    case Dashed(_, long) => [LongEvent(cfg, long)]
    case Operand(arg) => if mode == InOrder then [Event(1, Some(arg), None, None)] else []
  }

  lemma EntriesOk(cfg: Config, mode: Mode, w: Word, last: bool)
    requires WordOk(cfg, mode, w, last)
    ensures w.Dashed? && w.long.Long? ==> w.long.m < |cfg.long|
    ensures w.Cluster? && w.final.WLong? && w.final.long.Long? ==> w.final.long.m < |cfg.long|
  {
  }

  // ---------------------------------------------------------------- the search

  /** At most one entry of a stretch is abbreviated if and only if no two are. */
  lemma {:induction false} FewAbbreviations(key: string, table: seq<LongOpt>, lo: nat, hi: nat, shortToo: bool)
    requires lo <= hi <= |table|
    ensures Abbreviations(key, table, lo, hi, shortToo) <= 1 <==>
              forall i, j :: lo <= i < j < hi ==> !(Abbreviates(key, table[i], shortToo) && Abbreviates(key, table[j], shortToo))
    ensures Abbreviations(key, table, lo, hi, shortToo) == 0 <==> forall j :: lo <= j < hi ==> !Abbreviates(key, table[j], shortToo)
    decreases hi - lo
  {
    hide Abbreviates;
    if lo < hi {
      FewAbbreviations(key, table, lo + 1, hi, shortToo);
    }
  }

  lemma SearchFinds(cfg: Config, key: string, m: nat, shortToo: bool)
    requires Finds(cfg, key, m, shortToo)
    ensures Lookup(key, cfg.long, 0, NO_MATCH, shortToo) == m
  {
    hide Abbreviates, Names, Lookup;
    if FirstExact(key, cfg.long, m) {
      FewAbbreviations(key, cfg.long, 0, m, shortToo);
      ExactWinsIff(key, cfg.long, 0, NO_MATCH, m, shortToo);
    } else {
      FewAbbreviations(key, cfg.long, 0, |cfg.long|, shortToo);
      AbbreviationOnlyIfUnique(key, cfg.long, 0, NO_MATCH, shortToo);
    }
  }

  lemma SearchFindsNot(cfg: Config, key: string, shortToo: bool)
    ensures FindsNone(cfg, key, shortToo) ==> Lookup(key, cfg.long, 0, NO_MATCH, shortToo) == NO_MATCH
    ensures FindsMany(cfg, key, shortToo) ==> Lookup(key, cfg.long, 0, NO_MATCH, shortToo) == AMBIGUOUS
  {
    hide Abbreviates, Names, Lookup;
    if FindsNone(cfg, key, shortToo) || FindsMany(cfg, key, shortToo) {
      FewAbbreviations(key, cfg.long, 0, |cfg.long|, shortToo);
      AbbreviationOnlyIfUnique(key, cfg.long, 0, NO_MATCH, shortToo);
    }
  }

  // ---------------------------------------------------------------- reading one long option

  /** The arguments stand in the vector from `next` on, at its end if they are the last. */
  ghost predicate Stands(args: seq<string>, next: nat, more: seq<string>, last: bool) {
    next + |more| <= |args| && args[next..next + |more|] == more && (last ==> next + |more| == |args|)
  }

  lemma KeyRead(key: string, value: string)
    requires '=' !in key
    ensures IndexOf(key, '=') == |key| && IndexOf(key + "=" + value, '=') == |key|
    ensures (key + "=" + value)[..|key|] == key && (key + "=" + value)[|key| + 1..] == value && key[..|key|] == key
  {
    hide IndexOf;
    var s := key + "=" + value;
    assert s[|key|] == '=';
    assert forall j :: 0 <= j < |key| ==> s[j] == key[j];
  }

  lemma LongRead(cfg: Config, args: seq<string>, next: nat, l: Long, shortToo: bool, last: bool)
    requires LongOk(cfg, l, shortToo, last) && 0 < next && Stands(args, next, LongNext(l), last)
    ensures ReadLong(cfg, args, next, LongText(l), shortToo) == Outcome(LongEvent(cfg, l), next + |LongNext(l)|, "")
  {
    hide Finds, FindsNone, FindsMany, IndexOf, GetoptSpec.Lookup;
    match l
    case BadLong(text) => SearchFindsNot(cfg, KeyOf(text), shortToo);
    case Long(key, m, given) =>
      SearchFinds(cfg, key, m, shortToo);
      KeyRead(key, if given.Equals? then given.value else "");
      FindsEntry(cfg, key, m, shortToo);
      if given.NextArg? {
        assert args[next..next + 1][0] == args[next];
      }
  }

  lemma FindsEntry(cfg: Config, key: string, m: nat, shortToo: bool)
    requires Finds(cfg, key, m, shortToo)
    ensures m < |cfg.long|
  {
  }

  // ---------------------------------------------------------------- reading short options

  lemma LetterRead(cfg: Config, args: seq<string>, i: nat, c: char, rest: string)
    requires i < |args| && LetterOk(cfg, c)
    ensures ReadShort(cfg, args, i, [c] + rest) == Outcome(LetterEvent(cfg, c), if rest == "" then i + 1 else i, rest)
  {
    hide IndexOf, ReadLong;
    var s := [c] + rest;
    assert s[1..] == rest && s[0] == c;
    if c != ':' && c in cfg.options {
      var p :| FirstAt(cfg, c, p) && !Marked(cfg, c, p, 1, ':') && !(c == 'W' && Marked(cfg, c, p, 1, ';'));
      FirstIsIndex(cfg, c, p);
    }
  }

  lemma FirstIsIndex(cfg: Config, c: char, p: nat)
    requires FirstAt(cfg, c, p)
    ensures IndexOf(cfg.options, c) == p
  {
    hide IndexOf;
  }

  lemma TakesIndex(cfg: Config, c: char, optional: bool)
    requires Takes(cfg, c, optional)
    ensures var p := IndexOf(cfg.options, c);
            p < |cfg.options| && Marked(cfg, c, p, 1, ':') && (Marked(cfg, c, p, 2, ':') <==> optional)
  {
    hide IndexOf;
    var p :| FirstAt(cfg, c, p) && Marked(cfg, c, p, 1, ':') && (Marked(cfg, c, p, 2, ':') <==> optional);
    FirstIsIndex(cfg, c, p);
  }

  lemma TakesLongIndex(cfg: Config)
    requires TakesLong(cfg)
    ensures var p := IndexOf(cfg.options, 'W'); p < |cfg.options| && Marked(cfg, 'W', p, 1, ';')
  {
    hide IndexOf;
    var p :| FirstAt(cfg, 'W', p) && Marked(cfg, 'W', p, 1, ';');
    FirstIsIndex(cfg, 'W', p);
  }

  lemma ValueRead(cfg: Config, args: seq<string>, i: nat, f: Final, last: bool)
    requires FinalOk(cfg, f, last) && i < |args| && Stands(args, i + 1, FinalNext(f), last)
    requires f.Attached? || f.Apart? || f.LeftOut? || f.Lacking?
    ensures ReadShort(cfg, args, i, FinalText(f)) == Outcome(FinalEvent(cfg, f), i + 1 + |FinalNext(f)|, "")
  {
    hide IndexOf, ReadLong, Takes;
    assert FinalText(f)[0] == f.c && FinalText(f)[1..] == if f.Attached? then f.value else "";
    TakesAny(cfg, f.c);
    if f.Apart? {
      assert args[i + 1..i + 1 + 1][0] == args[i + 1];
    }
    if Takes(cfg, f.c, true) {
      TakesIndex(cfg, f.c, true);
    }
    if Takes(cfg, f.c, false) {
      TakesIndex(cfg, f.c, false);
    }
  }

  lemma TakesAny(cfg: Config, c: char)
    ensures Takes(cfg, c, false) || Takes(cfg, c, true) ==> c != '-' && c != ':'
    ensures Takes(cfg, c, false) || Takes(cfg, c, true) ==> !(c == 'W' && Marked(cfg, c, IndexOf(cfg.options, c), 1, ';'))
  {
    hide IndexOf;
    if Takes(cfg, c, false) {
      TakesIndex(cfg, c, false);
    }
    if Takes(cfg, c, true) {
      TakesIndex(cfg, c, true);
    }
  }

  lemma WIsRead(cfg: Config, args: seq<string>, i: nat, text: string)
    requires TakesLong(cfg) && i < |args|
    ensures ReadShort(cfg, args, i, "W" + text) ==
              if text != "" then ReadLong(cfg, args, i + 1, text, false)
              else if i + 1 == |args| then Outcome(Event(Complaint(cfg), None, Some('W' as int), None), i + 1, "")
              else ReadLong(cfg, args, i + 2, args[i + 1], false)
  {
    hide IndexOf, ReadLong, TakesLong;
    TakesLongIndex(cfg);
    assert ("W" + text)[1..] == text && ("W" + text)[0] == 'W';
  }

  lemma WRead(cfg: Config, args: seq<string>, i: nat, f: Final, last: bool)
    requires FinalOk(cfg, f, last) && i < |args| && Stands(args, i + 1, FinalNext(f), last)
    requires f.WLong? || f.WLacking?
    ensures f.WLong? && f.long.Long? ==> f.long.m < |cfg.long|
    ensures ReadShort(cfg, args, i, FinalText(f)) == Outcome(FinalEvent(cfg, f), i + 1 + |FinalNext(f)|, "")
  {
    hide ReadShort, ReadLong, TakesLong, Finds, Stands, LongText, LongNext, LongEvent;
    StandsThere(args, i + 1, FinalNext(f), last);
    assert "W" + "" == "W";
    if f.WLacking? {
      WIsRead(cfg, args, i, "");
    } else {
      if f.long.Long? {
        FindsEntry(cfg, f.long.key, f.long.m, false);
      }
      var text, more := LongText(f.long), LongNext(f.long);
      WIsRead(cfg, args, i, if f.attached then text else "");
      if f.attached {
        assert FinalNext(f) == more;
        LongRead(cfg, args, i + 1, f.long, false, last);
      } else {
        StandsHead(args, i + 1, text, more, last);
        LongRead(cfg, args, i + 2, f.long, false, last);
      }
    }
  }

  lemma ShortIsRead(cfg: Config, args: seq<string>, i: nat, s: string)
    requires i < |args| && s != "" && s[0] != '-' && NotLong(cfg, s)
    ensures ReadOption(cfg, args, i, s, false) == ReadShort(cfg, args, i, s)
  {
    hide IndexOf, ReadShort, GetoptSpec.Lookup, FindsNone;
    if cfg.longOnly {
      SearchFindsNot(cfg, KeyOf(s), true);
    }
  }

  lemma FinalRead(cfg: Config, args: seq<string>, i: nat, f: Final, last: bool)
    requires ValuesOk(cfg) && FinalOk(cfg, f, last) && NotLong(cfg, FinalText(f)) && i < |args| && Stands(args, i + 1, FinalNext(f), last)
    ensures f.WLong? && f.long.Long? ==> f.long.m < |cfg.long|
    ensures ReadOption(cfg, args, i, FinalText(f), false) == Outcome(FinalEvent(cfg, f), i + 1 + |FinalNext(f)|, "")
    ensures FinalEvent(cfg, f).code != -1
  {
    hide ReadOption, ReadShort, NotLong, LetterOk;
    if f.Alone? {
      LetterRead(cfg, args, i, f.c, "");
      assert [f.c] + "" == [f.c];
    } else if f.WLong? || f.WLacking? {
      WRead(cfg, args, i, f, last);
    } else {
      ValueRead(cfg, args, i, f, last);
    }
    FinalBegins(cfg, f, last);
    ShortIsRead(cfg, args, i, FinalText(f));
  }

  lemma FinalBegins(cfg: Config, f: Final, last: bool)
    requires FinalOk(cfg, f, last)
    ensures FinalText(f)[0] != '-'
  {
    hide TakesLong, LongOk;
  }

  // ---------------------------------------------------------------- parsing one word

  function Join(events: seq<Event>, opts: seq<string>, operands: seq<string>, p: Parsed): Parsed {
    Parsed(events + p.events, opts + p.opts, operands + p.operands)
  }

  lemma OptionParsed(cfg: Config, mode: Mode, args: seq<string>, i: nat, s: string, o: Outcome)
    requires i < |args| && s != "" && ReadOption(cfg, args, i, s, false) == o && o.event.code != -1
    ensures o.next <= |args| && i <= o.next && (o.rest != "" ==> o.next < |args|)
    ensures Parse(cfg, mode, args, i, s) == Join([o.event], args[i..o.next], [], Parse(cfg, mode, args, o.next, o.rest))
  {
    hide ReadOption;
    assert Parse(cfg, mode, args, i, s) == ParseOption(cfg, mode, args, i, s, false);
  }

  lemma {:induction false} ClusterParsed(cfg: Config, mode: Mode, args: seq<string>, i: nat, letters: string, f: Final, last: bool)
    requires ValuesOk(cfg) && WordOk(cfg, mode, Cluster(letters, f), last) && i < |args| && Stands(args, i + 1, FinalNext(f), last)
    ensures f.WLong? && f.long.Long? ==> f.long.m < |cfg.long|
    ensures Parse(cfg, mode, args, i, letters + FinalText(f)) ==
              Join(LetterEvents(cfg, letters) + [FinalEvent(cfg, f)], args[i..i + 1 + |FinalNext(f)|], [],
                   Parse(cfg, mode, args, i + 1 + |FinalNext(f)|, ""))
    decreases |letters|
  {
    hide ReadOption, Parse, FinalText, FinalNext, FinalEvent, LetterOk, NotLong, FinalOk, ReadShort;
    FinalRead(cfg, args, i, f, last);
    if letters == "" {
      assert letters + FinalText(f) == FinalText(f);
      OptionParsed(cfg, mode, args, i, FinalText(f), Outcome(FinalEvent(cfg, f), i + 1 + |FinalNext(f)|, ""));
    } else {
      var rest := letters[1..] + FinalText(f);
      FewerLetters(cfg, mode, letters, f, last);
      assert letters + FinalText(f) == [letters[0]] + rest;
      FirstLetter(cfg, args, i, letters[0], rest);
      OptionParsed(cfg, mode, args, i, [letters[0]] + rest, Outcome(LetterEvent(cfg, letters[0]), i, rest));
      ClusterParsed(cfg, mode, args, i, letters[1..], f, last);
      assert LetterEvents(cfg, letters) == [LetterEvent(cfg, letters[0])] + LetterEvents(cfg, letters[1..]);
    }
  }

  lemma FirstLetter(cfg: Config, args: seq<string>, i: nat, c: char, rest: string)
    requires i < |args| && LetterOk(cfg, c) && rest != "" && NotLong(cfg, [c] + rest)
    ensures ReadOption(cfg, args, i, [c] + rest, false) == Outcome(LetterEvent(cfg, c), i, rest)
    ensures LetterEvent(cfg, c).code != -1
  {
    hide ReadOption, ReadShort, NotLong;
    LetterRead(cfg, args, i, c, rest);
    ShortIsRead(cfg, args, i, [c] + rest);
  }

  lemma FewerLetters(cfg: Config, mode: Mode, letters: string, f: Final, last: bool)
    requires letters != "" && WordOk(cfg, mode, Cluster(letters, f), last)
    ensures WordOk(cfg, mode, Cluster(letters[1..], f), last)
    ensures LetterOk(cfg, letters[0]) && NotLong(cfg, [letters[0]] + (letters[1..] + FinalText(f)))
  {
    hide FinalOk, LetterOk, NotLong, FinalText;
    assert letters[0..] + FinalText(f) == [letters[0]] + (letters[1..] + FinalText(f));
    forall k | 0 <= k < |letters[1..]| ensures LetterOk(cfg, letters[1..][k]) && NotLong(cfg, letters[1..][k..] + FinalText(f)) {
      assert letters[1..][k..] == letters[k + 1..] && letters[1..][k] == letters[k + 1];
    }
  }

  lemma LongParsed(cfg: Config, mode: Mode, args: seq<string>, i: nat, dashes: nat, l: Long, last: bool)
    requires ValuesOk(cfg) && WordOk(cfg, mode, Dashed(dashes, l), last) && Stands(args, i, Text(Dashed(dashes, l)), last)
    ensures l.Long? ==> l.m < |cfg.long|
    ensures Parse(cfg, mode, args, i, "") ==
              Join([LongEvent(cfg, l)], args[i..i + 1 + |LongNext(l)|], [], Parse(cfg, mode, args, i + 1 + |LongNext(l)|, ""))
  {
    hide ReadLong, ReadShort, LongOk, Parse, LongEvent;
    var text := LongText(l);
    EntriesOk(cfg, mode, Dashed(dashes, l), last);
    StandsHead(args, i, Dashes(dashes) + text, LongNext(l), last);
    var shortToo := dashes == 1 && text[0] != ':' && text[0] in cfg.options;
    LongRead(cfg, args, i + 1, l, shortToo, last);
    LongCode(cfg, l, shortToo, last);
    var s := if dashes == 1 then text else "-" + text;
    assert args[i][1..] == s && (dashes == 2 ==> s[1..] == text);
    OptionBegins(cfg, mode, args, i);
    assert ReadOption(cfg, args, i, s, false) == Outcome(LongEvent(cfg, l), i + 1 + |LongNext(l)|, "");
    OptionParsed(cfg, mode, args, i, s, Outcome(LongEvent(cfg, l), i + 1 + |LongNext(l)|, ""));
  }

  /** An argument that is an option is read behind its first dash. */
  lemma OptionBegins(cfg: Config, mode: Mode, args: seq<string>, i: nat)
    requires i < |args| && |args[i]| > 1 && args[i][0] == '-' && args[i] != "--"
    ensures Parse(cfg, mode, args, i, "") == Parse(cfg, mode, args, i, args[i][1..])
  {
    hide ReadOption;
  }

  lemma LongCode(cfg: Config, l: Long, shortToo: bool, last: bool)
    requires ValuesOk(cfg) && LongOk(cfg, l, shortToo, last) && (l.Long? ==> l.m < |cfg.long|)
    ensures LongEvent(cfg, l).code != -1
  {
    if l.Long? {
      assert cfg.long[l.m] in cfg.long;
    }
  }

  lemma StandsThere(args: seq<string>, i: nat, more: seq<string>, last: bool)
    requires Stands(args, i, more, last)
    ensures i + |more| <= |args| && args[i..i + |more|] == more && (last ==> i + |more| == |args|)
  {
  }

  lemma StandsHead(args: seq<string>, i: nat, a: string, more: seq<string>, last: bool)
    requires Stands(args, i, [a] + more, last)
    ensures i < |args| && args[i] == a && Stands(args, i + 1, more, last)
  {
    assert args[i] == args[i..i + 1 + |more|][0];
    assert args[i + 1..i + 1 + |more|] == args[i..i + 1 + |more|][1..];
  }

  // ---------------------------------------------------------------- a whole command line

  /** How the options end: with the vector, at "--", or at the first operand where it
      stops the options. */
  datatype End = Exhausted | AtDashes(operands: seq<string>) | AtOperand(operands: seq<string>)

  function EndText(end: End): seq<string> {
    match end
    case Exhausted => []
    case AtDashes(operands) => ["--"] + operands
    case AtOperand(operands) => operands
  }

  predicate EndOk(cfg: Config, mode: Mode, end: End) {
    end.AtOperand? ==>
      && mode == StopAtFirst && end.operands != []
      && var a := end.operands[0]; a == "" || a[0] != '-' || (a == "-" && '-' !in cfg.options)
  }

  ghost predicate WordsOk(cfg: Config, mode: Mode, ws: seq<Word>, end: End) {
    forall k :: 0 <= k < |ws| ==> WordOk(cfg, mode, ws[k], k == |ws| - 1 && end == Exhausted)
  }

  function Spell(ws: seq<Word>): seq<string> {
    if ws == [] then [] else Text(ws[0]) + Spell(ws[1..])
  }

  ghost function Events(cfg: Config, mode: Mode, ws: seq<Word>, end: End): seq<Event>
    requires WordsOk(cfg, mode, ws, end)
  {
    if ws == [] then []
    else
      WordsTail(cfg, mode, ws, end);
      WordEvents(cfg, mode, ws[0]) + Events(cfg, mode, ws[1..], end)
  }

  /** The operands of the words, where operands are passed over. */
  function Operands(mode: Mode, ws: seq<Word>): seq<string> {
    if ws == [] then []
    else (if ws[0].Operand? && mode == PermuteArgv then [ws[0].arg] else []) + Operands(mode, ws[1..])
  }

  function OptionArgs(mode: Mode, ws: seq<Word>): seq<string> {
    if ws == [] then []
    else (if ws[0].Operand? && mode == PermuteArgv then [] else Text(ws[0])) + OptionArgs(mode, ws[1..])
  }

  lemma WordsTail(cfg: Config, mode: Mode, ws: seq<Word>, end: End)
    requires WordsOk(cfg, mode, ws, end) && ws != []
    ensures WordOk(cfg, mode, ws[0], |ws| == 1 && end == Exhausted) && WordsOk(cfg, mode, ws[1..], end)
    ensures ws[0].Dashed? && ws[0].long.Long? ==> ws[0].long.m < |cfg.long|
    ensures ws[0].Cluster? && ws[0].final.WLong? && ws[0].final.long.Long? ==> ws[0].final.long.m < |cfg.long|
  {
    hide WordOk;
    EntriesOk(cfg, mode, ws[0], |ws| == 1 && end == Exhausted);
  }

  lemma WordParsed(cfg: Config, mode: Mode, args: seq<string>, i: nat, w: Word, last: bool)
    requires ValuesOk(cfg) && WordOk(cfg, mode, w, last) && Stands(args, i, Text(w), last)
    ensures w.Dashed? && w.long.Long? ==> w.long.m < |cfg.long|
    ensures w.Cluster? && w.final.WLong? && w.final.long.Long? ==> w.final.long.m < |cfg.long|
    ensures Parse(cfg, mode, args, i, "") ==
              Join(WordEvents(cfg, mode, w), if w.Operand? && mode == PermuteArgv then [] else Text(w),
                   if w.Operand? && mode == PermuteArgv then [w.arg] else [], Parse(cfg, mode, args, i + |Text(w)|, ""))
  {
    hide LongOk, FinalText, FinalNext, LongText, LongEvent, FinalEvent, Parse, Stands, WordOk;
    EntriesOk(cfg, mode, w, last);
    StandsThere(args, i, Text(w), last);
    match w
    case Cluster(letters, final) =>
      StandsHead(args, i, "-" + letters + FinalText(final), FinalNext(final), last);
      ClusterBegins(cfg, mode, letters, final, last);
      assert args[i][1..] == letters + FinalText(final);
      OptionBegins(cfg, mode, args, i);
      ClusterParsed(cfg, mode, args, i, letters, final, last);
    case Dashed(dashes, long) => LongParsed(cfg, mode, args, i, dashes, long, last);
    case Operand(arg) => OperandParsed(cfg, mode, args, i, arg, last);
  }

  lemma ClusterBegins(cfg: Config, mode: Mode, letters: string, f: Final, last: bool)
    requires WordOk(cfg, mode, Cluster(letters, f), last)
    ensures var a := "-" + letters + FinalText(f); |a| > 1 && a[0] == '-' && a != "--"
  {
    hide FinalText, FinalOk, NotLong;
    FinalBegins(cfg, f, last);
    var a := "-" + letters + FinalText(f);
    assert a[1] == (letters + FinalText(f))[0];
    if letters != "" {
      assert LetterOk(cfg, letters[0]);
    }
  }

  lemma OperandParsed(cfg: Config, mode: Mode, args: seq<string>, i: nat, arg: string, last: bool)
    requires WordOk(cfg, mode, Operand(arg), last) && Stands(args, i, [arg], last)
    ensures i < |args|
    ensures Parse(cfg, mode, args, i, "") ==
              Join(if mode == InOrder then [Event(1, Some(arg), None, None)] else [], if mode == PermuteArgv then [] else [arg],
                   if mode == PermuteArgv then [arg] else [], Parse(cfg, mode, args, i + 1, ""))
  {
    hide ReadOption, ParseOption;
    assert args[i] == args[i..i + 1][0];
  }

  lemma EndParsed(cfg: Config, mode: Mode, args: seq<string>, i: nat, end: End)
    requires i <= |args| && args[i..] == EndText(end) && EndOk(cfg, mode, end)
    ensures Parse(cfg, mode, args, i, "") ==
              Parsed([], if end.AtDashes? then ["--"] else [], if end.Exhausted? then [] else end.operands)
  {
    hide ReadOption, ParseOption;
    if i < |args| {
      assert args[i] == args[i..][0] && args[i + 1..] == args[i..][1..];
    }
  }

  /** The parse of what was written is what was meant: the answers of all options with
      their values and table entries, every complaint with its option, and the operands. */
  lemma {:induction false} RoundTrip(cfg: Config, mode: Mode, args: seq<string>, i: nat, ws: seq<Word>, end: End)
    requires ValuesOk(cfg) && WordsOk(cfg, mode, ws, end) && EndOk(cfg, mode, end)
    requires i <= |args| && args[i..] == Spell(ws) + EndText(end)
    ensures Parse(cfg, mode, args, i, "") ==
              Parsed(Events(cfg, mode, ws, end), OptionArgs(mode, ws) + if end.AtDashes? then ["--"] else [],
                     Operands(mode, ws) + if end.Exhausted? then [] else end.operands)
    decreases |ws|
  {
    hide WordOk, WordEvents, Text, Parse, WordsOk, ValuesOk, EndText;
    if ws == [] {
      assert Spell(ws) + EndText(end) == EndText(end);
      EndParsed(cfg, mode, args, i, end);
    } else {
      hide Stands;
      WordsTail(cfg, mode, ws, end);
      LastStands(ws, end);
      assert args[i..] == Text(ws[0]) + (Spell(ws[1..]) + EndText(end));
      SuffixStands(args, i, Text(ws[0]), Spell(ws[1..]) + EndText(end), |ws| == 1 && end == Exhausted);
      WordParsed(cfg, mode, args, i, ws[0], |ws| == 1 && end == Exhausted);
      RoundTrip(cfg, mode, args, i + |Text(ws[0])|, ws[1..], end);
      var operand := ws[0].Operand? && mode == PermuteArgv;
      Joined(WordEvents(cfg, mode, ws[0]), if operand then [] else Text(ws[0]), if operand then [ws[0].arg] else [],
             Events(cfg, mode, ws[1..], end), OptionArgs(mode, ws[1..]), Operands(mode, ws[1..]),
             if end.AtDashes? then ["--"] else [], if end.Exhausted? then [] else end.operands);
    }
  }

  lemma Joined(e: seq<Event>, opts: seq<string>, operands: seq<string>, e': seq<Event>, opts': seq<string>, operands': seq<string>,
               a: seq<string>, b: seq<string>)
    ensures Join(e, opts, operands, Parsed(e', opts' + a, operands' + b)) == Parsed(e + e', opts + opts' + a, operands + operands' + b)
  {
  }

  lemma SuffixStands(args: seq<string>, i: nat, a: seq<string>, more: seq<string>, last: bool)
    requires i <= |args| && args[i..] == a + more && (last ==> more == [])
    ensures i + |a| <= |args| && Stands(args, i, a, last) && args[i + |a|..] == more
  {
    assert args[i..i + |a|] == args[i..][..|a|] && args[i + |a|..] == args[i..][|a|..];
  }

  lemma LastStands(ws: seq<Word>, end: End)
    requires ws != []
    ensures |ws| == 1 && end == Exhausted ==> Spell(ws[1..]) + EndText(end) == []
  {
  }

  /** The vector behind the program name is the spelling. */
  ghost predicate Spells(cfg: Config, mode: Mode, args: seq<string>, ws: seq<Word>, end: End) {
    args != [] && WordsOk(cfg, mode, ws, end) && EndOk(cfg, mode, end) && args[1..] == Spell(ws) + EndText(end)
  }

  lemma Spelled(cfg: Config, mode: Mode, args: seq<string>)
    requires ValuesOk(cfg)
    ensures forall ws, end :: Spells(cfg, mode, args, ws, end) ==>
              Parse(cfg, mode, args, 1, "").events == Events(cfg, mode, ws, end) &&
              Parse(cfg, mode, args, 1, "").operands == Operands(mode, ws) + if end.Exhausted? then [] else end.operands
  {
    hide Parse, WordsOk, EndOk, Spell, EndText, Events, ValuesOk;
    forall ws, end | Spells(cfg, mode, args, ws, end)
      ensures Parse(cfg, mode, args, 1, "").events == Events(cfg, mode, ws, end) &&
              Parse(cfg, mode, args, 1, "").operands == Operands(mode, ws) + if end.Exhausted? then [] else end.operands
    {
      RoundTrip(cfg, mode, args, 1, ws, end);
    }
  }
}
