/**
  What each kind of element means, in terms of the option string and the table
  as the application wrote them: one law for every case a command line can meet.
*/
module OptionMeaning {
  import opened Wrappers
  import opened LongOptions
  import opened OptionSyntax
  import opened OptionParser
  import opened OptionLaws

  // ---------- settings ----------

  /** The first character of the option string and the POSIX property choose the ordering. */
  lemma OptionStringChoosesOrdering(s: string, table: Option<Table>, longOnly: bool, posix: bool)
    requires s != ""
    ensures Configure("-" + s, table, longOnly, posix) == Config(s, table, longOnly, posix, ReturnInOrder)
    ensures Configure("+" + s, table, longOnly, posix) == Config(s, table, longOnly, posix, RequireOrder)
    ensures s[0] != '-' && s[0] != '+' ==>
      Configure(s, table, longOnly, posix) == Config(s, table, longOnly, posix, if posix then RequireOrder else Permute)
    ensures Configure("", table, longOnly, posix) == Configure(" ", table, longOnly, posix)
    ensures Configure("-", table, longOnly, posix) == Config("-", table, longOnly, posix, ReturnInOrder)
    ensures Configure("+", table, longOnly, posix) == Config("+", table, longOnly, posix, RequireOrder)
  {
    assert ("-" + s)[1..] == s && ("+" + s)[1..] == s;
  }

  /** The integers that the callers' switches are written for. */
  lemma ReportedIntegers(c: char, v: int, f: nat)
    ensures AsInt(End) == -1 && AsInt(Operand) == 1 && AsInt(Short(c)) == c as int
    ensures AsInt(Long(v)) == v && AsInt(Stored(f, v)) == 0 && AsInt(UnknownLong) == 'W' as int
    ensures AsInt(Illegal) == AsInt(Ambiguity) == AsInt(Unwanted) == '?' as int
    ensures AsInt(Missing(false)) == '?' as int && AsInt(Missing(true)) == ':' as int
  {
  }

  // ---------- operands and dashes ----------

  lemma NothingLeft(cfg: Config, regs: Regs)
    requires cfg.Valid()
    ensures Parse(cfg, [], "", regs) == Run([Event(End, None, regs)], [], [], false)
  {
  }

  /** What is left when the last option has used up its elements. */
  lemma LastReport(cfg: Config, e: string, used: seq<string>, event: Event)
    requires cfg.Valid()
    ensures used[|used|..] == [] && used[..|used|] == used
    ensures Parse(cfg, used[|used|..], "", event.regs).After([event], [e] + used, [])
         == Run([event, Event(End, None, event.regs)], [e] + used, [], false)
  {
    assert used[|used|..] == [];
    NothingLeft(cfg, event.regs);
  }

  lemma DashesClose(cfg: Config, post: seq<string>, regs: Regs)
    requires cfg.Valid()
    ensures Parse(cfg, ["--"] + post, "", regs) == Run([Event(End, None, regs)], ["--"], post, true)
  {
    assert (["--"] + post)[1..] == post;
  }

  /** An empty element, a lone dash, and whatever does not start with a dash. */
  lemma OperandIsMet(cfg: Config, e: string, post: seq<string>, regs: Regs)
    requires cfg.Valid() && (e == "" || e == "-" || e[0] != '-')
    ensures Parse(cfg, [e] + post, "", regs) ==
      match cfg.ordering
      case RequireOrder => Run([Event(End, None, regs)], [], [e] + post, false)
      case Permute => Parse(cfg, post, "", regs).After([], [], [e])
      case ReturnInOrder => Parse(cfg, post, "", regs).After([Event(Operand, Some(e), regs)], [e], [])
  {
    assert ([e] + post)[1..] == post && ([e] + post)[..1] == [e];
  }

  /** One report for each operand. */
  function Reported(es: seq<string>, regs: Regs): (events: seq<Event>)
    ensures |events| == |es| && forall k :: 0 <= k < |es| ==> events[k] == Event(Operand, Some(es[k]), regs)
  {
    if es == [] then [] else [Event(Operand, Some(es[0]), regs)] + Reported(es[1..], regs)
  }

  /** In-order scanning reports one operand after the other. */
  lemma {:induction false} OperandsInOrder(cfg: Config, es: seq<string>, post: seq<string>, regs: Regs)
    requires cfg.Valid() && cfg.ordering.ReturnInOrder?
    requires forall k :: 0 <= k < |es| ==> es[k] == "" || es[k] == "-" || es[k][0] != '-'
    ensures Parse(cfg, es + post, "", regs) == Parse(cfg, post, "", regs).After(Reported(es, regs), es, [])
  {
    hide Parse;
    var r := Parse(cfg, post, "", regs);
    if es == [] {
      assert es + post == post && r.After([], [], []) == r;
    } else {
      var first, tail := Event(Operand, Some(es[0]), regs), es[1..];
      assert es + post == [es[0]] + (tail + post) && es == [es[0]] + tail;
      OperandIsMet(cfg, es[0], tail + post, regs);
      OperandsInOrder(cfg, tail, post, regs);
      assert [first] + (Reported(tail, regs) + r.events) == ([first] + Reported(tail, regs)) + r.events;
      assert [es[0]] + (tail + r.scanned) == es + r.scanned;
    }
  }

  // ---------- one option element ----------

  lemma ReadAlone(cfg: Config, e: string, text: string, post: seq<string>, regs: Regs, s: Step)
    requires cfg.Valid() && text != "" && ((e == "-" + text && text[0] != '-') || e == "--" + text)
    requires Decode(cfg, e, text, post, regs) == s && s.used > 0
    ensures var used := [e] + post[..s.used - 1];
            Parse(cfg, [e] + post, "", regs) ==
              if s.stop then Run([s.event, EndEvent(s.event.regs)], used, post[s.used - 1..], true)
              else Parse(cfg, post[s.used - 1..], "", s.event.regs).After([s.event], used, [])
  {
    hide Decode;
    var all := [e] + post;
    assert all[1..] == post && all[s.used..] == post[s.used - 1..] && all[..s.used] == [e] + post[..s.used - 1];
    assert e == "-" + text ==> e[1..] == text;
    assert e == "--" + text ==> e[2..] == text;
    assert Strip(e) == text;
    assert Parse(cfg, all, "", regs) == Parse(cfg, all, text, regs);
    FirstStep(cfg, all, text, regs);
  }

  /** The option string lists `c`, and `after` is what follows its first mention. */
  ghost predicate Listed(optstring: string, c: char, after: string) {
    exists before :: c !in before && optstring == before + ([c] + after)
  }

  predicate Starts(s: string, c: char) { s != "" && s[0] == c }

  lemma ListedKind(optstring: string, c: char, after: string)
    requires Listed(optstring, c, after) && c != ':'
    ensures KindOf(optstring, c) ==
      if c == 'W' && Starts(after, ';') then LongName
      else if !Starts(after, ':') then Plain
      else if Starts(after[1..], ':') then Optional else Required
  {
    hide Listed;
    var before := ListedBefore(optstring, c, after);
    KindShifts(before, [c] + after, c);
    assert ([c] + after)[0..] == [c] + after && IndexOf([c] + after, c) == 0;
  }

  lemma ListedBefore(optstring: string, c: char, after: string) returns (before: string)
    requires Listed(optstring, c, after)
    ensures c !in before && optstring == before + ([c] + after)
  {
    before :| c !in before && optstring == before + ([c] + after);
  }

  /** The element is read as short options only. */
  ghost predicate ShortOnly(cfg: Config, c: char) { cfg.Valid() && !cfg.longOnly && c != '-' }

  lemma ShortIsRead(cfg: Config, c: char, text: string, post: seq<string>, regs: Regs, s: Step)
    requires ShortOnly(cfg, c) && DecodeShort(cfg, [c] + text, post, regs) == s && s.used > 0
    ensures var e := "-" + ([c] + text);
            var used := [e] + post[..s.used - 1];
            Parse(cfg, [e] + post, "", regs) ==
              if s.stop then Run([s.event, EndEvent(s.event.regs)], used, post[s.used - 1..], true)
              else Parse(cfg, post[s.used - 1..], "", s.event.regs).After([s.event], used, [])
  {
    hide DecodeShort, DecodeLong;
    var e := "-" + ([c] + text);
    assert e[1] == c && !TriedAsLong(cfg, e);
    ReadAlone(cfg, e, [c] + text, post, regs, s);
  }

  /** A letter that is not listed is refused, and optopt tells which; ':' never is an option. */
  lemma UnknownLetterIsRefused(cfg: Config, c: char, post: seq<string>, regs: Regs)
    requires ShortOnly(cfg, c) && (c == ':' || c !in cfg.optstring)
    ensures var blame := Regs(c as int, regs.longind);
            Parse(cfg, ["-" + [c]] + post, "", regs)
            == Parse(cfg, post, "", blame).After([Event(Illegal, None, blame)], ["-" + [c]], [])
  {
    hide Parse, DecodeLong, DecodeWord;
    assert [c] + "" == [c] && post[0..] == post && post[..0] == [];
    var s := Step(Event(Illegal, None, Regs(c as int, regs.longind)), 1, "", false);
    assert DecodeShort(cfg, [c] + "", post, regs) == s;
    hide DecodeShort;
    ShortIsRead(cfg, c, "", post, regs, s);
  }

  lemma PlainLetterIsReported(cfg: Config, c: char, after: string, post: seq<string>, regs: Regs)
    requires ShortOnly(cfg, c) && c != ':' && Listed(cfg.optstring, c, after) && BeginsAnew(c, after)
    ensures Parse(cfg, ["-" + [c]] + post, "", regs)
         == Parse(cfg, post, "", regs).After([Event(Short(c), None, regs)], ["-" + [c]], [])
  {
    hide Parse, DecodeLong, DecodeWord, KindOf;
    ListedKind(cfg.optstring, c, after);
    assert [c] + "" == [c] && post[0..] == post && post[..0] == [];
    var s := Step(Event(Short(c), None, regs), 1, "", false);
    assert DecodeShort(cfg, [c] + "", post, regs) == s;
    hide DecodeShort;
    ShortIsRead(cfg, c, "", post, regs, s);
  }

  /** `e` is never tried as a long option. */
  ghost predicate ShortElement(cfg: Config, e: string) {
    cfg.Valid() && (cfg.table.None? || (!cfg.longOnly && !("--" <= e)))
  }

  /** What follows the letter says nothing about it. */
  predicate BeginsAnew(c: char, after: string) {
    !Starts(after, ':') && !(c == 'W' && Starts(after, ';'))
  }

  ghost predicate TakesNothing(optstring: string, c: char) {
    exists after :: Listed(optstring, c, after) && BeginsAnew(c, after)
  }

  /** Inside an element, a letter that is refused or takes no argument leaves the rest of the element to be read. */
  lemma LetterInside(cfg: Config, e: string, c: char, t: string, post: seq<string>, regs: Regs, event: Event)
    requires ShortElement(cfg, e) && t != ""
    requires
      || ((c == ':' || c !in cfg.optstring) && event == Event(Illegal, None, Regs(c as int, regs.longind)))
      || (c != ':' && event == Event(Short(c), None, regs) && TakesNothing(cfg.optstring, c))
    ensures Parse(cfg, [e] + post, [c] + t, regs)
         == Parse(cfg, [e] + post, t, event.regs).After([event], [], [])
  {
    hide DecodeShort, DecodeLong;
    LetterDecodes(cfg, c, t, post, regs, event);
    var all := [e] + post;
    assert all[1..] == post && all[0..] == all && all[..0] == [];
    assert !TriedAsLong(cfg, e) && Decode(cfg, e, [c] + t, post, regs) == Step(event, 0, t, false);
    FirstStep(cfg, all, [c] + t, regs);
  }

  lemma LetterDecodes(cfg: Config, c: char, t: string, post: seq<string>, regs: Regs, event: Event)
    requires cfg.Valid() && t != ""
    requires
      || ((c == ':' || c !in cfg.optstring) && event == Event(Illegal, None, Regs(c as int, regs.longind)))
      || (c != ':' && event == Event(Short(c), None, regs) && TakesNothing(cfg.optstring, c))
    ensures DecodeShort(cfg, [c] + t, post, regs) == Step(event, 0, t, false)
  {
    hide DecodeLong, DecodeWord;
    if c != ':' && event.code.Short? {
      var after :| Listed(cfg.optstring, c, after) && BeginsAnew(c, after);
      ListedKind(cfg.optstring, c, after);
    }
    assert ([c] + t)[0] == c && ([c] + t)[1..] == t;
  }

  /** An option with an argument: one colon, or two if the argument is optional. */
  predicate Requires(after: string) { Starts(after, ':') && !Starts(after[1..], ':') }

  predicate Allows(after: string) { Starts(after, ':') && Starts(after[1..], ':') }

  /** "-cTEXT" gives c its argument, required or optional. */
  lemma AttachedArgument(cfg: Config, c: char, after: string, text: string, post: seq<string>, regs: Regs)
    requires ShortOnly(cfg, c) && c != ':' && Listed(cfg.optstring, c, after) && text != ""
    requires Requires(after) || Allows(after)
    ensures var e := "-" + ([c] + text);
            Parse(cfg, [e] + post, "", regs)
            == Parse(cfg, post, "", regs).After([Event(Short(c), Some(text), regs)], [e], [])
  {
    hide Parse, DecodeLong, DecodeWord, KindOf;
    ListedKind(cfg.optstring, c, after);
    assert ([c] + text)[1..] == text && post[0..] == post && post[..0] == [];
    var s := Step(Event(Short(c), Some(text), regs), 1, "", false);
    assert DecodeShort(cfg, [c] + text, post, regs) == s;
    hide DecodeShort;
    ShortIsRead(cfg, c, text, post, regs, s);
  }

  /** "-c" has no argument when it is optional. */
  lemma OptionalArgumentAbsent(cfg: Config, c: char, after: string, post: seq<string>, regs: Regs)
    requires ShortOnly(cfg, c) && c != ':' && Listed(cfg.optstring, c, after) && Allows(after)
    ensures Parse(cfg, ["-" + [c]] + post, "", regs)
         == Parse(cfg, post, "", regs).After([Event(Short(c), None, regs)], ["-" + [c]], [])
  {
    hide Parse, DecodeLong, DecodeWord, KindOf;
    ListedKind(cfg.optstring, c, after);
    assert [c] + "" == [c] && post[0..] == post && post[..0] == [];
    var s := Step(Event(Short(c), None, regs), 1, "", false);
    assert DecodeShort(cfg, [c] + "", post, regs) == s;
    hide DecodeShort;
    ShortIsRead(cfg, c, "", post, regs, s);
  }

  /** "-c TEXT" takes the next element as a required argument, whatever it looks like. */
  lemma SeparateArgument(cfg: Config, c: char, after: string, text: string, post: seq<string>, regs: Regs)
    requires ShortOnly(cfg, c) && c != ':' && Listed(cfg.optstring, c, after) && Requires(after)
    requires !(cfg.posix && text == "--")
    ensures Parse(cfg, ["-" + [c]] + ([text] + post), "", regs)
         == Parse(cfg, post, "", regs).After([Event(Short(c), Some(text), regs)], ["-" + [c], text], [])
  {
    hide Parse, DecodeLong, DecodeWord, KindOf;
    ListedKind(cfg.optstring, c, after);
    var following := [text] + post;
    assert [c] + "" == [c] && following[1..] == post && following[..1] == [text];
    assert ["-" + [c]] + [text] == ["-" + [c], text];
    ShortIsRead(cfg, c, "", following, regs, Step(Event(Short(c), Some(text), regs), 2, "", false));
  }

  /** "-c" at the end lacks its argument: ':' or '?', and optopt tells which. */
  lemma MissingArgument(cfg: Config, c: char, after: string, regs: Regs)
    requires ShortOnly(cfg, c) && c != ':' && Listed(cfg.optstring, c, after) && Requires(after)
    ensures var blame := Regs(c as int, regs.longind);
            Parse(cfg, ["-" + [c]] + [], "", regs)
            == Run([Event(Missing(cfg.optstring[0] == ':'), None, blame), Event(End, None, blame)],
                   ["-" + [c]], [], false)
  {
    hide Parse, DecodeLong, DecodeWord, KindOf;
    ListedKind(cfg.optstring, c, after);
    var blame := Regs(c as int, regs.longind);
    var s := Step(Event(Missing(cfg.optstring[0] == ':'), None, blame), 1, "", false);
    assert [c] + "" == [c];
    LastReport(cfg, "-" + [c], [], s.event);
    ShortIsRead(cfg, c, "", [], regs, s);
  }

  /** Under POSIX "-c -- TEXT" takes TEXT and ends the scan, and "-c --" lacks the argument. */
  lemma DashesBeforeArgument(cfg: Config, c: char, after: string, post: seq<string>, regs: Regs)
    requires ShortOnly(cfg, c) && c != ':' && Listed(cfg.optstring, c, after) && Requires(after) && cfg.posix
    ensures var blame := Regs(c as int, regs.longind);
            var e := "-" + [c];
            Parse(cfg, [e] + (["--"] + post), "", regs) ==
              if post == []
              then Run([Event(Missing(cfg.optstring[0] == ':'), Some("--"), blame), Event(End, None, blame)],
                       [e, "--"], [], false)
              else Run([Event(Short(c), Some(post[0]), regs), Event(End, None, regs)],
                       [e, "--", post[0]], post[1..], true)
  {
    hide Parse, DecodeLong, DecodeWord, KindOf;
    ListedKind(cfg.optstring, c, after);
    var e, following := "-" + [c], ["--"] + post;
    assert [c] + "" == [c];
    if post == [] {
      var s := Step(Event(Missing(cfg.optstring[0] == ':'), Some("--"), Regs(c as int, regs.longind)), 2, "", false);
      assert following == ["--"] && [e] + ["--"] == [e, "--"];
      LastReport(cfg, e, ["--"], s.event);
      ShortIsRead(cfg, c, "", following, regs, s);
    } else {
      var s := Step(Event(Short(c), Some(post[0]), regs), 3, "", true);
      assert following[1] == post[0] && following[2..] == post[1..] && following[..2] == ["--", post[0]];
      assert [e] + ["--", post[0]] == [e, "--", post[0]];
      ShortIsRead(cfg, c, "", following, regs, s);
    }
  }

  // ---------- long options ----------

  /** Which entry a typed name means: the first of that name, or the only one it abbreviates. */
  ghost predicate Means(table: Table, name: string, k: nat) {
    if exists i :: Exact(table, name, i) then Exact(table, name, k) && forall i :: 0 <= i < k ==> !Exact(table, name, i)
    else Candidate(table, name, k) && forall i :: Candidate(table, name, i) ==> i == k
  }

  /** No entry starts with the name. */
  ghost predicate MeansNothing(table: Table, name: string) {
    forall i :: !Candidate(table, name, i)
  }

  /** The name abbreviates k and a later entry, but no earlier one, and is not a name itself. */
  ghost predicate MeansSeveral(table: Table, name: string, k: nat) {
    && (forall i :: !Exact(table, name, i)) && Candidate(table, name, k)
    && (forall i :: 0 <= i < k ==> !Candidate(table, name, i)) && exists j :: k < j && Candidate(table, name, j)
  }

  lemma MeaningIsLookedUp(table: Table, name: string, k: nat)
    ensures Means(table, name, k) ==> Lookup(table, name) == Chosen(k)
    ensures MeansNothing(table, name) ==> Lookup(table, name).NoMatch?
    ensures MeansSeveral(table, name, k) ==> Lookup(table, name) == Ambiguous(k)
  {
    hide Lookup;
    if exists i :: Exact(table, name, i) {
      if Means(table, name, k) {
        ExactNameWins(table, name, k);
      }
      assert forall i :: Exact(table, name, i) ==> Candidate(table, name, i);
    } else {
      AbbreviationRule(table, name);
      if MeansSeveral(table, name, k) {
        AmbiguityBlamesTheFirst(table, name, k);
      }
    }
  }

  lemma AmbiguityBlamesTheFirst(table: Table, name: string, k: nat)
    requires MeansSeveral(table, name, k)
    ensures Lookup(table, name) == Ambiguous(k)
  {
    AbbreviationRule(table, name);
    assert Contested(table, name);
    var f := FirstFit(table, name, false, 0);
    assert Fits(table[k], name, false);
    assert f < |table| ==> Candidate(table, name, f);
  }

  /** How success is reported: the value, or a value stored in the caller's buffer. */
  predicate Succeeds(opt: LongOpt, code: Code) {
    match opt.flag
    case None => code == Long(opt.val)
    case Some(buffer) => code == Stored(buffer, opt.val)
  }

  lemma LongIsRead(cfg: Config, text: string, post: seq<string>, regs: Regs, s: Step)
    requires cfg.Valid() && cfg.table.Some? && text != "" && DecodeLong(cfg, text, None, post, regs) == Some(s)
    ensures var e := "--" + text;
            Parse(cfg, [e] + post, "", regs)
            == Parse(cfg, post[s.used - 1..], "", s.event.regs).After([s.event], [e] + post[..s.used - 1], [])
  {
    hide DecodeLong, DecodeShort, Parse;
    ReadAlone(cfg, "--" + text, text, post, regs, s);
  }

  lemma TextIsSplit(name: string, arg: string)
    requires '=' !in name
    ensures IndexOf(name, '=') == |name| && name[..|name|] == name
    ensures var text := name + ("=" + arg);
            IndexOf(text, '=') == |name| && text[..|name|] == name && text[|name| + 1..] == arg
  {
    var text := name + ("=" + arg);
    assert text[|name|] == '=' && forall k :: 0 <= k < |name| ==> text[k] == name[k];
  }

  /** "--name" of an option that requires no argument: none is reported, and longind is the entry. */
  lemma LongWithoutArgument(cfg: Config, name: string, k: nat, post: seq<string>, regs: Regs) returns (code: Code)
    requires cfg.Valid() && cfg.table.Some? && name != "" && '=' !in name && Means(cfg.table.value, name, k)
    requires !cfg.table.value[k].hasArg.RequiredArgument?
    ensures Succeeds(cfg.table.value[k], code)
    ensures var g := Regs(regs.optopt, k);
            Parse(cfg, ["--" + name] + post, "", regs)
            == Parse(cfg, post, "", g).After([Event(code, None, g)], ["--" + name], [])
  {
    hide Parse, Lookup, IndexOf, Means;
    MeaningIsLookedUp(cfg.table.value, name, k);
    TextIsSplit(name, "");
    var s := DecodeLong(cfg, name, None, post, regs).value;
    code := s.event.code;
    hide DecodeLong;
    assert post[0..] == post && post[..0] == [];
    LongIsRead(cfg, name, post, regs, s);
  }

  /** "--name arg" of an option that requires an argument. */
  lemma LongSeparateArgument(cfg: Config, name: string, k: nat, arg: string, post: seq<string>, regs: Regs)
    returns (code: Code)
    requires cfg.Valid() && cfg.table.Some? && name != "" && '=' !in name && Means(cfg.table.value, name, k)
    requires cfg.table.value[k].hasArg.RequiredArgument?
    ensures Succeeds(cfg.table.value[k], code)
    ensures var g := Regs(regs.optopt, k);
            Parse(cfg, ["--" + name] + ([arg] + post), "", regs)
            == Parse(cfg, post, "", g).After([Event(code, Some(arg), g)], ["--" + name, arg], [])
  {
    hide Parse, Lookup, IndexOf, Means;
    MeaningIsLookedUp(cfg.table.value, name, k);
    TextIsSplit(name, "");
    var following := [arg] + post;
    var s := DecodeLong(cfg, name, None, following, regs).value;
    code := s.event.code;
    hide DecodeLong;
    assert following[1..] == post && following[..1] == [arg] && ["--" + name] + [arg] == ["--" + name, arg];
    LongIsRead(cfg, name, following, regs, s);
  }

  /** "--name=arg" of an option that takes an argument; the argument may be empty. */
  lemma LongAttachedArgument(cfg: Config, name: string, k: nat, arg: string, post: seq<string>, regs: Regs)
    returns (code: Code)
    requires cfg.Valid() && cfg.table.Some? && '=' !in name && Means(cfg.table.value, name, k)
    requires !cfg.table.value[k].hasArg.NoArgument?
    ensures Succeeds(cfg.table.value[k], code)
    ensures var e, g := "--" + (name + ("=" + arg)), Regs(regs.optopt, k);
            Parse(cfg, [e] + post, "", regs) == Parse(cfg, post, "", g).After([Event(code, Some(arg), g)], [e], [])
  {
    hide Parse, Lookup, IndexOf, Means;
    MeaningIsLookedUp(cfg.table.value, name, k);
    TextIsSplit(name, arg);
    var text := name + ("=" + arg);
    var s := DecodeLong(cfg, text, None, post, regs).value;
    code := s.event.code;
    hide DecodeLong;
    assert post[0..] == post && post[..0] == [];
    LongIsRead(cfg, text, post, regs, s);
  }

  /** "--name" at the end, though an argument is required: optopt is the option's value. */
  lemma LongMissingArgument(cfg: Config, name: string, k: nat, regs: Regs)
    requires cfg.Valid() && cfg.table.Some? && name != "" && '=' !in name && Means(cfg.table.value, name, k)
    requires cfg.table.value[k].hasArg.RequiredArgument?
    ensures var blame := Regs(cfg.table.value[k].val, k);
            Parse(cfg, ["--" + name] + [], "", regs) == Run(
              [Event(Missing(cfg.optstring[0] == ':'), None, blame), Event(End, None, blame)], ["--" + name], [], false)
  {
    hide Parse, Lookup, IndexOf, Means;
    MeaningIsLookedUp(cfg.table.value, name, k);
    TextIsSplit(name, "");
    var s := Step(Event(Missing(cfg.optstring[0] == ':'), None, Regs(cfg.table.value[k].val, k)), 1, "", false);
    assert DecodeLong(cfg, name, None, [], regs) == Some(s);
    hide DecodeLong;
    LastReport(cfg, "--" + name, [], s.event);
    LongIsRead(cfg, name, [], regs, s);
  }

  /** "--name=arg" of an option without argument. */
  lemma LongUnwantedArgument(cfg: Config, name: string, k: nat, arg: string, post: seq<string>, regs: Regs)
    requires cfg.Valid() && cfg.table.Some? && '=' !in name && Means(cfg.table.value, name, k)
    requires cfg.table.value[k].hasArg.NoArgument?
    ensures var e, blame := "--" + (name + ("=" + arg)), Regs(cfg.table.value[k].val, k);
            Parse(cfg, [e] + post, "", regs)
            == Parse(cfg, post, "", blame).After([Event(Unwanted, None, blame)], [e], [])
  {
    hide Parse, Lookup, IndexOf, Means;
    MeaningIsLookedUp(cfg.table.value, name, k);
    TextIsSplit(name, arg);
    var text := name + ("=" + arg);
    assert post[0..] == post && post[..0] == [];
    var s := Step(Event(Unwanted, None, Regs(cfg.table.value[k].val, k)), 1, "", false);
    assert DecodeLong(cfg, text, None, post, regs) == Some(s);
    hide DecodeLong;
    LongIsRead(cfg, text, post, regs, s);
  }

  /** The name that is typed in front of '=', if there is one. */
  predicate Names(text: string, name: string) {
    '=' !in name && (text == name || (name + "=") <= text)
  }

  lemma NamesIsSplit(text: string, name: string)
    requires Names(text, name)
    ensures text[..IndexOf(text, '=')] == name
  {
    if text == name {
      TextIsSplit(name, "");
    } else {
      var arg := text[|name| + 1..];
      assert text == name + ("=" + arg);
      TextIsSplit(name, arg);
    }
  }

  /** An ambiguous name is refused with optopt 0; longind is the first entry it could mean. */
  lemma LongAmbiguity(cfg: Config, text: string, name: string, k: nat, post: seq<string>, regs: Regs)
    requires cfg.Valid() && cfg.table.Some? && text != "" && Names(text, name)
    requires MeansSeveral(cfg.table.value, name, k)
    ensures var g := Regs(0, k);
            Parse(cfg, ["--" + text] + post, "", regs)
            == Parse(cfg, post, "", g).After([Event(Ambiguity, None, g)], ["--" + text], [])
  {
    hide Parse, Lookup, IndexOf, MeansSeveral;
    NamesIsSplit(text, name);
    MeaningIsLookedUp(cfg.table.value, name, k);
    assert post[0..] == post && post[..0] == [];
    var s := Step(Event(Ambiguity, None, Regs(0, k)), 1, "", false);
    assert DecodeLong(cfg, text, None, post, regs) == Some(s);
    hide DecodeLong;
    LongIsRead(cfg, text, post, regs, s);
  }

  /** An unknown name is refused with optopt 0 and no entry. */
  lemma LongUnknown(cfg: Config, text: string, name: string, post: seq<string>, regs: Regs)
    requires cfg.Valid() && cfg.table.Some? && text != "" && Names(text, name) && MeansNothing(cfg.table.value, name)
    ensures var g := Regs(0, -1);
            Parse(cfg, ["--" + text] + post, "", regs)
            == Parse(cfg, post, "", g).After([Event(Illegal, None, g)], ["--" + text], [])
  {
    hide Parse, Lookup, IndexOf, MeansNothing, DecodeShort;
    NamesIsSplit(text, name);
    MeaningIsLookedUp(cfg.table.value, name, 0);
    assert post[0..] == post && post[..0] == [];
    ReadAlone(cfg, "--" + text, text, post, regs, Step(Event(Illegal, None, Regs(0, -1)), 1, "", false));
  }

  /** Without a table "--..." is a cluster that starts with what follows the dashes. */
  lemma NoTable(cfg: Config, text: string, post: seq<string>, regs: Regs)
    requires cfg.Valid() && cfg.table.None? && text != "" && text[0] != '-'
    ensures Parse(cfg, ["--" + text] + post, "", regs).events == Parse(cfg, ["-" + text] + post, "", regs).events
    ensures Parse(cfg, ["--" + text] + post, "", regs).operands == Parse(cfg, ["-" + text] + post, "", regs).operands
  {
    hide Decode;
    var e, f := "--" + text, "-" + text;
    assert e[2..] == text && f[1..] == text && Strip(e) == text && Strip(f) == text;
    ClusterWithoutTable(cfg, e, f, post, text, regs);
    assert Parse(cfg, [e] + post, "", regs) == Parse(cfg, [e] + post, text, regs);
    assert Parse(cfg, [f] + post, "", regs) == Parse(cfg, [f] + post, text, regs);
  }

  lemma {:induction false} ClusterWithoutTable(cfg: Config, e: string, f: string, post: seq<string>,
                                               cluster: string, regs: Regs)
    requires cfg.Valid() && cfg.table.None? && cluster != ""
    ensures var r, q := Parse(cfg, [e] + post, cluster, regs), Parse(cfg, [f] + post, cluster, regs);
            r.events == q.events && r.operands == q.operands
    decreases |cluster|
  {
    hide DecodeShort, DecodeLong;
    var all, other := [e] + post, [f] + post;
    assert all[1..] == post && other[1..] == post;
    var s := Decode(cfg, e, cluster, post, regs);
    assert Decode(cfg, f, cluster, post, regs) == s;
    if s.used == 0 {
      assert all[0..] == all && other[0..] == other;
      ClusterWithoutTable(cfg, e, f, post, s.cluster, s.event.regs);
    } else {
      assert all[s.used..] == post[s.used - 1..] && other[s.used..] == post[s.used - 1..];
    }
  }

  // ---------- -W ----------

  /** The option string lists "W;". */
  ghost predicate WordsListed(cfg: Config) {
    cfg.Valid() && !cfg.longOnly && exists after :: Listed(cfg.optstring, 'W', after) && Starts(after, ';')
  }

  lemma WordsKind(cfg: Config)
    requires WordsListed(cfg)
    ensures KindOf(cfg.optstring, 'W').LongName? && cfg.table.Some?
  {
    var after :| Listed(cfg.optstring, 'W', after) && Starts(after, ';');
    ListedKind(cfg.optstring, 'W', after);
  }

  lemma WordMissing(cfg: Config, regs: Regs)
    requires WordsListed(cfg)
    ensures var blame := Regs('W' as int, regs.longind);
            Parse(cfg, ["-" + ['W']] + [], "", regs) == Run(
              [Event(Missing(cfg.optstring[0] == ':'), None, blame), Event(End, None, blame)], ["-" + ['W']], [], false)
  {
    hide Parse, KindOf;
    WordsKind(cfg);
    var blame := Regs('W' as int, regs.longind);
    var s := Step(Event(Missing(cfg.optstring[0] == ':'), None, blame), 1, "", false);
    LastReport(cfg, "-" + ['W'], [], s.event);
    assert ['W'] + "" == ['W'];
    ShortIsRead(cfg, 'W', "", [], regs, s);
  }

  /** -W with a name that is no long option leaves it to the caller. */
  lemma WordUnknown(cfg: Config, text: string, name: string, post: seq<string>, regs: Regs)
    requires WordsListed(cfg) && cfg.table.Some? && Names(text, name) && MeansNothing(cfg.table.value, name)
    ensures var g := Regs(regs.optopt, -1);
            Parse(cfg, ["-" + ['W']] + ([text] + post), "", regs)
            == Parse(cfg, post, "", g).After([Event(UnknownLong, Some(text), g)], ["-" + ['W'], text], [])
    ensures var e, g := "-" + (['W'] + text), Regs(regs.optopt, -1);
            text != "" ==>
              Parse(cfg, [e] + post, "", regs)
              == Parse(cfg, post, "", g).After([Event(UnknownLong, Some(text), g)], [e], [])
  {
    hide Parse, KindOf, Lookup, IndexOf, MeansNothing;
    WordsKind(cfg);
    NamesIsSplit(text, name);
    MeaningIsLookedUp(cfg.table.value, name, 0);
    var g, following := Regs(regs.optopt, -1), [text] + post;
    assert DecodeLong(cfg, text, Some(text), post, regs).None?;
    hide DecodeLong;
    assert following[1..] == post && following[..1] == [text] && ["-" + ['W']] + [text] == ["-" + ['W'], text];
    assert ['W'] + "" == ['W'];
    var u := Step(Event(UnknownLong, Some(text), g), 2, "", false);
    var v := u.(used := 1);
    assert DecodeShort(cfg, ['W'] + "", following, regs) == u;
    assert (['W'] + text)[1..] == text && post[0..] == post && post[..0] == [];
    assert text != "" ==> DecodeShort(cfg, ['W'] + text, post, regs) == v;
    hide DecodeShort;
    ShortIsRead(cfg, 'W', "", following, regs, u);
    if text != "" {
      ShortIsRead(cfg, 'W', text, post, regs, v);
    }
  }

  /** -W with a name that some entry starts with: the report of "--name", the name standing in for no argument. */
  lemma WordKnown(cfg: Config, text: string, name: string, post: seq<string>, regs: Regs)
    requires WordsListed(cfg) && cfg.table.Some? && text != "" && Names(text, name)
    requires !MeansNothing(cfg.table.value, name)
    ensures var r := Parse(cfg, ["-" + (['W'] + text)] + post, "", regs);
            var q := Parse(cfg, ["--" + text] + post, "", regs);
            && q.events != [] && r.operands == q.operands && r.closed == q.closed
            && (var e := q.events[0];
                r.events == [e.(optarg := Some(if e.optarg.Some? then e.optarg.value else text))] + q.events[1..])
  {
    hide Parse;
    var s, w := WordDecodes(cfg, text, name, post, regs);
    hide DecodeLong, DecodeShort, MeansNothing;
    LongIsRead(cfg, text, post, regs, s);
    ShortIsRead(cfg, 'W', text, post, regs, w);
    var rest := Parse(cfg, post[s.used - 1..], "", s.event.regs);
    assert ([s.event] + rest.events)[1..] == rest.events;
  }

  lemma WordDecodes(cfg: Config, text: string, name: string, post: seq<string>, regs: Regs) returns (s: Step, w: Step)
    requires WordsListed(cfg) && cfg.table.Some? && text != "" && Names(text, name)
    requires !MeansNothing(cfg.table.value, name)
    ensures DecodeLong(cfg, text, None, post, regs) == Some(s) && DecodeShort(cfg, ['W'] + text, post, regs) == w
    ensures w.used == s.used > 0 && !w.stop
    ensures w.event == s.event.(optarg := Some(if s.event.optarg.Some? then s.event.optarg.value else text))
  {
    hide KindOf, IndexOf, MeansNothing, Lookup, GivenArgument;
    WordsKind(cfg);
    NamesIsSplit(text, name);
    KnownIsFound(cfg.table.value, name);
    WordIsLongOption(cfg, text, post, regs);
    s := DecodeLong(cfg, text, None, post, regs).value;
    hide DecodeLong, DecodeWord;
    assert (['W'] + text)[1..] == text;
    w := DecodeWord(cfg, text, post, regs);
  }

  lemma KnownIsFound(table: Table, name: string)
    requires !MeansNothing(table, name)
    ensures !Lookup(table, name).NoMatch?
  {
    var i :| Candidate(table, name, i);
    if j :| Exact(table, name, j) {
      assert Fits(table[j], name, true);
    } else {
      AbbreviationRule(table, name);
    }
  }

  // ---------- single dashes for long options ----------

  /** The element is tried as a long option although it starts with one dash. */
  ghost predicate SingleDash(cfg: Config, text: string) {
    && cfg.Valid() && cfg.longOnly && cfg.table.Some? && text != "" && text[0] != '-'
    && (|text| > 1 || text[0] !in cfg.optstring)
  }

  /** "-name" is "--name" if some entry starts with the name. */
  lemma SingleDashIsEnough(cfg: Config, text: string, name: string, post: seq<string>, regs: Regs)
    requires SingleDash(cfg, text) && Names(text, name) && !MeansNothing(cfg.table.value, name)
    ensures var r, q := Parse(cfg, ["-" + text] + post, "", regs), Parse(cfg, ["--" + text] + post, "", regs);
            r.events == q.events && r.operands == q.operands && r.closed == q.closed
  {
    hide Parse, IndexOf, MeansNothing, DecodeShort;
    NamesIsSplit(text, name);
    KnownIsFound(cfg.table.value, name);
    var s := DecodeLong(cfg, text, None, post, regs).value;
    hide DecodeLong;
    var e := "-" + text;
    assert |e| > 2 || (|e| == 2 && e[1] == text[0]);
    assert TriedAsLong(cfg, e) && Decode(cfg, e, text, post, regs) == s;
    ReadAlone(cfg, e, text, post, regs, s);
    LongIsRead(cfg, text, post, regs, s);
  }

  /** Otherwise it is refused unless its first letter is listed; then it is a cluster, and longind is -1. */
  lemma SingleDashUnknown(cfg: Config, text: string, name: string, post: seq<string>, regs: Regs)
    requires SingleDash(cfg, text) && Names(text, name) && MeansNothing(cfg.table.value, name)
    ensures var r, g := Parse(cfg, ["-" + text] + post, "", regs), Regs(regs.optopt, -1);
            var short := cfg.(longOnly := false);
            if text[0] !in cfg.optstring then
              r == Parse(cfg, post, "", Regs(0, -1)).After([Event(Illegal, None, Regs(0, -1))], ["-" + text], [])
            else
              && short.Valid() && r.events != [] && Parse(short, ["-" + text] + post, "", g).events != []
              && r.events[0] == Parse(short, ["-" + text] + post, "", g).events[0]
  {
    hide Parse, IndexOf, MeansNothing, DecodeShort, DecodeWord, Lookup;
    NamesIsSplit(text, name);
    MeaningIsLookedUp(cfg.table.value, name, 0);
    var e, g := "-" + text, Regs(regs.optopt, -1);
    assert |e| > 2 || (|e| == 2 && e[1] == text[0]);
    assert !DoubleDash(e) && TriedAsLong(cfg, e);
    if text[0] !in cfg.optstring {
      assert post[0..] == post && post[..0] == [];
      ReadAlone(cfg, e, text, post, regs, Step(Event(Illegal, None, Regs(0, -1)), 1, "", false));
    } else {
      assert Decode(cfg, e, text, post, regs) == DecodeShort(cfg, text, post, g);
      ShortAgrees(cfg, e, text, post, g);
      FirstReport(cfg, e, text, post, regs);
      FirstReport(cfg.(longOnly := false), e, text, post, g);
    }
  }

  /** A single listed letter is a short option even then. */
  lemma ListedLetterStaysShort(cfg: Config, c: char, post: seq<string>, regs: Regs)
    requires cfg.Valid() && c != '-' && c in cfg.optstring
    ensures var short := cfg.(longOnly := false);
            && short.Valid() && Parse(cfg, ["-" + [c]] + post, "", regs).events != []
            && Parse(short, ["-" + [c]] + post, "", regs).events != []
            && Parse(cfg, ["-" + [c]] + post, "", regs).events[0]
               == Parse(short, ["-" + [c]] + post, "", regs).events[0]
  {
    hide Parse, DecodeShort, DecodeLong;
    var e := "-" + [c];
    assert !TriedAsLong(cfg, e);
    ShortAgrees(cfg, e, [c], post, regs);
    FirstReport(cfg, e, [c], post, regs);
    FirstReport(cfg.(longOnly := false), e, [c], post, regs);
  }

  lemma ShortAgrees(cfg: Config, e: string, cluster: string, post: seq<string>, regs: Regs)
    requires cfg.Valid() && cluster != "" && !DoubleDash(e)
    ensures var short := cfg.(longOnly := false);
            short.Valid() && Decode(short, e, cluster, post, regs) == DecodeShort(cfg, cluster, post, regs)
  {
    hide IndexOf, DecodeWord;
    var short := cfg.(longOnly := false);
    if KindOf(cfg.optstring, cluster[0]).LongName? {
      WordAgrees(cfg, cluster[1..], post, regs);
    }
  }

  lemma WordAgrees(cfg: Config, text: string, post: seq<string>, regs: Regs)
    requires cfg.optstring != "" && cfg.table.Some?
    ensures DecodeWord(cfg.(longOnly := false), text, post, regs) == DecodeWord(cfg, text, post, regs)
  {
    hide DecodeLong;
    var short := cfg.(longOnly := false);
    forall t, o, f ensures DecodeLong(short, t, o, f, regs) == DecodeLong(cfg, t, o, f, regs) {
      LongAgrees(cfg, t, o, f, regs);
    }
  }

  lemma LongAgrees(cfg: Config, text: string, optarg: Option<string>, f: seq<string>, regs: Regs)
    requires cfg.optstring != "" && cfg.table.Some?
    ensures DecodeLong(cfg.(longOnly := false), text, optarg, f, regs) == DecodeLong(cfg, text, optarg, f, regs)
  {
  }

  lemma FirstReport(cfg: Config, e: string, text: string, post: seq<string>, regs: Regs)
    requires cfg.Valid() && e == "-" + text && text != "" && text[0] != '-'
    ensures var es := Parse(cfg, [e] + post, "", regs).events;
            es != [] && es[0] == Decode(cfg, e, text, post, regs).event
  {
    hide Decode;
    var all := [e] + post;
    assert all[1..] == post && e[1..] == text && Strip(e) == text;
    assert Parse(cfg, all, "", regs) == Parse(cfg, all, text, regs);
    FirstEvent(cfg, all, text, regs);
  }
}
