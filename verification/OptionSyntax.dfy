/**
  What one piece of a command line means: how an option string classifies a
  character, and what a single option yields given the elements that follow it.
  Everything here is independent of where elements sit in argv.
*/
module OptionSyntax {
  import opened Wrappers
  import opened LongOptions

  datatype Ordering = RequireOrder | Permute | ReturnInOrder

  datatype Config = Config(optstring: string, table: Option<Table>, longOnly: bool, posix: bool, ordering: Ordering) {
    ghost predicate Valid() {
      && optstring != ""
      && (ordering.Permute? ==> !posix)
      && (KindOf(optstring, 'W').LongName? ==> table.Some?)
    }
  }

  /** The settings the constructor derives from its arguments and the POSIX property. */
  function Configure(optstring: string, table: Option<Table>, longOnly: bool, posix: bool): Config {
    var s := if optstring == "" then " " else optstring;
    var stripped := if |s| > 1 then s[1..] else s;
    if s[0] == '-' then Config(stripped, table, longOnly, posix, ReturnInOrder)
    else if s[0] == '+' then Config(stripped, table, longOnly, posix, RequireOrder)
    else Config(s, table, longOnly, posix, if posix then RequireOrder else Permute)
  }

  /** First position of `c` in `s`, or |s|. */
  function IndexOf(s: string, c: char): (i: nat)
    ensures i <= |s|
    ensures i < |s| ==> s[i] == c
    ensures forall j :: 0 <= j < i ==> s[j] != c
  {
    if s == "" || s[0] == c then 0 else 1 + IndexOf(s[1..], c)
  }

  datatype Kind = Unlisted | Plain | Optional | Required | LongName

  /** Only the first mention of a character in the option string counts. */
  function KindOf(optstring: string, c: char): Kind {
    var i := IndexOf(optstring, c);
    if i == |optstring| || c == ':' then Unlisted
    else
      var spec := optstring[i..];
      if c == 'W' && |spec| > 1 && spec[1] == ';' then LongName
      else if |spec| > 1 && spec[1] == ':' then
        if |spec| > 2 && spec[2] == ':' then Optional else Required
      else Plain
  }

  // ---------- option strings as lists of declarations ----------

  datatype Declaration = Declaration(c: char, kind: Kind)

  /** Only W can be declared as the carrier of a long name. */
  predicate Declarable(d: Declaration) {
    d.c != ':' && d.c != ';' && !d.kind.Unlisted? && (d.kind.LongName? ==> d.c == 'W')
  }

  function Suffix(kind: Kind): string {
    match kind
    case Required => ":"
    case Optional => "::"
    case LongName => ";"
    case _ => ""
  }

  /** The option string an application writes for its options. */
  function Written(ds: seq<Declaration>): string {
    if ds == [] then "" else [ds[0].c] + Suffix(ds[0].kind) + Written(ds[1..])
  }

  /** The kind with which `c` is declared first. */
  function Declared(ds: seq<Declaration>, c: char): Kind {
    if ds == [] then Unlisted else if ds[0].c == c then ds[0].kind else Declared(ds[1..], c)
  }

  predicate TakesLongNames(ds: seq<Declaration>) {
    ds != [] && (ds[0].kind.LongName? || TakesLongNames(ds[1..]))
  }

  lemma {:induction false} IndexShifts(front: string, back: string, c: char)
    requires c !in front
    ensures IndexOf(front + back, c) == |front| + IndexOf(back, c)
  {
    if front == "" {
      assert front + back == back;
    } else {
      assert (front + back)[1..] == front[1..] + back;
      IndexShifts(front[1..], back, c);
    }
  }

  lemma KindShifts(front: string, back: string, c: char)
    requires c !in front
    ensures KindOf(front + back, c) == KindOf(back, c)
  {
    hide IndexOf;
    IndexShifts(front, back, c);
    var i := IndexOf(back, c);
    assert (front + back)[|front| + i..] == back[i..];
  }

  lemma WrittenStarts(ds: seq<Declaration>)
    requires forall k :: 0 <= k < |ds| ==> Declarable(ds[k])
    ensures Written(ds) != "" ==> Written(ds)[0] != ':' && Written(ds)[0] != ';'
  {
  }

  /** The first declaration says all there is to say about its letter. */
  lemma HeadIsRead(d: Declaration, back: string)
    requires Declarable(d) && (back != "" ==> back[0] != ':' && back[0] != ';')
    ensures KindOf([d.c] + Suffix(d.kind) + back, d.c) == d.kind
  {
    var s := [d.c] + Suffix(d.kind) + back;
    assert IndexOf(s, d.c) == 0 && s[0..] == s;
  }

  /** Reading an option string gives back what was declared, the first declaration of a letter counting. */
  lemma {:induction false} OptionStringMeansItsDeclarations(ds: seq<Declaration>, c: char)
    requires forall k :: 0 <= k < |ds| ==> Declarable(ds[k])
    ensures KindOf(Written(ds), c) ==
      if c != ';' then Declared(ds, c)
      else if TakesLongNames(ds) then Plain else Unlisted
  {
    hide KindOf;
    if ds == [] {
      NothingListed(c);
    } else {
      var d, back := ds[0], Written(ds[1..]);
      WrittenStarts(ds[1..]);
      OptionStringMeansItsDeclarations(ds[1..], c);
      if c == d.c {
        HeadIsRead(d, back);
      } else if c == ';' && d.kind.LongName? {
        KindShifts([d.c], ";" + back, c);
        SemicolonIsRead(back);
        assert [d.c] + (";" + back) == Written(ds);
      } else if c == ':' {
        ColonIsNoOption(Written(ds));
        ColonIsNoOption(back);
      } else {
        KindShifts([d.c] + Suffix(d.kind), back, c);
      }
    }
  }

  lemma NothingListed(c: char)
    ensures KindOf("", c).Unlisted?
  {
  }

  lemma ColonIsNoOption(s: string)
    ensures KindOf(s, ':').Unlisted?
  {
  }

  /** The ';' of "W;" is itself taken for an option without argument. */
  lemma SemicolonIsRead(back: string)
    requires back != "" ==> back[0] != ':' && back[0] != ';'
    ensures KindOf(";" + back, ';').Plain?
  {
    var s := ";" + back;
    assert IndexOf(s, ';') == 0 && s[0..] == s;
  }

  // ---------- elements of argv ----------

  /** An element that is not an option: empty, a lone dash, or no leading dash. */
  predicate IsOperand(e: string) {
    e == "" || e[0] != '-' || e == "-"
  }

  predicate DoubleDash(e: string) {
    |e| >= 2 && e[0] == '-' && e[1] == '-'
  }

  /** The text of an option element after its leading punctuation. */
  function Strip(e: string): (t: string)
    requires !IsOperand(e) && e != "--"
    ensures t != "" && |t| < |e| && t == e[|e| - |t|..]
  {
    if DoubleDash(e) then e[2..] else e[1..]
  }

  /** Is the element to be tried as a long option? */
  predicate TriedAsLong(cfg: Config, e: string) {
    && cfg.table.Some?
    && (DoubleDash(e) || (cfg.longOnly && (|e| > 2 || (|e| == 2 && e[1] !in cfg.optstring))))
  }

  /**
    What a call reports, kept apart from the integers that encode it, since a
    long option may choose any integer as its value.
  */
  datatype Code =
    | End                            // no more options
    | Operand                        // an operand passed in order
    | Short(c: char)
    | Long(val: int)
    | Stored(flag: nat, val: int)    // val written to the caller's buffer
    | UnknownLong                    // -W with a name that is not a long option
    | Illegal                        // unknown option
    | Ambiguity
    | Unwanted                       // an argument given to an option without one
    | Missing(quiet: bool)           // required argument absent; ':' instead of '?' if quiet

  function AsInt(code: Code): int {
    match code
    case End => -1
    case Operand => 1
    case Short(c) => c as int
    case Long(v) => v
    case Stored(_, _) => 0
    case UnknownLong => 'W' as int
    case Missing(quiet) => if quiet then ':' as int else '?' as int
    case _ => '?' as int
  }

  /** The two observable registers that survive from call to call. */
  datatype Regs = Regs(optopt: int, longind: int)

  /** All a caller can observe of one call. */
  datatype Event = Event(code: Code, optarg: Option<string>, regs: Regs)

  /**
    One decoded option: `used` elements of argv are finished, `cluster` is what
    is left of the current element, and `stop` forces the end of the scan.
  */
  datatype Step = Step(event: Event, used: nat, cluster: string, stop: bool)

  predicate Quiet(cfg: Config)
    requires cfg.optstring != ""
  {
    cfg.optstring[0] == ':'
  }

  /** Name, or name=argument, against the table; None when no entry fits. */
  function DecodeLong(cfg: Config, text: string, optarg: Option<string>, following: seq<string>, regs: Regs)
    : (r: Option<Step>)
    requires cfg.optstring != "" && cfg.table.Some?
    ensures r.Some? ==> 1 <= r.value.used <= 2 && r.value.used <= 1 + |following|
    ensures r.Some? ==> r.value.cluster == "" && !r.value.stop && !r.value.event.code.End?
  {
    var table := cfg.table.value;
    var eq := IndexOf(text, '=');
    match Lookup(table, text[..eq])
    case NoMatch => None
    case Ambiguous(i) => Some(Step(Event(Ambiguity, optarg, Regs(0, i)), 1, "", false))
    case Chosen(i) =>
      var opt := table[i];
      var success := if opt.flag.Some? then Stored(opt.flag.value, opt.val) else Long(opt.val);
      if eq < |text| then
        if opt.hasArg.NoArgument? then Some(Step(Event(Unwanted, optarg, Regs(opt.val, i)), 1, "", false))
        else Some(Step(Event(success, Some(text[eq + 1..]), Regs(regs.optopt, i)), 1, "", false))
      else if !opt.hasArg.RequiredArgument? then Some(Step(Event(success, optarg, Regs(regs.optopt, i)), 1, "", false))
      else if following == [] then Some(Step(Event(Missing(Quiet(cfg)), optarg, Regs(opt.val, i)), 1, "", false))
      else Some(Step(Event(success, Some(following[0]), Regs(regs.optopt, i)), 2, "", false))
  }

  /** -W name: the long name is the rest of the element or the next element. */
  function DecodeWord(cfg: Config, text: string, following: seq<string>, regs: Regs): (s: Step)
    requires cfg.optstring != "" && cfg.table.Some?
    ensures 1 <= s.used <= 1 + |following| && s.cluster == "" && !s.stop && !s.event.code.End?
  {
    if text == "" && following == [] then
      Step(Event(Missing(Quiet(cfg)), None, Regs('W' as int, regs.longind)), 1, "", false)
    else
      var attached := text != "";
      var name := if attached then text else following[0];
      var after := if attached then following else following[1..];
      var extra := if attached then 0 else 1;
      match DecodeLong(cfg, name, Some(name), after, regs)
      case Some(s) => s.(used := s.used + extra)
      case None => Step(Event(UnknownLong, Some(name), Regs(regs.optopt, -1)), 1 + extra, "", false)
  }

  /** The first character of a cluster, as a short option. */
  function DecodeShort(cfg: Config, cluster: string, following: seq<string>, regs: Regs): (s: Step)
    requires cfg.Valid() && cluster != ""
    ensures s.used <= 1 + |following| && !s.event.code.End?
    ensures s.used == 0 <==> s.cluster != ""
    ensures s.used == 0 ==> s.cluster == cluster[1..] && !s.stop
    ensures s.stop ==> cfg.posix
  {
    var c, text := cluster[0], cluster[1..];
    var used := if text == "" then 1 else 0;
    match KindOf(cfg.optstring, c)
    case Unlisted => Step(Event(Illegal, None, Regs(c as int, regs.longind)), used, text, false)
    case Plain => Step(Event(Short(c), None, regs), used, text, false)
    case Optional => Step(Event(Short(c), if text == "" then None else Some(text), regs), 1, "", false)
    case LongName => DecodeWord(cfg, text, following, regs)
    case Required =>
      var missing := Missing(Quiet(cfg));
      var blame := Regs(c as int, regs.longind);
      if text != "" then Step(Event(Short(c), Some(text), regs), 1, "", false)
      else if following == [] then Step(Event(missing, None, blame), 1, "", false)
      else if cfg.posix && following[0] == "--" then
        if |following| == 1 then Step(Event(missing, Some("--"), blame), 2, "", false)
        else Step(Event(Short(c), Some(following[1]), regs), 3, "", true)
      else Step(Event(Short(c), Some(following[0]), regs), 2, "", false)
  }

  /**
    The next option of element `e`, of which `cluster` is still to be read.
    Later pieces of a cluster are tried as long options again when `e` is.
  */
  function Decode(cfg: Config, e: string, cluster: string, following: seq<string>, regs: Regs): (s: Step)
    requires cfg.Valid() && cluster != ""
    ensures s.used <= 1 + |following| && !s.event.code.End?
    ensures s.used == 0 <==> s.cluster != ""
    ensures s.used == 0 ==> s.cluster == cluster[1..] && !s.stop
    ensures s.stop ==> cfg.posix
  {
    if TriedAsLong(cfg, e) then
      match DecodeLong(cfg, cluster, None, following, regs)
      case Some(s) => s
      case None =>
        if !cfg.longOnly || DoubleDash(e) || cluster[0] !in cfg.optstring
        then Step(Event(Illegal, None, Regs(0, -1)), 1, "", false)
        else DecodeShort(cfg, cluster, following, Regs(regs.optopt, -1))
    else DecodeShort(cfg, cluster, following, regs)
  }

  ghost predicate Shares(f: seq<string>, g: seq<string>, n: int) {
    n <= |f| && n <= |g| && forall k :: 0 <= k < n ==> f[k] == g[k]
  }

  lemma LongIsLocal(cfg: Config, text: string, optarg: Option<string>, f: seq<string>, g: seq<string>, regs: Regs)
    requires cfg.optstring != "" && cfg.table.Some?
    ensures var r := DecodeLong(cfg, text, optarg, f, regs);
            && (r.None? ==> DecodeLong(cfg, text, optarg, g, regs).None?)
            && (r.Some? && r.value.event.code.Missing? ==> f == [] && r.value.used == 1)
            && (r.Some? && !r.value.event.code.Missing? && Shares(f, g, r.value.used - 1)
                ==> DecodeLong(cfg, text, optarg, g, regs) == r)
  {
  }

  lemma WordIsLocal(cfg: Config, text: string, f: seq<string>, g: seq<string>, regs: Regs)
    requires cfg.optstring != "" && cfg.table.Some?
    ensures var s := DecodeWord(cfg, text, f, regs);
            && (s.event.code.Missing? ==> s.used == 1 + |f|)
            && (!s.event.code.Missing? && Shares(f, g, s.used - 1) ==> DecodeWord(cfg, text, g, regs) == s)
  {
    hide Lookup;
    if text != "" {
      LongIsLocal(cfg, text, Some(text), f, g, regs);
    } else if f != [] {
      var s := DecodeWord(cfg, text, f, regs);
      if g != [] {
        LongIsLocal(cfg, f[0], Some(f[0]), f[1..], g[1..], regs);
      }
    }
  }

  lemma ShortIsLocal(cfg: Config, cluster: string, f: seq<string>, g: seq<string>, regs: Regs)
    requires cfg.Valid() && cluster != ""
    ensures var s := DecodeShort(cfg, cluster, f, regs);
            && (s.event.code.Missing? ==> s.used == 1 + |f|)
            && (!s.event.code.Missing? && Shares(f, g, s.used - 1) ==> DecodeShort(cfg, cluster, g, regs) == s)
  {
    hide DecodeLong, DecodeWord, IndexOf;
    if KindOf(cfg.optstring, cluster[0]).LongName? {
      WordIsLocal(cfg, cluster[1..], f, g, regs);
    }
  }

  /**
    A decoded option depends on the following elements only as far as it uses
    them, and a missing argument is reported only when argv is exhausted.
  */
  lemma DecodeIsLocal(cfg: Config, e: string, cluster: string, f: seq<string>, g: seq<string>, regs: Regs)
    requires cfg.Valid() && cluster != ""
    ensures var s := Decode(cfg, e, cluster, f, regs);
            && (s.event.code.Missing? ==> s.used == 1 + |f|)
            && (!s.event.code.Missing? && Shares(f, g, s.used - 1) ==> Decode(cfg, e, cluster, g, regs) == s)
  {
    var blank := Regs(regs.optopt, -1);
    ShortIsLocal(cfg, cluster, f, g, regs);
    ShortIsLocal(cfg, cluster, f, g, blank);
    if cfg.table.Some? {
      LongIsLocal(cfg, cluster, None, f, g, regs);
    }
  }

  /** Is the option that `text` names given an argument, in the text or by the next element? */
  predicate GivenArgument(table: Table, text: string, f: seq<string>) {
    var m := Lookup(table, text[..IndexOf(text, '=')]);
    && m.Chosen?
    && (if IndexOf(text, '=') < |text| then !table[m.index].hasArg.NoArgument?
        else table[m.index].hasArg.RequiredArgument? && f != [])
  }

  /**
    "-Wname" behaves as "--name" except that it leaves the name itself as the
    option's argument: the reports are the same exactly if an argument is given.
  */
  lemma WordIsLongOption(cfg: Config, text: string, f: seq<string>, regs: Regs)
    requires cfg.optstring != "" && cfg.table.Some? && text != ""
    ensures var long := DecodeLong(cfg, text, None, f, regs);
            var word := DecodeWord(cfg, text, f, regs);
            && (long.None? <==> word.event.code.UnknownLong?)
            && (long.Some? ==>
                  && word.used == long.value.used && word.event.code == long.value.event.code
                  && word.event.regs == long.value.event.regs
                  && word.event.optarg ==
                     (if long.value.event.optarg.Some? then long.value.event.optarg else Some(text))
                  && (word.event == long.value.event <==> GivenArgument(cfg.table.value, text, f)))
  {
    hide Lookup;
    LongIsLocal(cfg, text, Some(text), f, f, regs);
  }

  /** "-Wname" and "--name" for an option without argument: only the first leaves something in optarg. */
  lemma WordLeavesItsName(regs: Regs)
    ensures var cfg := Configure("W;", Some([LongOpt("name", NoArgument, None, 1)]), false, false);
            && DecodeWord(cfg, "name", [], regs).event == Event(Long(1), Some("name"), Regs(regs.optopt, 0))
            && DecodeLong(cfg, "name", None, [], regs)
               == Some(Step(Event(Long(1), None, Regs(regs.optopt, 0)), 1, "", false))
  {
    var table := [LongOpt("name", NoArgument, None, 1)];
    var i := IndexOf("name", '=');
    assert forall k :: 0 <= k < 4 ==> "name"[k] != '=';
    assert i == 4 && "name"[..4] == "name";
    assert FirstFit(table, "name", true, 0) == 0 by {
      assert Fits(table[0], "name", true);
    }
    assert Lookup(table, "name") == Chosen(0);
  }
}
