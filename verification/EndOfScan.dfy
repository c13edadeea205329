/**
  What End means to a caller: when further calls go on reporting it, and when
  the integer -1 stands for nothing else.
*/
module EndOfScan {
  import opened Wrappers
  import opened LongOptions
  import opened OptionSyntax
  import opened OptionParser
  import opened OptionLaws
  import opened CommandRewrites

  // ---------- calling again ----------

  /** How many of the first elements a scan passes without reporting anything. */
  function Passed(cfg: Config, es: seq<string>): (n: nat)
    ensures n <= |es| && (!cfg.ordering.Permute? ==> n == 0)
    ensures forall k :: 0 <= k < n ==> IsOperand(es[k])
    ensures cfg.ordering.Permute? && n < |es| ==> !IsOperand(es[n])
  {
    if cfg.ordering.Permute? && es != [] && IsOperand(es[0]) then 1 + Passed(cfg, es[1..]) else 0
  }

  /** Nothing is left, or the scan may not go past the next operand. */
  predicate NothingToScan(cfg: Config, es: seq<string>) {
    var n := Passed(cfg, es);
    n == |es| || (cfg.ordering.RequireOrder? && IsOperand(es[0]))
  }

  /** Is the next thing to be met the end, or a "--"? */
  predicate EndIsNext(cfg: Config, es: seq<string>) {
    NothingToScan(cfg, es) || es[Passed(cfg, es)] == "--"
  }

  lemma OptionIsReported(cfg: Config, es: seq<string>, regs: Regs)
    requires cfg.Valid() && es != [] && !IsOperand(es[0]) && es[0] != "--"
    ensures var r := Parse(cfg, es, "", regs);
            r.events != [] && !r.events[0].code.End?
  {
    hide Decode;
    FirstEvent(cfg, es, Strip(es[0]), regs);
  }

  /** The first report is End, and End alone, exactly if nothing or "--" is next. */
  lemma {:induction false} EndComesNext(cfg: Config, es: seq<string>, regs: Regs)
    requires cfg.Valid()
    ensures var r := Parse(cfg, es, "", regs);
            && r.events != [] && (r.events[0].code.End? <==> EndIsNext(cfg, es))
            && (NothingToScan(cfg, es) ==> r == Run([EndEvent(regs)], [], es, false))
            && (EndIsNext(cfg, es) && !NothingToScan(cfg, es) ==> r.scanned == ["--"])
  {
    hide Decode;
    if es != [] && es[0] != "--" {
      if !IsOperand(es[0]) {
        OptionIsReported(cfg, es, regs);
      } else if cfg.ordering.Permute? {
        EndComesNext(cfg, es[1..], regs);
        assert es[..1] + es[1..] == es;
      }
    }
  }

  /** After "--" a further call goes on with the options behind it. */
  lemma EndIsNotSticky(regs: Regs)
    ensures var cfg := Configure("a", None, false, false);
            && cfg.Valid()
            && Parse(cfg, ["--", "-a"], "", regs) == Run([EndEvent(regs)], ["--"], ["-a"], true)
            && Parse(cfg, ["-a"], "", regs).events == [Event(Short('a'), None, regs), EndEvent(regs)]
  {
    var cfg := Configure("a", None, false, false);
    assert IndexOf("a", 'W') == 1 by {
      assert "a"[1..] == "";
    }
    assert ["--", "-a"][1..] == ["-a"] && "-a" == "-" + ['a'];
    assert KindOf("a", 'a').Plain? by {
      assert "a"[0..] == "a";
    }
    assert ["-" + ['a']] + [] == ["-a"];
    SimpleAlone(cfg, 'a', [], regs);
    assert DecodeShort(cfg, ['a'], [], regs).event == Event(Short('a'), None, regs);
    assert Parse(cfg, [], "", regs).events == [EndEvent(regs)];
  }

  // ---------- loops that stop at -1 ----------

  /** Entry k returns the integer for End. */
  predicate ReturnsMinusOne(table: Table, k: nat) {
    k < |table| && table[k].flag.None? && table[k].val == -1
  }

  /**
    Typing `name` asks for entry k, which returns -1. The empty name can only be
    typed in front of an argument, or behind -W.
  */
  predicate Misleads(cfg: Config, k: nat, name: string) {
    && cfg.table.Some? && ReturnsMinusOne(cfg.table.value, k)
    && '=' !in name && Lookup(cfg.table.value, name) == Chosen(k)
    && (name != "" || !cfg.table.value[k].hasArg.NoArgument? || KindOf(cfg.optstring, 'W').LongName?)
  }

  ghost predicate Harmless(cfg: Config) {
    forall k: nat, name :: !Misleads(cfg, k, name)
  }

  lemma LongIsHarmless(cfg: Config, text: string, optarg: Option<string>, f: seq<string>, regs: Regs)
    requires cfg.optstring != "" && cfg.table.Some? && Harmless(cfg)
    requires text != "" || KindOf(cfg.optstring, 'W').LongName?
    ensures var r := DecodeLong(cfg, text, optarg, f, regs); r.Some? ==> AsInt(r.value.event.code) != -1
  {
    hide KindOf, Lookup;
    var name := text[..IndexOf(text, '=')];
    var m := Lookup(cfg.table.value, name);
    if m.Chosen? {
      assert !Misleads(cfg, m.index, name);
    }
  }

  lemma ShortIsHarmless(cfg: Config, cluster: string, f: seq<string>, regs: Regs)
    requires cfg.Valid() && cluster != "" && Harmless(cfg)
    ensures AsInt(DecodeShort(cfg, cluster, f, regs).event.code) != -1
  {
    hide DecodeLong, Harmless;
    var c, text := cluster[0], cluster[1..];
    if KindOf(cfg.optstring, c).LongName? && (text != "" || f != []) {
      assert c == 'W';
      var name := if text != "" then text else f[0];
      LongIsHarmless(cfg, name, Some(name), if text != "" then f else f[1..], regs);
    }
  }

  lemma DecodeIsHarmless(cfg: Config, e: string, cluster: string, f: seq<string>, regs: Regs)
    requires cfg.Valid() && cluster != "" && Harmless(cfg)
    ensures AsInt(Decode(cfg, e, cluster, f, regs).event.code) != -1
  {
    hide DecodeLong, DecodeShort, Harmless;
    ShortIsHarmless(cfg, cluster, f, regs);
    ShortIsHarmless(cfg, cluster, f, Regs(regs.optopt, -1));
    if cfg.table.Some? {
      LongIsHarmless(cfg, cluster, None, f, regs);
    }
  }

  /** The integer -1 is reported at the end and nowhere else. */
  ghost predicate MinusOneIsLast(es: seq<Event>) {
    es != [] && forall k :: 0 <= k < |es| ==> (AsInt(es[k].code) == -1 <==> k == |es| - 1)
  }

  lemma MinusOneStaysLast(e: Event, es: seq<Event>)
    requires AsInt(e.code) != -1 && MinusOneIsLast(es)
    ensures MinusOneIsLast([e] + es)
  {
  }

  /** A caller that loops until the integer -1 sees the whole run. */
  lemma {:induction false} TheUsualLoopSeesEverything(cfg: Config, rest: seq<string>, cluster: string, regs: Regs)
    requires cfg.Valid() && (cluster != "" ==> rest != []) && Harmless(cfg)
    ensures MinusOneIsLast(Parse(cfg, rest, cluster, regs).events)
    decreases Budget(rest, cluster)
  {
    if cluster == "" {
      if rest != [] && rest[0] != "--" {
        if !IsOperand(rest[0]) {
          TheUsualLoopSeesEverything(cfg, rest, Strip(rest[0]), regs);
        } else if !cfg.ordering.RequireOrder? {
          var q := Parse(cfg, rest[1..], "", regs);
          TheUsualLoopSeesEverything(cfg, rest[1..], "", regs);
          assert [] + q.events == q.events;
          MinusOneStaysLast(Event(Operand, Some(rest[0]), regs), q.events);
        }
      }
    } else {
      DecodeIsHarmless(cfg, rest[0], cluster, rest[1..], regs);
      var s := Decode(cfg, rest[0], cluster, rest[1..], regs);
      StepSpendsBudget(rest, cluster, s);
      if !s.stop {
        TheUsualLoopSeesEverything(cfg, rest[s.used..], s.cluster, s.event.regs);
        MinusOneStaysLast(s.event, Parse(cfg, rest[s.used..], s.cluster, s.event.regs).events);
      }
    }
  }

  /** A run whose first report is -1 but which goes on. */
  lemma ReportedTooEarly(r: Run, q: Run, e: Event)
    requires SameReports(r, q.After([e], [], [])) && q.events != [] && AsInt(e.code) == -1
    ensures !MinusOneIsLast(r.events)
  {
    assert r.events == [e] + q.events && r.events[0] == e;
  }

  /** Asking for an option whose value is -1 ends the usual loop too early. */
  lemma MinusOneMisleads(cfg: Config, k: nat, name: string, regs: Regs) returns (argv: seq<string>)
    requires cfg.Valid() && Misleads(cfg, k, name)
    ensures !MinusOneIsLast(Parse(cfg, argv, "", regs).events)
  {
    hide Parse, Lookup, KindOf, MinusOneIsLast;
    var needed := cfg.table.value[k].hasArg;
    if name != "" {
      argv := AskedByName(cfg, k, name, if needed.RequiredArgument? then [""] else [], regs);
    } else if !needed.NoArgument? {
      argv := AskedByName(cfg, k, "=", [], regs);
    } else {
      argv := AskedBehindW(cfg, k, regs);
    }
  }

  lemma Looked(cfg: Config, k: nat, text: string, optarg: Option<string>, post: seq<string>, regs: Regs)
    returns (s: Step)
    requires cfg.optstring != "" && cfg.table.Some? && ReturnsMinusOne(cfg.table.value, k)
    requires Lookup(cfg.table.value, text[..IndexOf(text, '=')]) == Chosen(k)
    requires var needed := cfg.table.value[k].hasArg;
             if '=' in text then !needed.NoArgument? else needed.RequiredArgument? ==> post != []
    ensures DecodeLong(cfg, text, optarg, post, regs) == Some(s) && s.event.code == Long(-1)
  {
    hide Lookup;
    assert '=' in text <==> IndexOf(text, '=') < |text|;
    s := DecodeLong(cfg, text, optarg, post, regs).value;
  }

  lemma AskedByName(cfg: Config, k: nat, text: string, post: seq<string>, regs: Regs) returns (argv: seq<string>)
    requires cfg.Valid() && cfg.table.Some? && ReturnsMinusOne(cfg.table.value, k) && text != ""
    requires text == "=" || '=' !in text
    requires Lookup(cfg.table.value, if text == "=" then "" else text) == Chosen(k)
    requires var needed := cfg.table.value[k].hasArg;
             if text == "=" then !needed.NoArgument? else needed.RequiredArgument? ==> post != []
    ensures !MinusOneIsLast(Parse(cfg, argv, "", regs).events)
  {
    hide Parse, Lookup, KindOf, MinusOneIsLast, DecodeLong;
    assert text[..IndexOf(text, '=')] == if text == "=" then "" else text;
    argv := ["--" + text] + post;
    var s := Looked(cfg, k, text, None, post, regs);
    LongAlone(cfg, text, post, regs, s);
    var q := Parse(cfg, post[s.used - 1..], "", s.event.regs);
    RunEnds(cfg, post[s.used - 1..], "", s.event.regs);
    ReportedTooEarly(Parse(cfg, argv, "", regs), q, s.event);
  }

  lemma AskedBehindW(cfg: Config, k: nat, regs: Regs) returns (argv: seq<string>)
    requires cfg.Valid() && cfg.table.Some? && ReturnsMinusOne(cfg.table.value, k)
    requires cfg.table.value[k].hasArg.NoArgument? && KindOf(cfg.optstring, 'W').LongName?
    requires Lookup(cfg.table.value, "") == Chosen(k)
    ensures !MinusOneIsLast(Parse(cfg, argv, "", regs).events)
  {
    hide Parse, Lookup, MinusOneIsLast, DecodeLong, DecodeShort, IndexOf;
    argv := ["-" + "W"] + [""];
    var t := Looked(cfg, k, "", Some(""), [], regs);
    var s := t.(used := t.used + 1);
    assert DecodeWord(cfg, "", [""], regs) == s by {
      assert [""][1..] == [];
    }
    ReadBehindW(cfg, [""], regs);
    var q := Parse(cfg, [""][s.used - 1..], "", s.event.regs);
    RunEnds(cfg, [""][s.used - 1..], "", s.event.regs);
    ReportedTooEarly(Parse(cfg, argv, "", regs), q, s.event);
  }

  /** "-W" before another element, whether or not single dashes may start long options. */
  lemma ReadBehindW(cfg: Config, post: seq<string>, regs: Regs)
    requires cfg.Valid() && KindOf(cfg.optstring, 'W').LongName? && post != []
    ensures var s := DecodeWord(cfg, "", post, regs);
            SameReports(Parse(cfg, ["-" + "W"] + post, "", regs),
                        Parse(cfg, post[s.used - 1..], "", s.event.regs).After([s.event], [], []))
  {
    hide DecodeWord, DecodeLong;
    var e := "-" + "W";
    var all := [e] + post;
    assert 'W' in cfg.optstring by {
      assert IndexOf(cfg.optstring, 'W') < |cfg.optstring|;
    }
    var s := DecodeWord(cfg, "", post, regs);
    assert e[1..] == "W" && "W"[1..] == "" && Strip(e) == "W";
    assert all[1..] == post && all[s.used..] == post[s.used - 1..];
    assert !TriedAsLong(cfg, e) && Decode(cfg, e, "W", post, regs) == s;
    assert Parse(cfg, all, "", regs) == Parse(cfg, all, "W", regs);
    FirstStep(cfg, all, "W", regs);
  }

  /** The usual loop sees every run exactly if no name asks for an option that returns -1. */
  lemma TheUsualLoopIsRight(cfg: Config, regs: Regs)
    requires cfg.Valid()
    ensures (forall argv :: MinusOneIsLast(Parse(cfg, argv, "", regs).events)) <==> Harmless(cfg)
  {
    hide Parse, MinusOneIsLast, Misleads;
    if Harmless(cfg) {
      forall argv ensures MinusOneIsLast(Parse(cfg, argv, "", regs).events) {
        TheUsualLoopSeesEverything(cfg, argv, "", regs);
      }
    } else {
      var k: nat, name :| Misleads(cfg, k, name);
      var argv := MinusOneMisleads(cfg, k, name, regs);
    }
  }

  /** Names that can be typed in full, each of one option. */
  ghost predicate Typeable(table: Table) {
    DistinctNames(table) && forall k :: 0 <= k < |table| ==> table[k].name != "" && '=' !in table[k].name
  }

  /** For a table as one would write it, no entry may return -1. */
  lemma TypeableTables(cfg: Config)
    requires cfg.table.Some? && Typeable(cfg.table.value)
    ensures Harmless(cfg) <==> forall k: nat :: !ReturnsMinusOne(cfg.table.value, k)
  {
    hide Lookup, KindOf;
    var table := cfg.table.value;
    forall k: nat | ReturnsMinusOne(table, k) ensures Misleads(cfg, k, table[k].name) {
      ExactNameWins(table, table[k].name, k);
    }
  }
}
