/**
  Laws of the one-pass parser: what the options and operands of a run are, and
  what a strict scan makes of the permuted argv.
*/
module OptionLaws {
  import opened Wrappers
  import opened LongOptions
  import opened OptionSyntax
  import opened OptionParser

  predicate LacksArgument(events: seq<Event>) {
    exists k :: 0 <= k < |events| && events[k].code.Missing?
  }

  predicate ArgumentMissing(r: Run) { LacksArgument(r.events) }

  lemma MissingSplits(s: Step, q: Run, passed: seq<string>)
    ensures ArgumentMissing(q.After([s.event], passed, [])) <==> s.event.code.Missing? || ArgumentMissing(q)
  {
    var r := q.After([s.event], passed, []);
    if ArgumentMissing(q) {
      var k :| 0 <= k < |q.events| && q.events[k].code.Missing?;
      assert r.events[k + 1].code.Missing?;
    }
    if s.event.code.Missing? {
      assert r.events[0].code.Missing?;
    }
    if ArgumentMissing(r) && !s.event.code.Missing? {
      var k :| 0 <= k < |r.events| && r.events[k].code.Missing?;
      assert q.events[k - 1].code.Missing?;
    }
  }

  /** A half-read element belongs to the scanned part. */
  lemma {:induction false} HeadIsScanned(cfg: Config, rest: seq<string>, cluster: string, regs: Regs)
    requires cfg.Valid() && cluster != "" && rest != []
    ensures var r := Parse(cfg, rest, cluster, regs); r.scanned != [] && r.scanned[0] == rest[0]
    decreases |cluster|
  {
    var s := Decode(cfg, rest[0], cluster, rest[1..], regs);
    if s.used == 0 {
      assert rest[0..] == rest;
      HeadIsScanned(cfg, rest, s.cluster, s.event.regs);
    }
  }

  // ---------- scanning the permuted argv again ----------

  /** The settings that a leading '+' in the option string selects. */
  function Strict(cfg: Config): Config { cfg.(ordering := RequireOrder) }

  lemma PlusSelectsStrict(optstring: string, table: Option<Table>, longOnly: bool)
    requires Configure(optstring, table, longOnly, false).ordering.Permute?
    ensures var s := if optstring == "" then " " else optstring;
            Configure("+" + s, table, longOnly, false) == Strict(Configure(optstring, table, longOnly, false))
  {
    var s := if optstring == "" then " " else optstring;
    assert ("+" + s)[1..] == s;
  }

  lemma StrictDecodes(cfg: Config, e: string, cluster: string, f: seq<string>, regs: Regs)
    requires cfg.Valid() && cluster != ""
    ensures Strict(cfg).Valid() && Decode(Strict(cfg), e, cluster, f, regs) == Decode(cfg, e, cluster, f, regs)
  {
    hide DecodeLong, DecodeShort;
    StrictLong(cfg, cluster, None, f, regs);
    StrictShort(cfg, cluster, f, regs);
    StrictShort(cfg, cluster, f, Regs(regs.optopt, -1));
  }

  lemma StrictLong(cfg: Config, text: string, optarg: Option<string>, f: seq<string>, regs: Regs)
    requires cfg.optstring != ""
    ensures cfg.table.Some? ==> DecodeLong(Strict(cfg), text, optarg, f, regs) == DecodeLong(cfg, text, optarg, f, regs)
  {
  }

  lemma StrictWord(cfg: Config, text: string, f: seq<string>, regs: Regs)
    requires cfg.optstring != "" && cfg.table.Some?
    ensures DecodeWord(Strict(cfg), text, f, regs) == DecodeWord(cfg, text, f, regs)
  {
    if text != "" {
      StrictLong(cfg, text, Some(text), f, regs);
    } else if f != [] {
      StrictLong(cfg, f[0], Some(f[0]), f[1..], regs);
    }
  }

  lemma StrictShort(cfg: Config, cluster: string, f: seq<string>, regs: Regs)
    requires cfg.Valid() && cluster != ""
    ensures Strict(cfg).Valid() && DecodeShort(Strict(cfg), cluster, f, regs) == DecodeShort(cfg, cluster, f, regs)
  {
    hide DecodeWord, DecodeLong, IndexOf;
    if KindOf(cfg.optstring, cluster[0]).LongName? {
      StrictWord(cfg, cluster[1..], f, regs);
    }
  }

  lemma SharedFront(rest: seq<string>, used: nat, back: seq<string>)
    requires 0 < |rest| && used <= |rest| && (used == 0 ==> back != [] && back[0] == rest[0])
    ensures var argv := rest[..used] + back;
            && argv != [] && argv[0] == rest[0] && argv[used..] == back && argv[..used] == rest[..used]
            && Shares(rest[1..], argv[1..], used - 1)
            && (used == |rest| && back == [] ==> argv == rest)
  {
  }

  lemma ScannedFront(cfg: Config, rest: seq<string>, cluster: string, regs: Regs, tail: seq<string>)
    requires cfg.Valid() && cluster != "" && rest != []
    ensures var s := Decode(cfg, rest[0], cluster, rest[1..], regs);
            var back := Parse(cfg, rest[s.used..], s.cluster, s.event.regs).scanned + tail;
            && (!s.stop ==> Parse(cfg, rest, cluster, regs).scanned + tail == rest[..s.used] + back)
            && (s.used == 0 ==> back != [] && back[0] == rest[0])
  {
    hide Decode;
    var s := Decode(cfg, rest[0], cluster, rest[1..], regs);
    if s.used == 0 {
      HeadIsScanned(cfg, rest[s.used..], s.cluster, s.event.regs);
    }
  }

  /** The option decoded first is the same when argv is permuted behind it. */
  lemma RescanStep(cfg: Config, rest: seq<string>, cluster: string, regs: Regs, back: seq<string>)
    requires cfg.Valid() && cluster != "" && rest != []
    requires var s := Decode(cfg, rest[0], cluster, rest[1..], regs);
             && (s.event.code.Missing? ==> back == [])
             && (s.used == 0 ==> back != [] && back[0] == rest[0])
    ensures var s := Decode(cfg, rest[0], cluster, rest[1..], regs);
            var argv := rest[..s.used] + back;
            && argv != [] && argv[0] == rest[0] && s.used <= |argv|
            && argv[..s.used] == rest[..s.used] && argv[s.used..] == back
            && Strict(cfg).Valid() && Decode(Strict(cfg), argv[0], cluster, argv[1..], regs) == s
  {
    var s := Decode(cfg, rest[0], cluster, rest[1..], regs);
    SharedFront(rest, s.used, back);
    DecodeIsLocal(cfg, rest[0], cluster, rest[1..], rest[1..], regs);
    SameDecode(cfg, rest, cluster, regs, rest[..s.used] + back);
  }

  lemma SameDecode(cfg: Config, rest: seq<string>, cluster: string, regs: Regs, argv: seq<string>)
    requires cfg.Valid() && cluster != "" && rest != [] && argv != [] && argv[0] == rest[0]
    requires var s := Decode(cfg, rest[0], cluster, rest[1..], regs);
             Shares(rest[1..], argv[1..], s.used - 1) && (s.event.code.Missing? ==> argv == rest)
    ensures Strict(cfg).Valid()
    ensures Decode(Strict(cfg), argv[0], cluster, argv[1..], regs) == Decode(cfg, rest[0], cluster, rest[1..], regs)
  {
    DecodeIsLocal(cfg, rest[0], cluster, rest[1..], argv[1..], regs);
    StrictDecodes(cfg, argv[0], cluster, argv[1..], regs);
  }

  /** One decoded option of a rescan, given that the rest of the rescan is right. */
  lemma RescanContinues(cfg: Config, rest: seq<string>, cluster: string, regs: Regs, tail: seq<string>)
    requires cfg.Valid() && cfg.ordering.Permute? && cluster != "" && rest != []
    requires var s := Decode(cfg, rest[0], cluster, rest[1..], regs);
             var q := Parse(cfg, rest[s.used..], s.cluster, s.event.regs);
             && (s.event.code.Missing? ==> tail == [])
             && Strict(cfg).Valid() && (s.cluster != "" ==> q.scanned != [])
             && Parse(Strict(cfg), q.scanned + tail, s.cluster, s.event.regs) == q.(operands := tail)
    ensures var r := Parse(cfg, rest, cluster, regs);
            && r.scanned + tail != []
            && Parse(Strict(cfg), r.scanned + tail, cluster, regs) == r.(operands := tail)
  {
    var s := Decode(cfg, rest[0], cluster, rest[1..], regs);
    var q := Parse(cfg, rest[s.used..], s.cluster, s.event.regs);
    var back := q.scanned + tail;
    if s.event.code.Missing? {
      DecodeIsLocal(cfg, rest[0], cluster, rest[1..], [], regs);
    }
    ScannedFront(cfg, rest, cluster, regs, tail);
    RescanStep(cfg, rest, cluster, regs, back);
    var argv := rest[..s.used] + back;
    assert Parse(Strict(cfg), argv, cluster, regs)
        == Parse(Strict(cfg), argv[s.used..], s.cluster, s.event.regs).After([s.event], argv[..s.used], []);
  }

  /** Once the operands are at the back, a strict scan stops exactly in front of them. */
  lemma {:induction false} RescanFinds(cfg: Config, rest: seq<string>, cluster: string, regs: Regs, tail: seq<string>)
    requires cfg.Valid() && cfg.ordering.Permute? && (cluster != "" ==> rest != [])
    requires var r := Parse(cfg, rest, cluster, regs);
             && (tail == [] || !ArgumentMissing(r))
             && (tail == [] || r.closed || IsOperand(tail[0]))
    ensures var r := Parse(cfg, rest, cluster, regs);
            && Strict(cfg).Valid() && (cluster != "" ==> r.scanned != [])
            && Parse(Strict(cfg), r.scanned + tail, cluster, regs) == r.(operands := tail)
    decreases Budget(rest, cluster)
  {
    var r := Parse(cfg, rest, cluster, regs);
    if cluster != "" {
      HeadIsScanned(cfg, rest, cluster, regs);
      var s := Decode(cfg, rest[0], cluster, rest[1..], regs);
      StepSpendsBudget(rest, cluster, s);
      var q := Parse(cfg, rest[s.used..], s.cluster, s.event.regs);
      MissingSplits(s, q, rest[..s.used]);
      RescanFinds(cfg, rest[s.used..], s.cluster, s.event.regs, tail);
      RescanContinues(cfg, rest, cluster, regs, tail);
    } else if rest == [] {
      assert r.scanned + tail == tail;
    } else if rest[0] == "--" {
      assert (r.scanned + tail)[1..] == tail;
    } else if IsOperand(rest[0]) {
      var q := Parse(cfg, rest[1..], "", regs);
      assert r.scanned == q.scanned && r.events == q.events;
      RescanFinds(cfg, rest[1..], "", regs, tail);
    } else {
      var c := Strip(rest[0]);
      HeadIsScanned(cfg, rest, c, regs);
      RescanFinds(cfg, rest, c, regs, tail);
      assert (r.scanned + tail)[0] == rest[0];
    }
  }

  /** A missing argument is not missing any more when an element is put behind it. */
  lemma LongIsCured(cfg: Config, text: string, optarg: Option<string>, f: seq<string>, g: seq<string>, regs: Regs)
    requires cfg.optstring != "" && cfg.table.Some? && g != []
    requires var r := DecodeLong(cfg, text, optarg, f, regs); r.Some? && r.value.event.code.Missing?
    ensures var r := DecodeLong(cfg, text, optarg, g, regs); r.Some? && !r.value.event.code.Missing?
  {
  }

  lemma WordIsCured(cfg: Config, text: string, f: seq<string>, g: seq<string>, regs: Regs)
    requires cfg.optstring != "" && cfg.table.Some? && |f| < |g| && f <= g
    requires DecodeWord(cfg, text, f, regs).event.code.Missing?
    ensures DecodeWord(cfg, text, g, regs).event != DecodeWord(cfg, text, f, regs).event
  {
    if text != "" {
      LongIsCured(cfg, text, Some(text), f, g, regs);
    } else if f != [] {
      LongIsCured(cfg, f[0], Some(f[0]), f[1..], g[1..], regs);
    }
  }

  lemma ShortIsCured(cfg: Config, cluster: string, f: seq<string>, g: seq<string>, regs: Regs)
    requires cfg.Valid() && !cfg.posix && cluster != "" && |f| < |g| && f <= g
    requires DecodeShort(cfg, cluster, f, regs).event.code.Missing?
    ensures DecodeShort(cfg, cluster, g, regs).event != DecodeShort(cfg, cluster, f, regs).event
  {
    hide DecodeWord, IndexOf;
    if KindOf(cfg.optstring, cluster[0]).LongName? {
      WordIsCured(cfg, cluster[1..], f, g, regs);
    }
  }

  lemma MissingIsCured(cfg: Config, e: string, cluster: string, f: seq<string>, g: seq<string>, regs: Regs)
    requires cfg.Valid() && !cfg.posix && cluster != "" && |f| < |g| && f <= g
    requires Decode(cfg, e, cluster, f, regs).event.code.Missing?
    ensures Decode(cfg, e, cluster, g, regs).event != Decode(cfg, e, cluster, f, regs).event
  {
    if TriedAsLong(cfg, e) {
      var r := DecodeLong(cfg, cluster, None, f, regs);
      LongIsLocal(cfg, cluster, None, f, g, regs);
      if r.Some? {
        LongIsCured(cfg, cluster, None, f, g, regs);
      } else {
        ShortIsCured(cfg, cluster, f, g, Regs(regs.optopt, -1));
      }
    } else {
      ShortIsCured(cfg, cluster, f, g, regs);
    }
  }

  /** After a missing argument, an operand moved to the back changes what is reported. */
  lemma {:induction false} RescanSwallows(cfg: Config, rest: seq<string>, cluster: string, regs: Regs,
                                          tail: seq<string>)
    requires cfg.Valid() && cfg.ordering.Permute? && (cluster != "" ==> rest != [])
    requires ArgumentMissing(Parse(cfg, rest, cluster, regs)) && tail != []
    ensures var r := Parse(cfg, rest, cluster, regs);
            && Strict(cfg).Valid() && Parse(Strict(cfg), r.scanned + tail, cluster, regs).events != r.events
    decreases Budget(rest, cluster)
  {
    var r := Parse(cfg, rest, cluster, regs);
    if cluster != "" {
      var s := Decode(cfg, rest[0], cluster, rest[1..], regs);
      StepSpendsBudget(rest, cluster, s);
      MissingSplits(s, Parse(cfg, rest[s.used..], s.cluster, s.event.regs), rest[..s.used]);
      if s.event.code.Missing? {
        RescanCures(cfg, rest, cluster, regs, tail);
      } else {
        RescanSwallows(cfg, rest[s.used..], s.cluster, s.event.regs, tail);
        RescanDiffers(cfg, rest, cluster, regs, tail);
      }
    } else if rest != [] && rest[0] != "--" {
      if IsOperand(rest[0]) {
        var q := Parse(cfg, rest[1..], "", regs);
        assert r.scanned == q.scanned && r.events == q.events;
        RescanSwallows(cfg, rest[1..], "", regs, tail);
      } else {
        var c := Strip(rest[0]);
        HeadIsScanned(cfg, rest, c, regs);
        RescanSwallows(cfg, rest, c, regs, tail);
        assert (r.scanned + tail)[0] == rest[0];
      }
    }
  }

  lemma RescanCures(cfg: Config, rest: seq<string>, cluster: string, regs: Regs, tail: seq<string>)
    requires cfg.Valid() && cfg.ordering.Permute? && cluster != "" && rest != [] && tail != []
    requires Decode(cfg, rest[0], cluster, rest[1..], regs).event.code.Missing?
    ensures var r := Parse(cfg, rest, cluster, regs);
            && Strict(cfg).Valid() && Parse(Strict(cfg), r.scanned + tail, cluster, regs).events != r.events
  {
    MissingEndsRun(cfg, rest, cluster, regs);
    CuredFront(cfg, rest, cluster, regs, tail);
    FirstEvent(Strict(cfg), rest + tail, cluster, regs);
  }

  lemma CuredFront(cfg: Config, rest: seq<string>, cluster: string, regs: Regs, tail: seq<string>)
    requires cfg.Valid() && cfg.ordering.Permute? && cluster != "" && rest != [] && tail != []
    requires Decode(cfg, rest[0], cluster, rest[1..], regs).event.code.Missing?
    ensures var argv := rest + tail;
            && Strict(cfg).Valid()
            && Decode(Strict(cfg), argv[0], cluster, argv[1..], regs).event
               != Decode(cfg, rest[0], cluster, rest[1..], regs).event
  {
    hide Decode;
    var argv := rest + tail;
    assert argv[1..] == rest[1..] + tail && argv[0] == rest[0];
    MissingIsCured(cfg, rest[0], cluster, rest[1..], argv[1..], regs);
    StrictDecodes(cfg, rest[0], cluster, argv[1..], regs);
  }

  lemma MissingEndsRun(cfg: Config, rest: seq<string>, cluster: string, regs: Regs)
    requires cfg.Valid() && cfg.ordering.Permute? && cluster != "" && rest != []
    requires Decode(cfg, rest[0], cluster, rest[1..], regs).event.code.Missing?
    ensures Parse(cfg, rest, cluster, regs).scanned == rest
    ensures Parse(cfg, rest, cluster, regs).events[0] == Decode(cfg, rest[0], cluster, rest[1..], regs).event
  {
    var s := Decode(cfg, rest[0], cluster, rest[1..], regs);
    DecodeIsLocal(cfg, rest[0], cluster, rest[1..], [], regs);
    assert rest[s.used..] == [] && rest[..s.used] == rest;
  }

  lemma FirstEvent(cfg: Config, rest: seq<string>, cluster: string, regs: Regs)
    requires cfg.Valid() && cluster != "" && rest != []
    ensures var es := Parse(cfg, rest, cluster, regs).events;
            es != [] && es[0] == Decode(cfg, rest[0], cluster, rest[1..], regs).event
  {
  }

  lemma RescanDiffers(cfg: Config, rest: seq<string>, cluster: string, regs: Regs, tail: seq<string>)
    requires cfg.Valid() && cfg.ordering.Permute? && cluster != "" && rest != [] && tail != []
    requires var s := Decode(cfg, rest[0], cluster, rest[1..], regs);
             var q := Parse(cfg, rest[s.used..], s.cluster, s.event.regs);
             && !s.event.code.Missing? && Strict(cfg).Valid()
             && Parse(Strict(cfg), q.scanned + tail, s.cluster, s.event.regs).events != q.events
    ensures var r := Parse(cfg, rest, cluster, regs);
            Parse(Strict(cfg), r.scanned + tail, cluster, regs).events != r.events
  {
    var s := Decode(cfg, rest[0], cluster, rest[1..], regs);
    var q := Parse(cfg, rest[s.used..], s.cluster, s.event.regs);
    ScannedFront(cfg, rest, cluster, regs, tail);
    RescanStep(cfg, rest, cluster, regs, q.scanned + tail);
    var argv := rest[..s.used] + (q.scanned + tail);
    var p := Parse(Strict(cfg), argv[s.used..], s.cluster, s.event.regs);
    assert Parse(Strict(cfg), argv, cluster, regs) == p.After([s.event], argv[..s.used], []);
    assert ([s.event] + p.events)[1..] == p.events && ([s.event] + q.events)[1..] == q.events;
  }

  /** Without "--" the operands start with an operand, so that scanning them ends at once. */
  lemma {:induction false} OpenRunLeavesOperands(cfg: Config, rest: seq<string>, cluster: string, regs: Regs)
    requires cfg.Valid() && (cluster != "" ==> rest != [])
    ensures var r := Parse(cfg, rest, cluster, regs);
            && (!r.closed ==> forall k | 0 <= k < |r.operands| ::
                  k == 0 || cfg.ordering.Permute? ==> IsOperand(r.operands[k]))
            && (!r.closed && cfg.ordering.ReturnInOrder? ==> r.operands == [])
    decreases Budget(rest, cluster)
  {
    if cluster != "" {
      var s := Decode(cfg, rest[0], cluster, rest[1..], regs);
      StepSpendsBudget(rest, cluster, s);
      OpenRunLeavesOperands(cfg, rest[s.used..], s.cluster, s.event.regs);
    } else if rest != [] && rest[0] != "--" {
      if IsOperand(rest[0]) {
        OpenRunLeavesOperands(cfg, rest[1..], "", regs);
      } else {
        OpenRunLeavesOperands(cfg, rest, Strip(rest[0]), regs);
      }
    }
  }

  /**
    "Just as if the user had typed" the options first: a strict scan of the
    permuted argv reports the same and leaves the same operands, exactly when no
    option lacks its argument or there is no operand for it to swallow.
  */
  lemma PermutationPreservesMeaning(cfg: Config, argv: seq<string>, regs: Regs)
    requires cfg.Valid() && cfg.ordering.Permute?
    ensures var r := Parse(cfg, argv, "", regs);
            && Strict(cfg).Valid()
            && (Parse(Strict(cfg), r.scanned + r.operands, "", regs) == r
                <==> !ArgumentMissing(r) || r.operands == [])
  {
    var r := Parse(cfg, argv, "", regs);
    if !ArgumentMissing(r) || r.operands == [] {
      OpenRunLeavesOperands(cfg, argv, "", regs);
      RescanFinds(cfg, argv, "", regs, r.operands);
    } else {
      RescanSwallows(cfg, argv, "", regs, r.operands);
    }
  }

  /** How "-c" is read when c requires an argument. */
  lemma LoneOption(cfg: Config, f: seq<string>, g: Regs)
    requires cfg.Valid() && cfg.optstring == "c:" && cfg.table.None? && !cfg.posix && |f| <= 1
    ensures Parse(cfg, ["-c"] + f, "", g) == Run(
      if f == [] then [Event(Missing(false), None, Regs('c' as int, g.longind)), EndEvent(Regs('c' as int, g.longind))]
      else [Event(Short('c'), Some(f[0]), g), EndEvent(g)], ["-c"] + f, [], false)
  {
    hide DecodeLong, DecodeWord;
    assert "c:"[0..] == "c:" && "-c"[1..] == "c" && Strip("-c") == "c";
    var rest := ["-c"] + f;
    assert rest[1..] == f && rest[|rest|..] == [] && rest[..|rest|] == rest;
    var s := DecodeShort(cfg, "c", f, g);
    assert Decode(cfg, "-c", "c", f, g) == s && s.used == |rest|;
    assert Parse(cfg, rest, "", g) == Parse(cfg, rest, "c", g);
    assert Parse(cfg, rest, "c", g) == Parse(cfg, [], "", s.event.regs).After([s.event], rest, []);
  }

  lemma OneRequiredOption()
    ensures var cfg := Configure("c:", None, false, false);
            cfg == Config("c:", None, false, false, Permute) && cfg.Valid() && Strict(cfg).Valid()
  {
    assert IndexOf("c:", 'W') == 2 by {
      assert "c:"[1..] == ":" && ":"[1..] == "";
    }
  }

  lemma OperandInFront(cfg: Config, e: string, more: seq<string>, g: Regs)
    requires cfg.Valid() && cfg.ordering.Permute? && IsOperand(e)
    ensures Parse(cfg, [e] + more, "", g) == Parse(cfg, more, "", g).After([], [], [e])
  {
    assert ([e] + more)[1..] == more && ([e] + more)[..1] == [e];
  }

  /** x -c with c: lacks an argument; permuted to -c x it takes the operand. */
  lemma PermutationCanChangeMeaning()
    ensures var cfg := Configure("c:", None, false, false);
            var g := Regs('?' as int, 0);
            var r := Parse(cfg, ["x"] + ["-c"], "", g);
            && cfg.Valid() && Strict(cfg).Valid() && r.scanned == ["-c"] && r.operands == ["x"]
            && r.events == [Event(Missing(false), None, Regs('c' as int, 0)), EndEvent(Regs('c' as int, 0))]
            && Parse(Strict(cfg), ["-c"] + ["x"], "", g)
               == Run([Event(Short('c'), Some("x"), g), EndEvent(g)], ["-c"] + ["x"], [], false)
  {
    hide Decode, KindOf, Configure, Parse;
    OneRequiredOption();
    var cfg := Configure("c:", None, false, false);
    var g := Regs('?' as int, 0);
    assert ["-c"] + [] == ["-c"];
    LoneOption(cfg, [], g);
    OperandInFront(cfg, "x", ["-c"], g);
    LoneOption(Strict(cfg), ["x"], g);
  }
}
