/** Going on after the end: scanning the rearranged argv again, and calling again. */
module Rescan {
  import opened Wrappers
  import opened LongOptions
  import opened OptionSyntax
  import opened OptionParser
  import opened OptionLaws
  import opened Scanner
  import opened CommandRewrites
  import opened EndOfScan
  import opened OptionMeaning

  /**
    A permuting scan followed by a strict scan ('+') of the rearranged argv: both
    report the same and stop at the same index, exactly when the first reported
    no missing argument or left no operand.
  */
  method ScanTwice(argv: array<string>, optstring: string, table: Option<Table>, longOnly: bool)
    returns (first: seq<Event>, i: nat, second: seq<Event>, j: nat)
    requires Configure(optstring, table, longOnly, false).Valid()
    requires Configure(optstring, table, longOnly, false).ordering.Permute?
    modifies argv
    ensures (second == first && j == i) <==> !LacksArgument(first) || i == argv.Length
    ensures multiset(argv[..]) == multiset(old(argv[..]))
  {
    ghost var cfg := Configure(optstring, table, longOnly, false);
    ghost var regs := Regs.Regs('?' as int, 0);
    ghost var run := Parse(cfg, argv[..], "", regs);
    ScannedThenOperandsIsAPermutation(cfg, argv[..], "", regs);
    PermutationPreservesMeaning(cfg, argv[..], regs);
    var typed := "+" + if optstring == "" then " " else optstring;
    PlusSelectsStrict(optstring, table, longOnly);

    first, i := ParseCommandLine(argv, optstring, table, longOnly, false);
    assert ArgumentMissing(run) <==> LacksArgument(first);
    assert i == argv.Length <==> run.operands == [];
    if LacksArgument(first) && i != argv.Length {
      RescanSwallows(cfg, old(argv[..]), "", regs, run.operands);
    }
    ghost var again := Parse(Strict(cfg), argv[..], "", regs);
    ScannedThenOperandsIsAPermutation(Strict(cfg), argv[..], "", regs);
    second, j := ParseCommandLine(argv, typed, table, longOnly, false);
  }

  /** A scanner whose last call reported End. */
  ghost predicate Ended(g: Getopt)
    reads g, g.argv
  {
    g.Valid() && g.Done()
  }

  /** What a scanner has ahead of it when it is called after End. */
  ghost function AheadAfterEnd(g: Getopt): Run
    reads g, g.argv
    requires Ended(g)
  {
    if g.endparse then Run([EndEvent(g.Regs())], [], g.argv[g.optind..], true)
    else Parse(g.config, g.argv[g.optind..], "", g.Regs())
  }

  lemma AheadIsKnown(g: Getopt)
    requires Ended(g)
    ensures var r, left := AheadAfterEnd(g), g.argv[g.optind..];
            && g.Outlook() == r.After([], g.argv[..g.optind], []) && r.events != []
            && (r.events[0].code.End? <==> g.endparse || EndIsNext(g.config, left))
            && (g.endparse || NothingToScan(g.config, left) ==> r.scanned == [] && r.operands == left)
            && (r.events[0].code.End? && !g.endparse && !NothingToScan(g.config, left) ==> r.scanned != [])
  {
    hide Parse, EndIsNext, NothingToScan;
    EndComesNext(g.config, g.argv[g.optind..], g.Regs());
  }

  lemma EndTaken(was: seq<string>, now: seq<string>, o: nat, n: nat, r: Run)
    requires o <= |was| == |now| && n <= |now|
    requires var look := r.After([], was[..o], []); now[..n] == look.scanned && now[n..] == look.operands
    ensures n == o + |r.scanned|
    ensures r.scanned == [] && r.operands == was[o..] ==> now == was
  {
    assert now == now[..n] + now[n..] && was == was[..o] + was[o..];
  }

  /**
    A call after End reports End again exactly if the scan was forced to end or
    nothing but the end or another "--" is next, and it moves nothing exactly if
    the scan was forced to end or nothing is left to scan.
  */
  method CallAgain(g: Getopt) returns (code: Code)
    requires Ended(g)
    modifies g, g.argv
    ensures code.End? <==> old(g.endparse) || EndIsNext(g.config, old(g.argv[g.optind..]))
    ensures code.End? && g.optind == old(g.optind) <==>
      old(g.endparse) || NothingToScan(g.config, old(g.argv[g.optind..]))
    ensures code.End? ==> Ended(g)
    ensures code.End? && g.optind == old(g.optind) ==> g.argv[..] == old(g.argv[..]) && g.endparse == old(g.endparse)
  {
    hide Parse, NothingToScan;
    ghost var was, o, r := g.argv[..], g.optind, AheadAfterEnd(g);
    AheadIsKnown(g);
    ghost var look := g.Outlook();
    assert look.events == r.events;
    code := g.GetOpt();
    if code.End? {
      EndTaken(was, g.argv[..], o, g.optind, r);
    }
  }

  /** However often it is called, a scanner with nothing left to scan reports End and stays as it is. */
  method CallOften(g: Getopt, n: nat)
    requires Ended(g) && (g.endparse || NothingToScan(g.config, g.argv[g.optind..]))
    modifies g, g.argv
    ensures Ended(g) && g.optind == old(g.optind) && g.argv[..] == old(g.argv[..])
  {
    hide Parse, NothingToScan;
    for k := 0 to n
      invariant Ended(g) && g.endparse == old(g.endparse)
      invariant g.optind == old(g.optind) && g.argv[..] == old(g.argv[..])
    {
      assert g.argv[g.optind..] == old(g.argv[g.optind..]);
      var code := CallAgain(g);
      assert code.End?;
    }
  }

  // ---------- a forced end ----------

  /** -c -- foo bar under POSIX, when c requires an argument. */
  lemma ForcedLine(cfg: Config, line: seq<string>, regs: Regs)
    requires cfg == Configure("c:", None, false, true) && line == ["-c", "--", "foo", "bar"]
    ensures cfg.Valid() && cfg.ordering.RequireOrder?
    ensures Parse(cfg, line, "", regs)
         == Run([Event(Short('c'), Some("foo"), regs), EndEvent(regs)], line[..3], line[3..], true)
  {
    hide DecodeLong, DecodeWord;
    assert IndexOf("c:", 'W') == 2 by {
      assert "c:"[1..] == ":" && ":"[1..] == "";
    }
    assert "c:"[0..] == "c:" && "-c"[1..] == "c" && Strip("-c") == "c";
    assert line[1..] == ["--", "foo", "bar"];
    assert DecodeShort(cfg, "c", line[1..], regs) == Step(Event(Short('c'), Some("foo"), regs), 3, "", true);
    assert Decode(cfg, "-c", "c", line[1..], regs) == Step(Event(Short('c'), Some("foo"), regs), 3, "", true);
    assert Parse(cfg, line, "", regs) == Parse(cfg, line, "c", regs);
    FirstStep(cfg, line, "c", regs);
  }

  /** A strict scan with nothing but a closing "--" ahead stands in front of it. */
  lemma DashesAreNext(g: Getopt)
    requires g.Valid() && !g.endparse && g.config.ordering.RequireOrder?
    requires |g.Outlook().events| == 1 && g.Outlook().events[0].code.End? && g.Outlook().closed
    ensures g.optind < g.argv.Length && g.argv[g.optind] == "--" && |g.Outlook().scanned| == g.optind + 1
  {
    hide Decode;
    var r := Parse(g.config, g.Pending(), g.Cluster(), g.Regs());
    assert g.Outlook().events == r.events;
    if g.Cluster() != "" {
      FirstEvent(g.config, g.Pending(), g.Cluster(), g.Regs());
    } else if g.Pending() != [] && !IsOperand(g.Pending()[0]) && g.Pending()[0] != "--" {
      OptionIsReported(g.config, g.Pending(), g.Regs());
    }
  }

  /** After a forced end the records reach beyond optind. */
  method RecordsMayRunAhead() returns (g: Getopt)
    ensures fresh(g) && g.Valid() && g.endparse && g.optind == 3 && g.lastNonopt == 4 == g.argv.Length
  {
    hide Parse, KindOf;
    OneStrictOption();
    var argv := new string[4];
    argv[0], argv[1], argv[2], argv[3] := "-c", "--", "foo", "bar";
    g := new Getopt(argv, "c:", None, false, true);
    ghost var line := argv[..];
    ForcedLine(g.config, line, g.Regs());
    var code := g.GetOpt();
    ghost var look := g.Outlook();
    assert look.scanned == line[..3] && look.closed && |look.events| == 1 && look.events[0].code.End?;
    assert g.optind == 2 ==> argv[2] == argv[2..][0] == line[2..][0];
    if !g.endparse {
      DashesAreNext(g);
    }
  }

  // ---------- in order ----------

  /**
    An option string with a leading '-' selects in-order scanning: the whole scan
    is that of the rest of the string in this mode, argv stays as it is, and
    operands alone are reported one by one.
  */
  method ScanInOrder(argv: array<string>, s: string, table: Option<Table>, longOnly: bool, posix: bool)
    returns (events: seq<Event>, optind: nat)
    requires s != "" && (KindOf(s, 'W').LongName? ==> table.Some?)
    modifies argv
    ensures var cfg, g := Config(s, table, longOnly, posix, ReturnInOrder), Regs.Regs('?' as int, 0);
            var run := Parse(cfg, old(argv[..]), "", g);
            && events == run.events && optind == |run.scanned| && argv[..] == old(argv[..])
            && ((forall k :: 0 <= k < argv.Length ==> argv[k] == "" || argv[k] == "-" || argv[k][0] != '-') ==>
                  && |events| == argv.Length + 1 && optind == argv.Length
                  && forall k :: 0 <= k < argv.Length ==> events[k] == Event(Operand, Some(argv[k]), g))
  {
    hide Parse, Configure, KindOf;
    OptionStringChoosesOrdering(s, table, longOnly, posix);
    ghost var cfg, g, was := Config(s, table, longOnly, posix, ReturnInOrder), Regs.Regs('?' as int, 0), argv[..];
    events, optind := ParseCommandLine(argv, "-" + s, table, longOnly, posix);
    InOrderMovesNothing(cfg, was, "", g);
    if forall k :: 0 <= k < |was| ==> was[k] == "" || was[k] == "-" || was[k][0] != '-' {
      OperandsInOrder(cfg, was, [], g);
      NothingLeft(cfg, g);
      assert was + [] == was;
    }
  }

  /** Without permuting, scanned elements followed by operands are argv itself. */
  lemma {:induction false} InOrderMovesNothing(cfg: Config, rest: seq<string>, cluster: string, regs: Regs)
    requires cfg.Valid() && !cfg.ordering.Permute? && (cluster != "" ==> rest != [])
    ensures var r := Parse(cfg, rest, cluster, regs); r.scanned + r.operands == rest
    decreases Budget(rest, cluster), 1
  {
    hide Decode;
    if cluster != "" {
      InOrderStep(cfg, rest, cluster, regs);
    } else if rest != [] {
      assert rest[..1] + rest[1..] == rest;
      if rest[0] == "--" {
        assert rest[..1] == ["--"];
      } else if !IsOperand(rest[0]) {
        InOrderMovesNothing(cfg, rest, Strip(rest[0]), regs);
      } else if cfg.ordering.ReturnInOrder? {
        InOrderMovesNothing(cfg, rest[1..], "", regs);
        var q := Parse(cfg, rest[1..], "", regs);
        assert (rest[..1] + q.scanned) + q.operands == rest[..1] + (q.scanned + q.operands);
      }
    }
  }

  lemma InOrderStep(cfg: Config, rest: seq<string>, cluster: string, regs: Regs)
    requires cfg.Valid() && !cfg.ordering.Permute? && cluster != "" && rest != []
    ensures var r := Parse(cfg, rest, cluster, regs); r.scanned + r.operands == rest
    decreases Budget(rest, cluster), 0
  {
    hide Decode, Parse;
    var s := Decode(cfg, rest[0], cluster, rest[1..], regs);
    FirstStep(cfg, rest, cluster, regs);
    assert rest[..s.used] + rest[s.used..] == rest;
    if !s.stop {
      StepSpendsBudget(rest, cluster, s);
      InOrderMovesNothing(cfg, rest[s.used..], s.cluster, s.event.regs);
      var q := Parse(cfg, rest[s.used..], s.cluster, s.event.regs);
      assert (rest[..s.used] + q.scanned) + q.operands == rest[..s.used] + (q.scanned + q.operands);
    }
  }
}
