/**
  The resumable scanner. It rearranges argv in place while it goes, and every
  call reports what the one-pass parser reports on the argv it was given.
*/
module Scanner {
  import opened Wrappers
  import opened LongOptions
  import opened OptionSyntax
  import opened OptionParser
  import opened Rotation

  /** Merging two passed blocks around a skipped one; the shape of every step below. */
  lemma Regroup(argv: seq<string>, s: seq<string>, p: seq<string>, q: seq<string>, rest: seq<string>)
    requires argv == s + p + q + rest
    ensures argv[..|s|] == s && argv[|s|..|s| + |p|] == p
    ensures argv[|s| + |p|..|s| + |p| + |q|] == q && argv[|s| + |p| + |q|..] == rest
  {
  }

  class Getopt {
    const argv: array<string>
    const config: Config
    var optarg: Option<string>
    var optind: nat
    var optopt: int
    var nextchar: Option<string>
    var longind: int
    var longoptHandled: bool
    var firstNonopt: nat
    var lastNonopt: nat
    var endparse: bool

    // ---------- what the fields mean ----------

    function Regs(): Regs
      reads this
    {
      OptionSyntax.Regs.Regs(optopt, longind)
    }

    function Cluster(): string
      reads this
    {
      if nextchar.Some? then nextchar.value else ""
    }

    /** The skipped operands are argv[First()..Last()]; stale records are clipped. */
    function First(): (i: nat)
      reads this
      ensures i <= optind
    {
      if firstNonopt < optind then firstNonopt else optind
    }

    function Last(): (i: nat)
      reads this
      ensures i <= optind
    {
      if lastNonopt < optind then lastNonopt else optind
    }

    ghost function Scanned(): seq<string>
      reads this, argv
      requires optind <= argv.Length
    {
      argv[..First()] + argv[Last()..optind]
    }

    ghost function Skipped(): seq<string>
      reads this, argv
      requires firstNonopt <= lastNonopt && optind <= argv.Length
    {
      argv[First()..Last()]
    }

    ghost function Pending(): seq<string>
      reads this, argv
      requires optind <= argv.Length
    {
      argv[optind..]
    }

    /** A half-read element is at optind, and what is left of it is a proper suffix. */
    ghost predicate MidElement()
      reads this, argv
    {
      && optind < argv.Length && !endparse
      && !IsOperand(argv[optind]) && argv[optind] != "--"
      && |Cluster()| < |argv[optind]| && Cluster() == argv[optind][|argv[optind]| - |Cluster()|..]
    }

    ghost predicate Valid()
      reads this, argv
    {
      && config.Valid()
      && optind <= argv.Length && firstNonopt <= lastNonopt
      && (!config.ordering.Permute? ==> First() == Last())
      && (Cluster() != "" ==> MidElement() && lastNonopt <= optind)
      && (endparse ==> config.posix && firstNonopt == optind && lastNonopt == argv.Length)
    }

    /** The rest of the run: reports to come and the final split of all of argv. */
    ghost function Outlook(): Run
      reads this, argv
      requires Valid()
    {
      if endparse then Run([EndEvent(Regs())], Scanned(), Skipped() + Pending(), true)
      else Parse(config, Pending(), Cluster(), Regs()).After([], Scanned(), Skipped())
    }

    constructor (argv: array<string>, optstring: string, table: Option<Table>, longOnly: bool, posix: bool)
      requires KindOf(Configure(optstring, table, longOnly, posix).optstring, 'W').LongName? ==> table.Some?
      ensures Valid() && this.argv == argv && config == Configure(optstring, table, longOnly, posix)
      ensures !endparse && optind == 0 && Regs() == OptionSyntax.Regs.Regs('?' as int, 0)
      ensures Outlook() == Parse(config, argv[..], "", Regs())
    {
      hide Parse, Decode;
      this.argv := argv;
      config := Configure(optstring, table, longOnly, posix);
      optarg, nextchar := None, None;
      optind, optopt, longind := 0, '?' as int, 0;
      firstNonopt, lastNonopt := 1, 1;
      longoptHandled, endparse := false, false;
      new;
      assert argv[0..] == argv[..];
      ghost var r := Parse(config, argv[..], "", Regs());
      assert r.After([], [], []) == r;
    }

    // ---------- exchange ----------

    /**
      Moves argv[lastNonopt..optind) in front of the skipped operands; the
      records keep bounding exactly those operands.
    */
    method Exchange() returns (ghost swaps: nat)
      requires firstNonopt <= lastNonopt <= optind <= argv.Length
      modifies this`firstNonopt, this`lastNonopt, argv
      ensures firstNonopt == old(firstNonopt) + (optind - old(lastNonopt)) && lastNonopt == optind
      ensures argv[firstNonopt..lastNonopt] == old(argv[firstNonopt..lastNonopt])
      ensures argv[..firstNonopt] == old(argv[..firstNonopt] + argv[lastNonopt..optind])
      ensures argv[optind..] == old(argv[optind..])
      ensures swaps == (optind - old(firstNonopt)) - Gcd(old(lastNonopt - firstNonopt), optind - old(lastNonopt))
    {
      ghost var before := argv[..];
      ghost var f, l := firstNonopt, lastNonopt;
      swaps := ExchangeBlocks(argv, firstNonopt, lastNonopt, optind);
      MovesBlocks(before, argv[..], f, l, optind);
      firstNonopt := firstNonopt + (optind - lastNonopt);
      lastNonopt := optind;
      Regroup(argv[..], before[..f] + before[l..optind], before[f..l], [], before[optind..]);
    }

    // ---------- long options ----------

    /** The pass over the table, up to an exact name. */
    method SearchTable(table: Table, name: string) returns (pfound: Option<LongOpt>, ambig: bool, exact: bool)
      modifies this`longind
      ensures pfound.None? ==> longind == -1 && !ambig
      ensures pfound.Some? ==> 0 <= longind < |table| && pfound.value == table[longind]
      ensures Lookup(table, name) ==
        if pfound.None? then NoMatch
        else if ambig && !exact then Ambiguous(longind)
        else Chosen(longind)
    {
      pfound, ambig, exact := None, false, false;
      longind := -1;
      for i := 0 to |table|
        invariant forall j :: 0 <= j < i ==> !Fits(table[j], name, true)
        invariant pfound.None? ==> longind == -1 && !ambig && forall j :: 0 <= j < i ==> !Fits(table[j], name, false)
        invariant pfound.Some? ==>
          0 <= longind < i && pfound.value == table[longind] && Fits(table[longind], name, false)
        invariant pfound.Some? ==> forall j :: 0 <= j < longind ==> !Fits(table[j], name, false)
        invariant pfound.Some? ==> (ambig <==> exists j :: longind < j < i && Fits(table[j], name, false))
        invariant !exact
      {
        if name <= table[i].name {
          if table[i].name == name {
            pfound := Some(table[i]);
            longind := i;
            exact := true;
            return;
          } else if pfound.None? {
            pfound := Some(table[i]);
            longind := i;
          } else {
            ambig := true;
          }
        }
      }
    }

    /**
      The element at optind holds the long option text in nextchar, alone or
      after its punctuation. Reports and fields follow DecodeLong.
    */
    method CheckLongOption() returns (code: Code)
      requires config.optstring != "" && config.table.Some? && nextchar.Some? && optind < argv.Length
      modifies this`longoptHandled, this`longind, this`nextchar, this`optopt, this`optind, this`optarg
      ensures var d := old(DecodeLong(config, nextchar.value, optarg, argv[optind + 1..], Regs()));
              match d
              case Some(s) =>
                && longoptHandled && nextchar == Some("")
                && Event(code, optarg, Regs()) == s.event && optind == old(optind) + s.used
              case None =>
                && !longoptHandled && nextchar == old(nextchar)
                && optarg == old(optarg) && optind == old(optind) && Regs() == old(Regs()).(longind := -1)
    {
      longoptHandled := true;
      var nameend := IndexOf(nextchar.value, '=');
      var name := nextchar.value[..nameend];
      var pfound, ambig, exact := SearchTable(config.table.value, name);
      if ambig && !exact {
        nextchar := Some("");
        optopt := 0;
        optind := optind + 1;
        return Ambiguity;
      }
      if pfound.Some? {
        optind := optind + 1;
        if nameend != |nextchar.value| {
          if !pfound.value.hasArg.NoArgument? {
            if |nextchar.value[nameend..]| > 1 {
              optarg := Some(nextchar.value[nameend + 1..]);
            } else {
              assert nextchar.value[nameend + 1..] == "";
              optarg := Some("");
            }
          } else {
            nextchar := Some("");
            optopt := pfound.value.val;
            return Unwanted;
          }
        } else if pfound.value.hasArg.RequiredArgument? {
          if optind < argv.Length {
            optarg := Some(argv[optind]);
            optind := optind + 1;
          } else {
            nextchar := Some("");
            optopt := pfound.value.val;
            return Missing(config.optstring[0] == ':');
          }
        }
        nextchar := Some("");
        if pfound.value.flag.Some? {
          return Stored(pfound.value.flag.value, pfound.value.val);
        }
        return Long(pfound.value.val);
      }
      longoptHandled := false;
      code := UnknownLong;   // the caller ignores it
    }

    // ---------- one option ----------

    /** -W: nextchar is the attached name, or empty when the name is the next element. */
    method DecodeNamed() returns (code: Code)
      requires config.optstring != "" && config.table.Some? && nextchar.Some? && optarg.None?
      requires if nextchar.value == "" then 0 < optind <= argv.Length else optind < argv.Length
      modifies this`longoptHandled, this`longind, this`nextchar, this`optopt, this`optind, this`optarg
      ensures var start := old(if nextchar.value == "" then optind - 1 else optind);
              var s := old(DecodeWord(config, nextchar.value, argv[start + 1..], Regs()));
              && Event(code, optarg, Regs()) == s.event && optind == start + s.used && Cluster() == ""
    {
      hide Lookup, DecodeLong;
      ghost var text := nextchar.value;
      if nextchar.value != "" {
        optarg := Some(nextchar.value);
      } else if optind == argv.Length {
        optopt := 'W' as int;
        return Missing(config.optstring[0] == ':');
      } else {
        assert argv[optind..][1..] == argv[optind + 1..];
        nextchar := Some(argv[optind]);
        optarg := Some(argv[optind]);
      }
      code := CheckLongOption();
      if !longoptHandled {
        nextchar := None;
        optind := optind + 1;
        return UnknownLong;
      }
    }

    /** An option letter that requires an argument, attached or in the next element. */
    method TakeArgument(c: char) returns (code: Code)
      requires config.Valid() && nextchar.Some? && optarg.None? && !endparse
      requires if nextchar.value == "" then 0 < optind <= argv.Length else optind < argv.Length
      requires KindOf(config.optstring, c).Required?
      modifies this`nextchar, this`optopt, this`optind, this`optarg, this`firstNonopt, this`lastNonopt, this`endparse
      ensures var start := old(if nextchar.value == "" then optind - 1 else optind);
              var s := old(DecodeShort(config, [c] + nextchar.value, argv[start + 1..], Regs()));
              && Event(code, optarg, Regs()) == s.event && optind == start + s.used && Cluster() == ""
              && endparse == s.stop
              && (if s.stop then firstNonopt == optind && lastNonopt == argv.Length
                  else firstNonopt == old(firstNonopt) && lastNonopt == old(lastNonopt))
    {
      assert ([c] + nextchar.value)[1..] == nextchar.value;
      if nextchar.value != "" {
        optarg := Some(nextchar.value);
        optind := optind + 1;
      } else if optind == argv.Length {
        optopt := c as int;
        return Missing(config.optstring[0] == ':');
      } else {
        assert argv[optind..][1..] == argv[optind + 1..];
        optarg := Some(argv[optind]);
        optind := optind + 1;
        if config.posix && optarg.value == "--" {
          if optind == argv.Length {
            optopt := c as int;
            return Missing(config.optstring[0] == ':');
          }
          optarg := Some(argv[optind]);
          optind := optind + 1;
          firstNonopt := optind;
          lastNonopt := argv.Length;
          endparse := true;
        }
      }
      nextchar := None;
      return Short(c);
    }

    /** An option letter with an optional argument, which can only be attached. */
    method TakeAttached(c: char) returns (code: Code)
      requires config.Valid() && nextchar.Some? && optarg.None?
      requires if nextchar.value == "" then 0 < optind <= argv.Length else optind < argv.Length
      requires KindOf(config.optstring, c).Optional?
      modifies this`nextchar, this`optind, this`optarg
      ensures var start := old(if nextchar.value == "" then optind - 1 else optind);
              var s := old(DecodeShort(config, [c] + nextchar.value, argv[start + 1..], Regs()));
              Event(code, optarg, Regs()) == s.event && optind == start + s.used && Cluster() == "" && !s.stop
    {
      assert ([c] + nextchar.value)[1..] == nextchar.value;
      if nextchar.value != "" {
        optarg := Some(nextchar.value);
        optind := optind + 1;
      } else {
        optarg := None;
      }
      nextchar := None;
      return Short(c);
    }

    /** What `temp`, the option string from c on, says about the letter c. */
    method ListedOption(c: char, temp: string) returns (code: Code)
      requires config.Valid() && nextchar.Some? && optarg.None? && !endparse
      requires if nextchar.value == "" then 0 < optind <= argv.Length else optind < argv.Length
      requires !KindOf(config.optstring, c).Unlisted? && temp == config.optstring[IndexOf(config.optstring, c)..]
      modifies this
      ensures var start := old(if nextchar.value == "" then optind - 1 else optind);
              var s := old(DecodeShort(config, [c] + nextchar.value, argv[start + 1..], Regs()));
              && Event(code, optarg, Regs()) == s.event && optind == start + s.used && Cluster() == s.cluster
              && endparse == s.stop
              && (if s.stop then firstNonopt == optind && lastNonopt == argv.Length
                  else firstNonopt == old(firstNonopt) && lastNonopt == old(lastNonopt))
    {
      assert ([c] + nextchar.value)[1..] == nextchar.value;
      if temp[0] == 'W' && |temp| > 1 && temp[1] == ';' {
        code := DecodeNamed();
      } else if |temp| > 1 && temp[1] == ':' {
        if |temp| > 2 && temp[2] == ':' {
          code := TakeAttached(c);
        } else {
          code := TakeArgument(c);
        }
      } else {
        code := Short(c);
      }
    }

    /** The first character of nextchar as a short option. */
    method ShortOption() returns (code: Code)
      requires config.Valid() && Cluster() != "" && optind < argv.Length && optarg.None? && !endparse
      modifies this
      ensures var s := old(DecodeShort(config, Cluster(), argv[optind + 1..], Regs()));
              && Event(code, optarg, Regs()) == s.event && optind == old(optind) + s.used && Cluster() == s.cluster
              && endparse == s.stop
              && (if s.stop then firstNonopt == optind && lastNonopt == argv.Length
                  else firstNonopt == old(firstNonopt) && lastNonopt == old(lastNonopt))
    {
      hide DecodeLong, DecodeWord, IndexOf;
      var c := nextchar.value[0];
      assert nextchar.value == [c] + nextchar.value[1..];
      nextchar := if |nextchar.value| > 1 then Some(nextchar.value[1..]) else Some("");
      var i := IndexOf(config.optstring, c);
      var temp := if i < |config.optstring| then Some(config.optstring[i..]) else None;
      if nextchar.value == "" {
        optind := optind + 1;
      }
      if temp.None? || c == ':' {
        optopt := c as int;
        return Illegal;
      }
      code := ListedOption(c, temp.value);
    }

    /** Decodes the option element at optind from nextchar on. */
    method DecodeElement() returns (code: Code)
      requires config.Valid() && Cluster() != "" && optind < argv.Length && optarg.None? && !endparse
      requires !IsOperand(argv[optind])
      modifies this
      ensures var s := old(Decode(config, argv[optind], Cluster(), argv[optind + 1..], Regs()));
              && Event(code, optarg, Regs()) == s.event && optind == old(optind) + s.used && Cluster() == s.cluster
              && endparse == s.stop
              && (if s.stop then firstNonopt == optind && lastNonopt == argv.Length
                  else firstNonopt == old(firstNonopt) && lastNonopt == old(lastNonopt))
    {
      hide DecodeLong, DecodeShort;
      ghost var e, cluster, f, regs := argv[optind], Cluster(), argv[optind + 1..], Regs();
      ghost var s := Decode(config, e, cluster, f, regs);
      if config.table.Some?
        && (DoubleDash(argv[optind])
            || (config.longOnly && (|argv[optind]| > 2 || argv[optind][1] !in config.optstring)))
      {
        assert TriedAsLong(config, e);
        code := CheckLongOption();
        if longoptHandled {
          return;
        }
        if !config.longOnly || DoubleDash(argv[optind]) || nextchar.value[0] !in config.optstring {
          nextchar := Some("");
          optind := optind + 1;
          optopt := 0;
          return Illegal;
        }
        assert s == DecodeShort(config, cluster, f, Regs());
      } else {
        assert s == DecodeShort(config, cluster, f, regs);
      }
      code := ShortOption();
    }

    // ---------- finding the next option element ----------

    /** Argv as far as it is settled: passed elements, operands, and the part still to be scanned. */
    ghost predicate Settled()
      reads this, argv
    {
      && firstNonopt <= lastNonopt <= optind <= argv.Length
      && (if config.ordering.Permute? then lastNonopt == optind else firstNonopt == lastNonopt)
    }

    /** Passed options move in front of the skipped operands. */
    method BringForward()
      requires firstNonopt <= lastNonopt <= optind <= argv.Length
      modifies this`firstNonopt, this`lastNonopt, argv
      ensures firstNonopt <= optind
      ensures argv[..firstNonopt] == old(Scanned()) && argv[firstNonopt..optind] == old(Skipped())
      ensures Pending() == old(Pending())
    {
      if firstNonopt != lastNonopt && lastNonopt != optind {
        ghost var swaps := Exchange();
      } else if lastNonopt != optind {
        assert argv[..firstNonopt] + argv[lastNonopt..optind] == argv[..optind];
        firstNonopt := optind;
      } else {
        assert argv[..firstNonopt] + argv[lastNonopt..optind] == argv[..firstNonopt];
      }
    }

    /** Skips the operands at optind; `look` is the rest of the run. */
    method SkipFurther(ghost look: Run, ghost all: seq<string>)
      requires all == argv[..] && config.Valid() && config.ordering.Permute? && firstNonopt <= optind <= argv.Length
      requires look == Parse(config, all[optind..], "", Regs()).After([], all[..firstNonopt], all[firstNonopt..optind])
      modifies this`optind
      ensures old(optind) <= optind <= argv.Length && (optind < argv.Length ==> !IsOperand(argv[optind]))
      ensures look == Parse(config, all[optind..], "", Regs()).After([], all[..firstNonopt], all[firstNonopt..optind])
    {
      hide Parse, Decode;
      while optind < argv.Length && IsOperand(argv[optind])
        invariant old(optind) <= optind <= argv.Length
        invariant look ==
          Parse(config, all[optind..], "", Regs()).After([], all[..firstNonopt], all[firstNonopt..optind])
        decreases argv.Length - optind
      {
        SkipOne(config, all, firstNonopt, optind, Regs());
        optind := optind + 1;
      }
    }

    /** Rearranges what was passed since the last operands and skips further operands. */
    method SkipOperands()
      requires Valid() && config.ordering.Permute? && Cluster() == "" && !endparse && lastNonopt <= optind
      modifies this`optind, this`firstNonopt, this`lastNonopt, argv
      ensures Valid() && Settled() && Outlook() == old(Outlook())
      ensures optind < argv.Length ==> !IsOperand(argv[optind])
      ensures old(optind) <= optind && argv[optind..] == old(argv[..])[optind..]
    {
      hide Parse, Decode;
      ghost var look, was, start := Outlook(), argv[..], optind;
      BringForward();
      SkipFurther(look, argv[..]);
      lastNonopt := optind;
      SuffixOfSuffix(was, argv[..], start, optind);
      assert Scanned() == argv[..firstNonopt];
    }

    /** "--" joins the passed elements, and everything behind it is an operand. */
    method CloseAtDashes()
      requires Settled() && optind < argv.Length && argv[optind] == "--"
      modifies this`optind, this`firstNonopt, this`lastNonopt, argv
      ensures optind == lastNonopt == argv.Length && firstNonopt == old(|Scanned()|) + 1 <= lastNonopt
      ensures argv[..firstNonopt] == old(Scanned()) + ["--"]
      ensures argv[firstNonopt..] == old(Skipped()) + old(argv[optind + 1..])
    {
      hide Parse, Decode, KindOf;
      ghost var was := argv[..];
      ghost var f, l, o := firstNonopt, lastNonopt, optind;
      optind := optind + 1;
      DashesJoin(was, f, l, o);
      if firstNonopt != lastNonopt && lastNonopt != optind {
        ghost var swaps := Exchange();
        assert argv[firstNonopt..] == argv[firstNonopt..optind] + argv[optind..];
      } else if firstNonopt == lastNonopt {
        firstNonopt := optind;
      }
      lastNonopt := argv.Length;
      optind := argv.Length;
    }

    /** No operand waits in front of optind: a further call starts from there. */
    ghost predicate Done()
      reads this, argv
      requires optind <= argv.Length && firstNonopt <= lastNonopt
    {
      Cluster() == "" && Skipped() == [] && Scanned() == argv[..optind]
    }

    /**
      The call just made reported what `before`, the outlook before the call,
      has first; the rest of it is the outlook now, or argv is split for good.
    */
    ghost predicate Reports(before: Run, code: Code)
      reads this, argv
    {
      && before.events != [] && before.events[0] == Event(code, optarg, Regs())
      && Valid()
      && (if code.End? then
            && |before.events| == 1 && Done()
            && argv[..optind] == before.scanned && argv[optind..] == before.operands
          else Outlook() == before.(events := before.events[1..]))
    }

    /** The records bound the skipped operands behind the part already scanned. */
    ghost predicate Recorded()
      reads this
    {
      firstNonopt <= lastNonopt && (endparse || lastNonopt <= optind)
    }

    ghost predicate Fresh()
      reads this, argv
    {
      Valid() && Settled() && Cluster() == "" && !endparse && optarg.None?
    }

    lemma SettledOutlook()
      requires Fresh()
      ensures Outlook() == Parse(config, argv[optind..], "", Regs())
        .After([], argv[..First()] + argv[Last()..optind], argv[First()..Last()])
      ensures First() == firstNonopt && Last() == lastNonopt
    {
    }

    /** Stale records are clipped before they are used. */
    method ClipRecords()
      requires Valid() && Cluster() == "" && !endparse
      modifies this`firstNonopt, this`lastNonopt
      ensures Valid() && firstNonopt <= lastNonopt <= optind && Outlook() == old(Outlook())
    {
      if lastNonopt > optind { lastNonopt := optind; }
      if firstNonopt > optind { firstNonopt := optind; }
    }

    /** All elements are done: back over the operands, so that the caller finds them. */
    method Finish()
      requires Fresh() && optind == argv.Length
      modifies this`optind
      ensures Reports(old(Outlook()), End)
    {
      hide Decode;
      SettledOutlook();
      assert argv[optind..] == [];
      ghost var r := Outlook();
      assert r.events == [EndEvent(Regs())];
      if firstNonopt != lastNonopt {
        optind := firstNonopt;
      }
      BoundariesKept(argv[..], firstNonopt, lastNonopt, old(optind));
    }

    /** "--" ends the options. */
    method FinishAtDashes()
      requires Fresh() && optind < argv.Length && argv[optind] == "--"
      modifies this`optind, this`firstNonopt, this`lastNonopt, argv
      ensures Reports(old(Outlook()), End)
    {
      hide Decode;
      SettledOutlook();
      assert argv[optind..][1..] == argv[optind + 1..];
      ghost var r := Outlook();
      assert r.events == [EndEvent(Regs())];
      CloseAtDashes();
      if firstNonopt != lastNonopt {
        optind := firstNonopt;
      }
    }

    /** A strict scan stops in front of the operand. */
    lemma StopsAtOperand()
      requires Fresh() && config.ordering.RequireOrder? && optind < argv.Length && IsOperand(argv[optind])
      ensures Reports(Outlook(), End)
    {
      SettledOutlook();
      BoundariesKept(argv[..], firstNonopt, lastNonopt, optind);
      assert [] + argv[optind..] == argv[optind..];
    }

    /** In-order scanning reports the operand and passes it. */
    method PassOperand()
      requires Fresh() && config.ordering.ReturnInOrder? && optind < argv.Length && IsOperand(argv[optind])
      modifies this`optind, this`optarg
      ensures Reports(old(Outlook()), Operand) && optind == old(optind) + 1 && Recorded()
    {
      hide Parse, Decode;
      SettledOutlook();
      ghost var o, f := optind, firstNonopt;
      ghost var e := Event(Operand, Some(argv[o]), Regs());
      BoundariesKept(argv[..], f, f, o);
      BoundariesKept(argv[..], f, f, o + 1);
      InOrderStep(config, argv[..], o, Regs());
      AfterOne(Parse(config, argv[o + 1..], "", Regs()), e, [argv[o]], argv[..o], []);
      assert argv[..o] + [argv[o]] == argv[..o + 1];
      optarg := Some(argv[optind]);
      optind := optind + 1;
    }

    /** An operand that the ordering does not skip. */
    method MeetOperand() returns (code: Code)
      requires Fresh() && !config.ordering.Permute? && optind < argv.Length && IsOperand(argv[optind])
      modifies this`optind, this`optarg
      ensures Reports(old(Outlook()), code)
      ensures old(optind) <= optind && Recorded()
    {
      if config.ordering.RequireOrder? {
        StopsAtOperand();
        code := End;
      } else {
        PassOperand();
        code := Operand;
      }
    }

    /** An option element: its text goes to nextchar. */
    method EnterElement()
      requires Fresh() && optind < argv.Length && !IsOperand(argv[optind]) && argv[optind] != "--"
      modifies this`nextchar
      ensures Valid() && Cluster() != "" && Outlook() == old(Outlook())
    {
      assert argv[optind..][0] == argv[optind];
      nextchar := Some(if DoubleDash(argv[optind]) then argv[optind][2..] else argv[optind][1..]);
    }

    /** Looks at the element behind everything settled. */
    method ExamineElement() returns (found: Option<Code>)
      requires Fresh() && (config.ordering.Permute? && optind < argv.Length ==> !IsOperand(argv[optind]))
      modifies this`optind, this`firstNonopt, this`lastNonopt, this`nextchar, this`optarg, argv
      ensures found.None? ==> Valid() && Cluster() != "" && Outlook() == old(Outlook()) && optarg.None?
      ensures found.Some? ==> Reports(old(Outlook()), found.value)
      ensures found != Some(End) ==> argv[..] == old(argv[..]) && old(optind) <= optind && Recorded()
    {
      if optind != argv.Length && argv[optind] == "--" {
        FinishAtDashes();
        found := Some(End);
      } else if optind == argv.Length {
        Finish();
        found := Some(End);
      } else if IsOperand(argv[optind]) {
        var code := MeetOperand();
        found := Some(code);
      } else {
        EnterElement();
        found := None;
      }
    }

    /** Brings records and argv up to date, and skips operands if the ordering says so. */
    method Settle()
      requires Valid() && Cluster() == "" && !endparse && optarg.None?
      modifies this`optind, this`firstNonopt, this`lastNonopt, argv
      ensures Fresh() && Outlook() == old(Outlook())
      ensures config.ordering.Permute? && optind < argv.Length ==> !IsOperand(argv[optind])
      ensures argv[optind..] == old(argv[..])[optind..] && old(optind) <= optind
    {
      hide Parse, Decode;
      ClipRecords();
      if config.ordering.Permute? {
        SkipOperands();
      }
    }

    /**
      Resumes the scan at a fresh element. Some(code) is reported at once; None
      means that an option element is at optind and nextchar holds its text.
    */
    method Advance() returns (found: Option<Code>)
      requires Valid() && Cluster() == "" && !endparse && optarg.None?
      modifies this`optind, this`firstNonopt, this`lastNonopt, this`nextchar, this`optarg, argv
      ensures found.None? ==> Valid() && Cluster() != "" && Outlook() == old(Outlook()) && optarg.None?
      ensures found.Some? ==> Reports(old(Outlook()), found.value)
      ensures found != Some(End) ==> argv[optind..] == old(argv[..])[optind..] && old(optind) <= optind && Recorded()
    {
      hide Parse, Decode;
      ghost var was := argv[..];
      Settle();
      ghost var start := optind;
      found := ExamineElement();
      if found != Some(End) {
        SuffixOfSuffix(was, argv[..], start, optind);
      }
    }

    /** The fields after the step `s` was taken from position `o`, and argv with them. */
    ghost predicate Took(s: Step, o: nat, cluster: string, f: nat, l: nat, code: Code)
      reads this
    {
      && Event(code, optarg, Regs()) == s.event && !code.End?
      && optind == o + s.used <= argv.Length && Cluster() == s.cluster && endparse == s.stop
      && (if s.used == 0 then 0 < |s.cluster| < |cluster| && s.cluster == cluster[1..] && !s.stop
          else s.cluster == "")
      && (if s.stop then config.posix && firstNonopt == optind && lastNonopt == argv.Length
          else firstNonopt == f && lastNonopt == l)
    }

    lemma RunStartsWithStep() returns (s: Step, r: Run)
      requires Valid() && Cluster() != ""
      ensures s == Decode(config, argv[optind], Cluster(), argv[optind + 1..], Regs())
      ensures Unfolds(config, argv[..], optind, s, r) && Outlook() == r.After([], Scanned(), Skipped())
    {
      hide Parse, Decode;
      s := Decode(config, argv[optind], Cluster(), argv[optind + 1..], Regs());
      r := Parse(config, argv[optind..], Cluster(), Regs());
      ParseUnfolds(config, argv[..], optind, Cluster(), Regs());
    }

    /** Takes the first step `s` of the run `r` that remains. */
    method DecodeStep() returns (code: Code, ghost s: Step, ghost r: Run)
      requires Valid() && Cluster() != "" && optarg.None?
      modifies this
      ensures Took(s, old(optind), old(Cluster()), old(firstNonopt), old(lastNonopt), code)
      ensures Unfolds(config, argv[..], old(optind), s, r)
      ensures old(Outlook()) == r.After([], old(Scanned()), old(Skipped()))
    {
      s, r := RunStartsWithStep();
      code := DecodeElement();
    }

    lemma StepKeepsValid(s: Step, o: nat, cluster: string, f: nat, l: nat, code: Code)
      requires config.Valid() && f <= l <= o < argv.Length && (config.ordering.Permute? || f == l)
      requires Took(s, o, cluster, f, l, code)
      requires !IsOperand(argv[o]) && argv[o] != "--"
      requires |cluster| < |argv[o]| && cluster == argv[o][|argv[o]| - |cluster|..]
      ensures Valid()
      ensures Scanned() == argv[..f] + argv[l..o] + argv[o..optind]
      ensures Skipped() == argv[f..l]
    {
      if s.used == 0 {
        SuffixShrinks(argv[o], cluster);
      }
      PassedGrows(argv[..], f, l, o, optind);
    }

    /** Taking the first step `s` of the run `r` leaves the rest of it as the outlook. */
    lemma StepLeavesOutlook(s: Step, r: Run, o: nat, passed: seq<string>)
      requires Valid() && Regs() == s.event.regs && optind == o + s.used && Cluster() == s.cluster && endparse == s.stop
      requires Unfolds(config, argv[..], o, s, r) && Scanned() == passed + argv[o..optind]
      ensures var before := r.After([], passed, Skipped());
              before.events != [] && before.events[0] == s.event && Outlook() == before.(events := before.events[1..])
    {
      ReportOfStep(config, argv[..], o, s, r, passed, Skipped());
    }

    /** One whole call that finds nextchar not empty. */
    method DecodeAndReport() returns (code: Code)
      requires Valid() && Cluster() != "" && optarg.None?
      modifies this
      ensures Reports(old(Outlook()), code) && !code.End?
      ensures old(optind) <= optind && Recorded()
    {
      ghost var o, f, l, cluster, passed := optind, firstNonopt, lastNonopt, Cluster(), Scanned();
      assert passed == argv[..f] + argv[l..o] && Skipped() == argv[f..l];
      ghost var s, r;
      code, s, r := DecodeStep();
      StepKeepsValid(s, o, cluster, f, l, code);
      StepLeavesOutlook(s, r, o, passed);
    }

    /** After "--" as the argument of an option everything is settled. */
    lemma ForcedEnd()
      requires Valid() && endparse && optarg.None?
      ensures Reports(Outlook(), End)
    {
      BoundariesKept(argv[..], First(), Last(), optind);
    }

    method ScanFresh() returns (code: Code)
      requires Valid() && Cluster() == "" && !endparse && optarg.None?
      modifies this, argv
      ensures Reports(old(Outlook()), code)
      ensures code.End? ==> !endparse
      ensures !code.End? ==> argv[optind..] == old(argv[..])[optind..] && old(optind) <= optind && Recorded()
    {
      hide Parse, Decode;
      ghost var look, was := Outlook(), argv[..];
      var found := Advance();
      if found.Some? {
        code := found.value;
      } else {
        assert Outlook() == look;
        ghost var start := optind;
        assert argv[start..] == was[start..];
        code := DecodeAndReport();
        SuffixOfSuffix(was, argv[..], start, optind);
      }
    }

    method Scan() returns (code: Code)
      requires Valid() && optarg.None?
      modifies this, argv
      ensures Reports(old(Outlook()), code)
      ensures code.End? ==> endparse == old(endparse)
      ensures !code.End? ==> argv[optind..] == old(argv[..])[optind..] && old(optind) <= optind && Recorded()
    {
      hide Parse, Decode;
      if endparse {
        ForcedEnd();
        code := End;
      } else if Cluster() == "" {
        code := ScanFresh();
      } else {
        code := DecodeAndReport();
      }
    }

    /** One call. */
    method GetOpt() returns (code: Code)
      requires Valid()
      modifies this, argv
      ensures Reports(old(Outlook()), code)
      ensures code.End? ==> endparse == old(endparse)
      ensures !code.End? ==> argv[optind..] == old(argv[..])[optind..] && old(optind) <= optind && Recorded()
    {
      hide Parse, Decode;
      ghost var look := Outlook();
      optarg := None;
      assert Outlook() == look;
      code := Scan();
    }
  }

  lemma InOrderStep(cfg: Config, argv: seq<string>, o: nat, regs: Regs)
    requires cfg.Valid() && cfg.ordering.ReturnInOrder? && o < |argv| && IsOperand(argv[o])
    ensures Parse(cfg, argv[o..], "", regs)
         == Parse(cfg, argv[o + 1..], "", regs).After([Event(Operand, Some(argv[o]), regs)], [argv[o]], [])
  {
    assert argv[o..][1..] == argv[o + 1..] && argv[o..][..1] == [argv[o]];
  }

  lemma BoundariesKept(argv: seq<string>, f: nat, l: nat, o: nat)
    requires f <= l <= o <= |argv|
    ensures f == l ==> argv[..f] + argv[l..o] == argv[..o] && argv[f..l] == []
    ensures l == o ==> argv[..f] + argv[l..o] == argv[..f]
  {
  }

  /** `r`, a run that starts in the middle of argv[o], begins with the step `s`. */
  ghost predicate Unfolds(cfg: Config, argv: seq<string>, o: nat, s: Step, r: Run) {
    && cfg.Valid() && o + s.used <= |argv| && (s.cluster != "" ==> o + s.used < |argv|)
    && r == if s.stop then Run([s.event, EndEvent(s.event.regs)], argv[o..o + s.used], argv[o + s.used..], true)
            else Parse(cfg, argv[o + s.used..], s.cluster, s.event.regs).After([s.event], argv[o..o + s.used], [])
  }

  lemma SameSlices(argv: seq<string>, o: nat, used: nat)
    requires o < |argv| && o + used <= |argv|
    ensures argv[o..] != [] && argv[o..][0] == argv[o] && argv[o..][1..] == argv[o + 1..]
    ensures argv[o..][..used] == argv[o..o + used] && argv[o..][used..] == argv[o + used..]
  {
  }

  lemma ParseUnfolds(cfg: Config, argv: seq<string>, o: nat, cluster: string, regs: Regs)
    requires cfg.Valid() && cluster != "" && o < |argv|
    ensures var s := Decode(cfg, argv[o], cluster, argv[o + 1..], regs);
            Unfolds(cfg, argv, o, s, Parse(cfg, argv[o..], cluster, regs))
  {
    hide Parse, Decode;
    SameSlices(argv, o, 0);
    var s := Decode(cfg, argv[o], cluster, argv[o + 1..], regs);
    SameSlices(argv, o, s.used);
    FirstStep(cfg, argv[o..], cluster, regs);
  }

  lemma AfterOne(q: Run, e: Event, now: seq<string>, passed: seq<string>, skipped: seq<string>)
    ensures var look := q.After([e], now, []).After([], passed, skipped);
            && look.events == [e] + q.events
            && look.(events := look.events[1..]) == q.After([], passed + now, skipped)
  {
    assert [] + ([e] + q.events) == [e] + q.events;
    assert ([e] + q.events)[1..] == [] + q.events;
    assert passed + (now + q.scanned) == (passed + now) + q.scanned;
    assert skipped + ([] + q.operands) == skipped + q.operands;
  }

  /** What one decoded option leaves to be reported. */
  lemma ReportOfStep(cfg: Config, argv: seq<string>, o: nat, s: Step, r: Run, passed: seq<string>, skipped: seq<string>)
    requires Unfolds(cfg, argv, o, s, r)
    ensures var look := r.After([], passed, skipped);
            var next := passed + argv[o..o + s.used];
            && look.events != [] && look.events[0] == s.event
            && look.(events := look.events[1..]) ==
               if s.stop then Run([EndEvent(s.event.regs)], next, skipped + argv[o + s.used..], true)
               else Parse(cfg, argv[o + s.used..], s.cluster, s.event.regs).After([], next, skipped)
  {
    var now, left := argv[o..o + s.used], argv[o + s.used..];
    if s.stop {
      var q := Run([EndEvent(s.event.regs)], [], left, true);
      assert [s.event] + q.events == [s.event, EndEvent(s.event.regs)] && now + [] == now && [] + left == left;
      AfterOne(q, s.event, now, passed, skipped);
      assert passed + now + [] == passed + now;
    } else {
      AfterOne(Parse(cfg, left, s.cluster, s.event.regs), s.event, now, passed, skipped);
    }
  }

  lemma PassedGrows(argv: seq<string>, f: nat, l: nat, o: nat, n: nat)
    requires f <= l <= o <= n <= |argv|
    ensures argv[..f] + argv[l..o] + argv[o..n] == argv[..f] + argv[l..n]
    ensures f == l ==> argv[..f] + argv[l..n] == argv[..n] && argv[f..l] == []
  {
  }

  lemma DashesJoin(argv: seq<string>, f: nat, l: nat, o: nat)
    requires f <= l <= o < |argv| && argv[o] == "--"
    ensures argv[..f] + argv[l..o + 1] == argv[..f] + argv[l..o] + ["--"]
    ensures f == l ==> argv[..o + 1] == argv[..f] + argv[l..o] + ["--"]
    ensures |argv[..f] + argv[l..o]| + 1 == f + (o + 1 - l)
  {
  }

  lemma SuffixShrinks(e: string, t: string)
    requires 0 < |t| <= |e| && t == e[|e| - |t|..]
    ensures t[1..] == e[|e| - |t[1..]|..]
  {
  }

  lemma SuffixOfSuffix(s: seq<string>, t: seq<string>, i: nat, j: nat)
    requires i <= j <= |s| && |t| == |s| && s[i..] == t[i..]
    ensures s[j..] == t[j..]
  {
    assert s[j..] == s[i..][j - i..] && t[j..] == t[i..][j - i..];
  }

  lemma SkipOne(cfg: Config, argv: seq<string>, first: nat, i: nat, regs: Regs)
    requires cfg.Valid() && cfg.ordering.Permute? && first <= i < |argv| && IsOperand(argv[i])
    ensures Parse(cfg, argv[i..], "", regs).After([], argv[..first], argv[first..i])
         == Parse(cfg, argv[i + 1..], "", regs).After([], argv[..first], argv[first..i + 1])
  {
    assert argv[i..][1..] == argv[i + 1..] && argv[i..][..1] == [argv[i]];
    var q := Parse(cfg, argv[i + 1..], "", regs);
    assert argv[first..i] + ([argv[i]] + q.operands) == argv[first..i + 1] + q.operands;
  }

  /** `ahead` is all that is still to be reported; once nothing is, argv is split as it says. */
  ghost predicate Stands(g: Getopt, ahead: Run)
    reads g, g.argv
  {
    && g.Valid()
    && if ahead.events == [] then g.argv[..g.optind] == ahead.scanned && g.argv[g.optind..] == ahead.operands
       else ahead == g.Outlook()
  }

  /** One call and everything observable of it. */
  method Call(g: Getopt, ghost ahead: Run) returns (e: Event, ghost next: Run)
    requires Stands(g, ahead) && EndsOnce(ahead.events)
    modifies g, g.argv
    ensures ahead.events == [e] + next.events && next == ahead.(events := next.events)
    ensures Stands(g, next) && (if e.code.End? then next.events == [] else EndsOnce(next.events))
  {
    hide Parse, Decode;
    var code := g.GetOpt();
    e := Event(code, g.optarg, g.Regs());
    next := ahead.(events := ahead.events[1..]);
  }

  /**
    Between the calls of an unfinished run: the half-read element is in range,
    what is not yet scanned has not been moved, and the records are within the
    part already scanned, except exactly after a forced end with elements left.
  */
  method CallAtMost(g: Getopt, n: nat) returns (ended: bool)
    requires g.Valid()
    modifies g, g.argv
    ensures !ended ==>
      && g.Valid() && old(g.optind) <= g.optind <= g.argv.Length
      && g.argv[g.optind..] == old(g.argv[..])[g.optind..]
      && (n > 0 ==> (g.firstNonopt <= g.lastNonopt <= g.optind <==> !(g.endparse && g.optind < g.argv.Length)))
      && (g.Cluster() != "" ==>
            && g.optind < g.argv.Length && |g.Cluster()| < |g.argv[g.optind]|
            && g.Cluster() == g.argv[g.optind][|g.argv[g.optind]| - |g.Cluster()|..])
  {
    hide Parse;
    ended := false;
    var k := 0;
    while k < n && !ended
      invariant !ended ==>
        && g.Valid() && old(g.optind) <= g.optind
        && g.argv[g.optind..] == old(g.argv[..])[g.optind..] && (k > 0 ==> g.Recorded())
      decreases n - k
    {
      ghost var start, was := g.optind, g.argv[..];
      var code := g.GetOpt();
      ended := code.End?;
      if !ended {
        SuffixOfSuffix(old(g.argv[..]), was, start, g.optind);
      }
      k := k + 1;
    }
  }

  lemma OutlookEndsOnce(g: Getopt)
    requires g.Valid()
    ensures EndsOnce(g.Outlook().events)
  {
    if !g.endparse {
      RunEnds(g.config, g.Pending(), g.Cluster(), g.Regs());
      assert g.Outlook().events == Parse(g.config, g.Pending(), g.Cluster(), g.Regs()).events;
    }
  }

  /** Calls until the first End. */
  method ScanAll(g: Getopt, ghost ahead: Run) returns (events: seq<Event>)
    requires Stands(g, ahead) && EndsOnce(ahead.events)
    modifies g, g.argv
    ensures events == ahead.events && Stands(g, ahead.(events := []))
    decreases |ahead.events|
  {
    hide Parse, Decode;
    var e: Event;
    ghost var next: Run;
    e, next := Call(g, ahead);
    if e.code.End? {
      events := [e];
    } else {
      var more := ScanAll(g, next);
      events := [e] + more;
    }
  }

  lemma SplitJoins(g: Getopt, run: Run)
    requires Stands(g, run.(events := []))
    ensures g.argv[..] == run.scanned + run.operands && g.optind == |run.scanned|
  {
    assert g.argv[..] == g.argv[..g.optind] + g.argv[g.optind..];
  }

  /** A whole run on a fresh scanner, told apart from the parser only by the rearranged argv. */
  method ParseCommandLine(argv: array<string>, optstring: string, table: Option<Table>, longOnly: bool, posix: bool)
    returns (events: seq<Event>, optind: nat)
    requires KindOf(Configure(optstring, table, longOnly, posix).optstring, 'W').LongName? ==> table.Some?
    modifies argv
    ensures var cfg := Configure(optstring, table, longOnly, posix);
            var run := Parse(cfg, old(argv[..]), "", OptionSyntax.Regs.Regs('?' as int, 0));
            events == run.events && argv[..] == run.scanned + run.operands && optind == |run.scanned|
  {
    var g := new Getopt(argv, optstring, table, longOnly, posix);
    ghost var run := g.Outlook();
    OutlookEndsOnce(g);
    events := ScanAll(g, run);
    optind := g.optind;
    SplitJoins(g, run);
  }
}
