/**
  Rewrites of the command line that leave the reported options unchanged, in
  every ordering mode and anywhere on the line.
*/
module CommandRewrites {
  import opened Wrappers
  import opened LongOptions
  import opened OptionSyntax
  import opened OptionParser
  import opened OptionLaws

  /** The scan of `r` got to the end of its elements and would go on after them. */
  ghost predicate Unfinished(cfg: Config, r: Run) {
    !r.closed && !ArgumentMissing(r) && (cfg.ordering.RequireOrder? ==> r.operands == [])
  }

  /** One run followed by another. */
  function Then(a: Run, b: Run): Run
    requires a.events != []
  {
    Run(a.events[..|a.events| - 1] + b.events, a.scanned + b.scanned, a.operands + b.operands, b.closed)
  }

  function LastRegs(r: Run): Regs
    requires r.events != []
  {
    r.events[|r.events| - 1].regs
  }

  lemma HasEnd(cfg: Config, rest: seq<string>, cluster: string, regs: Regs)
    requires cfg.Valid() && (cluster != "" ==> rest != [])
    ensures Parse(cfg, rest, cluster, regs).events != []
  {
    RunEnds(cfg, rest, cluster, regs);
  }

  lemma ThenAfter(a: Run, b: Run, es: seq<Event>, passed: seq<string>, skipped: seq<string>)
    requires a.events != []
    ensures a.After(es, passed, skipped).events != []
    ensures LastRegs(a.After(es, passed, skipped)) == LastRegs(a)
    ensures Then(a.After(es, passed, skipped), b) == Then(a, b).After(es, passed, skipped)
  {
    var c := a.After(es, passed, skipped);
    assert c.events[..|c.events| - 1] == es + a.events[..|a.events| - 1];
    assert (es + a.events[..|a.events| - 1]) + b.events == es + (a.events[..|a.events| - 1] + b.events);
    assert (passed + a.scanned) + b.scanned == passed + (a.scanned + b.scanned);
    assert (skipped + a.operands) + b.operands == skipped + (a.operands + b.operands);
  }

  lemma StepReachesTail(cfg: Config, rest: seq<string>, cluster: string, regs: Regs, tail: seq<string>)
    requires cfg.Valid() && cluster != "" && rest != []
    requires !Decode(cfg, rest[0], cluster, rest[1..], regs).event.code.Missing?
    ensures var s := Decode(cfg, rest[0], cluster, rest[1..], regs);
            var all := rest + tail;
            && Decode(cfg, all[0], cluster, all[1..], regs) == s
            && all[..s.used] == rest[..s.used] && all[s.used..] == rest[s.used..] + tail
  {
    hide Decode;
    assert (rest + tail)[1..] == rest[1..] + tail;
    DecodeIsLocal(cfg, rest[0], cluster, rest[1..], (rest + tail)[1..], regs);
  }

  lemma ThenStep(cfg: Config, rest: seq<string>, cluster: string, regs: Regs, tail: seq<string>, b: Run)
    requires cfg.Valid() && cluster != "" && rest != []
    requires var s := Decode(cfg, rest[0], cluster, rest[1..], regs);
             var q := Parse(cfg, rest[s.used..], s.cluster, s.event.regs);
             && !s.event.code.Missing? && !s.stop && q.events != []
             && Parse(cfg, rest[s.used..] + tail, s.cluster, s.event.regs) == Then(q, b)
    ensures var r := Parse(cfg, rest, cluster, regs);
            r.events != [] && Parse(cfg, rest + tail, cluster, regs) == Then(r, b)
  {
    var s := Decode(cfg, rest[0], cluster, rest[1..], regs);
    var q := Parse(cfg, rest[s.used..], s.cluster, s.event.regs);
    StepReachesTail(cfg, rest, cluster, regs, tail);
    ThenAfter(q, b, [s.event], rest[..s.used], []);
    assert Parse(cfg, rest + tail, cluster, regs) == Then(q, b).After([s.event], rest[..s.used], []);
  }

  /** A command line may be read in two parts, the registers being handed over. */
  lemma {:induction false} ReadInParts(cfg: Config, rest: seq<string>, cluster: string, regs: Regs, tail: seq<string>)
    requires cfg.Valid() && (cluster != "" ==> rest != [])
    requires Unfinished(cfg, Parse(cfg, rest, cluster, regs))
    ensures var a := Parse(cfg, rest, cluster, regs);
            a.events != [] && Parse(cfg, rest + tail, cluster, regs) == Then(a, Parse(cfg, tail, "", LastRegs(a)))
    decreases Budget(rest, cluster)
  {
    hide Decode;
    HasEnd(cfg, rest, cluster, regs);
    var a := Parse(cfg, rest, cluster, regs);
    var b := Parse(cfg, tail, "", LastRegs(a));
    if cluster != "" {
      var s := Decode(cfg, rest[0], cluster, rest[1..], regs);
      StepSpendsBudget(rest, cluster, s);
      var q := Parse(cfg, rest[s.used..], s.cluster, s.event.regs);
      MissingSplits(s, q, rest[..s.used]);
      ReadInParts(cfg, rest[s.used..], s.cluster, s.event.regs, tail);
      ThenAfter(q, b, [s.event], rest[..s.used], []);
      ThenStep(cfg, rest, cluster, regs, tail, b);
    } else if rest == [] {
      assert rest + tail == tail && a.events[..0] + b.events == b.events;
      assert [] + b.scanned == b.scanned && [] + b.operands == b.operands;
    } else if !IsOperand(rest[0]) {
      ReadInParts(cfg, rest, Strip(rest[0]), regs, tail);
    } else {
      var q := Parse(cfg, rest[1..], "", regs);
      HasEnd(cfg, rest[1..], "", regs);
      assert (rest + tail)[1..] == rest[1..] + tail && (rest + tail)[..1] == rest[..1];
      if cfg.ordering.Permute? {
        assert a.events == q.events;
        ReadInParts(cfg, rest[1..], "", regs, tail);
        ThenAfter(q, b, [], [], rest[..1]);
      } else {
        var e := Event(Operand, Some(rest[0]), regs);
        MissingSplits(Step(e, 1, "", false), q, rest[..1]);
        ReadInParts(cfg, rest[1..], "", regs, tail);
        ThenAfter(q, b, [e], rest[..1], []);
      }
    }
  }

  /** The same reports, and the same elements left to the caller. */
  ghost predicate SameReports(a: Run, b: Run) {
    a.events == b.events && a.operands == b.operands && a.closed == b.closed
  }

  /** What may be replaced at the front of a line may be replaced after any unfinished front. */
  lemma RewriteInContext(cfg: Config, pre: seq<string>, regs: Regs, x: seq<string>, y: seq<string>)
    requires cfg.Valid() && Unfinished(cfg, Parse(cfg, pre, "", regs))
    requires forall g :: SameReports(Parse(cfg, x, "", g), Parse(cfg, y, "", g))
    ensures SameReports(Parse(cfg, pre + x, "", regs), Parse(cfg, pre + y, "", regs))
  {
    ReadInParts(cfg, pre, "", regs, x);
    ReadInParts(cfg, pre, "", regs, y);
  }

  /** An option letter that takes no argument; unknown letters are no exception. */
  predicate Simple(cfg: Config, c: char) {
    c != '-' && (KindOf(cfg.optstring, c).Plain? || KindOf(cfg.optstring, c).Unlisted?)
  }

  /** The element that carries `cluster` matters only if it is tried as a long option. */
  lemma {:induction false} CarrierIsImmaterial(cfg: Config, e: string, f: string, post: seq<string>,
                                               cluster: string, regs: Regs)
    requires cfg.Valid() && cluster != "" && !TriedAsLong(cfg, e) && !TriedAsLong(cfg, f)
    ensures SameReports(Parse(cfg, [e] + post, cluster, regs), Parse(cfg, [f] + post, cluster, regs))
    decreases |cluster|
  {
    assert ([e] + post)[1..] == post && ([f] + post)[1..] == post;
    var s := Decode(cfg, e, cluster, post, regs);
    assert Decode(cfg, f, cluster, post, regs) == s;
    if s.used == 0 {
      assert ([e] + post)[0..] == [e] + post && ([f] + post)[0..] == [f] + post;
      CarrierIsImmaterial(cfg, e, f, post, s.cluster, s.event.regs);
    } else {
      assert ([e] + post)[s.used..] == post[s.used - 1..] && ([f] + post)[s.used..] == post[s.used - 1..];
    }
  }

  /** "-x" followed by anything: one report, then the rest. */
  lemma SimpleAlone(cfg: Config, c: char, post: seq<string>, regs: Regs)
    requires cfg.Valid() && !cfg.longOnly && Simple(cfg, c)
    ensures var s := DecodeShort(cfg, [c], [], regs);
            Parse(cfg, ["-" + [c]] + post, "", regs)
            == Parse(cfg, post, "", s.event.regs).After([s.event], ["-" + [c]], [])
  {
    var e := "-" + [c];
    var all := [e] + post;
    assert e[1..] == [c] && all[1..] == post && all[..1] == [e];
    assert Strip(e) == [c];
    assert Parse(cfg, all, "", regs) == Parse(cfg, all, [c], regs);
  }

  /** "-xTAIL": the report of x, then "-TAIL". */
  lemma SimpleInFront(cfg: Config, c: char, t: string, post: seq<string>, regs: Regs)
    requires cfg.Valid() && !cfg.longOnly && Simple(cfg, c) && t != "" && t[0] != '-'
    ensures var s := DecodeShort(cfg, [c], [], regs);
            SameReports(Parse(cfg, ["-" + [c] + t] + post, "", regs),
                        Parse(cfg, ["-" + t] + post, "", s.event.regs).After([s.event], [], []))
  {
    var e, f := "-" + [c] + t, "-" + t;
    var all, more := [e] + post, [f] + post;
    assert e[1..] == [c] + t && ([c] + t)[1..] == t && f[1..] == t;
    assert all[1..] == post && all[0..] == all && all[..0] == [];
    var s := DecodeShort(cfg, [c], [], regs);
    assert Strip(e) == [c] + t && Strip(f) == t;
    assert Decode(cfg, e, [c] + t, post, regs) == Step(s.event, 0, t, false);
    assert Parse(cfg, all, "", regs) == Parse(cfg, all, [c] + t, regs);
    assert Parse(cfg, more, "", s.event.regs) == Parse(cfg, more, t, s.event.regs);
    CarrierIsImmaterial(cfg, e, f, post, t, s.event.regs);
  }

  /** "-xTAIL" is "-x -TAIL", whatever the tail takes. */
  lemma LetterMayBeSplitOff(cfg: Config, c: char, t: string, post: seq<string>, regs: Regs)
    requires cfg.Valid() && !cfg.longOnly && Simple(cfg, c) && t != "" && t[0] != '-'
    ensures SameReports(Parse(cfg, ["-" + [c] + t] + post, "", regs),
                        Parse(cfg, ["-" + [c]] + (["-" + t] + post), "", regs))
  {
    hide Parse;
    SimpleInFront(cfg, c, t, post, regs);
    SimpleAlone(cfg, c, ["-" + t] + post, regs);
  }

  /** "-x -y -z" for "xyz". */
  function Singles(cs: string): seq<string> {
    if cs == "" then [] else ["-" + cs[..1]] + Singles(cs[1..])
  }

  lemma AfterKeeps(a: Run, b: Run, es: seq<Event>, p: seq<string>, q: seq<string>)
    requires SameReports(a, b)
    ensures SameReports(a.After(es, p, []), b.After(es, q, []))
  {
  }

  /** A cluster of options without arguments is the same as the options one by one. */
  lemma {:induction false} ClusterIsItsLetters(cfg: Config, cs: string, post: seq<string>, regs: Regs)
    requires cfg.Valid() && !cfg.longOnly && cs != ""
    requires forall k :: 0 <= k < |cs| ==> Simple(cfg, cs[k])
    ensures SameReports(Parse(cfg, ["-" + cs] + post, "", regs), Parse(cfg, Singles(cs) + post, "", regs))
  {
    hide Parse, Decode;
    var c, t := cs[0], cs[1..];
    assert cs[..1] == [c] && cs == [c] + t;
    var s := DecodeShort(cfg, [c], [], regs);
    if t == "" {
      assert cs[..1] == cs && Singles(t) == [];
      assert Singles(cs) == ["-" + cs];
    } else {
      assert "-" + cs == "-" + [c] + t;
      SimpleInFront(cfg, c, t, post, regs);
      ClusterIsItsLetters(cfg, t, post, s.event.regs);
      assert Singles(cs) + post == ["-" + [c]] + (Singles(t) + post);
      SimpleAlone(cfg, c, Singles(t) + post, regs);
      AfterKeeps(Parse(cfg, ["-" + t] + post, "", s.event.regs), Parse(cfg, Singles(t) + post, "", s.event.regs),
                 [s.event], [], ["-" + [c]]);
    }
  }

  /** A "-" element read as one short option: one report, then what it did not use. */
  lemma ShortAlone(cfg: Config, text: string, post: seq<string>, regs: Regs, s: Step)
    requires cfg.Valid() && !cfg.longOnly && text != "" && text[0] != '-'
    requires DecodeShort(cfg, text, post, regs) == s && s.used > 0 && !s.stop
    ensures SameReports(Parse(cfg, ["-" + text] + post, "", regs),
                        Parse(cfg, post[s.used - 1..], "", s.event.regs).After([s.event], [], []))
  {
    hide DecodeLong, DecodeShort;
    var e := "-" + text;
    var all := [e] + post;
    assert e[1..] == text && Strip(e) == text && all[1..] == post && all[s.used..] == post[s.used - 1..];
    assert Parse(cfg, all, "", regs) == Parse(cfg, all, text, regs);
    assert Decode(cfg, e, text, post, regs) == s;
  }

  /** Is a required argument the same attached and separate? Under POSIX "--" is skipped when separate. */
  predicate Detachable(cfg: Config, text: string, post: seq<string>) {
    !(cfg.posix && text == "--") || (post != [] && post[0] == "--")
  }

  /** "-cTEXT": one report, then the rest. */
  lemma AttachedAlone(cfg: Config, c: char, text: string, post: seq<string>, regs: Regs)
    requires cfg.Valid() && !cfg.longOnly && c != '-' && text != "" && KindOf(cfg.optstring, c).Required?
    ensures SameReports(Parse(cfg, ["-" + ([c] + text)] + post, "", regs),
                        Parse(cfg, post, "", regs).After([Event(Short(c), Some(text), regs)], [], []))
  {
    hide Parse;
    assert ([c] + text)[1..] == text;
    ShortAlone(cfg, [c] + text, post, regs, DecodeShort(cfg, [c] + text, post, regs));
    assert post[0..] == post;
  }

  /** "-c TEXT" in general. */
  lemma SeparateAlone(cfg: Config, c: char, text: string, post: seq<string>, regs: Regs)
    requires cfg.Valid() && !cfg.longOnly && c != '-' && KindOf(cfg.optstring, c).Required?
    requires !(cfg.posix && text == "--")
    ensures SameReports(Parse(cfg, ["-" + [c]] + ([text] + post), "", regs),
                        Parse(cfg, post, "", regs).After([Event(Short(c), Some(text), regs)], [], []))
  {
    hide Parse, KindOf;
    var following := [text] + post;
    assert following[0] == text && following[1..] == post;
    var s := Step(Event(Short(c), Some(text), regs), 2, "", false);
    assert DecodeShort(cfg, [c], following, regs) == s by {
      hide DecodeLong, DecodeWord;
    }
    hide DecodeShort;
    ShortAlone(cfg, [c], following, regs, s);
  }

  /** "-c --" under POSIX: the element after "--" is the argument and the last thing scanned. */
  lemma DashesSkipped(cfg: Config, c: char, post: seq<string>, regs: Regs)
    requires cfg.Valid() && !cfg.longOnly && c != '-' && KindOf(cfg.optstring, c).Required? && cfg.posix
    ensures var r := Parse(cfg, ["-" + [c]] + (["--"] + post), "", regs);
            r.events != []
            && if post == [] then r.events[0].code.Missing?
               else && r.events == [Event(Short(c), Some(post[0]), regs), EndEvent(regs)]
                    && r.operands == post[1..] && r.closed
  {
    hide DecodeLong, DecodeWord, KindOf;
    var e, following := "-" + [c], ["--"] + post;
    var all := [e] + following;
    assert e[1..] == [c] && Strip(e) == [c] && all[1..] == following;
    assert post != [] ==> all[3..] == post[1..];
    assert Parse(cfg, all, "", regs) == Parse(cfg, all, [c], regs);
    FirstStep(cfg, all, [c], regs);
  }

  /** "-cTEXT" and "-c TEXT", at the front of a line, when c requires an argument. */
  lemma AttachedIsSeparate(cfg: Config, c: char, text: string, post: seq<string>, regs: Regs)
    requires cfg.Valid() && !cfg.longOnly && c != '-' && text != "" && KindOf(cfg.optstring, c).Required?
    ensures SameReports(Parse(cfg, ["-" + ([c] + text)] + post, "", regs),
                        Parse(cfg, ["-" + [c]] + ([text] + post), "", regs))
            <==> Detachable(cfg, text, post)
  {
    AttachedAlone(cfg, c, text, post, regs);
    if cfg.posix && text == "--" {
      DashesSkipped(cfg, c, post, regs);
      DashesAfterAll(cfg, c, post, regs);
    } else {
      SeparateAlone(cfg, c, text, post, regs);
    }
  }

  /** What "-c--" leaves to be compared with "-c --". */
  lemma DashesAfterAll(cfg: Config, c: char, post: seq<string>, regs: Regs)
    requires cfg.Valid()
    ensures var r := Parse(cfg, post, "", regs).After([Event(Short(c), Some("--"), regs)], [], []);
            && r.events != [] && r.events[0] == Event(Short(c), Some("--"), regs)
            && (post != [] && post[0] == "--" ==>
                  && r.events == [Event(Short(c), Some("--"), regs), EndEvent(regs)]
                  && r.operands == post[1..] && r.closed)
  {
  }

  lemma OneStrictOption()
    ensures var cfg := Configure("c:", None, false, true);
            cfg.Valid() && cfg.posix && !cfg.longOnly && KindOf(cfg.optstring, 'c').Required?
  {
    assert IndexOf("c:", 'W') == 2 by {
      assert "c:"[1..] == ":" && ":"[1..] == "";
    }
    assert "c:"[0..] == "c:";
  }

  /** -c-- takes "--" for the argument, -c -- lacks one. */
  lemma DashesMayNotBeDetached(regs: Regs)
    ensures var cfg := Configure("c:", None, false, true);
            && cfg.Valid()
            && (var es := Parse(cfg, ["-" + (['c'] + "--")] + [], "", regs).events;
                es != [] && es[0] == Event(Short('c'), Some("--"), regs))
            && (var es := Parse(cfg, ["-" + ['c']] + (["--"] + []), "", regs).events;
                es != [] && es[0].code.Missing?)
  {
    hide Parse, Configure, KindOf;
    OneStrictOption();
    var cfg := Configure("c:", None, false, true);
    AttachedAlone(cfg, 'c', "--", [], regs);
    DashesAfterAll(cfg, 'c', [], regs);
    DashesSkipped(cfg, 'c', [], regs);
  }

  /** A "--" element whose text the table knows: one report, then what it did not use. */
  lemma LongAlone(cfg: Config, text: string, post: seq<string>, regs: Regs, s: Step)
    requires cfg.Valid() && cfg.table.Some? && text != "" && DecodeLong(cfg, text, None, post, regs) == Some(s)
    ensures SameReports(Parse(cfg, ["--" + text] + post, "", regs),
                        Parse(cfg, post[s.used - 1..], "", s.event.regs).After([s.event], [], []))
  {
    hide DecodeLong, DecodeShort;
    var e := "--" + text;
    var all := [e] + post;
    assert e[2..] == text && Strip(e) == text && all[1..] == post && all[s.used..] == post[s.used - 1..];
    assert Parse(cfg, all, "", regs) == Parse(cfg, all, text, regs);
    assert Decode(cfg, e, text, post, regs) == s;
  }

  lemma NameEnds(name: string, arg: string)
    requires '=' !in name
    ensures var text := name + "=" + arg;
            IndexOf(text, '=') == |name| && text[..|name|] == name && text[|name| + 1..] == arg
    ensures IndexOf(name, '=') == |name| && name[..|name|] == name
  {
    var text := name + "=" + arg;
    assert text[|name|] == '=' && forall k :: 0 <= k < |name| ==> text[k] == name[k];
  }

  /** "--name=arg" is the same as "--name arg" when the long option requires an argument. */
  lemma LongAttachedIsSeparate(cfg: Config, name: string, arg: string, post: seq<string>, regs: Regs)
    requires cfg.Valid() && cfg.table.Some? && name != "" && '=' !in name
    requires var m := Lookup(cfg.table.value, name); m.Chosen? && cfg.table.value[m.index].hasArg.RequiredArgument?
    ensures SameReports(Parse(cfg, ["--" + (name + "=" + arg)] + post, "", regs),
                        Parse(cfg, ["--" + name, arg] + post, "", regs))
  {
    hide Parse, IndexOf, Lookup;
    NameEnds(name, arg);
    var joined := DecodeLong(cfg, name + "=" + arg, None, post, regs);
    var split := DecodeLong(cfg, name, None, [arg] + post, regs);
    assert joined.Some? && split == Some(joined.value.(used := 2)) && joined.value.used == 1;
    LongAlone(cfg, name + "=" + arg, post, regs, joined.value);
    LongAlone(cfg, name, [arg] + post, regs, split.value);
    assert ["--" + name] + ([arg] + post) == ["--" + name, arg] + post;
  }

  /** An optional argument is never taken from the next element. */
  lemma OptionalMustBeAttached(cfg: Config, c: char, post: seq<string>, regs: Regs)
    requires cfg.Valid() && !cfg.longOnly && c != '-' && KindOf(cfg.optstring, c).Optional?
    ensures Parse(cfg, ["-" + [c]] + post, "", regs)
         == Parse(cfg, post, "", regs).After([Event(Short(c), None, regs)], ["-" + [c]], [])
  {
    hide DecodeLong, DecodeWord, KindOf;
    var e := "-" + [c];
    var all := [e] + post;
    assert e[1..] == [c] && all[1..] == post && all[..1] == [e] && Strip(e) == [c];
    assert Parse(cfg, all, "", regs) == Parse(cfg, all, [c], regs);
  }

  /** "-Wname" is the same as "-W name". */
  lemma NameMayBeDetached(cfg: Config, name: string, post: seq<string>, regs: Regs)
    requires cfg.Valid() && !cfg.longOnly && name != "" && KindOf(cfg.optstring, 'W').LongName?
    ensures SameReports(Parse(cfg, ["-" + ("W" + name)] + post, "", regs),
                        Parse(cfg, ["-" + "W"] + ([name] + post), "", regs))
  {
    hide DecodeLong, KindOf, Parse;
    assert ("W" + name)[1..] == name && ([name] + post)[1..] == post;
    var s := DecodeWord(cfg, name, post, regs);
    var t := s.(used := s.used + 1);
    assert DecodeWord(cfg, "", [name] + post, regs) == t;
    ShortAlone(cfg, "W" + name, post, regs, s);
    ShortAlone(cfg, "W", [name] + post, regs, t);
    assert post[s.used - 1..] == ([name] + post)[t.used - 1..];
  }

  /** Behind any unfinished front, a cluster may be spelled out letter by letter. */
  lemma ClustersMayBeSpelledOut(cfg: Config, pre: seq<string>, cs: string, post: seq<string>, regs: Regs)
    requires cfg.Valid() && !cfg.longOnly && cs != "" && Unfinished(cfg, Parse(cfg, pre, "", regs))
    requires forall k :: 0 <= k < |cs| ==> Simple(cfg, cs[k])
    ensures SameReports(Parse(cfg, pre + (["-" + cs] + post), "", regs),
                        Parse(cfg, pre + (Singles(cs) + post), "", regs))
  {
    forall g ensures SameReports(Parse(cfg, ["-" + cs] + post, "", g), Parse(cfg, Singles(cs) + post, "", g)) {
      ClusterIsItsLetters(cfg, cs, post, g);
    }
    RewriteInContext(cfg, pre, regs, ["-" + cs] + post, Singles(cs) + post);
  }

  lemma ThenCancels(a: Run, b: Run, c: Run)
    requires a.events != []
    ensures SameReports(Then(a, b), Then(a, c)) <==> SameReports(b, c)
  {
    var front := a.events[..|a.events| - 1];
    assert (front + b.events)[|front|..] == b.events && (front + c.events)[|front|..] == c.events;
    assert (a.operands + b.operands)[|a.operands|..] == b.operands;
    assert (a.operands + c.operands)[|a.operands|..] == c.operands;
  }

  /** Behind any unfinished front, a required argument may be attached or separate in exactly the same cases. */
  lemma ArgumentsMayBeDetached(cfg: Config, pre: seq<string>, c: char, text: string, post: seq<string>, regs: Regs)
    requires cfg.Valid() && !cfg.longOnly && Unfinished(cfg, Parse(cfg, pre, "", regs))
    requires c != '-' && text != "" && KindOf(cfg.optstring, c).Required?
    ensures SameReports(Parse(cfg, pre + (["-" + ([c] + text)] + post), "", regs),
                        Parse(cfg, pre + (["-" + [c]] + ([text] + post)), "", regs))
            <==> Detachable(cfg, text, post)
  {
    hide Parse, KindOf, Then;
    var x, y := ["-" + ([c] + text)] + post, ["-" + [c]] + ([text] + post);
    ReadInParts(cfg, pre, "", regs, x);
    ReadInParts(cfg, pre, "", regs, y);
    var a := Parse(cfg, pre, "", regs);
    ThenCancels(a, Parse(cfg, x, "", LastRegs(a)), Parse(cfg, y, "", LastRegs(a)));
    AttachedIsSeparate(cfg, c, text, post, LastRegs(a));
  }

  /** Behind any unfinished front, the required argument of a long option may be attached or separate. */
  lemma LongArgumentsMayBeDetached(cfg: Config, pre: seq<string>, name: string, arg: string, post: seq<string>,
                                   regs: Regs)
    requires cfg.Valid() && cfg.table.Some? && name != "" && '=' !in name && Unfinished(cfg, Parse(cfg, pre, "", regs))
    requires var m := Lookup(cfg.table.value, name);
             m.Chosen? && cfg.table.value[m.index].hasArg.RequiredArgument?
    ensures SameReports(Parse(cfg, pre + (["--" + (name + "=" + arg)] + post), "", regs),
                        Parse(cfg, pre + (["--" + name, arg] + post), "", regs))
  {
    hide Parse, Lookup;
    var x, y := ["--" + (name + "=" + arg)] + post, ["--" + name, arg] + post;
    forall g ensures SameReports(Parse(cfg, x, "", g), Parse(cfg, y, "", g)) {
      LongAttachedIsSeparate(cfg, name, arg, post, g);
    }
    RewriteInContext(cfg, pre, regs, x, y);
  }

  /** Behind any unfinished front, the name behind -W may be attached or separate. */
  lemma NamesMayBeDetached(cfg: Config, pre: seq<string>, name: string, post: seq<string>, regs: Regs)
    requires cfg.Valid() && !cfg.longOnly && name != "" && KindOf(cfg.optstring, 'W').LongName?
    requires Unfinished(cfg, Parse(cfg, pre, "", regs))
    ensures SameReports(Parse(cfg, pre + (["-" + ("W" + name)] + post), "", regs),
                        Parse(cfg, pre + (["-" + "W"] + ([name] + post)), "", regs))
  {
    hide Parse, KindOf;
    var x, y := ["-" + ("W" + name)] + post, ["-" + "W"] + ([name] + post);
    forall g ensures SameReports(Parse(cfg, x, "", g), Parse(cfg, y, "", g)) {
      NameMayBeDetached(cfg, name, post, g);
    }
    RewriteInContext(cfg, pre, regs, x, y);
  }
}
