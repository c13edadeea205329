/**
  The meaning of a whole command line: one left-to-right pass over the original
  argv that never moves an element, and the laws of that pass.
*/
module OptionParser {
  import opened Wrappers
  import opened OptionSyntax

  /**
    `events` is what successive calls report, ending with End. `scanned` are the
    elements accounted for, `operands` those left to the caller, both in argv
    order; `closed` tells that "--" put an end to the options.
  */
  datatype Run = Run(events: seq<Event>, scanned: seq<string>, operands: seq<string>, closed: bool) {
    function After(es: seq<Event>, passed: seq<string>, skipped: seq<string>): Run {
      Run(es + events, passed + scanned, skipped + operands, closed)
    }
  }

  function EndEvent(regs: Regs): Event { Event(End, None, regs) }

  function Weight(e: string): nat { if e == "" then 1 else |e| }

  function Weights(es: seq<string>): nat {
    if es == [] then 0 else Weight(es[0]) + Weights(es[1..])
  }

  /** An upper bound on the calls that remain before End. */
  function Budget(rest: seq<string>, cluster: string): nat
    requires cluster != "" ==> rest != []
  {
    if cluster == "" then Weights(rest) else |cluster| + Weights(rest[1..])
  }

  lemma WeightsDrop(es: seq<string>, n: nat)
    requires n <= |es|
    ensures Weights(es[n..]) <= Weights(es)
  {
    if n > 0 {
      assert es[1..][n - 1..] == es[n..];
      WeightsDrop(es[1..], n - 1);
    }
  }

  lemma StepSpendsBudget(rest: seq<string>, cluster: string, s: Step)
    requires cluster != "" && rest != [] && s.used <= |rest|
    requires s.used == 0 <==> s.cluster != ""
    requires s.used == 0 ==> s.cluster == cluster[1..]
    ensures Budget(rest[s.used..], s.cluster) < Budget(rest, cluster)
  {
    if s.used > 0 {
      assert rest[1..][s.used - 1..] == rest[s.used..];
      WeightsDrop(rest[1..], s.used - 1);
    }
  }

  /**
    Reads `rest` from left to right. When `cluster` is not empty, it is what
    remains to be read of the option element rest[0].
  */
  function Parse(cfg: Config, rest: seq<string>, cluster: string, regs: Regs): (r: Run)
    requires cfg.Valid()
    requires cluster != "" ==> rest != []
    decreases Budget(rest, cluster)
  {
    if cluster == "" then
      if rest == [] then Run([EndEvent(regs)], [], [], false)
      else if rest[0] == "--" then Run([EndEvent(regs)], ["--"], rest[1..], true)
      else if !IsOperand(rest[0]) then Parse(cfg, rest, Strip(rest[0]), regs)
      else match cfg.ordering
        case RequireOrder => Run([EndEvent(regs)], [], rest, false)
        case Permute => Parse(cfg, rest[1..], "", regs).After([], [], rest[..1])
        case ReturnInOrder =>
          Parse(cfg, rest[1..], "", regs).After([Event(Operand, Some(rest[0]), regs)], rest[..1], [])
    else
      var s := Decode(cfg, rest[0], cluster, rest[1..], regs);
      if s.stop then Run([s.event, EndEvent(s.event.regs)], rest[..s.used], rest[s.used..], true)
      else
        StepSpendsBudget(rest, cluster, s);
        Parse(cfg, rest[s.used..], s.cluster, s.event.regs).After([s.event], rest[..s.used], [])
  }

  /** Reading on in the middle of an element, one step at a time. */
  lemma FirstStep(cfg: Config, rest: seq<string>, cluster: string, regs: Regs)
    requires cfg.Valid() && cluster != "" && rest != []
    ensures var s := Decode(cfg, rest[0], cluster, rest[1..], regs);
            Parse(cfg, rest, cluster, regs) ==
              if s.stop then Run([s.event, EndEvent(s.event.regs)], rest[..s.used], rest[s.used..], true)
              else Parse(cfg, rest[s.used..], s.cluster, s.event.regs).After([s.event], rest[..s.used], [])
  {
  }

  // ---------- every run ends ----------

  ghost predicate EndsOnce(es: seq<Event>) {
    && es != [] && es[|es| - 1].code.End? && es[|es| - 1].optarg.None?
    && forall k :: 0 <= k < |es| - 1 ==> !es[k].code.End?
  }

  lemma EndsOnceAfter(e: Event, es: seq<Event>)
    requires EndsOnce(es) && !e.code.End?
    ensures EndsOnce([e] + es)
  {
  }

  /** End closes the run and occurs nowhere else; the calls before it are bounded by argv. */
  lemma {:induction false} RunEnds(cfg: Config, rest: seq<string>, cluster: string, regs: Regs)
    requires cfg.Valid() && (cluster != "" ==> rest != [])
    ensures var es := Parse(cfg, rest, cluster, regs).events;
            EndsOnce(es) && |es| <= 1 + Budget(rest, cluster)
    decreases Budget(rest, cluster)
  {
    if cluster == "" {
      if rest != [] && rest[0] != "--" {
        if !IsOperand(rest[0]) {
          RunEnds(cfg, rest, Strip(rest[0]), regs);
        } else {
          var q := Parse(cfg, rest[1..], "", regs);
          RunEnds(cfg, rest[1..], "", regs);
          assert [] + q.events == q.events;
          EndsOnceAfter(Event(Operand, Some(rest[0]), regs), q.events);
        }
      }
    } else {
      var s := Decode(cfg, rest[0], cluster, rest[1..], regs);
      StepSpendsBudget(rest, cluster, s);
      FirstStep(cfg, rest, cluster, regs);
      if !s.stop {
        RunEnds(cfg, rest[s.used..], s.cluster, s.event.regs);
        EndsOnceAfter(s.event, Parse(cfg, rest[s.used..], s.cluster, s.event.regs).events);
      } else {
        SpentTwice(cfg, rest, cluster, regs);
      }
    }
  }

  /** A forced end leaves room for two reports. */
  lemma SpentTwice(cfg: Config, rest: seq<string>, cluster: string, regs: Regs)
    requires cfg.Valid() && cluster != "" && rest != []
    ensures Budget(rest, cluster) >= 1
  {
  }

  // ---------- the elements are split, never lost or reordered ----------

  /** The elements of `es` whose mark equals `which`, in order. */
  function Select(es: seq<string>, marks: seq<bool>, which: bool): seq<string>
    requires |es| == |marks|
  {
    if es == [] then []
    else (if marks[0] == which then es[..1] else []) + Select(es[1..], marks[1..], which)
  }

  lemma {:induction false} SelectAppend(a: seq<string>, b: seq<string>, m: seq<bool>, n: seq<bool>, which: bool)
    requires |a| == |m| && |b| == |n|
    ensures Select(a + b, m + n, which) == Select(a, m, which) + Select(b, n, which)
  {
    if a == [] {
      assert a + b == b && m + n == n;
    } else {
      assert (a + b)[1..] == a[1..] + b && (m + n)[1..] == m[1..] + n && (a + b)[..1] == a[..1];
      SelectAppend(a[1..], b, m[1..], n, which);
    }
  }

  lemma {:induction false} SelectAll(a: seq<string>, mark: bool)
    ensures Select(a, seq(|a|, _ => mark), mark) == a
    ensures Select(a, seq(|a|, _ => mark), !mark) == []
  {
    if a != [] {
      assert seq(|a|, _ => mark)[1..] == seq(|a| - 1, _ => mark);
      SelectAll(a[1..], mark);
    }
  }

  ghost predicate Divides(es: seq<string>, marks: seq<bool>, r: Run) {
    |marks| == |es| && r.scanned == Select(es, marks, false) && r.operands == Select(es, marks, true)
  }

  lemma DivideFront(front: seq<string>, mark: bool, es: seq<string>, marks: seq<bool>, r: Run)
    requires Divides(es, marks, r)
    ensures var passed := if mark then [] else front;
            var skipped := if mark then front else [];
            Divides(front + es, seq(|front|, _ => mark) + marks, r.After([], passed, skipped))
  {
    var m := seq(|front|, _ => mark);
    SelectAll(front, mark);
    SelectAppend(front, es, m, marks, true);
    SelectAppend(front, es, m, marks, false);
  }

  lemma DivideWhole(front: seq<string>, back: seq<string>) returns (marks: seq<bool>)
    ensures |marks| == |front + back|
    ensures forall k :: 0 <= k < |marks| ==> (marks[k] <==> |front| <= k)
    ensures Select(front + back, marks, false) == front && Select(front + back, marks, true) == back
  {
    var f, b := seq(|front|, _ => false), seq(|back|, _ => true);
    SelectAll(front, false);
    SelectAll(back, true);
    SelectAppend(front, back, f, b, false);
    SelectAppend(front, back, f, b, true);
    marks := f + b;
  }

  /** Every element a permuting scan leaves to the caller is an operand or follows the closing "--". */
  ghost predicate Rightly(es: seq<string>, marks: seq<bool>) {
    |marks| == |es| && forall k :: 0 <= k < |es| && marks[k] ==>
      IsOperand(es[k]) || exists j :: 0 <= j < k && es[j] == "--" && !marks[j]
  }

  lemma RightlyShifts(front: seq<string>, fm: seq<bool>, es: seq<string>, marks: seq<bool>)
    requires Rightly(es, marks) && |fm| == |front|
    requires forall k :: 0 <= k < |front| && fm[k] ==> IsOperand(front[k])
    ensures Rightly(front + es, fm + marks)
  {
    var all, am := front + es, fm + marks;
    forall k | 0 <= k < |all| && am[k]
      ensures IsOperand(all[k]) || exists j :: 0 <= j < k && all[j] == "--" && !am[j]
    {
      if k >= |front| && !IsOperand(all[k]) {
        assert marks[k - |front|];
        var j :| 0 <= j < k - |front| && es[j] == "--" && !marks[j];
        assert all[j + |front|] == "--" && !am[j + |front|];
      }
    }
  }

  /** `marks` tells scanned elements from operands, and a permuting scan hands back only what it may. */
  ghost predicate Splits(cfg: Config, es: seq<string>, marks: seq<bool>, r: Run) {
    Divides(es, marks, r) && (cfg.ordering.Permute? ==> Rightly(es, marks))
  }

  lemma SplitFront(cfg: Config, es: seq<string>, n: nat, mark: bool, m: seq<bool>, q: Run, now: seq<Event>)
    returns (marks: seq<bool>)
    requires n <= |es| && Splits(cfg, es[n..], m, q)
    requires mark ==> forall k :: 0 <= k < n ==> IsOperand(es[k])
    ensures Splits(cfg, es, marks, q.After(now, if mark then [] else es[..n], if mark then es[..n] else []))
  {
    hide Select;
    var front := seq(n, _ => mark);
    marks := front + m;
    assert es[..n] + es[n..] == es;
    DivideFront(es[..n], mark, es[n..], m, q);
    if cfg.ordering.Permute? {
      RightlyShifts(es[..n], front, es[n..], m);
    }
  }

  /**
    Scanned elements and operands are complementary subsequences of argv, and a
    permuting scan hands back only operands and what follows "--".
  */
  lemma {:induction false} StablePartition(cfg: Config, rest: seq<string>, cluster: string, regs: Regs)
    returns (marks: seq<bool>)
    requires cfg.Valid() && (cluster != "" ==> rest != [])
    ensures Splits(cfg, rest, marks, Parse(cfg, rest, cluster, regs))
    decreases Budget(rest, cluster)
  {
    hide Decode, Rightly;
    if cluster != "" {
      var s := Decode(cfg, rest[0], cluster, rest[1..], regs);
      FirstStep(cfg, rest, cluster, regs);
      if s.stop {
        assert rest[..s.used] + rest[s.used..] == rest;
        marks := DivideWhole(rest[..s.used], rest[s.used..]);
      } else {
        StepSpendsBudget(rest, cluster, s);
        var q := Parse(cfg, rest[s.used..], s.cluster, s.event.regs);
        var m := StablePartition(cfg, rest[s.used..], s.cluster, s.event.regs);
        marks := SplitFront(cfg, rest, s.used, false, m, q, [s.event]);
      }
    } else if rest == [] {
      marks := DivideWhole([], []);
      NothingIsRight(marks);
    } else if rest[0] == "--" {
      assert ["--"] + rest[1..] == rest;
      marks := DivideWhole(["--"], rest[1..]);
      DashesAreRight(rest, marks);
    } else if !IsOperand(rest[0]) {
      marks := StablePartition(cfg, rest, Strip(rest[0]), regs);
    } else if cfg.ordering.RequireOrder? {
      assert [] + rest == rest;
      marks := DivideWhole([], rest);
    } else {
      var m := StablePartition(cfg, rest[1..], "", regs);
      var now := if cfg.ordering.Permute? then [] else [Event(Operand, Some(rest[0]), regs)];
      marks := SplitFront(cfg, rest, 1, cfg.ordering.Permute?, m, Parse(cfg, rest[1..], "", regs), now);
    }
  }

  lemma NothingIsRight(marks: seq<bool>)
    requires marks == []
    ensures Rightly([], marks)
  {
  }

  lemma DashesAreRight(es: seq<string>, marks: seq<bool>)
    requires es != [] && es[0] == "--" && |marks| == |es| && !marks[0]
    ensures Rightly(es, marks)
  {
  }

  lemma {:induction false} SelectCounts(es: seq<string>, marks: seq<bool>)
    requires |es| == |marks|
    ensures multiset(Select(es, marks, false) + Select(es, marks, true)) == multiset(es)
  {
    if es != [] {
      assert es == es[..1] + es[1..];
      SelectCounts(es[1..], marks[1..]);
    }
  }

  /** Nothing is lost or duplicated. */
  lemma ScannedThenOperandsIsAPermutation(cfg: Config, rest: seq<string>, cluster: string, regs: Regs)
    requires cfg.Valid() && (cluster != "" ==> rest != [])
    ensures var r := Parse(cfg, rest, cluster, regs);
            multiset(r.scanned + r.operands) == multiset(rest) && |r.scanned| + |r.operands| == |rest|
  {
    var r := Parse(cfg, rest, cluster, regs);
    var marks := StablePartition(cfg, rest, cluster, regs);
    SelectCounts(rest, marks);
    assert |multiset(r.scanned + r.operands)| == |r.scanned| + |r.operands|;
    assert |multiset(rest)| == |rest|;
  }
}
