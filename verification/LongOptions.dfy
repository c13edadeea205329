/**
  The table of long options and the rule that picks an entry for a name typed
  on the command line, possibly abbreviated.
*/
module LongOptions {
  import opened Wrappers

  datatype Argument = NoArgument | RequiredArgument | OptionalArgument

  /** `flag` names the caller's buffer that receives `val`, if there is one. */
  datatype LongOpt = LongOpt(name: string, hasArg: Argument, flag: Option<nat>, val: int)

  type Table = seq<LongOpt>

  /** `first` is the lowest index of the competing entries. */
  datatype Match = NoMatch | Ambiguous(first: nat) | Chosen(index: nat)

  predicate Fits(opt: LongOpt, name: string, exactly: bool) {
    if exactly then name == opt.name else name <= opt.name
  }

  /** The first entry at or after `from` that fits, or |table|. */
  function FirstFit(table: Table, name: string, exactly: bool, from: nat): (i: nat)
    requires from <= |table|
    ensures from <= i <= |table|
    ensures i < |table| ==> Fits(table[i], name, exactly)
    ensures forall j :: from <= j < i ==> !Fits(table[j], name, exactly)
    decreases |table| - from
  {
    if from == |table| || Fits(table[from], name, exactly) then from
    else FirstFit(table, name, exactly, from + 1)
  }

  function Lookup(table: Table, name: string): (m: Match)
    ensures m.Chosen? ==> m.index < |table|
    ensures m.Ambiguous? ==> m.first < |table|
  {
    var exact := FirstFit(table, name, true, 0);
    var first := FirstFit(table, name, false, 0);
    if exact < |table| then Chosen(exact)
    else if first == |table| then NoMatch
    else if FirstFit(table, name, false, first + 1) < |table| then Ambiguous(first)
    else Chosen(first)
  }

  ghost predicate Exact(table: Table, name: string, i: int) {
    0 <= i < |table| && table[i].name == name
  }

  ghost predicate Candidate(table: Table, name: string, i: int) {
    0 <= i < |table| && name <= table[i].name
  }

  ghost predicate Contested(table: Table, name: string) {
    && (forall i :: !Exact(table, name, i))
    && exists i, j :: i < j && Candidate(table, name, i) && Candidate(table, name, j)
  }

  /** An exact name beats every abbreviation, and the first exact entry wins. */
  lemma ExactNameWins(table: Table, name: string, i: nat)
    requires Exact(table, name, i) && forall j :: 0 <= j < i ==> !Exact(table, name, j)
    ensures Lookup(table, name) == Chosen(i)
  {
    var e := FirstFit(table, name, true, 0);
    assert Fits(table[i], name, true);
    assert e < i ==> Exact(table, name, e);
  }

  /** Without an exact name the verdict depends on how many entries `name` abbreviates. */
  lemma AbbreviationRule(table: Table, name: string)
    requires forall i :: !Exact(table, name, i)
    ensures Lookup(table, name).NoMatch? <==> forall i :: !Candidate(table, name, i)
    ensures Lookup(table, name).Ambiguous? <==> Contested(table, name)
    ensures forall k: nat :: Lookup(table, name) == Chosen(k) <==>
      Candidate(table, name, k) && forall j :: Candidate(table, name, j) ==> j == k
  {
    var e := FirstFit(table, name, true, 0);
    assert e < |table| ==> Exact(table, name, e);
    var f := FirstFit(table, name, false, 0);
    forall i | Candidate(table, name, i) ensures f <= i && Candidate(table, name, f) {
      assert Fits(table[i], name, false);
    }
    if f < |table| {
      assert Candidate(table, name, f);
      var g := FirstFit(table, name, false, f + 1);
      assert g < |table| ==> Candidate(table, name, g);
      forall i | Candidate(table, name, i) ensures i == f || g <= i {
        assert Fits(table[i], name, false);
      }
    }
  }

  ghost predicate DistinctNames(table: Table) {
    forall i, j :: 0 <= i < j < |table| ==> table[i].name != table[j].name
  }

  /** The entry itself rather than its position. */
  datatype Verdict = Unknown | Doubtful | Found(opt: LongOpt)

  function Judge(table: Table, name: string): Verdict {
    match Lookup(table, name)
    case NoMatch => Unknown
    case Ambiguous(_) => Doubtful
    case Chosen(i) => Found(table[i])
  }

  lemma MovesTo(table: Table, other: Table, i: nat) returns (k: nat)
    requires i < |table| && forall o :: o in table ==> o in other
    ensures k < |other| && other[k] == table[i]
    ensures forall name :: Candidate(table, name, i) ==> Candidate(other, name, k)
    ensures forall name :: Exact(table, name, i) ==> Exact(other, name, k)
  {
    assert table[i] in other;
    k :| k < |other| && other[k] == table[i];
  }

  lemma ExactVerdictCarries(table: Table, name: string, other: Table, i: nat)
    requires DistinctNames(table) && DistinctNames(other)
    requires forall o :: o in table ==> o in other
    requires Exact(table, name, i)
    ensures Judge(table, name) == Judge(other, name) == Found(table[i])
  {
    ExactNameWins(table, name, i);
    var k := MovesTo(table, other, i);
    ExactNameWins(other, name, k);
  }

  lemma NoExactCarries(table: Table, name: string, other: Table)
    requires forall o :: o in other ==> o in table
    requires forall i :: !Exact(table, name, i)
    ensures forall k :: !Exact(other, name, k)
  {
    forall k ensures !Exact(other, name, k) {
      if Exact(other, name, k) {
        var i := MovesTo(other, table, k);
      }
    }
  }

  lemma ContestCarries(table: Table, name: string, other: Table)
    requires DistinctNames(table)
    requires forall o :: o in table <==> o in other
    requires Contested(table, name)
    ensures Contested(other, name)
  {
    NoExactCarries(table, name, other);
    var i, j :| i < j && Candidate(table, name, i) && Candidate(table, name, j);
    var k := MovesTo(table, other, i);
    var l := MovesTo(table, other, j);
    assert k != l;
    if k < l {
      assert Candidate(other, name, k) && Candidate(other, name, l);
    } else {
      assert l < k && Candidate(other, name, l) && Candidate(other, name, k);
    }
  }

  lemma UniqueCarries(table: Table, name: string, other: Table)
    requires DistinctNames(table) && DistinctNames(other)
    requires forall o :: o in table <==> o in other
    requires (forall i :: !Exact(table, name, i)) && Lookup(table, name).Chosen?
    ensures Judge(table, name) == Judge(other, name)
  {
    NoExactCarries(table, name, other);
    AbbreviationRule(table, name);
    AbbreviationRule(other, name);
    var i := Lookup(table, name).index;
    var k := MovesTo(table, other, i);
    forall l | Candidate(other, name, l) ensures l == k {
      var j := MovesTo(other, table, l);
    }
    assert Lookup(other, name) == Chosen(k);
  }

  lemma VerdictCarries(table: Table, name: string, other: Table)
    requires DistinctNames(table) && DistinctNames(other)
    requires forall o :: o in table <==> o in other
    ensures !Judge(table, name).Unknown? ==> Judge(table, name) == Judge(other, name)
  {
    if i :| Exact(table, name, i) {
      ExactVerdictCarries(table, name, other, i);
    } else {
      AbbreviationRule(table, name);
      if Contested(table, name) {
        ContestCarries(table, name, other);
        AbbreviationRule(other, name);
      } else if Lookup(table, name).Chosen? {
        UniqueCarries(table, name, other);
      }
    }
  }

  /** The order in which an application lists its long options is immaterial. */
  lemma TableOrderIsImmaterial(table: Table, other: Table, name: string)
    requires DistinctNames(table) && DistinctNames(other)
    requires multiset(table) == multiset(other)
    ensures Judge(table, name) == Judge(other, name)
  {
    forall o ensures o in table <==> o in other {
      assert o in table <==> o in multiset(table);
      assert o in other <==> o in multiset(other);
    }
    VerdictCarries(table, name, other);
    VerdictCarries(other, name, table);
  }
}
