/** What a client may rely on across calls, in terms of calls and replies alone. */
module VectorLaws {
  import opened Wrappers
  import opened VectorStore

  /** The name and the number pass the guards of the client. */
  predicate Admitted(name: string, n: int) { |name| < 100 && n >= 0 }

  /** The value that a get returns, None if it fails. */
  function Read(c: seq<Entry>, name: string, i: int): Option<int> {
    var r := CallOn(c, Get(name, i)).1;
    if r.output == -1 then None else r.data
  }

  function After(c: seq<Entry>, call: Call): seq<Entry> { CallOn(c, call).0 }

  function Output(c: seq<Entry>, call: Call): int { CallOn(c, call).1.output }

  ghost predicate Absent(c: seq<Entry>, name: string) {
    forall k :: 0 <= k < |c| ==> c[k].name != name
  }

  /** The vector of that name has n elements. */
  ghost predicate Sized(c: seq<Entry>, name: string, n: int) {
    exists k :: 0 <= k < |c| && c[k].name == name && |c[k].values| == n
  }

  lemma IndexIs(c: seq<Entry>, name: string, k: nat)
    requires DistinctNames(c) && k < |c| && c[k].name == name
    ensures IndexOf(c, name) == k
  {
    FirstIs(c, name, k);
  }

  lemma AbsentHasNoIndex(c: seq<Entry>, name: string)
    ensures Absent(c, name) <==> IndexOf(c, name) == -1
  {
    var i := IndexOf(c, name);
    if i != -1 {
      assert c[i].name == name;
    }
  }

  /** What the guards refuse: names of 100 characters and more, negative sizes and indices. */
  lemma GuardsRefuse(c: seq<Entry>, name: string, n: int, v: int)
    requires !Admitted(name, n)
    ensures CallOn(c, Init(name, n)) == CallOn(c, Set(name, n, v)) == CallOn(c, Get(name, n)) == (c, Response(-1, None))
    ensures |name| >= 100 ==> CallOn(c, Destroy(name)) == (c, Response(-1, None))
  {
  }

  /** The three replies of init; only the first changes anything. */
  lemma InitReplies(c: seq<Entry>, name: string, n: int)
    requires DistinctNames(c) && Admitted(name, n)
    ensures Output(c, Init(name, n)) == if Absent(c, name) then 1 else if Sized(c, name, n) then 0 else -1
    ensures !Absent(c, name) ==> After(c, Init(name, n)) == c
    ensures Sized(After(c, Init(name, n)), name, n) <==> Output(c, Init(name, n)) != -1
  {
    AbsentHasNoIndex(c, name);
    if Absent(c, name) {
      assert After(c, Init(name, n))[|c|].name == name;
    } else {
      assert Sized(c, name, n) <==> |c[IndexOf(c, name)].values| == n by {
        forall k | 0 <= k < |c| && c[k].name == name ensures k == IndexOf(c, name) {
          IndexIs(c, name, k);
        }
      }
    }
  }

  /** A new vector is all zeros, and nothing else can be read that could not be read before. */
  lemma NewVectorIsZeroed(c: seq<Entry>, name: string, n: int, other: string, i: int)
    requires Admitted(name, n) && Absent(c, name)
    ensures Read(After(c, Init(name, n)), other, i)
         == if other == name then (if 0 <= i < n then Some(0) else None) else Read(c, other, i)
  {
    AbsentHasNoIndex(c, name);
    AppendKeepsIndex(c, Entry(name, Zeros(n)), other);
  }

  /** A set succeeds where a get does; then that element, and no other, has the new value. */
  lemma SetIsRead(c: seq<Entry>, name: string, i: int, v: int, other: string, j: int)
    requires DistinctNames(c) && Admitted(name, i)
    ensures Output(c, Set(name, i, v)) == if Read(c, name, i).Some? then 0 else -1
    ensures Read(After(c, Set(name, i, v)), other, j)
         == if other == name && j == i && Read(c, name, i).Some? then Some(v) else Read(c, other, j)
  {
    hide IndexOf;
    var k := IndexOf(c, name);
    if Read(c, name, i).Some? {
      var d := After(c, Set(name, i, v));
      assert DistinctNames(d) && |d| == |c| && forall l :: 0 <= l < |d| ==> d[l].name == c[l].name;
      SameNamesSameIndex(c, d, other);
    }
  }

  lemma SameNamesSameIndex(c: seq<Entry>, d: seq<Entry>, name: string)
    requires |c| == |d| && forall l :: 0 <= l < |d| ==> d[l].name == c[l].name
    ensures IndexOf(c, name) == IndexOf(d, name)
  {
    var i := IndexOf(c, name);
    if i >= 0 {
      FirstIs(d, name, i);
    }
  }

  /** A get can be made exactly of what init made, and never changes anything. */
  lemma ReadableElements(c: seq<Entry>, name: string, n: int, i: int)
    requires DistinctNames(c) && Admitted(name, i) && Sized(c, name, n)
    ensures Read(c, name, i).Some? <==> 0 <= i < n
    ensures CallOn(c, Get(name, i)).0 == c
  {
    var k :| 0 <= k < |c| && c[k].name == name && |c[k].values| == n;
    IndexIs(c, name, k);
  }

  /** A destroyed vector is gone, and only that one. */
  lemma DestroyForgets(c: seq<Entry>, name: string, other: string, i: int)
    requires DistinctNames(c) && |name| < 100
    ensures Output(c, Destroy(name)) == if Absent(c, name) then -1 else 1
    ensures DistinctNames(After(c, Destroy(name))) && Absent(After(c, Destroy(name)), name)
    ensures Read(After(c, Destroy(name)), other, i) == if other == name then None else Read(c, other, i)
  {
    hide IndexOf, DistinctNames;
    AbsentHasNoIndex(c, name);
    var k := IndexOf(c, name);
    if k != -1 {
      WithoutKeepsDistinct(c, k);
      var d := c[..k] + c[k + 1..];
      AbsentHasNoIndex(d, name);
      var l := IndexOf(c, other);
      if l == -1 {
        AbsentHasNoIndex(c, other);
        assert Absent(d, other);
        AbsentHasNoIndex(d, other);
      } else if other != name {
        var m := StaysStored(c, k, l);
        IndexIs(d, other, m);
      }
    }
  }

  function TwoTo(k: nat): nat { if k == 0 then 1 else 2 * TwoTo(k - 1) }

  /** What is meant by a power of two. */
  lemma {:induction false} PowersOfTwo(n: nat) returns (k: nat)
    requires PowerOfTwo(n)
    ensures n == TwoTo(k)
  {
    if n == 1 {
      k := 0;
    } else {
      var l := PowersOfTwo(n / 2);
      k := l + 1;
    }
  }
}
