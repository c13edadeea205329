/**
  In-place exchange of two adjacent blocks by repeatedly swapping the shorter
  one into its final place, and the number of swaps that takes.
*/
module Rotation {
  ghost predicate Divisor(d: nat, n: nat) {
    d > 0 && exists q: nat :: n == d * q
  }

  /** Greatest common divisor by subtraction; Gcd(0, n) == n. */
  function Gcd(a: nat, b: nat): nat
    decreases a + b
  {
    if a == 0 then b else if b == 0 then a
    else if a < b then Gcd(a, b - a) else Gcd(a - b, b)
  }

  lemma ProductOrder(d: nat, p: nat, q: nat)
    requires d > 0 && p < q
    ensures d * p + d <= d * q
  {
    assert d * q == d * p + d * (q - p);
    assert d * (q - p) == d + d * (q - p - 1);
  }

  lemma DivisorOfSum(d: nat, a: nat, b: nat)
    requires a <= b && Divisor(d, a)
    ensures Divisor(d, b) <==> Divisor(d, b - a)
  {
    var p: nat :| a == d * p;
    if q: nat :| b == d * q {
      assert b - a == d * (q - p);
      if q < p { ProductOrder(d, q, p); }
      assert Divisor(d, b - a);
    }
    if q: nat :| b - a == d * q {
      assert b == d * (p + q);
      assert Divisor(d, b);
    }
  }

  /** The common divisors of a and b are exactly the divisors of Gcd(a, b). */
  lemma {:induction false} GcdDivisors(d: nat, a: nat, b: nat)
    requires a > 0 || b > 0
    ensures Divisor(d, Gcd(a, b)) <==> Divisor(d, a) && Divisor(d, b)
    decreases a + b
  {
    if d == 0 {
    } else if a == 0 || b == 0 {
      assert 0 == d * 0;
      assert Divisor(d, 0);
    } else if a < b {
      GcdDivisors(d, a, b - a);
      if Divisor(d, a) { DivisorOfSum(d, a, b); }
    } else {
      GcdDivisors(d, a - b, b);
      if Divisor(d, b) { DivisorOfSum(d, b, a); }
    }
  }

  lemma GcdPositive(a: nat, b: nat)
    requires a > 0 || b > 0
    ensures 0 < Gcd(a, b)
    decreases a + b
  {
  }

  /** Gcd(a, b) divides both and no common divisor is larger. */
  lemma GcdIsGreatest(a: nat, b: nat)
    requires a > 0 || b > 0
    ensures Divisor(Gcd(a, b), a) && Divisor(Gcd(a, b), b)
    ensures forall d: nat :: Divisor(d, a) && Divisor(d, b) ==> d <= Gcd(a, b)
  {
    var g := Gcd(a, b);
    GcdPositive(a, b);
    assert Divisor(g, g) by {
      assert g == g * 1;
    }
    GcdDivisors(g, a, b);
    forall d: nat | Divisor(d, a) && Divisor(d, b) ensures d <= g {
      GcdDivisors(d, a, b);
      DivisorIsSmaller(d, g);
    }
  }

  lemma DivisorIsSmaller(d: nat, n: nat)
    requires n > 0 && Divisor(d, n)
    ensures d <= n
  {
    var q: nat :| n == d * q;
    if q > 0 { ProductOrder(d, 0, q); }
  }

  /** The place an element of [i, i + len) or [j, j + len) is swapped with. */
  function Partner(i: nat, j: nat, len: nat, k: nat): (p: nat)
    requires i + len <= j
    ensures k < j + len ==> p < j + len
    ensures j + len <= k ==> p == k
  {
    if i <= k < i + len then j + (k - i) else if j <= k < j + len then i + (k - j) else k
  }

  ghost predicate RunsSwapped<T>(s: seq<T>, t: seq<T>, i: nat, j: nat, len: nat) {
    && i + len <= j && j + len <= |s| == |t|
    && forall k {:trigger t[k]} :: 0 <= k < |s| ==> t[k] == s[Partner(i, j, len, k)]
  }

  /** Swaps the runs of length `len` at `i` and `j`; `swaps` counts the exchanged pairs. */
  method SwapRuns<T>(a: array<T>, i: nat, j: nat, len: nat) returns (ghost swaps: nat)
    requires i + len <= j && j + len <= a.Length
    modifies a
    ensures RunsSwapped(old(a[..]), a[..], i, j, len) && swaps == len
  {
    swaps := 0;
    for n := 0 to len
      invariant swaps == n
      invariant forall k :: 0 <= k < a.Length ==> a[k] == old(a[Partner(i, j, n, k)])
    {
      a[i + n], a[j + n] := a[j + n], a[i + n];
      swaps := swaps + 1;
    }
  }

  /** Where the element at `k` was before [middle, top) moved in front of [bottom, middle). */
  function Source(bottom: nat, middle: nat, top: nat, k: nat): (p: nat)
    requires bottom <= middle <= top
    ensures k < top ==> p < top
    ensures top <= k ==> p == k
  {
    if k < bottom || top <= k then k
    else if k < bottom + (top - middle) then k + (middle - bottom)
    else k - (top - middle)
  }

  ghost predicate Moves<T>(s: seq<T>, t: seq<T>, bottom: nat, middle: nat, top: nat) {
    && bottom <= middle <= top <= |s| == |t|
    && forall k {:trigger t[k]} :: 0 <= k < |s| ==> t[k] == s[Source(bottom, middle, top, k)]
  }

  /** Each block keeps its order and everything outside [bottom, top) stays. */
  lemma MovesBlocks<T>(s: seq<T>, t: seq<T>, bottom: nat, middle: nat, top: nat)
    requires Moves(s, t, bottom, middle, top)
    ensures t == s[..bottom] + s[middle..top] + s[bottom..middle] + s[top..]
  {
  }

  /** Swapping the shorter bottom block with [j, top) leaves a smaller move to do. */
  lemma ShortBottom<T>(s: seq<T>, t: seq<T>, goal: seq<T>, bottom: nat, middle: nat, j: nat, top: nat)
    requires bottom <= middle < j <= top <= |s| && top - j == middle - bottom
    requires RunsSwapped(s, t, bottom, j, middle - bottom)
    requires Moves(s, goal, bottom, middle, top)
    ensures Moves(t, goal, bottom, middle, j)
  {
    forall k | 0 <= k < |s| ensures goal[k] == t[Source(bottom, middle, j, k)] {
      assert Partner(bottom, j, middle - bottom, Source(bottom, middle, j, k)) == Source(bottom, middle, top, k);
    }
  }

  /** Swapping the shorter top block to the bottom leaves a smaller move to do. */
  lemma ShortTop<T>(s: seq<T>, t: seq<T>, goal: seq<T>, bottom: nat, middle: nat, top: nat)
    requires bottom <= middle <= top <= |s| && top - middle <= middle - bottom
    requires RunsSwapped(s, t, bottom, middle, top - middle)
    requires Moves(s, goal, bottom, middle, top)
    ensures Moves(t, goal, bottom + (top - middle), middle, top)
  {
    var b := bottom + (top - middle);
    forall k | 0 <= k < |s| ensures goal[k] == t[Source(b, middle, top, k)] {
      assert Partner(bottom, middle, top - middle, Source(b, middle, top, k)) == Source(bottom, middle, top, k);
    }
  }

  lemma NothingToMove<T>(s: seq<T>, goal: seq<T>, bottom: nat, middle: nat, top: nat)
    requires Moves(s, goal, bottom, middle, top) && (bottom == middle || middle == top)
    ensures s == goal
  {
  }

  lemma GoalExists<T>(s: seq<T>, bottom: nat, middle: nat, top: nat) returns (goal: seq<T>)
    requires bottom <= middle <= top <= |s|
    ensures Moves(s, goal, bottom, middle, top)
  {
    goal := seq(|s|, k requires 0 <= k < |s| => s[Source(bottom, middle, top, k)]);
  }

  lemma GcdOfLast(a: nat, b: nat)
    requires a == 0 || b == 0
    ensures Gcd(a, b) == a + b
  {
  }

  method SwapShortBottom<T>(a: array<T>, ghost goal: seq<T>, bottom: nat, middle: nat, j: nat, top: nat)
    returns (ghost swaps: nat)
    requires Moves(a[..], goal, bottom, middle, top) && middle < j <= top && top - j == middle - bottom
    modifies a
    ensures Moves(a[..], goal, bottom, middle, j) && swaps == middle - bottom
  {
    ghost var before := a[..];
    swaps := SwapRuns(a, bottom, j, middle - bottom);
    ShortBottom(before, a[..], goal, bottom, middle, j, top);
  }

  method SwapShortTop<T>(a: array<T>, ghost goal: seq<T>, bottom: nat, middle: nat, top: nat)
    returns (ghost swaps: nat)
    requires Moves(a[..], goal, bottom, middle, top) && top - middle <= middle - bottom
    modifies a
    ensures Moves(a[..], goal, bottom + (top - middle), middle, top) && swaps == top - middle
  {
    ghost var before := a[..];
    swaps := SwapRuns(a, bottom, middle, top - middle);
    ShortTop(before, a[..], goal, bottom, middle, top);
  }

  /** One round: the shorter block is swapped into its final place and excluded. */
  method Round<T>(a: array<T>, ghost goal: seq<T>, bottom: nat, middle: nat, top: nat)
    returns (b: nat, t: nat, ghost swaps: nat)
    requires Moves(a[..], goal, bottom, middle, top) && bottom < middle < top
    modifies a
    ensures bottom <= b <= middle <= t <= top && t - b < top - bottom && swaps == (top - bottom) - (t - b)
    ensures Moves(a[..], goal, b, middle, t)
    ensures Gcd(middle - b, t - middle) == Gcd(middle - bottom, top - middle)
  {
    b, t := bottom, top;
    if top - middle > middle - bottom {
      var len := middle - bottom;
      t := top - len;
      swaps := SwapShortBottom(a, goal, bottom, middle, t, top);
    } else {
      var len := top - middle;
      b := bottom + len;
      swaps := SwapShortTop(a, goal, bottom, middle, top);
    }
  }

  /**
    Moves the block [middle, top0) in front of [bottom0, middle). Both blocks
    keep their order, nothing else changes, and `swaps` pairs are exchanged.
  */
  method ExchangeBlocks<T>(a: array<T>, bottom0: nat, middle: nat, top0: nat) returns (ghost swaps: nat)
    requires bottom0 <= middle <= top0 <= a.Length
    modifies a
    ensures Moves(old(a[..]), a[..], bottom0, middle, top0)
    ensures swaps == (top0 - bottom0) - Gcd(middle - bottom0, top0 - middle)
  {
    var bottom, top := bottom0, top0;
    ghost var goal := GoalExists(a[..], bottom, middle, top);
    swaps := 0;
    while top > middle && middle > bottom
      invariant bottom0 <= bottom <= middle <= top <= top0
      invariant Moves(a[..], goal, bottom, middle, top)
      invariant swaps == (top0 - bottom0) - (top - bottom)
      invariant Gcd(middle - bottom, top - middle) == Gcd(middle - bottom0, top0 - middle)
      decreases top - bottom
    {
      ghost var n;
      bottom, top, n := Round(a, goal, bottom, middle, top);
      swaps := swaps + n;
    }
    NothingToMove(a[..], goal, bottom, middle, top);
    GcdOfLast(middle - bottom, top - middle);
  }
}
