/** Value-level definitions behind the Sudoku generator: the size check, the
    candidate list, the hole-punching decisions, and the lemmas about them. */
module SudokuSpec {

  /** The two IllegalArgumentException cases of the generator. */
  datatype Error = NotPerfectSquare | TooManyHoles

  datatype Outcome = Pass | Fail(error: Error)

  datatype Result<T> = Ok(value: T) | Err(error: Error)

  // ---------------------------------------------------------------------
  // Perfect squares and the integer square root
  // ---------------------------------------------------------------------

  function Square(k: int): int { k * k }

  /** The integer square root: the `(int) Math.sqrt(n)` of the constructor,
      without floating point. The recursion is linear in n and serves as the
      definition; SquareRoot computes the same value with a loop. */
  function Isqrt(n: nat): (r: nat)
    ensures r * r <= n < (r + 1) * (r + 1)
  {
    if n == 0 then 0
    else
      var s := Isqrt(n - 1);
      if (s + 1) * (s + 1) <= n then s + 1 else s
  }

  /** `isPerfectSquare`: true exactly for the squares of naturals; negative
      values are rejected (their square root is NaN in the source). */
  predicate IsPerfectSquare(v: int) {
    v >= 0 && Square(Isqrt(v)) == v
  }

  lemma SquareMonotone(a: nat, b: nat)
    requires a < b
    ensures a * a < b * b
  {
    assert a * a <= a * b;
    assert a * b < b * b;
  }

  /** The root of a perfect square is the number that was squared. */
  lemma IsqrtOfSquare(k: nat)
    ensures Isqrt(k * k) == k
  {
    var r := Isqrt(k * k);
    if r < k {
      SquareMonotone(r, k);
      if r + 1 < k { SquareMonotone(r + 1, k); }
    } else if r > k {
      SquareMonotone(k, r);
    }
  }

  /** Only Isqrt(n) brackets n between consecutive squares. */
  lemma IsqrtUnique(n: nat, r: nat)
    requires r * r <= n < (r + 1) * (r + 1)
    ensures r == Isqrt(n)
  {
    var s := Isqrt(n);
    if r < s {
      SquareMonotone(r + 1, s + 1);
      if r + 1 < s { SquareMonotone(r + 1, s); }
    } else if r > s {
      SquareMonotone(s + 1, r + 1);
      if s + 1 < r { SquareMonotone(s + 1, r); }
    }
  }

  /** `(int) Math.sqrt(n)` as a loop: the largest r with r * r <= n. */
  method SquareRoot(n: nat) returns (r: nat)
    ensures r == Isqrt(n)
  {
    r := 0;
    while (r + 1) * (r + 1) <= n
      invariant r * r <= n
      decreases n - r * r
    {
      SquareMonotone(r, r + 1);
      r := r + 1;
    }
    IsqrtUnique(n, r);
  }

  /** IsPerfectSquare holds exactly when some natural squares to v. */
  lemma PerfectSquareIffRoot(v: int)
    ensures IsPerfectSquare(v) <==> exists k: nat :: Square(k) == v
  {
    if IsPerfectSquare(v) {
      assert Square(Isqrt(v)) == v;
    }
    if exists k: nat :: Square(k) == v {
      var k: nat :| Square(k) == v;
      IsqrtOfSquare(k);
    }
  }

  // ---------------------------------------------------------------------
  // Block arithmetic
  // ---------------------------------------------------------------------

  lemma MulLeft(a: int, b: int, c: int)
    requires a <= b && 0 <= c
    ensures a * c <= b * c
  {
    assert b * c - a * c == (b - a) * c;
  }

  lemma MulSucc(i: int, n: int)
    ensures (i + 1) * n == i * n + n
  {
  }

  /** A multiple of bl that brackets v is (v / bl) * bl. */
  lemma DivUnique(v: int, bl: int, k: int)
    requires bl > 0
    requires k * bl <= v < k * bl + bl
    ensures v / bl == k
  {
    var q := v / bl;
    assert q * bl <= v < q * bl + bl;
    if q < k {
      MulLeft(q + 1, k, bl);
      assert false;
    } else if q > k {
      MulLeft(k + 1, q, bl);
      assert false;
    }
  }

  /** Two coordinates lie in the same block exactly when the first lies in
      the window of width bl that starts at the second's block start. */
  lemma SameBlockIff(i: int, x: int, bl: int)
    requires bl > 0
    ensures i / bl == x / bl <==> (x / bl) * bl <= i < (x / bl) * bl + bl
  {
    var k := x / bl;
    if k * bl <= i < k * bl + bl {
      DivUnique(i, bl, k);
    }
  }

  /** One direction of SameBlockIff, with the block start named. */
  lemma InBand(i: int, x: int, start: int, bl: int)
    requires bl > 0 && start == (x / bl) * bl && i / bl == x / bl
    ensures start <= i < start + bl
  {
    SameBlockIff(i, x, bl);
  }

  /** In an N x N grid with N == bl * bl, a block that starts inside the grid
      ends inside it too. */
  lemma BlockFits(k: int, bl: int)
    requires bl > 0 && 0 <= k && k * bl < bl * bl
    ensures k * bl + bl <= bl * bl
  {
    if k >= bl {
      MulLeft(bl, k, bl);
      assert false;
    }
    MulLeft(k + 1, bl, bl);
  }

  /** Cell (i, j) of an n x n grid, visited row by row, is visit number
      i * n + j, and that number is below n * n. */
  lemma CellIndexBound(i: int, j: int, n: int)
    requires 0 <= i < n && 0 <= j < n
    ensures 0 <= i * n + j < n * n
  {
    MulLeft(0, i, n);
    MulLeft(i + 1, n, n);
  }

  /** Visit number k of an n x n grid names cell (k / n, k % n). */
  lemma FlatBounds(k: int, n: nat)
    requires 0 <= k < n * n
    ensures n > 0 && 0 <= k / n < n && 0 <= k % n < n && (k / n) * n + k % n == k
  {
    if n == 0 {
      assert false;
    }
    if k / n >= n {
      MulLeft(n, k / n, n);
      assert false;
    }
  }

  // ---------------------------------------------------------------------
  // Candidate values
  // ---------------------------------------------------------------------

  /** The list 1, 2, ..., n that getRandomPossibleValues builds before shuffling. */
  function Iota(n: nat): (s: seq<int>)
    ensures |s| == n
  {
    seq(n, k => k + 1)
  }

  /** Iota(n) holds each of 1..n once and nothing else. */
  lemma {:induction false} IotaOccurrences(n: nat)
    ensures forall v :: multiset(Iota(n))[v] == if 1 <= v <= n then 1 else 0
  {
    if n > 0 {
      IotaOccurrences(n - 1);
      assert Iota(n) == Iota(n - 1) + [n];
    }
  }

  /** Pigeonhole: n pairwise distinct values drawn from 1..n cover 1..n. */
  lemma DistinctCovers(s: seq<int>, n: nat)
    requires |s| == n
    requires forall k :: 0 <= k < n ==> 1 <= s[k] <= n
    requires forall k1, k2 :: 0 <= k1 < k2 < n ==> s[k1] != s[k2]
    ensures forall v :: 1 <= v <= n ==> v in s
  {
    var values := set k | 0 <= k < n :: s[k];
    var range := set k | 0 <= k < n :: Iota(n)[k];
    DistinctValuesCard(s);
    DistinctValuesCard(Iota(n));
    forall v | v in values
      ensures v in range
    {
      assert Iota(n)[v - 1] == v;
    }
    forall v | 1 <= v <= n
      ensures v in s
    {
      assert Iota(n)[v - 1] == v;
      if v !in values {
        SubsetCard(values, range - {v});
        assert false;
      }
    }
  }

  lemma {:induction false} DistinctValuesCard(s: seq<int>)
    requires forall k1, k2 :: 0 <= k1 < k2 < |s| ==> s[k1] != s[k2]
    ensures |set k | 0 <= k < |s| :: s[k]| == |s|
  {
    if s != [] {
      var t := s[..|s| - 1];
      DistinctValuesCard(t);
      var last := s[|s| - 1];
      assert (set k | 0 <= k < |s| :: s[k]) == (set k | 0 <= k < |t| :: t[k]) + {last};
      assert last !in (set k | 0 <= k < |t| :: t[k]);
    }
  }

  lemma {:induction false} SubsetCard<T>(a: set<T>, b: set<T>)
    requires a <= b
    ensures |a| <= |b|
  {
    if a != {} {
      var x :| x in a;
      SubsetCard(a - {x}, b - {x});
    }
  }

  // ---------------------------------------------------------------------
  // Hole punching
  // ---------------------------------------------------------------------

  /** holes / totalSquares: the chance makeSpaces clears the next cell with. */
  function HoleChance(holes: int, total: int): real
    requires total != 0
  {
    holes as real / total as real
  }

  lemma ChanceIsOne(t: int)
    requires t > 0
    ensures HoleChance(t, t) == 1.0
  {
    var r := HoleChance(t, t);
    assert r * t as real == t as real;
  }

  lemma ChanceSign(h: int, t: int)
    requires t > 0
    ensures h <= 0 ==> HoleChance(h, t) <= 0.0
    ensures h < 0 ==> HoleChance(h, t) < 0.0
  {
    var r := HoleChance(h, t);
    assert r * t as real == h as real;
  }

  /** The `holes` counter of makeSpaces after it has visited k of the
      |draws| cells, starting from `holes` with one draw per cell. */
  function HolesLeft(holes: int, draws: seq<real>, k: nat): int
    requires k <= |draws|
  {
    if k == 0 then holes
    else
      var left := HolesLeft(holes, draws, k - 1);
      if draws[k - 1] <= HoleChance(left, |draws| - (k - 1)) then left - 1 else left
  }

  /** Whether makeSpaces clears the cell it visits as number k: its draw is at
      most holes / totalSquares with the counters as they then stand. */
  predicate ClearsAt(holes: int, draws: seq<real>, k: nat)
    requires k < |draws|
  {
    draws[k] <= HoleChance(HolesLeft(holes, draws, k), |draws| - k)
  }

  /** How many of the first k visited cells are cleared. */
  function ClearedCount(holes: int, draws: seq<real>, k: nat): nat
    requires k <= |draws|
  {
    if k == 0 then 0
    else ClearedCount(holes, draws, k - 1) + if ClearsAt(holes, draws, k - 1) then 1 else 0
  }

  /** The counting invariant of makeSpaces. Starting from 0 <= holes <= N*N
      with draws in [0, 1), the counter never exceeds the cells still to
      visit (when the two are equal the chance is 1 and the cell is cleared),
      it drops below 0 at most once (a draw of exactly 0.0 with no holes
      left), never when every draw is above 0, and every decrement is a
      cleared cell. */
  lemma {:induction false} HolesLeftBounds(holes: int, draws: seq<real>, k: nat)
    requires 0 <= holes <= |draws| && k <= |draws|
    requires forall n :: 0 <= n < |draws| ==> 0.0 <= draws[n] < 1.0
    ensures -1 <= HolesLeft(holes, draws, k) <= |draws| - k
    ensures (forall n :: 0 <= n < |draws| ==> 0.0 < draws[n]) ==> 0 <= HolesLeft(holes, draws, k)
    ensures ClearedCount(holes, draws, k) == holes - HolesLeft(holes, draws, k)
  {
    if k > 0 {
      HolesLeftBounds(holes, draws, k - 1);
      var left := HolesLeft(holes, draws, k - 1);
      var total := |draws| - (k - 1);
      if left == total {
        ChanceIsOne(total);
      } else if left <= 0 {
        ChanceSign(left, total);
      }
    }
  }

  /** makeSpaces(h) with 0 <= h <= N*N clears at least h and at most h + 1
      cells, and exactly h when no draw is 0.0. */
  lemma ClearsExactly(holes: int, draws: seq<real>)
    requires 0 <= holes <= |draws|
    requires forall n :: 0 <= n < |draws| ==> 0.0 <= draws[n] < 1.0
    ensures holes <= ClearedCount(holes, draws, |draws|) <= holes + 1
    ensures (forall n :: 0 <= n < |draws| ==> 0.0 < draws[n]) ==>
              ClearedCount(holes, draws, |draws|) == holes
  {
    HolesLeftBounds(holes, draws, |draws|);
  }

  /** A negative hole count clears nothing. */
  lemma {:induction false} NegativeClearsNothing(holes: int, draws: seq<real>, k: nat)
    requires holes < 0 && k <= |draws|
    requires forall n :: 0 <= n < |draws| ==> 0.0 <= draws[n]
    ensures HolesLeft(holes, draws, k) == holes
    ensures forall n :: 0 <= n < k ==> !ClearsAt(holes, draws, n)
  {
    if k > 0 {
      NegativeClearsNothing(holes, draws, k - 1);
      ChanceSign(holes, |draws| - (k - 1));
    }
  }
}
