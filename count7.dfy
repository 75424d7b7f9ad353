/** `count(target, n)`: how many of the integers 1..n contain the decimal digit `target`,
    computed from the leading digit of `n` and a table of counts per block of `10^i`
    consecutive integers. */
module DigitCount {

  /** 10^k, the integer behind `Math.pow(10, k)`. */
  function Pow10(k: nat): (p: nat)
    ensures p >= 1
  {
    if k == 0 then 1 else 10 * Pow10(k - 1)
  }

  /** 9^k. */
  function Pow9(k: nat): (p: nat)
  {
    if k == 0 then 1 else 9 * Pow9(k - 1)
  }

  /** The index of the leading decimal digit of `n`, the integer behind
      `Math.floor(Math.log10(n))`. */
  function Log10(n: int): (d: nat)
    requires n >= 1
    ensures Pow10(d) <= n < 10 * Pow10(d)
  {
    if n < 10 then 0
    else
      var d := Log10(n / 10);
      assert n == 10 * (n / 10) + n % 10;
      1 + d
  }

  /** The decimal digits of `k` include `t` (0 has no digits). */
  predicate HasDigit(k: nat, t: int)
  {
    k > 0 && (k % 10 == t || HasDigit(k / 10, t))
  }

  /** How many of the integers 0 .. n-1 contain the digit `t`. */
  function CountBelow(t: int, n: int): (c: nat)
    ensures n <= 0 ==> c == 0
    ensures n > 0 ==> c <= n
  {
    if n <= 0 then 0
    else CountBelow(t, n - 1) + (if HasDigit(n - 1, t) then 1 else 0)
  }

  /** How many of the `i`-digit strings (leading zeros allowed) contain a given non-zero digit:
      all `10^i` of them but the `9^i` that avoid it. */
  function MaxCount(i: nat): int
  {
    Pow10(i) - Pow9(i)
  }

  // ----- The table -----

  /** The table's recurrence (count7.js:7-15): `maxCounts[0] = 0` and
      `maxCounts[i] = 9 * maxCounts[i-1] + 10^(i-1)`. */
  lemma MaxCountRecurrence(i: nat)
    ensures MaxCount(0) == 0
    ensures i >= 1 ==> MaxCount(i) == 9 * MaxCount(i - 1) + Pow10(i - 1)
  {
  }

  /** Fills the table `maxCounts[0..d]` in place, including the initial write of
      `maxCounts[1] = 1` that the loop then rewrites with the same value (count7.js:7-15). */
  method MaxCounts(d: nat) returns (maxCounts: array<int>)
    ensures fresh(maxCounts) && maxCounts.Length == d + 1
    ensures forall i :: 0 <= i <= d ==> maxCounts[i] == MaxCount(i)
  {
    maxCounts := new int[d + 1](_ => 0);
    if maxCounts.Length > 1 {
      maxCounts[1] := 1;
    }
    for i := 1 to maxCounts.Length
      invariant forall j :: 0 <= j < i ==> maxCounts[j] == MaxCount(j)
    {
      MaxCountRecurrence(i);
      maxCounts[i] := maxCounts[i - 1] * 9 + Pow10(i - 1);
    }
  }

  // ----- Counting by blocks -----

  /** A single non-zero digit `m` contains `t` exactly when it is `t`. */
  lemma SingleDigit(m: nat, t: int)
    requires 1 <= m <= 9
    ensures HasDigit(m, t) <==> m == t
  {
    assert m / 10 == 0 && m % 10 == m;
  }

  /** Writing `x < 10^d` after the digits of `a >= 1` gives a number containing a non-zero
      digit `t` exactly when `a` or `x` contains it: the padding zeros of `x` never match. */
  lemma {:induction false} HasDigitSplit(a: nat, x: nat, d: nat, t: int)
    requires a >= 1 && x < Pow10(d) && t != 0
    ensures HasDigit(a * Pow10(d) + x, t) <==> HasDigit(a, t) || HasDigit(x, t)
  {
    if d == 0 {
      assert x == 0 && a * Pow10(d) + x == a;
    } else {
      var p := Pow10(d - 1);
      var k := a * Pow10(d) + x;
      assert k == 10 * (a * p + x / 10) + x % 10;
      assert k / 10 == a * p + x / 10 && k % 10 == x % 10;
      HasDigitSplit(a, x / 10, d - 1, t);
    }
  }

  /** Inside the block of numbers whose leading part is `a`, the first `x` numbers either all
      contain `t` (when `a` does) or contain it exactly as often as 0 .. x-1 do. */
  lemma {:induction false} BlockShift(t: int, a: nat, d: nat, x: nat)
    requires t != 0 && a >= 1 && x <= Pow10(d)
    ensures CountBelow(t, a * Pow10(d) + x) ==
            CountBelow(t, a * Pow10(d)) + (if HasDigit(a, t) then x else CountBelow(t, x))
  {
    if x > 0 {
      BlockShift(t, a, d, x - 1);
      HasDigitSplit(a, x - 1, d, t);
    }
  }

  /** Block `m - 1 >= 1` of `10^d` numbers matches throughout when `m - 1` is `t`, and
      otherwise as often as the first block. */
  lemma {:induction false} NextBlock(t: int, d: nat, m: nat)
    requires 1 <= t <= 9 && 2 <= m <= 10
    ensures CountBelow(t, m * Pow10(d)) ==
            CountBelow(t, (m - 1) * Pow10(d)) + (if m - 1 == t then Pow10(d) else CountBelow(t, Pow10(d)))
  {
    var p := Pow10(d);
    var below := (m - 1) * p;
    MulPred(m, p);
    assert m * p == below + p;
    BlockShift(t, m - 1, d, p);
    SingleDigit(m - 1, t);
  }

  /** The first `m` blocks of `10^d` numbers: each holds `CountBelow(t, 10^d)` matches,
      except block `t`, which matches throughout. */
  lemma {:induction false} Blocks(t: int, d: nat, m: nat)
    requires 1 <= t <= 9 && m <= 10
    ensures CountBelow(t, m * Pow10(d)) ==
            m * CountBelow(t, Pow10(d)) + (if t < m then Pow10(d) - CountBelow(t, Pow10(d)) else 0)
  {
    if m == 1 {
      assert 1 * Pow10(d) == Pow10(d);
    } else if m > 1 {
      Blocks(t, d, m - 1);
      NextBlock(t, d, m);
      MulPred(m, CountBelow(t, Pow10(d)));
    }
  }

  /** The table entry for `i` counts the matches below `10^i`. */
  lemma {:induction false} MaxCountCounts(t: int, i: nat)
    requires 1 <= t <= 9
    ensures CountBelow(t, Pow10(i)) == MaxCount(i)
  {
    if i > 0 {
      MaxCountCounts(t, i - 1);
      Blocks(t, i - 1, 10);
    }
  }

  /** The integers 0..n with `n < t <= 9` are single digits other than `t`. */
  lemma {:induction false} BelowTarget(t: int, n: int)
    requires n < t <= 9
    ensures CountBelow(t, n + 1) == 0
  {
    if n >= 1 {
      BelowTarget(t, n - 1);
      SingleDigit(n, t);
    }
  }

  /** `(a - 1) * c` taken apart. */
  lemma MulPred(a: int, c: int)
    ensures (a - 1) * c == a * c - c
  {
  }

  /** A quotient by `p` of a number below `k * p` is below `k`. */
  lemma {:induction false} DivBelow(n: int, p: int, k: int)
    requires p >= 1 && 0 <= n < k * p
    ensures n / p < k
  {
    var q := n / p;
    assert q * p <= n;
    MulPred(q - k + 1, p);
  }

  /** The leading digit of `n >= 1` lies in 1..9 and splits `n` as `msd * 10^d + rest`
      (count7.js:6, 17-18). */
  lemma {:induction false} LeadingDigit(n: int)
    requires n >= 1
    ensures var p := Pow10(Log10(n));
            1 <= n / p <= 9 && n == n / p * p + n % p && 0 <= n % p < p
  {
    var p := Pow10(Log10(n));
    var msd := n / p;
    assert n == msd * p + n % p;
    DivBelow(n, p, 10);
  }

  /** The split on the leading digit that `count` performs (count7.js:17-28): with `d` the index
      of the leading digit, `p = 10^d`, `msd = n / p` and `rest = n % p`, the matches in 0..n
      are the full blocks below `msd * p` plus those in `msd * p .. n`. */
  lemma {:induction false} LeadingDigitSplit(t: int, n: int)
    requires 1 <= t <= 9 && n >= 1
    ensures var d := Log10(n); var p := Pow10(d); var msd := n / p; var rest := n % p;
            CountBelow(t, n + 1) ==
              if msd == t then msd * MaxCount(d) + rest + 1
              else if msd > t then (msd - 1) * MaxCount(d) + p + CountBelow(t, rest + 1)
              else msd * MaxCount(d) + CountBelow(t, rest + 1)
  {
    var d := Log10(n);
    var p := Pow10(d);
    var msd := n / p;
    var rest := n % p;
    LeadingDigit(n);
    var c := MaxCount(d);
    MaxCountCounts(t, d);
    Blocks(t, d, msd);
    var head := CountBelow(t, msd * p);
    assert head == msd * c + (if t < msd then p - c else 0);
    BlockShift(t, msd, d, rest + 1);
    assert n + 1 == msd * p + (rest + 1);
    SingleDigit(msd, t);
    assert CountBelow(t, n + 1) == head + (if msd == t then rest + 1 else CountBelow(t, rest + 1));
    MulPred(msd, c);
  }

  // ----- count -----

  /** `count(target, n)` (count7.js:1-29). It returns 0 below `target`, and for a digit
      `target` it returns how many of 1..n contain it. The recursion is on `n % p < p <= n`.
      For `target <= 0` and `n >= target` the source throws, so that case is excluded. */
  method Count(target: int, n: int) returns (r: int)
    requires target >= 1 || n < target
    ensures n < target ==> r == 0
    ensures target <= 9 ==> r == CountBelow(target, n + 1)
    decreases n
  {
    if n < target {
      if target <= 9 {
        BelowTarget(target, n);
      }
      return 0;
    }
    var d := Log10(n);
    var maxCounts := MaxCounts(d);
    var p := Pow10(d);
    var msd := n / p;
    LeadingDigit(n);
    if target <= 9 {
      LeadingDigitSplit(target, n);
    }
    if msd == target {
      return msd * maxCounts[d] + n % p + 1;
    }
    if msd > target {
      var rest := Count(target, n % p);
      return (msd - 1) * maxCounts[d] + p + rest;
    }
    var rest := Count(target, n % p);
    return msd * maxCounts[d] + rest;
  }

  /** The calls that count7.js:31-36 prints, as pairs of `n` and the count of the integers in
      1..n that contain the digit 7. */
  predicate Printed(n: int, g: int)
  {
    (n == 7 && g == 1) || (n == 20 && g == 2) || (n == 70 && g == 8) ||
    (n == 80 && g == 17) || (n == 100 && g == 19) || (n == 1000 && g == 271)
  }

  /** A higher power of ten is at least ten times a lower one. */
  lemma {:induction false} Pow10Grows(i: nat, j: nat)
    requires i < j
    ensures 10 * Pow10(i) <= Pow10(j)
  {
    if i + 1 < j {
      Pow10Grows(i, j - 1);
    }
  }

  /** The leading-digit index is the only `d` with `10^d <= n < 10^(d+1)`. */
  lemma {:induction false} Log10Unique(n: int, d: nat)
    requires n >= 1 && Pow10(d) <= n < 10 * Pow10(d)
    ensures Log10(n) == d
  {
    var e := Log10(n);
    if e < d {
      Pow10Grows(e, d);
    } else if d < e {
      Pow10Grows(d, e);
    }
  }

  /** Dividing a multiple of `p` by `p` is exact. */
  lemma {:induction false} MultipleDiv(m: int, p: int)
    requires p >= 1
    ensures (m * p) / p == m && (m * p) % p == 0
  {
    var q, r := (m * p) / p, (m * p) % p;
    assert (m - q) * p == r;
    if m - q >= 1 {
      MulPred(m - q, p);
    } else if m - q <= -1 {
      MulPred(m - q + 1, p);
    }
  }

  /** A round number `msd * 10^d` has `d` as its leading-digit index. */
  lemma {:induction false} RoundLog10(msd: int, d: nat)
    requires 1 <= msd <= 9
    ensures msd * Pow10(d) >= 1 && Log10(msd * Pow10(d)) == d
  {
    var p := Pow10(d);
    var n := msd * p;
    assert p <= n < 10 * p by {
      MulPred(msd, p);
      MulPred(10 - msd, p);
    }
    Log10Unique(n, d);
  }

  /** Below and at a round number `msd * 10^d`, the count follows from the table alone. */
  lemma {:induction false} RoundNumber(t: int, msd: int, d: nat)
    requires 1 <= t <= 9 && 1 <= msd <= 9
    ensures CountBelow(t, msd * Pow10(d) + 1) ==
              if msd == t then msd * MaxCount(d) + 1
              else if msd > t then (msd - 1) * MaxCount(d) + Pow10(d)
              else msd * MaxCount(d)
  {
    var p := Pow10(d);
    var n := msd * p;
    RoundLog10(msd, d);
    MultipleDiv(msd, p);
    LeadingDigitSplit(t, n);
    BelowTarget(t, 0);
  }

  /** Each printed count is the number of integers in 1..n containing 7. */
  lemma {:induction false} PrintedValue(n: int, g: int)
    requires Printed(n, g)
    ensures CountBelow(7, n + 1) == g
  {
    assert Pow10(0) == 1 && Pow10(1) == 10 && Pow10(2) == 100 && Pow10(3) == 1000;
    assert MaxCount(0) == 0 && MaxCount(1) == 1 && MaxCount(2) == 19 && MaxCount(3) == 271;
    if n == 7 {
      RoundNumber(7, 7, 0);
    } else if n == 20 {
      RoundNumber(7, 2, 1);
    } else if n == 70 {
      RoundNumber(7, 7, 1);
    } else if n == 80 {
      RoundNumber(7, 8, 1);
    } else if n == 100 {
      RoundNumber(7, 1, 2);
    } else {
      RoundNumber(7, 1, 3);
    }
  }

  /** A printed call of `count` returns the printed value. */
  method PrintedCall(n: int, g: int) returns (r: int)
    requires Printed(n, g)
    ensures r == g
  {
    r := Count(7, n);
    PrintedValue(n, g);
  }
}
