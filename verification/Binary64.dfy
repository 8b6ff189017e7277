/** Integers through IEEE 754 binary64: the conversion of an integer to the nearest binary64
    number (ties to even) and the saturating conversion back. */
module Binary64 {
  import opened Values

  const TWO53: int := 0x20_0000_0000_0000
  const TWO52: int := 0x10_0000_0000_0000

  function Pow2(k: nat): (r: nat)
    ensures r > 0
  {
    if k == 0 then 1 else 2 * Pow2(k - 1)
  }

  /** The integers a binary64 number can hold: at most 53 significant bits. */
  ghost predicate Representable(m: nat) {
    exists q: nat, k: nat :: Scaled(m, q, k)
  }

  predicate Scaled(m: nat, q: nat, k: nat) {
    q < TWO53 && m == q * Pow2(k)
  }

  /** The gap between neighbouring binary64 integers around n. */
  function Ulp(n: nat): (r: nat)
    ensures r > 0
  {
    if n < TWO53 then 1 else 2 * Ulp(n / 2)
  }

  /** Round to nearest, ties to even. */
  function Round(n: nat): nat {
    var u := Ulp(n);
    var q, rest := n / u, n % u;
    if 2 * rest < u || (2 * rest == u && q % 2 == 0) then q * u else (q + 1) * u
  }

  function Magnitude(n: int): nat {
    if n < 0 then -n else n
  }

  function SignedRound(n: int): int {
    if n < 0 then 0 - Round(-n) else Round(n)
  }

  /** Rust's `n as f64`. */
  function FromInt(n: int): Number {
    Finite(Whole(SignedRound(n)))
  }

  function Truncate(r: real): int {
    if r < 0.0 then -((-r).Floor) else r.Floor
  }

  function Clamp(n: int, lo: int, hi: int): (r: int)
    requires lo <= hi
    ensures lo <= r <= hi
  {
    if n < lo then lo else if n > hi then hi else n
  }

  /** Rust's `x as iN` / `x as uN`: toward zero, saturating, NaN to zero. */
  function ToInt(x: Number, lo: int, hi: int): (r: int)
    requires lo <= 0 <= hi
    ensures lo <= r <= hi
  {
    match x
    case Finite(v) => Clamp(Truncate(v), lo, hi)
    case Infinite(negative) => if negative then lo else hi
    case NotANumber => 0
  }

  /** An integer of range lo..hi written as a number and read back. */
  function Through(n: int, lo: int, hi: int): (r: int)
    requires lo <= 0 <= hi
    ensures lo <= r <= hi
  {
    ToInt(FromInt(n), lo, hi)
  }

  // ---------- Size of the gap

  lemma {:induction false} UlpBounds(n: nat)
    ensures n < Ulp(n) * TWO53
    ensures n >= TWO53 ==> Ulp(n) * TWO52 <= n
  {
    if n >= TWO53 {
      UlpBounds(n / 2);
    }
  }

  lemma {:induction false} UlpMonotone(n: nat, m: nat)
    requires n <= m
    ensures Ulp(n) == Ulp(m) || 2 * Ulp(n) <= Ulp(m)
  {
    if n >= TWO53 {
      UlpMonotone(n / 2, m / 2);
    }
  }

  lemma {:induction false} UlpIsPower(n: nat) returns (k: nat)
    ensures Ulp(n) == Pow2(k)
  {
    if n < TWO53 {
      k := 0;
    } else {
      k := UlpIsPower(n / 2);
      k := k + 1;
    }
  }

  lemma {:induction false} UlpAtMost(n: nat, k: nat)
    requires n < TWO53 * Pow2(k)
    ensures Ulp(n) <= Pow2(k)
  {
    if k > 0 && n >= TWO53 {
      UlpAtMost(n / 2, k - 1);
    }
  }

  lemma {:induction false} UlpDivides(q: nat, k: nat)
    requires q <= TWO53
    ensures q * Pow2(k) % Ulp(q * Pow2(k)) == 0
  {
    var m := q * Pow2(k);
    if m < TWO53 {
    } else if k == 0 {
      assert q == TWO53 && Ulp(TWO52) == 1;
    } else {
      var half := q * Pow2(k - 1);
      assert m == 2 * half;
      UlpDivides(q, k - 1);
      DoubleDivides(half, Ulp(half));
    }
  }

  lemma DoubleDivides(x: nat, u: nat)
    requires u > 0 && x % u == 0
    ensures 2 * x % (2 * u) == 0
  {
    var c := x / u;
    assert 2 * x == c * (2 * u);
    MultipleHasNoRest(c, 2 * u);
  }

  lemma MultipleHasNoRest(c: nat, u: nat)
    requires u > 0
    ensures c * u % u == 0 && c * u / u == c
  {
    QuotientIsUnique(c, 0, c * u / u, c * u % u, u);
  }

  lemma QuotientIsUnique(c: int, r: int, c': int, r': int, u: int)
    requires 0 <= r < u && 0 <= r' < u && c * u + r == c' * u + r'
    ensures c == c' && r == r'
  {
    if c < c' {
      TimesKeepsOrder(c + 1, c', u);
    } else if c' < c {
      TimesKeepsOrder(c' + 1, c, u);
    }
  }

  lemma TimesKeepsOrder(x: int, y: int, u: nat)
    requires x <= y
    ensures x * u <= y * u
    ensures (x + 1) * u == x * u + u
  {
  }

  // ---------- The rounded value

  /** The two multiples of the gap that enclose n, and which of them is taken. */
  lemma RoundBrackets(n: nat) returns (u: nat, q: nat, rest: nat)
    ensures u == Ulp(n) && n == q * u + rest && rest < u && q < TWO53
    ensures q == n / u && rest == n % u
    ensures n >= TWO53 ==> q >= TWO52
    ensures Round(n) == q * u || Round(n) == (q + 1) * u
    ensures Round(n) == q * u ==> 2 * (n - Round(n)) <= u
    ensures Round(n) == (q + 1) * u ==> 2 * (Round(n) - n) <= u
    ensures (q + 1) * u == q * u + u
    ensures n < TWO53 ==> Round(n) == n
  {
    u := Ulp(n);
    q, rest := Division(n, u);
    UlpBounds(n);
    TimesKeepsOrder(q, q, u);
    if q >= TWO53 { TimesKeepsOrder(TWO53, q, u); }
    if q < TWO52 { TimesKeepsOrder(q + 1, TWO52, u); }
  }

  lemma Division(n: nat, u: nat) returns (q: nat, rest: nat)
    requires u > 0
    ensures q == n / u && rest == n % u && n == q * u + rest && rest < u
  {
    q, rest := n / u, n % u;
  }

  /** The result is a binary64 integer. */
  lemma RoundIsRepresentable(n: nat)
    ensures Representable(Round(n))
  {
    var u, q, rest := RoundBrackets(n);
    var k := UlpIsPower(n);
    var c := if Round(n) == q * u then q else q + 1;
    assert Round(n) == c * u;
    ScaledUpToCarry(Round(n), c, k);
  }

  lemma ScaledUpToCarry(m: nat, c: nat, k: nat)
    requires c <= TWO53 && m == c * Pow2(k)
    ensures Representable(m)
  {
    if c == TWO53 {
      assert TWO53 * Pow2(k) == TWO52 * Pow2(k + 1);
      assert Scaled(m, TWO52, k + 1);
    } else {
      assert Scaled(m, c, k);
    }
  }

  /** Between n and either enclosing multiple of the gap there is no binary64 integer. */
  lemma NoneBetween(n: nat, m: nat, u: nat, q: nat)
    requires Representable(m) && u == Ulp(n) && q == n / u
    ensures m <= q * u || m >= (q + 1) * u
  {
    if q * u < m < (q + 1) * u {
      SameGap(n, m, q);
      var p: nat, k: nat :| Scaled(m, p, k);
      UlpDivides(p, k);
      var c, r := Division(m, u);
      if c <= q { TimesKeepsOrder(c, q, u); } else { TimesKeepsOrder(q + 1, c, u); }
    }
  }

  lemma SameGap(n: nat, m: nat, q: nat)
    requires q == n / Ulp(n) && q * Ulp(n) < m < (q + 1) * Ulp(n)
    ensures Ulp(m) == Ulp(n)
  {
    var u, _, rest := RoundBrackets(n);
    UlpBounds(m);
    if n <= m { UlpMonotone(n, m); } else { UlpMonotone(m, n); }
    if n >= TWO53 {
      TimesKeepsOrder(TWO52, q, u);
      TimesKeepsOrder(q + 1, TWO53, u);
    }
  }

  /** No binary64 integer is nearer to n than the rounded value, and a tie goes to the even
      multiple of the gap. */
  lemma RoundIsNearest(n: nat, m: nat)
    requires Representable(m)
    ensures Distance(Round(n), n) <= Distance(m, n)
    ensures m != Round(n) && Distance(m, n) == Distance(Round(n), n) ==> Round(n) / Ulp(n) % 2 == 0
  {
    var u, q, rest := RoundBrackets(n);
    NoneBetween(n, m, u, q);
    var low := q * u;
    NearestOfBracket(n, m, low, u, Round(n));
    if 2 * (n - low) == u {
      TieGoesToEven(n, u, q);
    }
  }

  lemma NearestOfBracket(n: nat, m: nat, low: nat, u: nat, r: nat)
    requires low <= n < low + u && (m <= low || m >= low + u)
    requires (r == low && 2 * (n - r) <= u) || (r == low + u && 2 * (r - n) <= u)
    ensures Distance(r, n) <= Distance(m, n)
    ensures m != r && Distance(m, n) == Distance(r, n) ==> 2 * (n - low) == u
  {
  }

  lemma TieGoesToEven(n: nat, u: nat, q: nat)
    requires u == Ulp(n) && q == n / u && 2 * (n - q * u) == u
    ensures Round(n) / u % 2 == 0
  {
    var q', rest := Division(n, u);
    MultipleHasNoRest(q, u);
    MultipleHasNoRest(q + 1, u);
  }

  /** The same for all integers, a negative one being rounded by its magnitude. */
  lemma SignedRoundIsNearest(n: int, m: int)
    requires Representable(Magnitude(m))
    ensures var r := SignedRound(n);
            && Representable(Magnitude(r))
            && Distance(r, n) <= Distance(m, n)
            && (m != r && Distance(m, n) == Distance(r, n) ==> Magnitude(r) / Ulp(Magnitude(n)) % 2 == 0)
  {
    var a := Magnitude(n);
    RoundIsRepresentable(a);
    if (n < 0) == (m < 0) || m == 0 {
      RoundIsNearest(a, Magnitude(m));
    } else {
      // Zero lies between n and m.
      assert Scaled(0, 0, 0);
      RoundIsNearest(a, 0);
    }
  }

  /** The conversion back cuts off towards zero and saturates at the ends of the type. */
  lemma ToIntSaturates(r: Binary, lo: int, hi: int)
    requires lo <= 0 <= hi
    ensures var t := ToInt(Finite(r), lo, hi);
            && (r <= lo as real ==> t == lo)
            && (r >= hi as real ==> t == hi)
            && (0.0 <= r <= hi as real ==> t as real <= r < t as real + 1.0)
            && (lo as real <= r <= 0.0 ==> t as real - 1.0 < r <= t as real)
    ensures ToInt(Infinite(true), lo, hi) == lo && ToInt(Infinite(false), lo, hi) == hi
    ensures ToInt(NotANumber, lo, hi) == 0
  {
  }

  function Distance(x: int, y: int): nat {
    if x < y then y - x else x - y
  }

  lemma {:induction false} RoundMonotone(n: nat, m: nat)
    requires n <= m
    ensures Round(n) <= Round(m)
  {
    RoundIsRepresentable(n);
    RoundIsRepresentable(m);
    if Round(n) > Round(m) {
      // Both lie between the two roundings, so each would be nearer to the other's value.
      RoundIsNearest(n, Round(m));
      RoundIsNearest(m, Round(n));
      var u, q, rest := RoundBrackets(n);
      var u', q', rest' := RoundBrackets(m);
      UlpMonotone(n, m);
    }
  }

  lemma RoundOfRepresentable(m: nat)
    requires Representable(m)
    ensures Round(m) == m
  {
    RoundIsNearest(m, m);
  }

  lemma RoundTwice(n: nat)
    ensures Round(Round(n)) == Round(n)
  {
    RoundIsRepresentable(n);
    RoundOfRepresentable(Round(n));
  }

  // ---------- Through binary64 and back

  lemma ThroughIsClamped(n: int, lo: int, hi: int)
    requires lo <= 0 <= hi
    ensures Through(n, lo, hi) == Clamp(SignedRound(n), lo, hi)
  {
  }

  lemma SignedRoundMonotone(n: int, m: int)
    requires n <= m
    ensures SignedRound(n) <= SignedRound(m)
  {
    if n < 0 && m < 0 {
      RoundMonotone(-m, -n);
    } else if n >= 0 {
      RoundMonotone(n, m);
    }
  }

  lemma SignedRoundTwice(n: int)
    ensures SignedRound(SignedRound(n)) == SignedRound(n)
  {
    RoundTwice(Magnitude(n));
  }

  /** For every integer type: order is kept, and a second trip changes nothing even where the
      conversion back saturates. */
  lemma ThroughMonotoneAndStable(n: int, m: int, lo: int, hi: int)
    requires lo <= 0 <= hi && lo <= n <= hi
    ensures n <= m <= hi ==> Through(n, lo, hi) <= Through(m, lo, hi)
    ensures Through(Through(n, lo, hi), lo, hi) == Through(n, lo, hi)
  {
    var t := Through(n, lo, hi);
    ThroughIsClamped(n, lo, hi);
    ThroughIsClamped(t, lo, hi);
    ThroughIsClamped(m, lo, hi);
    if n <= m { SignedRoundMonotone(n, m); }
    SignedRoundTwice(n);
    if t == hi { SignedRoundMonotone(n, hi); }
    if t == lo { SignedRoundMonotone(lo, n); }
  }

  /** The error is at most half the gap at the type's end, and zero up to 2^53. */
  lemma ThroughError(n: int, lo: int, hi: int, k: nat)
    requires lo <= n <= hi && lo <= 0 <= hi
    requires -TWO53 * Pow2(k) <= lo && hi < TWO53 * Pow2(k)
    ensures 2 * Distance(Through(n, lo, hi), n) <= Pow2(k)
    ensures -TWO53 <= n <= TWO53 ==> Through(n, lo, hi) == n
  {
    ThroughIsClamped(n, lo, hi);
    var a := Magnitude(n);
    var u, q, rest := RoundBrackets(a);
    if a < TWO53 * Pow2(k) {
      UlpAtMost(a, k);
    } else {
      EndIsExact(k);
    }
    if a == TWO53 {
      EndIsExact(0);
    }
  }

  lemma EndIsExact(k: nat)
    ensures Round(TWO53 * Pow2(k)) == TWO53 * Pow2(k)
  {
    assert Scaled(TWO53 * Pow2(k), TWO52, k + 1);
    RoundOfRepresentable(TWO53 * Pow2(k));
  }

  /** The four integer types of the store: exact for 32 bits, within 512 for i64 and within
      1024 for u64. */
  lemma IntegerTypesThrough(n: int)
    ensures I32_MIN <= n <= I32_MAX ==> Through(n, I32_MIN, I32_MAX) == n
    ensures 0 <= n <= U32_MAX ==> Through(n, 0, U32_MAX) == n
    ensures I64_MIN <= n <= I64_MAX ==> Distance(Through(n, I64_MIN, I64_MAX), n) <= 512
    ensures 0 <= n <= U64_MAX ==> Distance(Through(n, 0, U64_MAX), n) <= 1024
    ensures I64_MIN <= n <= I64_MAX && -TWO53 <= n <= TWO53 ==> Through(n, I64_MIN, I64_MAX) == n
    ensures 0 <= n <= TWO53 ==> Through(n, 0, U64_MAX) == n
  {
    assert Pow2(10) == 1024 && Pow2(11) == 2048;
    if I32_MIN <= n <= I32_MAX { ThroughError(n, I32_MIN, I32_MAX, 0); }
    if 0 <= n <= U32_MAX { ThroughError(n, 0, U32_MAX, 0); }
    if I64_MIN <= n <= I64_MAX { ThroughError(n, I64_MIN, I64_MAX, 10); }
    if 0 <= n <= U64_MAX { ThroughError(n, 0, U64_MAX, 11); }
  }

  /** None of these bounds can be lowered. */
  lemma BoundsAreReached()
    ensures Distance(Through(0x8000_0000_0000_0400, 0, U64_MAX), 0x8000_0000_0000_0400) == 1024
    ensures Distance(Through(0x4000_0000_0000_0200, I64_MIN, I64_MAX), 0x4000_0000_0000_0200) == 512
    ensures Through(TWO53 + 1, I64_MIN, I64_MAX) == Through(TWO53 + 1, 0, U64_MAX) == TWO53
  {
    UlpExactly(0x8000_0000_0000_0400, 11);
    UlpExactly(0x4000_0000_0000_0200, 10);
    UlpExactly(TWO53 + 1, 1);
    assert Pow2(11) == 2048 && Pow2(10) == 1024;
    ThroughIsClamped(0x8000_0000_0000_0400, 0, U64_MAX);
    ThroughIsClamped(0x4000_0000_0000_0200, I64_MIN, I64_MAX);
    ThroughIsClamped(TWO53 + 1, 0, U64_MAX);
    ThroughIsClamped(TWO53 + 1, I64_MIN, I64_MAX);
  }

  lemma {:induction false} UlpExactly(n: nat, k: nat)
    requires TWO52 * Pow2(k) <= n < TWO53 * Pow2(k)
    ensures Ulp(n) == Pow2(k)
  {
    if k > 0 {
      assert n / 2 < TWO53 * Pow2(k - 1) && TWO52 * Pow2(k - 1) <= n / 2;
      UlpExactly(n / 2, k - 1);
    }
  }
}
