/** Optional values and results, for the `?` types and the exceptions of the pickers. */
module Wrappers {
  datatype Option<+T> = None | Some(value: T)

  datatype Result<+R, +E> = Success(value: R) | Failure(error: E)
}

/** Facts about Euclidean division that the solver does not find alone. */
module Arith {

  lemma {:induction false} MulAtLeast(a: int, k: int)
    requires a >= 1 && k > 0
    ensures a * k >= k
    decreases a
  {
    if a > 1 {
      MulAtLeast(a - 1, k);
      assert a * k == (a - 1) * k + k;
    }
  }

  lemma MulMonotone(a: int, b: int, k: int)
    requires a <= b && k > 0
    ensures a * k <= b * k
  {
    if a < b {
      MulAtLeast(b - a, k);
      assert b * k == a * k + (b - a) * k;
    }
  }

  lemma MulCancel(a: int, b: int, k: int)
    requires k > 0 && a * k < b * k
    ensures a < b
  {
    if a >= b {
      MulMonotone(b, a, k);
    }
  }

  lemma MulCancelLe(a: int, b: int, k: int)
    requires k > 0 && a * k <= b * k
    ensures a <= b
  {
    assert (b + 1) * k == b * k + k;
    if a > b {
      MulMonotone(b + 1, a, k);
    }
  }

  /** Quotient and remainder are unique. */
  lemma DivModUnique(i: int, k: int, q: int, r: int)
    requires k > 0 && 0 <= r < k && i == q * k + r
    ensures i % k == r && i / k == q
  {
    var q', r' := i / k, i % k;
    assert i == q' * k + r';
    assert (q - q') * k == r' - r;
    if q > q' {
      MulAtLeast(q - q', k);
    } else if q < q' {
      MulAtLeast(q' - q, k);
    }
  }

  lemma MultipleMod(k: int, gap: int)
    requires gap > 0
    ensures (k * gap) % gap == 0
  {
    ModAddMultiple(0, k, gap);
  }

  lemma ModAddMultiple(x: int, m: int, k: int)
    requires k > 0
    ensures (x + m * k) % k == x % k
  {
    assert x == (x / k) * k + x % k;
    assert x + m * k == (x / k + m) * k + x % k;
    DivModUnique(x + m * k, k, x / k + m, x % k);
  }

  /** Subtracting a multiple of `k` leaves the remainder unchanged. */
  lemma ModSubMultiple(x: int, m: int, k: int)
    requires k > 0
    ensures (x - m * k) % k == x % k
  {
    assert x == (x / k) * k + x % k;
    assert x - m * k == (x / k - m) * k + x % k;
    DivModUnique(x - m * k, k, x / k - m, x % k);
  }
}

/** Kotlin's `Int` remainder operator, which truncates toward zero. */
module KotlinInt {
  import Arith

  /** `a % n` as Kotlin computes it: the sign of the result follows `a`. */
  function Rem(a: int, n: int): (r: int)
    requires n > 0
    ensures a >= 0 ==> 0 <= r < n
    ensures a < 0 ==> -n < r <= 0
  {
    if a >= 0 then a % n else -((-a) % n)
  }

  /** Whatever the sign of `a`, the truncated remainder lies in the residue class of `a`. */
  lemma RemCongruent(a: int, n: int, c: int)
    requires n > 0
    ensures (c + Rem(a, n)) % n == (c + a) % n
  {
    if a < 0 {
      var q, r := (-a) / n, (-a) % n;
      assert Rem(a, n) == -r;
      assert c + a == (c - r) - q * n;
      Arith.ModSubMultiple(c - r, q, n);
    } else {
      var q, r := a / n, a % n;
      assert Rem(a, n) == r;
      assert c + a == (c + r) + q * n;
      Arith.ModAddMultiple(c + r, q, n);
    }
  }
}

/** Decimal text as Kotlin's `Int.toString()` writes it and `String.toInt()` reads it. */
module Decimal {

  predicate IsDigit(c: char) {
    '0' <= c <= '9'
  }

  predicate AllDigits(s: string) {
    forall i :: 0 <= i < |s| ==> IsDigit(s[i])
  }

  /** A string `toInt()` accepts: an optional minus sign and at least one digit. */
  predicate IsDecimal(s: string) {
    if |s| > 0 && s[0] == '-' then |s| > 1 && AllDigits(s[1..]) else |s| > 0 && AllDigits(s)
  }

  function DigitChar(d: int): (c: char)
    requires 0 <= d < 10
    ensures IsDigit(c) && c as int - '0' as int == d
  {
    ('0' as int + d) as char
  }

  function DigitValue(c: char): int
    requires IsDigit(c)
  {
    c as int - '0' as int
  }

  /** The digits of `n`, most significant first, with no leading zero. */
  function NatToString(n: nat): (s: string)
    ensures |s| >= 1 && AllDigits(s)
    ensures n < 10 <==> |s| == 1
    ensures n >= 10 ==> s[0] != '0'
    decreases n
  {
    if n < 10 then [DigitChar(n)] else NatToString(n / 10) + [DigitChar(n % 10)]
  }

  /** Kotlin's `toString()` of an `Int`. */
  function IntToString(i: int): (s: string)
    ensures IsDecimal(s)
  {
    if i < 0 then "-" + NatToString(-i) else NatToString(i)
  }

  /** The value of a string of digits; the empty string reads as zero. */
  function ParseDigits(s: string): nat
    requires AllDigits(s)
  {
    if |s| == 0 then 0 else ParseDigits(s[..|s| - 1]) * 10 + DigitValue(s[|s| - 1])
  }

  /** Kotlin's `String.toInt()` on a string it accepts. */
  function ParseInt(s: string): int
    requires IsDecimal(s)
  {
    if s[0] == '-' then 0 - ParseDigits(s[1..]) else ParseDigits(s)
  }

  lemma {:induction false} ParseNatToString(n: nat)
    ensures ParseDigits(NatToString(n)) == n
    decreases n
  {
    if n >= 10 {
      var prefix := NatToString(n / 10);
      var s := prefix + [DigitChar(n % 10)];
      assert s[..|s| - 1] == prefix;
      ParseNatToString(n / 10);
    }
  }

  /** `toInt()` reads back what `toString()` wrote, for every `Int`. */
  lemma ParseIntToString(i: int)
    ensures ParseInt(IntToString(i)) == i
  {
    if i < 0 {
      var s := "-" + NatToString(-i);
      assert s[1..] == NatToString(-i);
      ParseNatToString(-i);
    } else {
      ParseNatToString(i);
    }
  }

  lemma {:induction false} ParseZeros(z: string)
    requires forall i :: 0 <= i < |z| ==> z[i] == '0'
    ensures AllDigits(z) && ParseDigits(z) == 0
  {
    if |z| > 0 {
      ParseZeros(z[..|z| - 1]);
    }
  }

  /** Leading zeros do not change the value `toInt()` reads. */
  lemma {:induction false} ParseLeadingZeros(z: string, s: string)
    requires forall i :: 0 <= i < |z| ==> z[i] == '0'
    requires AllDigits(s)
    ensures AllDigits(z + s) && ParseDigits(z + s) == ParseDigits(s)
    decreases |s|
  {
    var t := z + s;
    assert AllDigits(t) by {
      forall i | 0 <= i < |t| ensures IsDigit(t[i]) {
        if i < |z| { assert t[i] == z[i]; } else { assert t[i] == s[i - |z|]; }
      }
    }
    if |s| == 0 {
      assert t == z;
      ParseZeros(z);
    } else {
      var s' := s[..|s| - 1];
      assert t[..|t| - 1] == z + s';
      ParseLeadingZeros(z, s');
    }
  }

  /** Kotlin's `padStart(length, c)`: `s` preceded by as many `c` as it takes to reach `length`. */
  function PadStart(s: string, length: nat, c: char): (r: string)
    ensures |r| == if |s| >= length then |s| else length
    ensures r[|r| - |s|..] == s
    ensures forall i :: 0 <= i < |r| - |s| ==> r[i] == c
  {
    if |s| >= length then s else seq(length - |s|, _ => c) + s
  }

  /** A zero-padded decimal reads back as the number it pads. */
  lemma ParsePaddedNat(n: nat, length: nat)
    ensures IsDecimal(PadStart(NatToString(n), length, '0'))
    ensures ParseInt(PadStart(NatToString(n), length, '0')) == n
  {
    var s := NatToString(n);
    var r := PadStart(s, length, '0');
    var z := r[..|r| - |s|];
    assert r == z + r[|r| - |s|..];
    assert r == z + s;
    assert forall i :: 0 <= i < |z| ==> z[i] == r[i];
    ParseLeadingZeros(z, s);
    ParseNatToString(n);
  }
}

/** Kotlin's `List(n) { xs }.flatten()`: `n` copies of `xs`, one after the other. */
module Flatten {
  import Arith

  function Repeat<T>(xs: seq<T>, n: nat): seq<T>
  {
    if n == 0 then [] else xs + Repeat(xs, n - 1)
  }

  /** Entry `i` of the repeated list is entry `i mod |xs|` of the base list. */
  lemma {:induction false} RepeatAt<T>(xs: seq<T>, n: nat, i: int)
    requires 0 <= i < n * |xs|
    ensures |Repeat(xs, n)| == n * |xs|
    ensures Repeat(xs, n)[i] == xs[i % |xs|]
  {
    RepeatLength(xs, n);
    assert n != 0;
    if i < |xs| {
      Arith.DivModUnique(i, |xs|, 0, i);
    } else {
      assert (n - 1) * |xs| == n * |xs| - |xs|;
      RepeatAt(xs, n - 1, i - |xs|);
      Arith.ModAddMultiple(i - |xs|, 1, |xs|);
    }
  }

  lemma {:induction false} RepeatLength<T>(xs: seq<T>, n: nat)
    ensures |Repeat(xs, n)| == n * |xs|
  {
    if n > 0 {
      RepeatLength(xs, n - 1);
      assert n * |xs| == |xs| + (n - 1) * |xs|;
    }
  }
}
