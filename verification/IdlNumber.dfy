/** Decimal literals of the schema language (lib/lexer/lexer.rs): how the lexer turns their digits into a
    number, and when that number is the one written. */
module IdlNumber {
  import opened Wrappers
  import opened Decimal

  /** `digits / 10^decimal` */
  datatype RpNumber = RpNumber(digits: int, decimal: nat)

  /** A literal as written. */
  datatype Literal = Literal(negative: bool, whole: string, fraction: Option<string>, exponent: Option<int>)

  const I32_MIN: int := -0x8000_0000
  const I32_MAX: int := 0x7FFF_FFFF

  predicate LiteralOk(l: Literal) {
    && l.whole != [] && AllDigits(l.whole)
    && (l.fraction.Some? ==> l.fraction.value != [] && AllDigits(l.fraction.value))
    && (l.exponent.Some? ==> l.fraction.Some? && I32_MIN <= l.exponent.value <= I32_MAX)
  }

  function Pow10(n: nat): (p: nat)
    ensures p > 0
  {
    if n == 0 then 1 else 10 * Pow10(n - 1)
  }

  /** `n` shifted by some decimals, plus the digits shifted in. */
  function Shifted(n: int, decimals: nat, v: int): int { n * Pow10(decimals) + v }

  /** The fractions `x / q` and `y / p` are equal. */
  predicate SameFraction(x: int, p: int, y: int, q: int) { x * p == y * q }

  // What a literal means, as a fraction of integers

  function FractionDigits(l: Literal): string { l.fraction.GetOr("") }

  function Numerator(l: Literal): int
    requires LiteralOk(l)
  {
    var f, e := FractionDigits(l), l.exponent.GetOr(0);
    var unsigned := Shifted(Value(l.whole), |f|, Value(f)) * Pow10(if e > 0 then e else 0);
    if l.negative then -unsigned else unsigned
  }

  function Denominator(l: Literal): nat
    requires LiteralOk(l)
  {
    var f, e := FractionDigits(l), l.exponent.GetOr(0);
    Pow10(|f|) * Pow10(if e < 0 then -e else 0)
  }

  /** The two fractions are equal. */
  predicate Denotes(n: RpNumber, l: Literal)
    requires LiteralOk(l)
  {
    SameFraction(n.digits, Denominator(l), Numerator(l), Pow10(n.decimal))
  }

  // What the lexer computes

  function LeadingZeros(s: string): (n: nat)
    ensures n <= |s| && (forall i :: 0 <= i < n ==> s[i] == '0') && (n < |s| ==> s[n] != '0')
  {
    if s == [] || s[0] != '0' then 0 else 1 + LeadingZeros(s[1..])
  }

  /** Zeros before the first other digit; none are counted if there is no other digit. */
  function SkippedZeros(f: string): nat { if LeadingZeros(f) == |f| then 0 else LeadingZeros(f) }

  /** The digits of the fraction that are not leading zeros shift the whole part; the zeros only count as
      decimals. */
  function WithFraction(n: RpNumber, f: string): RpNumber
    requires AllDigits(f)
  {
    var significant := |f| - LeadingZeros(f);
    RpNumber(Shifted(n.digits, significant, Value(f)), n.decimal + SkippedZeros(f) + significant)
  }

  /** A negative exponent adds decimals; a positive one removes them, and multiplies once none are left. */
  function WithExponent(n: RpNumber, e: int): RpNumber {
    if e < 0 then RpNumber(n.digits, n.decimal - e)
    else if e <= n.decimal then RpNumber(n.digits, n.decimal - e)
    else RpNumber(n.digits * Pow10(e - n.decimal), 0)
  }

  function Scaled(whole: RpNumber, fraction: Option<string>, exponent: Option<int>): RpNumber
    requires fraction.Some? ==> AllDigits(fraction.value)
  {
    var n := if fraction.Some? then WithFraction(whole, fraction.value) else whole;
    if exponent.Some? then WithExponent(n, exponent.value) else n
  }

  function NumberOf(l: Literal): RpNumber
    requires LiteralOk(l)
  {
    var scaled := Scaled(RpNumber(Value(l.whole), 0), l.fraction, l.exponent);
    if l.negative then scaled.(digits := -scaled.digits) else scaled
  }

  // The loops

  lemma {:induction false} ZeroValue(s: string)
    requires AllDigits(s)
    ensures Value(s) == 0 <==> LeadingZeros(s) == |s|
  {
    if s != [] {
      var init := s[..|s| - 1];
      ZeroValue(init);
      LeadingZerosPrefix(s);
    }
  }

  lemma LeadingZerosPrefix(s: string)
    requires s != []
    ensures LeadingZeros(s) == |s| <==>
      LeadingZeros(s[..|s| - 1]) == |s| - 1 && s[|s| - 1] == '0'
  {
    var init := s[..|s| - 1];
    if LeadingZeros(s) < |s| - 1 {
      assert init[LeadingZeros(s)] != '0';
    }
    if LeadingZeros(init) < |init| {
      assert s[LeadingZeros(init)] != '0';
    }
  }

  lemma ShorterZeros(s: string, k: nat)
    requires k <= |s|
    ensures LeadingZeros(s[..k]) == if LeadingZeros(s) < k then LeadingZeros(s) else k
  {
    var n, m := LeadingZeros(s), LeadingZeros(s[..k]);
    if m < k {
      assert s[..k][m] == s[m];
    }
    if n < k {
      assert s[..k][n] == s[n];
    }
  }

  /** The position of the first digit that is not zero, if there is one; else 0. */
  method FindNonZero(input: string) returns (dec: nat)
    ensures dec == SkippedZeros(input)
  {
    for i := 0 to |input|
      invariant forall k :: 0 <= k < i ==> input[k] == '0'
    {
      if input[i] != '0' {
        assert LeadingZeros(input) == i;
        return i;
      }
    }
    return 0;
  }

  method ParseFraction(input: string) returns (r: Option<(nat, nat)>)
    requires AllDigits(input)
    ensures r == if input == [] then None else Some((SkippedZeros(input), Value(input)))
  {
    if input == [] {
      return None;
    }
    var dec := FindNonZero(input);
    return Some((dec, Value(input)));
  }

  /** `digits` is shifted once for every decimal digit that `fraction` has as a number. */
  method ApplyFraction(n: RpNumber, dec: nat, fraction: nat, ghost text: string) returns (r: RpNumber)
    requires AllDigits(text) && fraction == Value(text) && dec == SkippedZeros(text)
    ensures r == WithFraction(n, text)
  {
    var digits, decimal := n.digits, n.decimal + dec;
    var f := fraction;
    ghost var k := 0;
    assert text[..|text|] == text;
    ZeroValue(text);
    while f != 0
      invariant k <= |text| - LeadingZeros(text)
      invariant f == Value(text[..|text| - k]) && digits == n.digits * Pow10(k) && decimal == n.decimal + dec + k
      decreases f
    {
      var rest := text[..|text| - k];
      ZeroValue(rest);
      ShorterZeros(text, |text| - k);
      assert rest[..|rest| - 1] == text[..|text| - k - 1];
      Shift(n.digits, k);
      digits := digits * 10;
      decimal := decimal + 1;
      f := f / 10;
      k := k + 1;
    }
    ZeroValue(text[..|text| - k]);
    ShorterZeros(text, |text| - k);
    digits := digits + fraction;
    r := RpNumber(digits, decimal);
  }

  lemma Shift(n: int, k: nat)
    ensures n * Pow10(k) * 10 == n * Pow10(k + 1)
  {
  }

  method ApplyExponent(n: RpNumber, exponent: int) returns (r: RpNumber)
    ensures r == WithExponent(n, exponent)
  {
    if exponent < 0 {
      return RpNumber(n.digits, n.decimal - exponent);
    }
    var digits, decimal := n.digits, n.decimal;
    for i := 0 to exponent
      invariant RpNumber(digits, decimal) == WithExponent(n, i)
    {
      if decimal > 0 {
        decimal := decimal - 1;
      } else {
        if i >= n.decimal {
          Shift(n.digits, i - n.decimal);
        }
        digits := digits * 10;
      }
    }
    r := RpNumber(digits, decimal);
  }

  // When the number is the one written

  lemma {:induction false} Pow10Add(a: nat, b: nat)
    ensures Pow10(a + b) == Pow10(a) * Pow10(b)
  {
    if a > 0 {
      Pow10Add(a - 1, b);
      Regroup(10, Pow10(a - 1), Pow10(b));
    }
  }

  lemma Regroup(x: int, y: int, z: int)
    ensures x * (y * z) == (x * y) * z
  {
  }

  lemma Positive(x: int, p: int)
    requires x > 0 && p > 0
    ensures x * p > 0
  {
  }

  lemma Cancel(x: int, y: int, p: int)
    requires p > 0
    ensures x * p == y * p <==> x == y
  {
    assert (y - x) * p == y * p - x * p;
    if x < y {
      Positive(y - x, p);
    } else if y < x {
      Positive(x - y, p);
      assert (x - y) * p == x * p - y * p;
    }
  }

  lemma Stretch(w: nat, s: nat, z: nat)
    requires s > 0 && z > 0
    ensures w * s == w * (z * s) <==> w == 0 || z == 1
  {
    Regroup(w, z, s);
    Cancel(w, w * z, s);
    if w > 0 && z > 1 {
      Positive(w, z - 1);
      assert w * z == w + w * (z - 1);
    }
  }

  lemma OneOnly(n: nat)
    ensures Pow10(n) == 1 <==> n == 0
  {
    if n > 0 {
      assert Pow10(n) == 10 * Pow10(n - 1);
    }
  }

  /** A literal without sign or exponent: the fraction is exact exactly when nothing is lost by not
      shifting over the zeros. */
  lemma FractionExact(whole: nat, f: string)
    requires AllDigits(f) && f != []
    ensures var n := WithFraction(RpNumber(whole, 0), f);
      SameFraction(n.digits, Pow10(|f|), Shifted(whole, |f|, Value(f)), Pow10(n.decimal)) <==>
        whole == 0 || f[0] != '0' || LeadingZeros(f) == |f|
  {
    var zeros := LeadingZeros(f);
    var s := |f| - zeros;
    assert f[0] != '0' <==> zeros == 0;
    if s == 0 {
      ZeroValue(f);
      NoShift(whole, |f|);
    } else {
      hide Shifted, SameFraction, Pow10;
      ShiftExact(whole, s, zeros, Value(f));
    }
  }

  lemma NoShift(w: nat, n: nat)
    ensures SameFraction(Shifted(w, 0, 0), Pow10(n), Shifted(w, n, 0), Pow10(0))
  {
  }

  lemma ShiftExact(w: nat, s: nat, zeros: nat, v: nat)
    ensures SameFraction(Shifted(w, s, v), Pow10(zeros + s), Shifted(w, zeros + s, v), Pow10(zeros + s)) <==>
      w == 0 || zeros == 0
  {
    Pow10Add(zeros, s);
    OneOnly(zeros);
    Core(w, Pow10(s), Pow10(zeros), v);
  }

  lemma Core(w: nat, s: nat, z: nat, v: nat)
    requires s > 0 && z > 0
    ensures (w * s + v) * (z * s) == (w * (z * s) + v) * (z * s) <==> w == 0 || z == 1
  {
    Positive(z, s);
    Cancel(w * s + v, w * (z * s) + v, z * s);
    Stretch(w, s, z);
  }

  /** Exponents are always exact. */
  lemma ExponentExact(n: RpNumber, e: int)
    ensures var m := WithExponent(n, e);
      m.digits * Pow10(n.decimal) * Pow10(if e < 0 then -e else 0) ==
        n.digits * Pow10(if e > 0 then e else 0) * Pow10(m.decimal)
  {
    var m := WithExponent(n, e);
    if e < 0 {
      Pow10Add(n.decimal, -e);
      Regroup(n.digits, Pow10(n.decimal), Pow10(-e));
    } else if e <= n.decimal {
      Pow10Add(e, n.decimal - e);
      Regroup(n.digits, Pow10(e), Pow10(n.decimal - e));
    } else {
      Pow10Add(e - n.decimal, n.decimal);
      Regroup(n.digits, Pow10(e - n.decimal), Pow10(n.decimal));
    }
  }

  lemma Combine(m: int, k: int, n: int, d: int, q: int, p: int, up: int, down: int)
    requires k > 0 && d > 0 && up > 0
    requires m * d * down == n * up * k
    ensures m * (p * down) == q * up * k <==> n * p == q * d
  {
    calc {
      m * (p * down) * d;
      (m * d * down) * p;
      (n * up * k) * p;
      (n * p) * (up * k);
    }
    assert q * up * k * d == (q * d) * (up * k);
    Cancel(m * (p * down), q * up * k, d);
    Positive(up, k);
    Cancel(n * p, q * d, up * k);
  }

  /** The number is the one written exactly when the whole part is zero, or the fraction does not start
      with a zero, or is all zeros (or absent). */
  lemma NumberExact(l: Literal)
    requires LiteralOk(l)
    ensures Denotes(NumberOf(l), l) <==>
      var f := FractionDigits(l);
      Value(l.whole) == 0 || f == [] || f[0] != '0' || LeadingZeros(f) == |f|
  {
    var w, f, e := Value(l.whole), FractionDigits(l), l.exponent.GetOr(0);
    var whole := RpNumber(w, 0);
    var n := if l.fraction.Some? then WithFraction(whole, f) else whole;
    var m := WithExponent(n, e);
    assert NumberOf(l) == if l.negative then m.(digits := -m.digits) else m;
    if l.fraction.Some? {
      FractionExact(w, f);
    } else {
      NoShift(w, 0);
    }
    hide Shifted, SameFraction, WithFraction, WithExponent, Pow10, LeadingZeros;
    Unscaled(n, e, Shifted(w, |f|, Value(f)), Pow10(|f|), l.negative);
  }

  /** Neither an exponent nor a sign changes whether two fractions are equal. */
  lemma Unscaled(n: RpNumber, e: int, q: int, p: int, negative: bool)
    ensures var m := WithExponent(n, e);
      var up, down := Pow10(if e > 0 then e else 0), Pow10(if e < 0 then -e else 0);
      var digits, numerator := if negative then -m.digits else m.digits, if negative then -(q * up) else q * up;
      SameFraction(digits, p * down, numerator, Pow10(m.decimal)) <==> SameFraction(n.digits, p, q, Pow10(n.decimal))
  {
    var m := WithExponent(n, e);
    var up, down := Pow10(if e > 0 then e else 0), Pow10(if e < 0 then -e else 0);
    ExponentExact(n, e);
    Combine(m.digits, Pow10(m.decimal), n.digits, Pow10(n.decimal), q, p, up, down);
    Negated(m.digits, p * down, q * up, Pow10(m.decimal));
  }

  lemma Negated(x: int, a: int, y: int, b: int)
    ensures (-x) * a == (-y) * b <==> x * a == y * b
  {
    assert (-x) * a == -(x * a) && (-y) * b == -(y * b);
  }

  /** `1.05` is read as 0.15. */
  lemma LostZero()
    ensures NumberOf(Literal(false, "1", Some("05"), None)) == RpNumber(15, 2)
  {
    assert "05"[..1] == "0" && Value("0") == 0 && Value("05") == 5;
    assert LeadingZeros("05") == 1 by {
      assert "05"[1..] == "5";
    }
    assert Value("1") == 1;
    assert Pow10(1) == 10;
  }
}
