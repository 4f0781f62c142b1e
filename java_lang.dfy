/**
 * The parts of the Java platform that the request-handling code relies on:
 * 32- and 64-bit integers, `Integer.parseInt`, `Integer.toString` /
 * `Long.toString`, `String.hashCode` and `String.replace`.
 */
module JavaLang {
  import opened Wrappers

  const TWO31: int := 0x8000_0000
  const TWO32: int := 0x1_0000_0000

  /** Java `int`. */
  newtype int32 = x: int | -0x8000_0000 <= x < 0x8000_0000

  /** Java `long`. */
  newtype int64 = x: int | -0x8000_0000_0000_0000 <= x < 0x8000_0000_0000_0000

  predicate InInt32(x: int) {
    -TWO31 <= x < TWO31
  }

  // ---------------------------------------------------------------------
  // Two's-complement wrap-around
  // ---------------------------------------------------------------------

  /** `a` and `b` are equal modulo 2^32. */
  predicate Congruent32(a: int, b: int) {
    (a - b) % TWO32 == 0
  }

  /** The `int` that Java's 32-bit arithmetic leaves for the exact value `x`. */
  function Wrap32(x: int): (r: int32)
    ensures Congruent32(r as int, x)
    ensures InInt32(x) ==> r as int == x
  {
    var m := x % TWO32;
    if m < TWO31 then m as int32 else (m - TWO32) as int32
  }

  /** Wrapping depends only on the residue modulo 2^32. */
  lemma Wrap32Congruent(a: int, b: int)
    requires Congruent32(a, b)
    ensures Wrap32(a) == Wrap32(b)
  {
    var k := (a - b) / TWO32;
    assert a == b + k * 0x1_0000_0000;
    assert a % TWO32 == b % TWO32;
  }

  lemma Congruent32Times31(a: int, b: int)
    requires Congruent32(a, b)
    ensures Congruent32(31 * a, 31 * b)
  {
  }

  lemma Congruent32Trans(a: int, b: int, c: int)
    requires Congruent32(a, b) && Congruent32(b, c)
    ensures Congruent32(a, c)
  {
  }

  // ---------------------------------------------------------------------
  // Decimal digits
  // ---------------------------------------------------------------------

  predicate IsDigit(c: char) {
    '0' as int <= c as int <= '9' as int
  }

  predicate AllDigits(s: string) {
    forall i :: 0 <= i < |s| ==> IsDigit(s[i])
  }

  function DigitValue(c: char): nat
    requires IsDigit(c)
  {
    c as int - '0' as int
  }

  function DigitChar(d: nat): (c: char)
    requires d < 10
    ensures IsDigit(c) && DigitValue(c) == d
  {
    ('0' as int + d) as char
  }

  /** The value of a run of decimal digits, read most significant first. */
  function DigitsValue(ds: string): nat
    requires AllDigits(ds)
    decreases |ds|
  {
    if ds == [] then 0
    else DigitsValue(ds[..|ds| - 1]) * 10 + DigitValue(ds[|ds| - 1])
  }

  /** Digits with no leading zero, except for the single digit `0` itself. */
  predicate NoLeadingZero(ds: string) {
    |ds| > 0 && (ds[0] != '0' || |ds| == 1)
  }

  /** The shortest decimal digits of `n`. */
  function NatDigits(n: nat): (s: string)
    ensures |s| > 0 && AllDigits(s)
    ensures s[0] == '0' ==> n == 0
    ensures NoLeadingZero(s)
  {
    if n < 10 then [DigitChar(n)] else NatDigits(n / 10) + [DigitChar(n % 10)]
  }

  lemma {:induction false} NatDigitsValue(n: nat)
    ensures DigitsValue(NatDigits(n)) == n
  {
    if n >= 10 {
      var s := NatDigits(n);
      assert s[..|s| - 1] == NatDigits(n / 10);
      NatDigitsValue(n / 10);
    }
  }

  /** The first digit of digits without a leading zero is at most their value. */
  lemma {:induction false} LeadingDigitBound(ds: string)
    requires AllDigits(ds) && |ds| > 0
    ensures DigitsValue(ds) >= DigitValue(ds[0])
    decreases |ds|
  {
    if |ds| > 1 {
      var p := ds[..|ds| - 1];
      assert p[0] == ds[0];
      LeadingDigitBound(p);
    }
  }

  /** Digits without a leading zero are the shortest digits of their value. */
  lemma {:induction false} NatDigitsUnique(ds: string)
    requires AllDigits(ds) && NoLeadingZero(ds)
    ensures ds == NatDigits(DigitsValue(ds))
    decreases |ds|
  {
    if |ds| > 1 {
      var p := ds[..|ds| - 1];
      var d := DigitValue(ds[|ds| - 1]);
      assert p[0] == ds[0];
      LeadingDigitBound(p);
      NatDigitsUnique(p);
      var v := DigitsValue(ds);
      assert v == DigitsValue(p) * 10 + d;
      assert v / 10 == DigitsValue(p) && v % 10 == d;
      assert DigitChar(d) == ds[|ds| - 1];
      assert ds == p + [ds[|ds| - 1]];
    } else {
      assert ds[..0] == [];
      assert DigitsValue(ds) == DigitValue(ds[0]);
    }
  }

  /**
   * The form `Integer.toString` and `Long.toString` write: `0`, or digits
   * without a leading zero, or `-` and digits without a leading zero.
   * Never a `+`, never `-0`.
   */
  predicate IsCanonicalDecimal(s: string) {
    || (AllDigits(s) && NoLeadingZero(s))
    || (|s| > 1 && s[0] == '-' && AllDigits(s[1..]) && s[1] != '0')
  }

  /** `Integer.toString(int)` / `Long.toString(long)` / `String.valueOf(int)`. */
  function DecimalString(n: int): (s: string)
    ensures |s| > 0
    ensures s[0] == '-' <==> n < 0
    ensures IsCanonicalDecimal(s)
  {
    if n < 0 then
      var ds := NatDigits(-n);
      assert ("-" + ds)[1..] == ds;
      "-" + ds
    else NatDigits(n)
  }

  // ---------------------------------------------------------------------
  // Integer.parseInt
  // ---------------------------------------------------------------------

  /**
   * The exact value of a Java integer literal as `Integer.parseInt` reads it:
   * an optional '-' or '+' followed by one or more ASCII digits.  `None` when
   * the text has any other shape.  No range check here.
   */
  function LiteralValue(s: string): (r: Option<int>)
    ensures r.Some? <==>
              (|s| > 0 && AllDigits(s)) ||
              (|s| > 1 && (s[0] == '-' || s[0] == '+') && AllDigits(s[1..]))
    ensures r.Some? && |s| > 0 && s[0] == '-' ==> r.value <= 0
    ensures r.Some? && |s| > 0 && s[0] != '-' ==> r.value >= 0
  {
    if |s| == 0 then None
    else if s[0] == '-' || s[0] == '+' then
      if |s| == 1 || !AllDigits(s[1..]) then None
      else if s[0] == '-' then Some(-(DigitsValue(s[1..]) as int))
      else Some(DigitsValue(s[1..]))
    else if AllDigits(s) then Some(DigitsValue(s))
    else None
  }

  /**
   * `Integer.parseInt(s)` with radix 10: the literal's value when it lies in the
   * `int` range; `None` where Java throws `NumberFormatException`.
   */
  function ParseInt(s: string): (r: Option<int32>)
    ensures r.Some? <==> LiteralValue(s).Some? && InInt32(LiteralValue(s).value)
    ensures r.Some? ==> r.value as int == LiteralValue(s).value
  {
    match LiteralValue(s)
    case None => None
    case Some(v) => if InInt32(v) then Some(v as int32) else None
  }

  /** A leading zero does not change the value of a digit string. */
  lemma {:induction false} LeadingZeroValue(ds: string)
    requires AllDigits(ds)
    ensures AllDigits("0" + ds) && DigitsValue("0" + ds) == DigitsValue(ds)
    decreases |ds|
  {
    var z := "0" + ds;
    assert AllDigits(z) by {
      forall i | 0 <= i < |z| ensures IsDigit(z[i]) {
        if i > 0 { assert z[i] == ds[i - 1]; }
      }
    }
    if ds == [] {
      assert z == ['0'];
      assert z[..0] == [];
    } else {
      var p := ds[..|ds| - 1];
      assert AllDigits(p) by {
        forall i | 0 <= i < |p| ensures IsDigit(p[i]) { assert p[i] == ds[i]; }
      }
      LeadingZeroValue(p);
      assert z[..|z| - 1] == "0" + p;
      assert z[|z| - 1] == ds[|ds| - 1];
    }
  }

  /**
   * Non-canonical literals read as Java reads them: a `+` sign and leading
   * zeros are ignored, and `-` negates (so `"-0"` is 0).
   */
  lemma PlusAndZerosIgnored(ds: string)
    requires |ds| > 0 && AllDigits(ds)
    ensures LiteralValue("+" + ds) == LiteralValue(ds)
    ensures LiteralValue("0" + ds) == LiteralValue(ds)
    ensures LiteralValue("-" + ds) == Some(-LiteralValue(ds).value)
  {
    assert ("+" + ds)[1..] == ds;
    assert ("-" + ds)[1..] == ds;
    LeadingZeroValue(ds);
  }

  /** Reading back the decimal form of any integer gives the integer. */
  lemma LiteralValueOfDecimal(n: int)
    ensures LiteralValue(DecimalString(n)) == Some(n)
  {
    var s := DecimalString(n);
    if n < 0 {
      assert s[1..] == NatDigits(-n);
      NatDigitsValue(-n);
    } else {
      assert IsDigit(s[0]);
      NatDigitsValue(n);
    }
  }

  /**
   * Every canonical decimal text is the decimal form of the value it reads
   * as, so `DecimalString` is the only text of that form for each integer.
   */
  lemma CanonicalDecimalIsDecimalString(s: string)
    requires IsCanonicalDecimal(s)
    ensures LiteralValue(s).Some? && s == DecimalString(LiteralValue(s).value)
  {
    if AllDigits(s) && NoLeadingZero(s) {
      NatDigitsUnique(s);
    } else {
      var ds := s[1..];
      NatDigitsUnique(ds);
      LeadingDigitBound(ds);
      assert s == "-" + ds;
    }
  }

  /** `Integer.parseInt(String.valueOf(n)) == n` for every `int`. */
  lemma ParseIntOfDecimal(n: int32)
    ensures ParseInt(DecimalString(n as int)) == Some(n)
  {
    LiteralValueOfDecimal(n as int);
  }

  // ---------------------------------------------------------------------
  // String.hashCode
  // ---------------------------------------------------------------------

  /** The UTF-16 code units Java stores for a string of Unicode scalar values. */
  function Utf16(s: string): (us: seq<int>)
    ensures |us| >= |s|
    ensures forall i :: 0 <= i < |us| ==> 0 <= us[i] < 0x1_0000
  {
    if s == [] then []
    else
      var c := s[0] as int;
      var head := if c < 0x1_0000 then [c]
                  else [0xD800 + (c - 0x1_0000) / 0x400, 0xDC00 + (c - 0x1_0000) % 0x400];
      head + Utf16(s[1..])
  }

  predicate IsHighSurrogate(u: int) {
    0xD800 <= u < 0xDC00
  }

  predicate IsLowSurrogate(u: int) {
    0xDC00 <= u < 0xE000
  }

  /**
   * Reading UTF-16 code units back as characters: a unit outside the
   * surrogate range is one character, a high surrogate followed by a low one
   * is one supplementary character, anything else is malformed (`None`).
   */
  function FromUtf16(us: seq<int>): Option<string>
    decreases |us|
  {
    if us == [] then Some([])
    else if IsHighSurrogate(us[0]) then
      if |us| >= 2 && IsLowSurrogate(us[1]) then
        var c := 0x1_0000 + (us[0] - 0xD800) * 0x400 + (us[1] - 0xDC00);
        match FromUtf16(us[2..])
        case None => None
        case Some(rest) => Some([c as char] + rest)
      else None
    else if IsLowSurrogate(us[0]) || !(0 <= us[0] < 0x1_0000) then None
    else
      match FromUtf16(us[1..])
      case None => None
      case Some(rest) => Some([us[0] as char] + rest)
  }

  /** The UTF-16 units of a string decode back to the string. */
  lemma {:induction false} Utf16RoundTrip(s: string)
    ensures FromUtf16(Utf16(s)) == Some(s)
  {
    if s != [] {
      var c := s[0] as int;
      var rest := Utf16(s[1..]);
      Utf16RoundTrip(s[1..]);
      if c < 0x1_0000 {
        assert Utf16(s) == [c] + rest;
        assert ([c] + rest)[1..] == rest;
      } else {
        var hi, lo := 0xD800 + (c - 0x1_0000) / 0x400, 0xDC00 + (c - 0x1_0000) % 0x400;
        assert Utf16(s) == [hi, lo] + rest;
        assert ([hi, lo] + rest)[2..] == rest;
        assert 0x1_0000 + (hi - 0xD800) * 0x400 + (lo - 0xDC00) == c;
      }
      assert s == [s[0]] + s[1..];
    }
  }

  /** A string of Basic Multilingual Plane characters is its own list of code units. */
  lemma {:induction false} Utf16OfBmp(s: string)
    requires forall i | 0 <= i < |s| :: s[i] as int < 0x1_0000
    ensures Utf16(s) == seq(|s|, i requires 0 <= i < |s| => s[i] as int)
  {
    if s != [] {
      Utf16OfBmp(s[1..]);
    }
  }

  /** The exact polynomial `sum us[i] * 31^(n-1-i)`, without wrap-around. */
  function Polynomial(us: seq<int>): int
    decreases |us|
  {
    if us == [] then 0 else 31 * Polynomial(us[..|us| - 1]) + us[|us| - 1]
  }

  /**
   * The hash loop `h = 31 * h + c` over code units, each `int` operation
   * wrapping.  Wrapping after every step gives the same `int` as wrapping the
   * exact polynomial once.
   */
  function HashOfUnits(us: seq<int>): (r: int32)
    ensures r == Wrap32(Polynomial(us))
    decreases |us|
  {
    if us == [] then 0
    else
      var p := us[..|us| - 1];
      var c := us[|us| - 1];
      var h := HashOfUnits(p);
      var step := 31 * (h as int);
      var w := Wrap32(step) as int;
      // Java's value and the exact value differ by a multiple of 2^32
      Congruent32Times31(h as int, Polynomial(p));
      Congruent32Trans(w, step, 31 * Polynomial(p));
      assert Congruent32(w + c, 31 * Polynomial(p) + c);
      Wrap32Congruent(w + c, 31 * Polynomial(p) + c);
      Wrap32(w + c)
  }

  /** `String.hashCode()`: the polynomial hash of the UTF-16 units, reduced to an `int`. */
  function HashCode(s: string): (r: int32)
    ensures r == Wrap32(Polynomial(Utf16(s)))
  {
    HashOfUnits(Utf16(s))
  }

  // ---------------------------------------------------------------------
  // String.replace(CharSequence, CharSequence)
  // ---------------------------------------------------------------------

  /** `t` occurs in `s` starting at index `p`. */
  predicate OccursAt(s: string, t: string, p: int) {
    0 <= p && p + |t| <= |s| && s[p..p + |t|] == t
  }

  /** `s.contains(t)`. */
  predicate Contains(s: string, t: string) {
    exists p | 0 <= p <= |s| :: OccursAt(s, t, p)
  }

  /** No character of `r` is a character of `t`. */
  predicate SharesNoChar(r: string, t: string) {
    forall i :: 0 <= i < |r| ==> r[i] !in t
  }

  /**
   * `s.replace(target, replacement)` for a non-empty target: scanning left to
   * right, every non-overlapping occurrence of `target` is replaced.
   */
  function ReplaceAll(s: string, target: string, replacement: string): (r: string)
    requires |target| > 0
    ensures !Contains(s, target) ==> r == s
    decreases |s|
  {
    if |s| < |target| then s
    else if s[..|target|] == target then
      assert OccursAt(s, target, 0);
      replacement + ReplaceAll(s[|target|..], target, replacement)
    else
      ContainsSuffix(s, 1, target);
      assert s == [s[0]] + s[1..];
      [s[0]] + ReplaceAll(s[1..], target, replacement)
  }

  /** An occurrence in a suffix is an occurrence in the whole string. */
  lemma ContainsSuffix(s: string, k: nat, t: string)
    requires k <= |s|
    ensures Contains(s[k..], t) ==> Contains(s, t)
  {
    if Contains(s[k..], t) {
      var p :| 0 <= p <= |s[k..]| && OccursAt(s[k..], t, p);
      OccursAtSuffix(s, k, t, p);
    }
  }

  lemma OccursAtSuffix(s: string, k: nat, t: string, p: int)
    requires k <= |s| && OccursAt(s[k..], t, p)
    ensures OccursAt(s, t, p + k)
  {
  }

  /**
   * As long as the output shows no character of a non-empty replacement, it
   * is the input, character for character.
   */
  lemma {:induction false} ReplaceAllKeepsPrefix(x: string, t: string, r: string, m: nat)
    requires |t| > 0 && |r| > 0
    requires m <= |ReplaceAll(x, t, r)|
    requires forall i :: 0 <= i < m ==> ReplaceAll(x, t, r)[i] !in r
    ensures m <= |x| && ReplaceAll(x, t, r)[..m] == x[..m]
  {
    if m > 0 {
      assert ReplaceAll(x, t, r)[0] !in r;
    }
    if m > 0 && |x| >= |t| {
      if x[..|t|] == t {
        assert false;
      } else {
        var rest := ReplaceAll(x[1..], t, r);
        assert ReplaceAll(x, t, r) == [x[0]] + rest;
        forall i | 0 <= i < m - 1 ensures rest[i] !in r {
          assert rest[i] == ReplaceAll(x, t, r)[i + 1];
        }
        ReplaceAllKeepsPrefix(x[1..], t, r, m - 1);
        assert ReplaceAll(x, t, r)[..m] == [x[0]] + rest[..m - 1];
        assert x[..m] == [x[0]] + x[1..][..m - 1];
      }
    }
  }

  /**
   * When the replacement shares no character with the target, no occurrence
   * of the target survives the replacement.
   */
  lemma {:induction false} ReplaceAllRemovesTarget(s: string, t: string, r: string)
    requires |t| > 0 && |r| > 0 && SharesNoChar(r, t)
    ensures !Contains(ReplaceAll(s, t, r), t)
  {
    var out := ReplaceAll(s, t, r);
    if |s| < |t| {
      assert forall p :: !OccursAt(out, t, p);
    } else if s[..|t|] == t {
      var rest := ReplaceAll(s[|t|..], t, r);
      ReplaceAllRemovesTarget(s[|t|..], t, r);
      assert out == r + rest;
      forall p | 0 <= p ensures !OccursAt(out, t, p) {
        if p < |r| {
          assert out[p] == r[p];
        } else if p + |t| <= |out| {
          assert out[p..p + |t|] == rest[p - |r|..p - |r| + |t|];
          assert !OccursAt(rest, t, p - |r|);
        }
      }
    } else {
      var rest := ReplaceAll(s[1..], t, r);
      ReplaceAllRemovesTarget(s[1..], t, r);
      assert out == [s[0]] + rest;
      forall p | 0 <= p ensures !OccursAt(out, t, p) {
        if p == 0 {
          if |t| <= |out| && forall i | 0 <= i < |t| :: out[i] !in r {
            ReplaceAllKeepsPrefix(s, t, r, |t|);
          }
        } else if p + |t| <= |out| {
          assert out[p..p + |t|] == rest[p - 1..p - 1 + |t|];
          assert !OccursAt(rest, t, p - 1);
        }
      }
    }
  }

  /**
   * Replacing `t` by a non-empty text that shares no character with `u` does
   * not create an occurrence of `u`.
   */
  lemma {:induction false} ReplaceAllKeepsAbsent(s: string, t: string, r: string, u: string)
    requires |t| > 0 && |r| > 0 && SharesNoChar(r, u)
    requires !Contains(s, u)
    ensures !Contains(ReplaceAll(s, t, r), u)
  {
    var out := ReplaceAll(s, t, r);
    if |s| < |t| {
    } else if s[..|t|] == t {
      var rest := ReplaceAll(s[|t|..], t, r);
      forall p | 0 <= p ensures !OccursAt(s[|t|..], u, p) {
        if OccursAt(s[|t|..], u, p) {
          OccursAtSuffix(s, |t|, u, p);
        }
      }
      ReplaceAllKeepsAbsent(s[|t|..], t, r, u);
      assert out == r + rest;
      forall p | 0 <= p ensures !OccursAt(out, u, p) {
        if p < |r| {
          assert out[p] == r[p];
        } else if p + |u| <= |out| {
          assert out[p..p + |u|] == rest[p - |r|..p - |r| + |u|];
          assert !OccursAt(rest, u, p - |r|);
        }
      }
    } else {
      var rest := ReplaceAll(s[1..], t, r);
      forall p | 0 <= p ensures !OccursAt(s[1..], u, p) {
        if OccursAt(s[1..], u, p) {
          OccursAtSuffix(s, 1, u, p);
        }
      }
      ReplaceAllKeepsAbsent(s[1..], t, r, u);
      assert out == [s[0]] + rest;
      forall p | 0 <= p ensures !OccursAt(out, u, p) {
        if p == 0 {
          if |u| <= |out| && forall i | 0 <= i < |u| :: out[i] !in r {
            ReplaceAllKeepsPrefix(s, t, r, |u|);
            assert !OccursAt(s, u, 0);
          }
        } else if p + |u| <= |out| {
          assert out[p..p + |u|] == rest[p - 1..p - 1 + |u|];
          assert !OccursAt(rest, u, p - 1);
        }
      }
    }
  }

  /** Text before the first character of the target passes through untouched. */
  lemma {:induction false} ReplaceAllSkipsPrefix(x: string, y: string, t: string, r: string)
    requires |t| > 0 && t[0] !in x
    ensures ReplaceAll(x + y, t, r) == x + ReplaceAll(y, t, r)
  {
    if x != [] {
      var s := x + y;
      if |s| >= |t| {
        assert s[..|t|][0] == x[0];
        assert s[1..] == x[1..] + y;
        ReplaceAllSkipsPrefix(x[1..], y, t, r);
        calc {
          ReplaceAll(s, t, r);
          [x[0]] + ReplaceAll(x[1..] + y, t, r);
          [x[0]] + (x[1..] + ReplaceAll(y, t, r));
          ([x[0]] + x[1..]) + ReplaceAll(y, t, r);
          { assert x == [x[0]] + x[1..]; }
          x + ReplaceAll(y, t, r);
        }
      } else {
        assert ReplaceAll(y, t, r) == y;
      }
    } else {
      assert x + y == y;
    }
  }

  /** An occurrence at the front is replaced and the scan resumes after it. */
  lemma ReplaceAllAtTarget(y: string, t: string, r: string)
    requires |t| > 0
    ensures ReplaceAll(t + y, t, r) == r + ReplaceAll(y, t, r)
  {
  }
}
