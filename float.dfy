/** The allocation-free number formatter of src/utils/float.rs: a 32-byte buffer with a length,
    written one byte at a time, and the decimal rendering of a finite value with a fixed
    number of fractional digits. Values are exact reals. */
module Float {
  import opened Common

  /** Size of `buffer`. */
  const Capacity: nat := 32

  /** Size of `temp_buffer`: the digits of the largest `u64`. */
  const TempDigits: nat := 20

  /** One more than the largest `u64`. */
  const U64Limit: nat := 0x1_0000_0000_0000_0000

  /** The largest `u64`. */
  const U64Max: nat := U64Limit - 1

  /** What a buffer of `Capacity` bytes keeps of `s`: its first `Capacity` bytes. */
  function Capped(s: Bytes): (r: Bytes)
    ensures |r| <= Capacity
    ensures |s| <= Capacity ==> r == s
    ensures r == s[..|r|] && (|r| < Capacity ==> r == s)
  {
    if |s| <= Capacity then s else s[..Capacity]
  }

  /** Writing in two steps keeps what writing in one step keeps. */
  lemma CappedAppend(a: Bytes, b: Bytes)
    ensures Capped(Capped(a) + b) == Capped(a + b)
  {
    if |a| > Capacity {
      assert (Capped(a) + b)[..Capacity] == (a + b)[..Capacity];
    } else {
      assert Capped(a) == a;
    }
  }

  function Pow10(n: nat): (p: nat)
    ensures p >= 1
  {
    if n == 0 then 1 else 10 * Pow10(n - 1)
  }

  /** The fraction left after `n` steps of "multiply by ten and drop the integer part". */
  function Rest(f: real, n: nat): (r: real)
    requires 0.0 <= f < 1.0
    ensures 0.0 <= r < 1.0
  {
    if n == 0 then f
    else
      var x := Rest(f, n - 1) * 10.0;
      x - x.Floor as real
  }

  /** The next decimal digit of a fraction. */
  function Digit(x: real): (d: nat)
    requires 0.0 <= x < 1.0
    ensures d <= 9
  {
    (x * 10.0).Floor
  }

  /** The first `n` decimal digits of the fraction `f`. */
  function FracDigits(f: real, n: nat): (r: Bytes)
    requires 0.0 <= f < 1.0
    ensures |r| == n && AllDigits(r)
  {
    if n == 0 then [] else FracDigits(f, n - 1) + [Zero + Digit(Rest(f, n - 1))]
  }

  /** `f` with the decimal point moved `n` places to the right. */
  function Shifted(f: real, n: nat): real {
    if n == 0 then f else Shifted(f, n - 1) * 10.0
  }

  lemma {:induction false} ShiftedIsProduct(f: real, n: nat)
    ensures Shifted(f, n) == f * Pow10(n) as real
  {
    if n > 0 {
      ShiftedIsProduct(f, n - 1);
      var p := Pow10(n - 1);
      assert Pow10(n) as real == p as real * 10.0;
      assert (f * p as real) * 10.0 == f * (p as real * 10.0);
    }
  }

  /** The fractional digits are the fraction truncated to `n` places: their value is
      `floor(f * 10^n)`, and what is left over is the fraction still to be written. */
  lemma {:induction false} FracDigitsValue(f: real, n: nat)
    requires 0.0 <= f < 1.0
    ensures Rest(f, n) + DigitsValue(FracDigits(f, n)) as real == Shifted(f, n)
    ensures DigitsValue(FracDigits(f, n)) == (f * Pow10(n) as real).Floor
  {
    if n > 0 {
      FracDigitsValue(f, n - 1);
      FracStep(f, n - 1);
      var d := (Rest(f, n - 1) * 10.0).Floor;
      var digits := FracDigits(f, n);
      assert digits[..|digits| - 1] == FracDigits(f, n - 1);
      assert DigitsValue(digits) == DigitsValue(FracDigits(f, n - 1)) * 10 + d;
    }
    ShiftedIsProduct(f, n);
    FloorOf(Shifted(f, n), DigitsValue(FracDigits(f, n)));
  }

  lemma FloorOf(y: real, k: int)
    requires k as real <= y < k as real + 1.0
    ensures y.Floor == k
  {
  }

  /** `|value|`. */
  function Magnitude(value: real): (m: real)
    ensures m >= 0.0 && (m == value || m == -value)
  {
    if value < 0.0 then -value else value
  }

  /** The fraction of `|value|` after its integer part. */
  function FractionalPart(value: real): (f: real)
    ensures 0.0 <= f < 1.0
    ensures Magnitude(value).Floor as real + f == Magnitude(value)
  {
    Magnitude(value) - Magnitude(value).Floor as real
  }

  /** What follows the integer digits: nothing, or a `.` and `precision` digits. */
  function FractionText(f: real, precision: nat): Bytes
    requires 0.0 <= f < 1.0
  {
    if f > 0.0 && precision > 0 then [Dot] + FracDigits(f, precision) else []
  }

  /** The text `convert` produces for a finite value: a `-` for a negative value, the decimal
      digits of the integer part ("0" for zero), and, when there is a fractional part and a
      non-zero precision, a `.` and `precision` fractional digits. */
  function Rendering(value: real, precision: nat): (r: Bytes)
    ensures r != [] && (r[0] == Minus <==> value < 0.0)
    ensures Dot in r <==> FractionalPart(value) > 0.0 && precision > 0
  {
    (if value < 0.0 then [Minus] else [])
    + Digits(Magnitude(value).Floor)
    + FractionText(FractionalPart(value), precision)
  }

  /** The rendering in the order `convert` writes it: sign and integer digits, then the point,
      then the fractional digits. */
  lemma RenderingInOrder(value: real, precision: nat)
    ensures var sign: Bytes := if value < 0.0 then [Minus] else [];
      var whole := sign + Digits(Magnitude(value).Floor);
      var f := FractionalPart(value);
      Rendering(value, precision)
      == if f > 0.0 && precision > 0 then whole + [Dot] + FracDigits(f, precision) else whole
  {
    var f := FractionalPart(value);
    if f > 0.0 && precision > 0 {
      var sign: Bytes := if value < 0.0 then [Minus] else [];
      var whole := sign + Digits(Magnitude(value).Floor);
      var digits := FracDigits(f, precision);
      AppendAssoc(whole, [Dot], digits);
    }
  }

  /** One step of the fractional loop: multiply by ten, write the integer part as a digit,
      keep the rest. */
  lemma FracStep(f: real, k: nat)
    requires 0.0 <= f < 1.0
    ensures var x := Rest(f, k) * 10.0;
      0 <= x.Floor <= 9 &&
      Rest(f, k + 1) == x - x.Floor as real &&
      FracDigits(f, k + 1) == FracDigits(f, k) + [Zero + x.Floor]
  {
  }

  lemma Pow10Twenty()
    ensures Pow10(20) == 100_000_000_000_000_000_000
  {
    assert Pow10(5) == 100_000;
    assert Pow10(10) == 10_000_000_000 by {
      assert Pow10(6) == 1_000_000;
      assert Pow10(8) == 100_000_000;
    }
    assert Pow10(15) == 1_000_000_000_000_000 by {
      assert Pow10(12) == 1_000_000_000_000;
    }
    assert Pow10(18) == 1_000_000_000_000_000_000;
  }

  /** A number below `10^k` has at most `k` decimal digits. */
  lemma {:induction false} DigitsFit(n: nat, k: nat)
    requires 1 <= k && n < Pow10(k)
    ensures |Digits(n)| <= k
  {
    if n >= 10 {
      assert Pow10(1) == 10;
      DigitsFit(n / 10, k - 1);
    }
  }

  /** The integer part of a value below `2^64` in magnitude takes at most 20 digits, so the
      whole rendering takes at most a sign, 20 digits, a point and `precision` digits. */
  lemma RenderingLength(value: real, precision: nat)
    requires -(U64Limit as real) < value < U64Limit as real
    ensures |Digits(Magnitude(value).Floor)| <= TempDigits
    ensures |Rendering(value, precision)| <= 1 + TempDigits + (if precision > 0 then 1 + precision else 0)
  {
    Pow10Twenty();
    DigitsFit(Magnitude(value).Floor, TempDigits);
  }

  /** The rendering of a value: its sign, its integer part written back as digits that parse
      to it, and nothing after them for a whole number. */
  lemma RenderingShape(value: real, precision: nat)
    requires -(U64Limit as real) < value < U64Limit as real
    ensures var text := Rendering(value, precision);
      var num := if value < 0.0 then -value else value;
      var sign := if value < 0.0 then 1 else 0;
      (value < 0.0 <==> text != [] && text[0] == Minus) &&
      (exists k :: sign < k <= |text| && text[sign..k] == Digits(num.Floor) &&
        ParseUnsigned(text[sign..k], U64Max) == Some(num.Floor) &&
        (k < |text| <==> num != num.Floor as real && precision > 0))
  {
    var text := Rendering(value, precision);
    var num := if value < 0.0 then -value else value;
    var sign := if value < 0.0 then 1 else 0;
    var k := sign + |Digits(num.Floor)|;
    assert num == Magnitude(value);
    assert text[sign..k] == Digits(num.Floor);
    ParseDigits(num.Floor, U64Max);
    if value < 0.0 {
      assert text[0] == Minus;
    } else {
      assert text[0] == Digits(num.Floor)[0];
    }
  }

  lemma SliceCons(a: array<Byte>, i: nat)
    requires i < a.Length
    ensures a[i..] == [a[i]] + a[i + 1..]
  {
  }

  /** The digits of `n` still to be written: none once it has reached zero. */
  function Leading(n: nat): Bytes {
    if n == 0 then [] else Digits(n)
  }

  /** Splitting off the last digit of `n` in front of the digits already written. */
  lemma LastDigit(n: nat, rest: Bytes)
    requires n > 0
    ensures Leading(n) + rest == Leading(n / 10) + ([Zero + n % 10] + rest)
  {
    if n >= 10 {
      AppendAssoc(Digits(n / 10), [Zero + n % 10], rest);
    }
  }

  /** A whole number renders as its plain decimal digits, whatever the precision. */
  lemma RenderingWholeNumber(n: nat, precision: nat)
    ensures Rendering(n as real, precision) == Digits(n)
    ensures ParseUnsigned(Rendering(n as real, precision), n) == Some(n)
  {
    assert (n as real).Floor == n;
    assert Magnitude(n as real) == n as real;
    assert FractionalPart(n as real) == 0.0;
    assert FractionText(0.0, precision) == [];
    assert Rendering(n as real, precision) == [] + Digits(n) + [];
    ParseDigits(n, n);
  }

  class FloatToString {
    const buffer: array<Byte>
    var len: nat
    const precision: nat

    ghost predicate Valid()
      reads this
    {
      buffer.Length == Capacity && len <= Capacity && precision <= U8Max
    }

    /** `buffer[0..len]`, what has been written since the last reset. */
    function Written(): Bytes
      reads this, buffer
      requires Valid()
    {
      buffer[..len]
    }

    constructor (precision: nat)
      requires precision <= U8Max
      ensures Valid() && fresh(buffer) && len == 0 && this.precision == precision
    {
      buffer := new Byte[Capacity](_ => 0);
      len := 0;
      this.precision := precision;
    }

    /** `write_char`: appends `c` when there is room, and reports whether there was. */
    method WriteChar(c: Byte) returns (ok: bool)
      requires Valid()
      modifies this, buffer
      ensures Valid()
      ensures ok <==> old(len) < Capacity
      ensures Written() == if ok then old(Written()) + [c] else old(Written())
      ensures Written() == Capped(old(Written()) + [c])
    {
      if len < buffer.Length {
        buffer[len] := c;
        len := len + 1;
        assert Written() == old(Written()) + [c];
        return true;
      } else {
        return false;
      }
    }

    /** `write_str`: appends the bytes of `s` in order and stops at the first one that does
        not fit, so exactly the first `min(|s|, Capacity - len)` bytes are written. */
    method WriteStr(s: Bytes) returns (ok: bool)
      requires Valid()
      modifies this, buffer
      ensures Valid()
      ensures ok <==> old(len) + |s| <= Capacity
      ensures Written() == Capped(old(Written()) + s)
    {
      var k := 0;
      while k < |s|
        invariant Valid()
        invariant 0 <= k <= |s| && len == old(len) + k
        invariant Written() == old(Written()) + s[..k]
        decreases |s| - k
      {
        var written := WriteChar(s[k]);
        if !written {
          assert (old(Written()) + s)[..Capacity] == old(Written()) + s[..k];
          return false;
        }
        assert s[..k + 1] == s[..k] + [s[k]];
        k := k + 1;
      }
      assert s[..k] == s;
      return true;
    }

    /** `convert` for a finite value whose integer part fits a `u64`: starts again from an
        empty buffer and writes the rendering of `value`, as much of it as fits. */
    method Convert(value: real) returns (text: Bytes)
      requires Valid()
      requires -(U64Limit as real) < value < U64Limit as real
      modifies this, buffer
      ensures Valid()
      ensures text == Written() == Capped(Rendering(value, precision))
    {
      len := 0;
      var ok: bool;
      var num := value;
      var isNegative := num < 0.0;
      if isNegative {
        num := -num;
        ok := WriteChar(Minus);
      }
      ghost var sign: Bytes := if isNegative then [Minus] else [];
      assert Written() == sign;
      assert num == Magnitude(value);

      var integerPart: nat := num.Floor;
      var fractionalPart := num - integerPart as real;
      assert fractionalPart == FractionalPart(value);

      if integerPart == 0 {
        ok := WriteChar(Zero);
        assert Digits(integerPart) == [Zero];
      } else {
        var digits := IntegerDigits(integerPart);
        ok := WriteStr(digits);
      }
      ghost var whole := sign + Digits(integerPart);
      assert Written() == Capped(whole);
      RenderingInOrder(value, precision);

      if fractionalPart > 0.0 && precision > 0 {
        ok := WriteChar(Dot);
        CappedAppend(whole, [Dot]);
        WriteFraction(fractionalPart, whole + [Dot]);
      }
      text := buffer[..len];
    }

    /** The integer-part loop of `convert`: the digits of `n`, least significant first, into
        the end of a 20-byte scratch buffer; what is filled is the decimal text of `n`. */
    method IntegerDigits(n: nat) returns (digits: Bytes)
      requires 0 < n < U64Limit
      ensures digits == Digits(n)
    {
      var tempInteger: nat := n;
      var tempBuffer := new Byte[TempDigits](_ => 0);
      var i := TempDigits;
      Pow10Twenty();
      while tempInteger > 0
        invariant 0 <= i <= TempDigits
        invariant tempInteger < Pow10(i)
        invariant Digits(n) == Leading(tempInteger) + tempBuffer[i..]
        decreases tempInteger
      {
        ghost var before := tempBuffer[i..];
        i := i - 1;
        tempBuffer[i] := Zero + tempInteger % 10;
        SliceCons(tempBuffer, i);
        LastDigit(tempInteger, before);
        tempInteger := tempInteger / 10;
      }
      digits := tempBuffer[i..];
    }

    /** The fractional loop of `convert`: `precision` times, multiply by ten and write the
        integer part as a digit. `written` is the text so far. */
    method WriteFraction(fractionalPart: real, ghost written: Bytes)
      requires Valid() && 0.0 <= fractionalPart < 1.0
      requires Written() == Capped(written)
      modifies this, buffer
      ensures Valid()
      ensures Written() == Capped(written + FracDigits(fractionalPart, precision))
    {
      var fraction := fractionalPart;
      for k := 0 to precision
        invariant Valid()
        invariant fraction == Rest(fractionalPart, k)
        invariant Written() == Capped(written + FracDigits(fractionalPart, k))
      {
        FracStep(fractionalPart, k);
        ghost var sofar := written + FracDigits(fractionalPart, k);
        fraction := fraction * 10.0;
        var digit := fraction.Floor;
        var ok := WriteChar(Zero + digit);
        CappedAppend(sofar, [Zero + digit]);
        assert written + FracDigits(fractionalPart, k + 1) == sofar + [Zero + digit];
        fraction := fraction - digit as real;
      }
    }
  }
}
