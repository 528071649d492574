/** Decimal text of 64-bit integers, as the set encoding uses it to decide
    which members are stored as integers. */
module Decimal {
  import opened Wrappers

  /** Text is a sequence of character codes. */
  type Byte = int

  type Bytes = seq<Byte>

  const MAX_INT64: int := 0x7fff_ffff_ffff_ffff

  const MIN_INT64: int := -MAX_INT64 - 1

  type Int64 = v: int | MIN_INT64 <= v <= MAX_INT64

  const ZERO: Byte := 48

  const MINUS: Byte := 45

  const PLUS: Byte := 43

  predicate IsDigit(c: Byte)
  {
    48 <= c <= 57
  }

  predicate AllDigits(s: Bytes)
  {
    forall i :: 0 <= i < |s| ==> IsDigit(s[i])
  }

  /** The number a digit string denotes. */
  function Value(s: Bytes): nat
    requires AllDigits(s)
  {
    if s == [] then 0 else 10 * Value(s[..|s| - 1]) + (s[|s| - 1] - ZERO)
  }

  /** The digits of a positive number, no leading zero; none for zero. */
  function Digits(n: nat): (s: Bytes)
    ensures AllDigits(s)
  {
    if n == 0 then [] else Digits(n / 10) + [ZERO + n % 10]
  }

  /** The canonical decimal text of an integer. */
  function Format(v: int): Bytes
  {
    if v == 0 then [ZERO]
    else if v < 0 then [MINUS] + Digits(-v)
    else Digits(v)
  }

  /** Digits, behind a sign if negative. */
  ghost predicate IsNumeral(s: Bytes, negative: bool)
  {
    && s != [] && (negative ==> s[0] == MINUS)
    && forall i :: (if negative then 1 else 0) <= i < |s| ==> IsDigit(s[i])
  }

  lemma FormatIsNumeral(v: int)
    ensures IsNumeral(Format(v), v < 0)
    ensures v >= 0 ==> AllDigits(Format(v))
  {
    DigitsValue(if v < 0 then -v else v);
  }

  lemma {:induction false} DigitsValue(n: nat)
    ensures Value(Digits(n)) == n
    ensures n > 0 ==> |Digits(n)| > 0 && Digits(n)[0] != ZERO
  {
    if n > 0 {
      DigitsValue(n / 10);
      var s := Digits(n);
      assert s[..|s| - 1] == Digits(n / 10);
    }
  }

  lemma {:induction false} ValueMonotone(s: Bytes, i: nat)
    requires AllDigits(s) && i <= |s|
    ensures Value(s[..i]) <= Value(s)
    decreases |s|
  {
    if i < |s| {
      ValueMonotone(s[..|s| - 1], i);
      assert s[..|s| - 1][..i] == s[..i];
    } else {
      assert s[..i] == s;
    }
  }

  lemma FormatInjective(v: int, w: int)
    requires Format(v) == Format(w)
    ensures v == w
  {
    DigitsValue(if v < 0 then -v else v);
    DigitsValue(if w < 0 then -w else w);
    if v < 0 && w < 0 {
      assert Format(v)[1..] == Digits(-v) && Format(w)[1..] == Digits(-w);
    } else if v < 0 {
      SignOfFormat(w);
    } else if w < 0 {
      SignOfFormat(v);
    }
  }

  lemma SignOfFormat(v: int)
    ensures |Format(v)| > 0 && (Format(v)[0] == MINUS <==> v < 0)
  {
    DigitsValue(if v < 0 then -v else v);
  }

  /** The unsigned part of a number, or 0 if it has a non-digit or overflows. */
  function Magnitude(s: Bytes): (v: nat)
    ensures v <= MAX_INT64
  {
    if AllDigits(s) && Value(s) <= MAX_INT64 then Value(s) else 0
  }

  function Unsigned(s: Bytes): Bytes
  {
    if s != [] && (s[0] == MINUS || s[0] == PLUS) then s[1..] else s
  }

  /** What the parser returns: 0 for anything but a sign and digits in range. */
  function Parsed(s: Bytes): (v: Int64)
  {
    if s != [] && s[0] == MINUS then 0 - Magnitude(Unsigned(s)) else Magnitude(Unsigned(s))
  }

  /** The parser: an optional sign and digits; 0 for anything else. */
  method ParseInt64(s: Bytes) returns (v: Int64)
    ensures v == Parsed(s)
  {
    if |s| == 0 {
      return 0;
    }
    var negative, start := false, 0;
    if s[0] == MINUS {
      negative, start := true, 1;
    } else if s[0] == PLUS {
      start := 1;
    }
    ghost var u := Unsigned(s);
    assert u == s[start..];
    v := 0;
    for i := start to |s|
      invariant 0 <= v <= MAX_INT64
      invariant AllDigits(u[..i - start]) && v == Value(u[..i - start])
    {
      var c := s[i];
      assert c == u[i - start];
      if c < 48 || c > 57 {
        return 0;
      }
      var digit := c - 48;
      assert u[..i + 1 - start] == u[..i - start] + [c];
      assert u[..i + 1 - start][..i - start] == u[..i - start];
      if v > (MAX_INT64 - digit) / 10 {
        if AllDigits(u) {
          ValueMonotone(u, i + 1 - start);
        }
        return 0;
      }
      v := v * 10 + digit;
    }
    assert u[..|s| - start] == u;
    if negative {
      v := -v;
    }
  }

  /** Negation wraps on the smallest integer. */
  function Negate(v: Int64): Int64
  {
    if v == MIN_INT64 then v else -v
  }

  function CountDigits(n: nat): nat
  {
    if n == 0 then 0 else 1 + CountDigits(n / 10)
  }

  lemma {:induction false} DigitsLength(n: nat)
    ensures |Digits(n)| == CountDigits(n)
  {
    if n > 0 {
      DigitsLength(n / 10);
    }
  }

  method DigitCount(v: Int64) returns (digits: nat)
    ensures digits == if v < 0 then 0 else CountDigits(v)
  {
    digits := 0;
    if v < 0 {
      return;
    }
    var tmp: nat := v;
    while tmp > 0
      invariant digits + CountDigits(tmp) == CountDigits(v)
    {
      digits := digits + 1;
      tmp := tmp / 10;
    }
  }

  /** Write the digits of `n` into a buffer of that many bytes, last first. */
  method FillDigits(n: nat, digits: nat) returns (s: Bytes)
    requires digits == CountDigits(n)
    ensures s == Digits(n)
  {
    DigitsLength(n);
    var buf := new Byte[digits];
    var v, i := n, digits;
    while i > 0
      invariant 0 <= i <= digits
      invariant |Digits(v)| == i
      invariant Digits(v) + buf[i..] == Digits(n)
    {
      i := i - 1;
      buf[i] := 48 + v % 10;
      assert buf[i..] == [buf[i]] + buf[i + 1..];
      v := v / 10;
    }
    return buf[..];
  }

  /** The formatter: canonical text for every integer but the smallest. */
  method FormatInt64(value: Int64) returns (s: Bytes)
    ensures s == if value == MIN_INT64 then [MINUS] else Format(value)
  {
    if value == 0 {
      return [ZERO];
    }
    var negative, v := false, value;
    if v < 0 {
      negative, v := true, Negate(v);
    }
    var digits := DigitCount(v);
    s := FillDigits(if v < 0 then 0 else v, digits);
    if negative {
      s := [MINUS] + s;
    }
  }

  /** A member is stored as an integer exactly when it is the canonical text of
      a 64-bit integer other than the smallest. */
  method IsInt(s: Bytes) returns (v: Int64, ok: bool)
    ensures ok ==> s == Format(v) && v != MIN_INT64
    ensures !ok ==> forall w: Int64 :: w != MIN_INT64 ==> s != Format(w)
  {
    if |s| == 0 {
      forall w: Int64
        ensures s != Format(w)
      {
        SignOfFormat(w);
      }
      return 0, false;
    }
    v := ParseInt64(s);
    var roundTrip := FormatInt64(v);
    ok := roundTrip == s;
    forall w: Int64 | w != MIN_INT64 && s == Format(w)
      ensures v == w
    {
      ParseOfFormat(w);
    }
  }

  /** Parsing undoes formatting. */
  lemma ParseOfFormat(w: Int64)
    requires w != MIN_INT64
    ensures Parsed(Format(w)) == w
  {
    SignOfFormat(w);
    DigitsValue(if w < 0 then -w else w);
    var s := Format(w);
    if w < 0 {
      assert s[1..] == Digits(-w);
    } else if w == 0 {
      assert s[..0] == [];
      assert Value(s) == 0;
    } else {
      assert s[0] != PLUS;
    }
  }

  /** strconv.ParseInt(s, 10, 64): an optional sign and at least one digit,
      in range. */
  function ParseInt(s: Bytes): (r: Option<Int64>)
  {
    var u := Unsigned(s);
    if u == [] || !AllDigits(u) then None
    else if s[0] == MINUS then (if Value(u) > -MIN_INT64 then None else Some(0 - Value(u)))
    else if Value(u) > MAX_INT64 then None
    else Some(Value(u))
  }

  lemma ParseIntOfFormat(v: Int64)
    ensures ParseInt(Format(v)) == Some(v)
  {
    var n: int := v;
    DigitsValue(if n < 0 then -n else n);
    if v < 0 {
      assert Format(v)[1..] == Digits(-n);
    } else if v == 0 {
      assert Value([ZERO]) == 0;
    } else {
      assert Format(v)[0] != MINUS && Format(v)[0] != PLUS;
    }
  }
}
