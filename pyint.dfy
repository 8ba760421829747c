/**
 * Python's `int(text, base)` for bases 10 and 16 and `str(n)` for
 * integers, over ASCII digits.
 *
 * `int()` accepts surrounding whitespace, one optional sign, for base 16 an
 * optional `0x`/`0X` prefix (which may be followed by one underscore), and
 * digits in which single underscores may separate two digits. Anything else
 * raises `ValueError`, modelled as `None`.
 */
module PyInt {
  import opened Wrappers
  import opened PyText

  type Base = b: nat | b == 10 || b == 16 witness 10

  predicate IsDecimalDigit(c: char) { '0' <= c <= '9' }

  predicate IsDigitOf(c: char, base: Base) {
    IsDecimalDigit(c) || (base == 16 && ('a' <= c <= 'f' || 'A' <= c <= 'F'))
  }

  predicate AllDigitsOf(s: string, base: Base) {
    forall i :: 0 <= i < |s| ==> IsDigitOf(s[i], base)
  }

  function DigitValue(c: char): nat {
    if IsDecimalDigit(c) then (c as int - '0' as int) as nat
    else if 'a' <= c <= 'f' then (c as int - 'a' as int + 10) as nat
    else if 'A' <= c <= 'F' then (c as int - 'A' as int + 10) as nat
    else 0
  }

  lemma DigitValueBound(c: char, base: Base)
    requires IsDigitOf(c, base)
    ensures DigitValue(c) < base
  {
  }

  /** The number written by the digit string `ds` (most significant digit first). */
  function ValueOf(ds: string, base: Base): nat {
    if ds == [] then 0 else ValueOf(ds[..|ds| - 1], base) * base + DigitValue(ds[|ds| - 1])
  }

  /** `%X`-style digit: upper-case letters above nine. */
  function DigitChar(d: nat): (c: char)
    requires d < 16
    ensures DigitValue(c) == d
    ensures IsDecimalDigit(c) <==> d < 10
  {
    if d < 10 then ('0' as int + d) as char else ('A' as int + d - 10) as char
  }

  /** The shortest digit string for `n` (`str(n)` for base 10, `%X` for base 16). */
  function NatToDigits(n: nat, base: Base): (ds: string)
    ensures |ds| > 0 && AllDigitsOf(ds, base)
    ensures ds[0] == '0' ==> n == 0 && |ds| == 1
    decreases n
  {
    if n < base then [DigitChar(n)] else NatToDigits(n / base, base) + [DigitChar(n % base)]
  }

  /** `str(n)`. */
  function IntToStr(n: int): (s: string)
    ensures |s| > 0
  {
    if n < 0 then "-" + NatToDigits(-n, 10) else NatToDigits(n, 10)
  }

  lemma ValueOfSnoc(ds: string, c: char, base: Base)
    ensures ValueOf(ds + [c], base) == ValueOf(ds, base) * base + DigitValue(c)
  {
    assert (ds + [c])[..|ds|] == ds;
  }

  /** Reading back the digits of `n` gives `n`. */
  lemma {:induction false} ValueOfNatToDigits(n: nat, base: Base)
    ensures ValueOf(NatToDigits(n, base), base) == n
    decreases n
  {
    if n >= base {
      ValueOfNatToDigits(n / base, base);
      ValueOfSnoc(NatToDigits(n / base, base), DigitChar(n % base), base);
    }
  }

  /** A decimal digit string as `str()` writes it: no leading zero except "0" itself. */
  predicate Canonical(ds: string) {
    |ds| > 0 && AllDigitsOf(ds, 10) && (ds[0] == '0' ==> |ds| == 1)
  }

  lemma {:induction false} ValueOfLeadNonZero(ds: string)
    requires |ds| > 0 && AllDigitsOf(ds, 10) && ds[0] != '0'
    ensures ValueOf(ds, 10) >= 1
    decreases |ds|
  {
    if |ds| > 1 {
      ValueOfLeadNonZero(ds[..|ds| - 1]);
    }
  }

  /** Writing out the value of a canonical digit string gives the string back. */
  lemma {:induction false} NatToDigitsOfValue(ds: string)
    requires Canonical(ds)
    ensures NatToDigits(ValueOf(ds, 10), 10) == ds
    decreases |ds|
  {
    var c := ds[|ds| - 1];
    var d := DigitValue(c);
    DigitValueBound(c, 10);
    if |ds| == 1 {
      assert ValueOf(ds, 10) == ValueOf([], 10) * 10 + d;
    } else {
      var front := ds[..|ds| - 1];
      ValueOfLeadNonZero(front);
      NatToDigitsOfValue(front);
      var n := ValueOf(ds, 10);
      assert n == ValueOf(front, 10) * 10 + d;
      assert n / 10 == ValueOf(front, 10) && n % 10 == d;
      assert DigitChar(d) == c;
      assert ds == front + [c];
    }
  }

  /** `str(int(a)) == str(int(b))` on canonical strings only when they are equal. */
  lemma CanonicalValueInjective(a: string, b: string)
    requires Canonical(a) && Canonical(b) && ValueOf(a, 10) == ValueOf(b, 10)
    ensures a == b
  {
    NatToDigitsOfValue(a);
    NatToDigitsOfValue(b);
  }

  // ---------------------------------------------------------------------------
  // int(text, base)

  /** Digits with single underscores between them, as `int()` accepts them. */
  predicate DigitGroups(b: string, base: Base) {
    && |b| > 0
    && IsDigitOf(b[0], base) && IsDigitOf(b[|b| - 1], base)
    && (forall i :: 0 <= i < |b| ==> b[i] == '_' || IsDigitOf(b[i], base))
    && (forall i :: 0 <= i < |b| - 1 ==> !(b[i] == '_' && b[i + 1] == '_'))
  }

  function RemoveUnderscores(s: string): (r: string)
    ensures forall i :: 0 <= i < |r| ==> r[i] != '_'
  {
    if s == [] then [] else (if s[0] == '_' then [] else [s[0]]) + RemoveUnderscores(s[1..])
  }

  predicate HasHexPrefix(u: string) {
    |u| >= 2 && u[0] == '0' && (u[1] == 'x' || u[1] == 'X')
  }

  /** `int(s, base)`, with `None` for `ValueError`. */
  function ParseInt(s: string, base: Base): Option<int> {
    var t := Strip(s);
    var signed := |t| > 0 && (t[0] == '+' || t[0] == '-');
    var u := if signed then t[1..] else t;
    var body :=
      if base == 16 && HasHexPrefix(u) then (if |u| > 2 && u[2] == '_' then u[3..] else u[2..])
      else u;
    if DigitGroups(body, base) then
      var v: int := ValueOf(RemoveUnderscores(body), base);
      Some(if signed && t[0] == '-' then -v else v)
    else None
  }

  lemma {:induction false} RemoveUnderscoresOfDigits(s: string, base: Base)
    requires AllDigitsOf(s, base)
    ensures RemoveUnderscores(s) == s
    decreases |s|
  {
    if s != [] { RemoveUnderscoresOfDigits(s[1..], base); }
  }

  lemma StripOfUnpadded(s: string)
    requires Trimmed(s, IsSpace)
    ensures Strip(s) == s
  {
    TrimByFrame([], s, [], IsSpace);
    assert [] + s + [] == s;
  }

  /** An unsigned digit string without a base prefix parses to its value. */
  lemma ParseIntUnsigned(s: string, base: Base)
    requires |s| > 0 && AllDigitsOf(s, base) && !HasHexPrefix(s)
    ensures ParseInt(s, base) == Some(ValueOf(s, base))
  {
    assert IsDigitOf(s[0], base) && IsDigitOf(s[|s| - 1], base);
    StripOfUnpadded(s);
    assert DigitGroups(s, base);
    RemoveUnderscoresOfDigits(s, base);
  }

  /** A minus sign before such a digit string negates its value. */
  lemma ParseIntNegated(ds: string, base: Base)
    requires |ds| > 0 && AllDigitsOf(ds, base) && !HasHexPrefix(ds)
    ensures ParseInt("-" + ds, base) == Some(-(ValueOf(ds, base) as int))
  {
    var s := "-" + ds;
    assert s[1..] == ds;
    assert Strip(s) == s by {
      assert IsDigitOf(s[|s| - 1], base);
      StripOfUnpadded(s);
    }
    assert DigitGroups(ds, base) by {
      assert IsDigitOf(ds[0], base) && IsDigitOf(ds[|ds| - 1], base);
    }
    RemoveUnderscoresOfDigits(ds, base);
    ParseIntOfNegative(s, base);
  }

  lemma ParseIntOfNegative(t: string, base: Base)
    requires Strip(t) == t && |t| > 0 && t[0] == '-'
    requires !HasHexPrefix(t[1..]) && DigitGroups(t[1..], base) && RemoveUnderscores(t[1..]) == t[1..]
    ensures ParseInt(t, base) == Some(-(ValueOf(t[1..], base) as int))
  {
  }

  /** `int(str(n)) == n`. */
  lemma ParseIntOfIntToStr(n: int)
    ensures ParseInt(IntToStr(n), 10) == Some(n)
  {
    var m: nat := if n < 0 then -n else n;
    var ds := NatToDigits(m, 10);
    ValueOfNatToDigits(m, 10);
    assert !HasHexPrefix(ds);
    if n < 0 {
      ParseIntNegated(ds, 10);
    } else {
      ParseIntUnsigned(ds, 10);
    }
  }

  // ---------------------------------------------------------------------------
  // Zero-padded hexadecimal, as `%03X` writes it

  function Zeros(k: nat): (z: string)
    ensures |z| == k && forall i :: 0 <= i < k ==> z[i] == '0'
  {
    if k == 0 then [] else "0" + Zeros(k - 1)
  }

  /** `"%0*X" % (width, n)` for base 16, and the decimal analogue for base 10. */
  function ZeroPadded(n: nat, width: nat, base: Base): (s: string)
    ensures |s| >= width && AllDigitsOf(s, base)
  {
    var ds := NatToDigits(n, base);
    Zeros(if |ds| < width then width - |ds| else 0) + ds
  }

  lemma {:induction false} ValueOfLeadingZero(ds: string, base: Base)
    ensures ValueOf("0" + ds, base) == ValueOf(ds, base)
    decreases |ds|
  {
    if ds != [] {
      var front := ds[..|ds| - 1];
      assert ("0" + ds)[..|ds|] == "0" + front;
      ValueOfLeadingZero(front, base);
    }
  }

  lemma {:induction false} ValueOfZeros(k: nat, ds: string, base: Base)
    ensures ValueOf(Zeros(k) + ds, base) == ValueOf(ds, base)
    decreases k
  {
    if k == 0 {
      assert Zeros(k) + ds == ds;
    } else {
      assert Zeros(k) + ds == "0" + (Zeros(k - 1) + ds);
      ValueOfLeadingZero(Zeros(k - 1) + ds, base);
      ValueOfZeros(k - 1, ds, base);
    }
  }

  /** Parsing a zero-padded rendering gives the number back. */
  lemma ParseIntOfZeroPadded(n: nat, width: nat, base: Base)
    ensures ParseInt(ZeroPadded(n, width, base), base) == Some(n)
  {
    var s := ZeroPadded(n, width, base);
    ZeroPaddedUnprefixed(n, width, base);
    ParseIntUnsigned(s, base);
    ZeroPaddedValue(n, width, base);
  }

  lemma ZeroPaddedUnprefixed(n: nat, width: nat, base: Base)
    ensures |ZeroPadded(n, width, base)| > 0 && !HasHexPrefix(ZeroPadded(n, width, base))
  {
    var s := ZeroPadded(n, width, base);
    if |s| >= 2 { assert IsDigitOf(s[1], base); }
  }

  lemma ZeroPaddedValue(n: nat, width: nat, base: Base)
    ensures ValueOf(ZeroPadded(n, width, base), base) == n
  {
    var ds := NatToDigits(n, base);
    ValueOfZeros(if |ds| < width then width - |ds| else 0, ds, base);
    ValueOfNatToDigits(n, base);
  }
}
