/** Behaviour of the Qt string and number routines that the bit table relies on:
    QString::number, QString::rightJustified, QString::toUpper, QString::toUInt
    of a single character, QString::toULongLong in base 2, QString::remove of a
    regular expression and of a case-insensitive literal, and QStringList::join.
    Strings are sequences of characters; numbers are unbounded naturals, and
    every fixed-width conversion of the window is written out where it is used. */
module QtText {

  datatype Option<T> = None | Some(value: T)

  function Pow(b: nat, e: nat): nat
  {
    if e == 0 then 1 else b * Pow(b, e - 1)
  }

  lemma DivModFacts(v: nat, base: nat)
    requires base >= 2
    ensures v % base < base && v == (v / base) * base + v % base
    ensures v >= base ==> 1 <= v / base < v
  {
  }

  lemma SmallDivMod(v: nat, base: nat)
    requires v < base
    ensures v / base == 0 && v % base == v
  {
  }

  lemma MulSmall(d: int, m: nat)
    requires m >= 1 && -(m as int) < d * m < m
    ensures d == 0
  {
  }

  /** Division is determined by a quotient and a remainder below the divisor. */
  lemma DivUnique(a: nat, m: nat, q: nat, r: nat)
    requires m >= 1 && r < m && a == q * m + r
    ensures a / m == q
  {
    var q', r' := a / m, a % m;
    assert a == q' * m + r';
    assert (q - q') * m == r' - r;
    MulSmall(q - q', m);
  }

  lemma DivBound(v: nat, base: nat, p: nat)
    requires base >= 2 && v < base * p
    ensures v / base < p
  {
    DivModFacts(v, base);
  }

  lemma ShiftBound(v: nat, pw: nat, base: nat, d: nat)
    requires v < pw && d < base
    ensures v * base + d < base * pw
  {
    assert v * base <= (pw - 1) * base;
  }

  lemma ShiftAppend(x: nat, p: nat, y: nat, base: nat, z: nat)
    ensures (x * p + y) * base + z == x * (base * p) + (y * base + z)
  {
  }

  lemma {:induction false} PowPositive(b: nat, e: nat)
    requires b >= 1
    ensures Pow(b, e) >= 1
  {
    if e > 0 {
      PowPositive(b, e - 1);
    }
  }

  lemma {:induction false} PowAdd(b: nat, e1: nat, e2: nat)
    ensures Pow(b, e1 + e2) == Pow(b, e1) * Pow(b, e2)
  {
    if e2 > 0 {
      PowAdd(b, e1, e2 - 1);
      calc {
        Pow(b, e1 + e2);
        b * Pow(b, e1 + e2 - 1);
        b * (Pow(b, e1) * Pow(b, e2 - 1));
        Pow(b, e1) * (b * Pow(b, e2 - 1));
        Pow(b, e1) * Pow(b, e2);
      }
    }
  }

  lemma MulAtLeast(x: nat, b: nat)
    requires b >= 1
    ensures x <= b * x
  {
  }

  lemma {:induction false} PowMonotone(b: nat, e1: nat, e2: nat)
    requires b >= 1 && e1 <= e2
    ensures Pow(b, e1) <= Pow(b, e2)
  {
    if e1 < e2 {
      PowMonotone(b, e1, e2 - 1);
      PowPositive(b, e2 - 1);
      MulAtLeast(Pow(b, e2 - 1), b);
    }
  }

  /** 2^(4k) = 16^k: four bits make one hexadecimal digit. */
  lemma {:induction false} PowBinaryHex(k: nat)
    ensures Pow(2, 4 * k) == Pow(16, k)
  {
    if k > 0 {
      PowBinaryHex(k - 1);
      PowAdd(2, 4 * (k - 1), 4);
    }
  }

  /** The ranges of the fixed-width unsigned types the window converts to. */
  lemma PowOfTwoWidths()
    ensures Pow(2, 4) == 16
    ensures Pow(2, 32) == 0x1_0000_0000
    ensures Pow(2, 64) == 0x1_0000_0000_0000_0000
  {
    assert Pow(2, 2) == 4;
    PowAdd(2, 2, 2);
    PowAdd(2, 4, 4);
    assert Pow(2, 8) == 256;
    PowAdd(2, 8, 8);
    assert Pow(2, 16) == 0x1_0000;
    PowAdd(2, 16, 16);
    assert Pow(2, 32) == 0x1_0000_0000;
    PowAdd(2, 32, 32);
  }

  // ---------------------------------------------------------------------------
  // Whitespace removal: QString::remove(QRegExp("\\s"))
  // ---------------------------------------------------------------------------

  /** The characters QChar::isSpace accepts, which is what "\s" matches. */
  predicate IsSpace(c: char)
  {
    ('\t' <= c <= '\r') || c == ' ' || c == '\U{85}' || c == '\U{A0}' ||
    c == '\U{1680}' || ('\U{2000}' <= c <= '\U{200A}') || c == '\U{2028}' ||
    c == '\U{2029}' || c == '\U{202F}' || c == '\U{205F}' || c == '\U{3000}'
  }

  /** Every whitespace character removed, the others kept in order. */
  function RemoveWhitespace(s: string): (r: string)
    ensures |r| <= |s|
    decreases |s|
  {
    if s == [] then []
    else (if IsSpace(s[0]) then [] else [s[0]]) + RemoveWhitespace(s[1..])
  }

  /** No whitespace is left and nothing new appears. */
  lemma {:induction false} RemoveWhitespaceClean(s: string)
    ensures forall i :: 0 <= i < |RemoveWhitespace(s)| ==>
      !IsSpace(RemoveWhitespace(s)[i]) && RemoveWhitespace(s)[i] in s
    decreases |s|
  {
    if s != [] {
      var t := s[1..];
      RemoveWhitespaceClean(t);
      var r, rest := RemoveWhitespace(s), RemoveWhitespace(t);
      if IsSpace(s[0]) {
        assert r == rest;
        assert forall c :: c in t ==> c in s;
      } else {
        assert r == [s[0]] + rest;
        forall i | 0 <= i < |r| ensures !IsSpace(r[i]) && r[i] in s {
          if i > 0 {
            assert r[i] == rest[i - 1] && rest[i - 1] in t;
          }
        }
      }
    }
  }

  /** Text without whitespace is kept as it is. */
  lemma {:induction false} RemoveWhitespaceKeeps(s: string)
    requires forall i :: 0 <= i < |s| ==> !IsSpace(s[i])
    ensures RemoveWhitespace(s) == s
    decreases |s|
  {
    if s != [] {
      var t := s[1..];
      assert forall i :: 0 <= i < |t| ==> !IsSpace(t[i]) by {
        forall i | 0 <= i < |t| ensures !IsSpace(t[i]) { assert t[i] == s[i + 1]; }
      }
      RemoveWhitespaceKeeps(t);
      assert s == [s[0]] + t;
    }
  }

  // ---------------------------------------------------------------------------
  // QString::remove("0x", Qt::CaseInsensitive)
  // ---------------------------------------------------------------------------

  predicate ZeroXAt(s: string, i: nat)
  {
    i + 2 <= |s| && s[i] == '0' && (s[i + 1] == 'x' || s[i + 1] == 'X')
  }

  /** One left-to-right scan that drops every occurrence of "0x" or "0X" found in
      the original text; an occurrence that only appears once another has been
      cut out is kept. */
  function RemoveZeroX(s: string): (r: string)
    ensures |r| <= |s|
    decreases |s|
  {
    if s == [] then []
    else if ZeroXAt(s, 0) then RemoveZeroX(s[2..])
    else [s[0]] + RemoveZeroX(s[1..])
  }

  /** Nothing new appears. */
  lemma {:induction false} RemoveZeroXSubset(s: string)
    ensures forall i :: 0 <= i < |RemoveZeroX(s)| ==> RemoveZeroX(s)[i] in s
    decreases |s|
  {
    if s != [] {
      var t := if ZeroXAt(s, 0) then s[2..] else s[1..];
      RemoveZeroXSubset(t);
      assert forall c :: c in t ==> c in s;
    }
  }

  /** Text without an occurrence is kept as it is. */
  lemma {:induction false} RemoveZeroXKeeps(s: string)
    requires forall i :: 0 <= i < |s| ==> !ZeroXAt(s, i)
    ensures RemoveZeroX(s) == s
    decreases |s|
  {
    if s != [] {
      var t := s[1..];
      assert !ZeroXAt(s, 0);
      assert forall i :: 0 <= i < |t| ==> !ZeroXAt(t, i) by {
        forall i | 0 <= i < |t| ensures !ZeroXAt(t, i) { assert !ZeroXAt(s, i + 1); }
      }
      RemoveZeroXKeeps(t);
      assert s == [s[0]] + t;
    }
  }

  /** Cutting the text where the left part does not end in '0' cuts no
      occurrence in two, so the scan treats both parts independently and
      keeps the other characters in order. */
  lemma {:induction false} RemoveZeroXAppend(a: string, b: string)
    requires a == [] || a[|a| - 1] != '0'
    ensures RemoveZeroX(a + b) == RemoveZeroX(a) + RemoveZeroX(b)
    decreases |a|
  {
    var ab := a + b;
    if a == [] {
      assert ab == b;
    } else if ZeroXAt(a, 0) {
      assert ab[0] == a[0] && ab[1] == a[1];
      assert ZeroXAt(ab, 0);
      var t := a[2..];
      assert ab[2..] == t + b;
      RemoveZeroXAppend(t, b);
      assert RemoveZeroX(ab) == RemoveZeroX(t + b);
      assert RemoveZeroX(a) == RemoveZeroX(t);
    } else {
      assert ab[0] == a[0];
      assert |a| >= 2 ==> ab[1] == a[1];
      assert !ZeroXAt(ab, 0);
      var t := a[1..];
      assert ab[1..] == t + b;
      RemoveZeroXAppend(t, b);
      assert RemoveZeroX(ab) == [a[0]] + RemoveZeroX(t + b);
      assert RemoveZeroX(a) == [a[0]] + RemoveZeroX(t);
    }
  }

  /** The scan does not start again after a cut: "00xx" loses one "0x" only. */
  lemma RemoveZeroXDoesNotRescan()
    ensures RemoveZeroX("00xx") == "0x"
    ensures RemoveZeroX("0x0X1f") == "1f"
  {
    assert ZeroXAt("00xx"[1..], 0);
    assert "00xx"[1..][2..] == "x";
    assert "0x0X1f"[2..] == "0X1f";
    assert "0X1f"[2..] == "1f";
    assert "1f"[1..] == "f";
  }

  // ---------------------------------------------------------------------------
  // Digits: QString::toUInt of one character and QString::number(v, base)
  // ---------------------------------------------------------------------------

  /** The value a Latin-1 digit or letter stands for in bases up to 16. */
  function CharDigit(c: char): (r: Option<nat>)
    ensures r.Some? ==> r.value < 16
  {
    if '0' <= c <= '9' then Some(c as int - '0' as int)
    else if 'a' <= c <= 'f' then Some(c as int - 'a' as int + 10)
    else if 'A' <= c <= 'F' then Some(c as int - 'A' as int + 10)
    else None
  }

  /** QString(c).toUInt(&ok, base): the digit's value when it is a digit of
      `base` (ok set), None otherwise (ok cleared). */
  function DigitValue(c: char, base: nat): (r: Option<nat>)
    ensures r.Some? ==> r.value < base && CharDigit(c) == r
    ensures r.None? ==> CharDigit(c).None? || CharDigit(c).value >= base
  {
    var d := CharDigit(c);
    if d.Some? && d.value < base then d else None
  }

  /** The number toUInt returns: 0 when the conversion fails. */
  function ToUIntOr0(c: char, base: nat): (r: nat)
    ensures DigitValue(c, base).Some? ==> r == DigitValue(c, base).value
    ensures DigitValue(c, base).None? ==> r == 0
  {
    match DigitValue(c, base)
    case Some(d) => d
    case None => 0
  }

  /** The lower-case digit QString::number writes for d. */
  function DigitChar(d: nat): (c: char)
    requires d < 16
    ensures CharDigit(c) == Some(d)
    ensures 'A' <= c <= 'Z' ==> false
  {
    if d < 10 then ('0' as int + d) as char else ('a' as int + d - 10) as char
  }

  /** QString::number(v, base): the digits of v, lower-case, without leading
      zeros ("0" for zero). */
  function Number(v: nat, base: nat): (r: string)
    requires 2 <= base <= 16
    ensures |r| >= 1
    ensures forall i :: 0 <= i < |r| ==> DigitValue(r[i], base).Some?
    ensures r[0] == '0' ==> v == 0
    decreases v
  {
    DivModFacts(v, base);
    if v < base then [DigitChar(v)] else Number(v / base, base) + [DigitChar(v % base)]
  }

  /** The value of s read as digits of `base`, most significant first; a
      character that is not such a digit reads as 0. */
  function DigitsValue(s: string, base: nat): nat
    decreases |s|
  {
    if s == [] then 0 else DigitsValue(s[..|s| - 1], base) * base + ToUIntOr0(s[|s| - 1], base)
  }

  lemma {:induction false} DigitsValueBound(s: string, base: nat)
    requires base >= 1
    ensures DigitsValue(s, base) < Pow(base, |s|)
    decreases |s|
  {
    if s != [] {
      var p := s[..|s| - 1];
      DigitsValueBound(p, base);
      ShiftBound(DigitsValue(p, base), Pow(base, |p|), base, ToUIntOr0(s[|s| - 1], base));
    }
  }

  /** Reading a + b: the digits of a shifted left by |b| places, plus b. */
  lemma {:induction false} DigitsValueAppend(a: string, b: string, base: nat)
    ensures DigitsValue(a + b, base) == DigitsValue(a, base) * Pow(base, |b|) + DigitsValue(b, base)
    decreases |b|
  {
    if b == [] {
      assert a + b == a;
    } else {
      var b' := b[..|b| - 1];
      var x := b[|b| - 1];
      assert (a + b)[..|a + b| - 1] == a + b';
      assert (a + b)[|a + b| - 1] == x;
      DigitsValueAppend(a, b', base);
      ShiftAppend(DigitsValue(a, base), Pow(base, |b'|), DigitsValue(b', base), base, ToUIntOr0(x, base));
    }
  }

  /** Number is undone by reading its digits back. */
  lemma {:induction false} NumberRoundTrip(v: nat, base: nat)
    requires 2 <= base <= 16
    ensures DigitsValue(Number(v, base), base) == v
    decreases v
  {
    if v < base {
      assert [DigitChar(v)][..0] == [];
    } else {
      DivModFacts(v, base);
      var r := Number(v / base, base);
      NumberRoundTrip(v / base, base);
      assert (r + [DigitChar(v % base)])[..|r|] == r;
    }
  }

  /** A number below base^k has at most k digits. */
  lemma {:induction false} NumberLength(v: nat, base: nat, k: nat)
    requires 2 <= base <= 16 && k >= 1 && v < Pow(base, k)
    ensures |Number(v, base)| <= k
    decreases v
  {
    if v >= base {
      DivModFacts(v, base);
      assert Pow(base, k) == base * Pow(base, k - 1);
      DivBound(v, base, Pow(base, k - 1));
      NumberLength(v / base, base, k - 1);
    }
  }

  // ---------------------------------------------------------------------------
  // QString::rightJustified and the fixed-width digit string it produces
  // ---------------------------------------------------------------------------

  function Repeat(c: char, n: nat): (r: string)
    ensures |r| == n && forall i :: 0 <= i < n ==> r[i] == c
  {
    seq(n, _ => c)
  }

  /** QString::rightJustified(width, fill): fill characters in front up to
      `width`; a longer string is returned whole, never truncated. */
  function PadLeft(s: string, width: nat, fill: char): (r: string)
    ensures |r| == if |s| >= width then |s| else width
  {
    if |s| >= width then s else Repeat(fill, width - |s|) + s
  }

  /** rightJustified keeps the whole string at the end and puts only fill
      characters in front of it. */
  lemma PadLeftKeepsText(s: string, width: nat, fill: char)
    ensures var r := PadLeft(s, width, fill);
      r[|r| - |s|..] == s && forall i :: 0 <= i < |r| - |s| ==> r[i] == fill
  {
  }

  lemma {:induction false} ZerosValue(n: nat, base: nat)
    ensures DigitsValue(Repeat('0', n), base) == 0
    decreases n
  {
    if n > 0 {
      assert Repeat('0', n)[..n - 1] == Repeat('0', n - 1);
      ZerosValue(n - 1, base);
    }
  }

  /** Zero padding does not change the value read. */
  lemma PadLeftValue(s: string, width: nat, base: nat)
    ensures DigitsValue(PadLeft(s, width, '0'), base) == DigitsValue(s, base)
  {
    if |s| < width {
      DigitsValueAppend(Repeat('0', width - |s|), s, base);
      ZerosValue(width - |s|, base);
    }
  }

  /** The k lowest digits of v, lower-case, most significant first. */
  function Fixed(v: nat, base: nat, k: nat): (r: string)
    requires 2 <= base <= 16
    ensures |r| == k
  {
    if k == 0 then [] else Fixed(v / base, base, k - 1) + [DigitChar(v % base)]
  }

  lemma {:induction false} FixedOfZero(base: nat, k: nat)
    requires 2 <= base <= 16
    ensures Fixed(0, base, k) == Repeat('0', k)
  {
    if k > 0 {
      FixedOfZero(base, k - 1);
    }
  }

  lemma {:induction false} PadLeftSnoc(s: string, d: char, width: nat)
    requires width >= 1
    ensures PadLeft(s + [d], width, '0') == PadLeft(s, width - 1, '0') + [d]
  {
    if |s| + 1 < width {
      assert Repeat('0', width - |s + [d]|) == Repeat('0', width - 1 - |s|);
    }
  }

  lemma PadDigitIsFixed(v: nat, base: nat, k: nat)
    requires 2 <= base <= 16 && k >= 1 && v < base
    ensures PadLeft(Number(v, base), k, '0') == Fixed(v, base, k)
  {
    var d := DigitChar(v);
    SmallDivMod(v, base);
    assert Fixed(v, base, k) == Fixed(0, base, k - 1) + [d];
    assert Number(v, base) == [] + [d];
    FixedOfZero(base, k - 1);
    PadLeftSnoc([], d, k);
    assert PadLeft([], k - 1, '0') == Repeat('0', k - 1);
  }

  /** Padding a number below base^k to k digits gives its k-digit form. */
  lemma {:induction false} PadNumberIsFixed(v: nat, base: nat, k: nat)
    requires 2 <= base <= 16 && k >= 1 && v < Pow(base, k)
    ensures PadLeft(Number(v, base), k, '0') == Fixed(v, base, k)
    decreases v
  {
    if v < base {
      PadDigitIsFixed(v, base, k);
    } else {
      var d := DigitChar(v % base);
      assert Fixed(v, base, k) == Fixed(v / base, base, k - 1) + [d];
      assert Number(v, base) == Number(v / base, base) + [d];
      DivModFacts(v, base);
      assert Pow(base, k) == base * Pow(base, k - 1);
      DivBound(v, base, Pow(base, k - 1));
      PadNumberIsFixed(v / base, base, k - 1);
      PadLeftSnoc(Number(v / base, base), d, k);
    }
  }

  // ---------------------------------------------------------------------------
  // QString::toUpper on the Latin letters
  // ---------------------------------------------------------------------------

  function UpperChar(c: char): (u: char)
    ensures DigitValue(u, 16) == DigitValue(c, 16)
  {
    if 'a' <= c <= 'z' then (c as int - 32) as char else c
  }

  /** Upper-casing a character does not change the digit it stands for. */
  lemma UpperCharValue(c: char, base: nat)
    ensures DigitValue(UpperChar(c), base) == DigitValue(c, base)
  {
  }

  /** A hexadecimal digit and the digit character of its value are the same
      character up to letter case. */
  lemma UpperDigitChar(c: char)
    requires DigitValue(c, 16).Some?
    ensures UpperChar(DigitChar(ToUIntOr0(c, 16))) == UpperChar(c)
  {
  }

  /** QString::toUpper; only ever applied to digit strings here. */
  function ToUpper(s: string): (r: string)
    ensures |r| == |s|
  {
    seq(|s|, i requires 0 <= i < |s| => UpperChar(s[i]))
  }

  lemma {:induction false} ToUpperValue(s: string, base: nat)
    requires base <= 16
    ensures DigitsValue(ToUpper(s), base) == DigitsValue(s, base)
    decreases |s|
  {
    if s != [] {
      assert ToUpper(s)[..|s| - 1] == ToUpper(s[..|s| - 1]);
      ToUpperValue(s[..|s| - 1], base);
      UpperCharValue(s[|s| - 1], base);
    }
  }

  lemma ToUpperAppend(a: string, b: string)
    ensures ToUpper(a + b) == ToUpper(a) + ToUpper(b)
  {
  }

  /** A string spelled only with digits and upper-case letters A to F. */
  predicate IsUpperHex(s: string)
  {
    forall i :: 0 <= i < |s| ==> ('0' <= s[i] <= '9') || ('A' <= s[i] <= 'F')
  }

  lemma UpperOfHexDigits(s: string)
    requires forall i :: 0 <= i < |s| ==> DigitValue(s[i], 16).Some?
    ensures IsUpperHex(ToUpper(s))
  {
  }

  /** The fixed-width rendering of a hexadecimal digit string's value spells
      that string again, up to letter case. */
  lemma {:induction false} FixedOfHexValue(s: string)
    requires forall i :: 0 <= i < |s| ==> DigitValue(s[i], 16).Some?
    ensures ToUpper(Fixed(DigitsValue(s, 16), 16, |s|)) == ToUpper(s)
    decreases |s|
  {
    if s != [] {
      var p := s[..|s| - 1];
      var c := s[|s| - 1];
      var d := ToUIntOr0(c, 16);
      var v := DigitsValue(s, 16);
      assert v == DigitsValue(p, 16) * 16 + d;
      DivUnique(v, 16, DigitsValue(p, 16), d);
      assert v % 16 == d;
      FixedOfHexValue(p);
      UpperDigitChar(c);
      assert s == p + [c];
      ToUpperAppend(Fixed(v / 16, 16, |p|), [DigitChar(d)]);
      ToUpperAppend(p, [c]);
    }
  }

  /** QString::number(v, 16).rightJustified(width, '0').toUpper(): the
      upper-case hexadecimal digits of v, zero-padded to `width`. */
  function HexText(v: nat, width: nat): string
  {
    ToUpper(PadLeft(Number(v, 16), width, '0'))
  }

  /** The padded hexadecimal text is upper-case hexadecimal, reads back as v,
      has exactly max(width, digits of v) digits, and so no more than k when v
      has at most k hexadecimal digits and `width` is at most k. */
  lemma HexTextDigits(v: nat, width: nat, k: nat)
    requires k >= 1 && v < Pow(16, k) && width <= k
    ensures var t := HexText(v, width);
      IsUpperHex(t) && DigitsValue(t, 16) == v && width <= |t| <= k &&
      |t| == if |Number(v, 16)| >= width then |Number(v, 16)| else width
  {
    var n := Number(v, 16);
    var padded := PadLeft(n, width, '0');
    NumberLength(v, 16, k);
    NumberRoundTrip(v, 16);
    PadLeftValue(n, width, 16);
    PadLeftKeepsText(n, width, '0');
    forall i | 0 <= i < |padded|
      ensures DigitValue(padded[i], 16).Some?
    {
      if i >= |padded| - |n| {
        assert padded[i] == padded[|padded| - |n|..][i - (|padded| - |n|)];
      }
    }
    UpperOfHexDigits(padded);
    ToUpperValue(padded, 16);
  }

  // ---------------------------------------------------------------------------
  // Binary strings: the cell texts of the bit row and QString::toULongLong(_, 2)
  // ---------------------------------------------------------------------------

  predicate IsBits(s: string)
  {
    forall i :: 0 <= i < |s| ==> s[i] == '0' || s[i] == '1'
  }

  /** The unsigned value of a string of '0'/'1', most significant bit first. */
  function BitsToNat(s: string): nat
  {
    DigitsValue(s, 2)
  }

  lemma BitsToNatBound(s: string)
    ensures BitsToNat(s) < Pow(2, |s|)
  {
    DigitsValueBound(s, 2);
  }

  // ---------------------------------------------------------------------------
  // QStringList::join
  // ---------------------------------------------------------------------------

  function Join(parts: seq<string>, sep: string): string
    decreases |parts|
  {
    if |parts| == 0 then ""
    else if |parts| == 1 then parts[0]
    else parts[0] + sep + Join(parts[1..], sep)
  }

  /** The concatenation of the parts. */
  function Concat(parts: seq<string>): string
    decreases |parts|
  {
    if parts == [] then "" else parts[0] + Concat(parts[1..])
  }

  /** Joining with the empty separator concatenates. */
  lemma {:induction false} JoinEmptyIsConcat(parts: seq<string>)
    ensures Join(parts, "") == Concat(parts)
    decreases |parts|
  {
    if |parts| == 1 {
      assert parts[1..] == [];
    } else if |parts| > 1 {
      JoinEmptyIsConcat(parts[1..]);
    }
  }

  lemma {:induction false} RemoveWhitespaceAppend(a: string, b: string)
    ensures RemoveWhitespace(a + b) == RemoveWhitespace(a) + RemoveWhitespace(b)
    decreases |a|
  {
    if a == [] {
      assert a + b == b;
    } else {
      assert (a + b)[0] == a[0] && (a + b)[1..] == a[1..] + b;
      RemoveWhitespaceAppend(a[1..], b);
      var h := if IsSpace(a[0]) then [] else [a[0]];
      assert RemoveWhitespace(a) == h + RemoveWhitespace(a[1..]);
      assert RemoveWhitespace(a + b) == h + RemoveWhitespace(a[1..] + b);
    }
  }

  /** Joining parts that hold no whitespace with single spaces and then
      removing the whitespace gives the parts run together. */
  lemma {:induction false} JoinSpaceRemoved(parts: seq<string>)
    requires forall k, i :: 0 <= k < |parts| && 0 <= i < |parts[k]| ==> !IsSpace(parts[k][i])
    ensures RemoveWhitespace(Join(parts, " ")) == Concat(parts)
    decreases |parts|
  {
    if |parts| == 1 {
      RemoveWhitespaceKeeps(parts[0]);
      assert parts[1..] == [];
    } else if |parts| > 1 {
      JoinSpaceRemoved(parts[1..]);
      RemoveWhitespaceKeeps(parts[0]);
      RemoveWhitespaceAppend(parts[0] + " ", Join(parts[1..], " "));
      RemoveWhitespaceAppend(parts[0], " ");
      assert RemoveWhitespace(" ") == [] by {
        assert " "[1..] == [];
      }
    }
  }
}
