/** The input side of the window: how the typed text is cleaned, how
    convertToBits turns it into the bit row one character at a time, what the
    success flag reports, and the status text of a successful rebuild. */
module InputCodec {
  import opened QtText

  /** The three input (and output) radio buttons. */
  datatype Radix = Hex | Bin | Dec
  {
    function Base(): (b: nat)
      ensures ValidBase(b)
    {
      match this
      case Hex => 16
      case Bin => 2
      case Dec => 10
    }
  }

  predicate ValidBase(base: nat)
  {
    base == 2 || base == 10 || base == 16
  }

  /** All whitespace removed and, for hexadecimal input, every "0x"/"0X"
      occurrence the left-to-right scan finds; the order of what is kept is the
      order of the typed text. */
  function CleanInput(text: string, radix: Radix): (r: string)
    ensures |r| <= |text|
  {
    var t := RemoveWhitespace(text);
    if radix == Hex then RemoveZeroX(t) else t
  }

  /** The cleaned text holds no whitespace and only characters of the typed
      text; typed text without whitespace (and, for hexadecimal input,
      without "0x") is used as it is. */
  lemma CleanInputSpec(text: string, radix: Radix)
    ensures var r := CleanInput(text, radix);
      (forall i :: 0 <= i < |r| ==> !IsSpace(r[i]) && r[i] in text) &&
      ((forall i :: 0 <= i < |text| ==> !IsSpace(text[i]) && (radix == Hex ==> !ZeroXAt(text, i))) ==> r == text)
  {
    var t := RemoveWhitespace(text);
    RemoveWhitespaceClean(text);
    if forall i :: 0 <= i < |text| ==> !IsSpace(text[i]) {
      RemoveWhitespaceKeeps(text);
    }
    if radix == Hex {
      RemoveZeroXSubset(t);
      if forall i :: 0 <= i < |text| ==> !IsSpace(text[i]) && !ZeroXAt(text, i) {
        RemoveZeroXKeeps(t);
      }
      var r := RemoveZeroX(t);
      forall i | 0 <= i < |r| ensures !IsSpace(r[i]) && r[i] in text {
        var j :| 0 <= j < |t| && t[j] == r[i];
      }
    }
  }

  /** A single typed character is dropped exactly when it is whitespace. */
  lemma CleanInputChar(c: char, radix: Radix)
    ensures CleanInput([c], radix) == if IsSpace(c) then [] else [c]
  {
    assert [c][1..] == [];
  }

  /** Cleaning keeps what is not removed in the typed order: the cleaned text
      of two pieces is the cleaned pieces run together, provided, for
      hexadecimal input, the cut does not split a "0x" (the left piece ends in
      a character that is neither whitespace nor '0'). */
  lemma CleanInputAppend(a: string, b: string, radix: Radix)
    requires radix == Hex ==> a == [] || (!IsSpace(a[|a| - 1]) && a[|a| - 1] != '0')
    ensures CleanInput(a + b, radix) == CleanInput(a, radix) + CleanInput(b, radix)
  {
    RemoveWhitespaceAppend(a, b);
    if radix == Hex && a != [] {
      var n := |a|;
      RemoveWhitespaceAppend(a[..n - 1], [a[n - 1]]);
      assert a[..n - 1] + [a[n - 1]] == a;
      CleanInputChar(a[n - 1], Bin);
      var wa := RemoveWhitespace(a);
      assert wa == RemoveWhitespace(a[..n - 1]) + [a[n - 1]];
      assert wa[|wa| - 1] == a[n - 1];
      var wb := RemoveWhitespace(b);
      RemoveZeroXAppend(wa, wb);
      assert CleanInput(a + b, radix) == RemoveZeroX(wa + wb);
    } else if a == [] {
      assert a + b == b;
    }
  }

  /** Spaces between digits are dropped and the digits kept: "1 0" in binary is
      "10". */
  lemma CleanBinaryExample()
    ensures CleanInput("1 0", Bin) == "10"
  {
    assert "1 0" == "1" + (" " + "0");
    CleanInputAppend("1", " " + "0", Bin);
    CleanInputAppend(" ", "0", Bin);
    CleanInputChar('1', Bin);
    CleanInputChar(' ', Bin);
    CleanInputChar('0', Bin);
    assert CleanInput(" " + "0", Bin) == "0";
  }

  /** In hexadecimal the prefix goes as well: "0x1 f" is "1f". */
  lemma CleanHexExample()
    ensures CleanInput("0x1 f", Hex) == "1f"
  {
    assert "0x1 f" == "0x1" + (" " + "f");
    assert CleanInput("0x1", Hex) == "1" by {
      RemoveWhitespaceKeeps("0x1");
      assert "0x1"[2..] == "1" && "1"[1..] == [];
    }
    assert CleanInput(" " + "f", Hex) == "f" by {
      CleanInputAppend(" ", "f", Bin);
      CleanInputChar(' ', Bin);
      CleanInputChar('f', Bin);
      CleanInputChar('f', Hex);
    }
    CleanInputAppend("0x1", " " + "f", Hex);
  }

  /** The bits convertToBits appends for one character: the binary digits of the
      number toUInt returns (0 on failure), left-padded with '0' to four digits
      unless the base is 2. */
  function CharBits(c: char, radix: Radix): string
  {
    var b := Number(ToUIntOr0(c, radix.Base()), 2);
    if radix.Base() != 2 then PadLeft(b, 4, '0') else b
  }

  lemma BinaryDigitsAreBits(s: string)
    requires forall i :: 0 <= i < |s| ==> DigitValue(s[i], 2).Some?
    ensures IsBits(s)
  {
  }

  /** One character gives exactly one bit in base 2 and four otherwise, whose value is the
      digit's value, or 0 when the character is not a digit of the radix. */
  lemma CharBitsShape(c: char, radix: Radix)
    ensures |CharBits(c, radix)| == if radix == Bin then 1 else 4
    ensures IsBits(CharBits(c, radix))
    ensures BitsToNat(CharBits(c, radix)) == ToUIntOr0(c, radix.Base())
  {
    var v := ToUIntOr0(c, radix.Base());
    var b := Number(v, 2);
    NumberRoundTrip(v, 2);
    BinaryDigitsAreBits(b);
    if radix == Bin {
      assert Pow(2, 1) == 2;
      NumberLength(v, 2, 1);
    } else {
      assert Pow(2, 4) == 16;
      NumberLength(v, 2, 4);
      PadLeftValue(b, 4, 2);
      PadLeftKeepsText(b, 4, '0');
    }
  }

  /** Applies f to every character and concatenates the results in order. */
  function ConcatMap(s: string, f: char -> string): string
    decreases |s|
  {
    if s == [] then [] else ConcatMap(s[..|s| - 1], f) + f(s[|s| - 1])
  }

  lemma {:induction false} ConcatMapAppend(a: string, b: string, f: char -> string)
    ensures ConcatMap(a + b, f) == ConcatMap(a, f) + ConcatMap(b, f)
    decreases |b|
  {
    if b == [] {
      assert a + b == a;
    } else {
      var b', c := b[..|b| - 1], b[|b| - 1];
      calc {
        ConcatMap(a + b, f);
        { assert (a + b)[..|a + b| - 1] == a + b' && (a + b)[|a + b| - 1] == c; }
        ConcatMap(a + b', f) + f(c);
        { ConcatMapAppend(a, b', f); }
        ConcatMap(a, f) + ConcatMap(b', f) + f(c);
      }
    }
  }

  function CharBitsOf(radix: Radix): char -> string
  {
    c => CharBits(c, radix)
  }

  /** The whole bit string convertToBits returns: the characters' bits in order. */
  function Encode(s: string, radix: Radix): string
  {
    ConcatMap(s, CharBitsOf(radix))
  }

  lemma EncodeSnoc(s: string, radix: Radix)
    requires s != []
    ensures Encode(s, radix) == Encode(s[..|s| - 1], radix) + CharBits(s[|s| - 1], radix)
  {
  }

  lemma EncodeAppend(a: string, b: string, radix: Radix)
    ensures Encode(a + b, radix) == Encode(a, radix) + Encode(b, radix)
  {
    ConcatMapAppend(a, b, CharBitsOf(radix));
  }

  /** The bit row of input s has |s| cells in base 2 and 4 * |s| otherwise,
      each '0' or '1'. */
  lemma {:induction false} EncodeShape(s: string, radix: Radix)
    ensures |Encode(s, radix)| == if radix == Bin then |s| else 4 * |s|
    ensures IsBits(Encode(s, radix))
    decreases |s|
  {
    if s != [] {
      EncodeSnoc(s, radix);
      EncodeShape(s[..|s| - 1], radix);
      CharBitsShape(s[|s| - 1], radix);
    }
  }

  lemma EncodeSplit(s: string, radix: Radix, k: nat)
    requires k < |s|
    ensures Encode(s, radix) == Encode(s[..k], radix) + CharBits(s[k], radix) + Encode(s[k + 1..], radix)
  {
    var pre, mid, post := s[..k], [s[k]], s[k + 1..];
    assert s == pre + mid + post;
    EncodeAppend(pre + mid, post, radix);
    EncodeAppend(pre, mid, radix);
    EncodeSnoc(mid, radix);
    assert mid[..0] == [];
  }

  /** Character k of the input owns bits [4k, 4k + 4) of the row (bit k in
      base 2). */
  lemma EncodeCharAt(s: string, radix: Radix, k: nat)
    requires k < |s|
    ensures radix == Bin ==> |Encode(s, radix)| == |s| && Encode(s, radix)[k..k + 1] == CharBits(s[k], radix)
    ensures radix != Bin ==> |Encode(s, radix)| == 4 * |s| && Encode(s, radix)[4 * k .. 4 * k + 4] == CharBits(s[k], radix)
  {
    EncodeSplit(s, radix, k);
    EncodeShape(s[..k], radix);
    EncodeShape(s, radix);
    CharBitsShape(s[k], radix);
  }

  /** In base 2 every character becomes one bit: '1' stays '1', everything else
      (a '0' or a character toUInt rejects) becomes '0'. */
  lemma BinaryEncodeAt(s: string, k: nat)
    requires k < |s|
    ensures |Encode(s, Bin)| == |s|
    ensures Encode(s, Bin)[k] == if s[k] == '1' then '1' else '0'
  {
    EncodeCharAt(s, Bin, k);
    CharBitsShape(s[k], Bin);
    assert Encode(s, Bin)[k] == Encode(s, Bin)[k..k + 1][0];
  }

  /** Reading the bits back: for binary and hexadecimal input the bit row's
      value is the value of the text read in that base (characters toUInt
      rejects count as 0 on both sides); decimal text, digit by digit, is packed
      as one nibble per digit, so it reads back as the same digits in base 16. */
  lemma {:induction false} EncodeValue(s: string, radix: Radix)
    requires radix == Dec ==> forall k :: 0 <= k < |s| ==> DigitValue(s[k], 10).Some?
    ensures BitsToNat(Encode(s, radix)) == DigitsValue(s, if radix == Bin then 2 else 16)
    decreases |s|
  {
    if s != [] {
      var p := s[..|s| - 1];
      var c := s[|s| - 1];
      var base := if radix == Bin then 2 else 16;
      EncodeSnoc(s, radix);
      EncodeValue(p, radix);
      CharBitsShape(c, radix);
      DigitsValueAppend(Encode(p, radix), CharBits(c, radix), 2);
      if radix == Bin {
        assert Pow(2, 1) == 2;
      } else {
        assert Pow(2, 4) == 16;
      }
      assert ToUIntOr0(c, radix.Base()) == ToUIntOr0(c, base);
    }
  }

  /** The success flag convertToBits leaves behind: it is overwritten for every
      character, so it reports the parse of the last character only. */
  predicate ParseOk(s: string, radix: Radix)
    requires s != []
  {
    DigitValue(s[|s| - 1], radix.Base()).Some?
  }

  /** A rejected character before the last one does not clear the flag: it is
      encoded as 0000 and the parse is reported as a success. */
  lemma OkReportsOnlyLastCharacter()
    ensures DigitValue('G', 16).None?
    ensures ParseOk("G1", Hex)
    ensures Encode("G1", Hex) == "00000001"
  {
    EncodeSnoc("G1", Hex);
    assert "G1"[..1] == "G";
    EncodeSnoc("G", Hex);
    assert "G"[..0] == [];
    assert Number(0, 2) == "0";
    assert Number(1, 2) == "1";
  }

  const ParseFailedText: string := "Failed to parse input value"

  /** The " and r bits" remark of the status message, empty when r is 0. */
  function BitsRemark(r: nat): string
  {
    if r != 0 then " and " + Number(r, 10) + " bits" else ""
  }

  /** The status message shape: decimal byte count, then the remark. */
  function StatusOf(bytes: string, remark: string): string
  {
    "Detected " + bytes + " bytes" + remark
  }

  /** The status message of a successful rebuild with n bits. */
  function StatusText(n: nat): string
  {
    StatusOf(Number(n / 8, 10), BitsRemark(n % 8))
  }

  predicate IsDecimal(s: string)
  {
    forall i :: 0 <= i < |s| ==> DigitValue(s[i], 10).Some?
  }

  /** Length of the longest prefix made of decimal digits. */
  function LeadingDigits(s: string): nat
    decreases |s|
  {
    if s == [] || DigitValue(s[0], 10).None? then 0 else 1 + LeadingDigits(s[1..])
  }

  lemma {:induction false} LeadingDigitsOf(a: string, x: string)
    requires IsDecimal(a) && |x| >= 1 && x[0] == ' '
    ensures LeadingDigits(a + x) == |a|
    decreases |a|
  {
    if a == [] {
      assert a + x == x;
    } else {
      assert (a + x)[1..] == a[1..] + x;
      LeadingDigitsOf(a[1..], x);
    }
  }

  /** Two decimal numbers followed by text that starts with a space are equal
      when the whole strings are. */
  lemma DecimalPrefix(a: string, x: string, b: string, y: string)
    requires IsDecimal(a) && IsDecimal(b)
    requires |x| >= 1 && |y| >= 1 && x[0] == ' ' && y[0] == ' '
    requires a + x == b + y
    ensures a == b && x == y
  {
    LeadingDigitsOf(a, x);
    LeadingDigitsOf(b, y);
    assert a == (a + x)[..|a|] && b == (b + y)[..|b|];
    assert x == (a + x)[|a|..] && y == (b + y)[|b|..];
  }

  lemma BitsRemarkInjective(r1: nat, r2: nat)
    requires BitsRemark(r1) == BitsRemark(r2)
    ensures r1 == r2
  {
    if r1 != 0 && r2 != 0 {
      var s1, s2 := Number(r1, 10), Number(r2, 10);
      assert BitsRemark(r1)[5..] == s1 + " bits";
      assert BitsRemark(r2)[5..] == s2 + " bits";
      DecimalPrefix(s1, " bits", s2, " bits");
      NumberRoundTrip(r1, 10);
      NumberRoundTrip(r2, 10);
    }
  }

  lemma StatusOfInjective(d1: string, r1: string, d2: string, r2: string)
    requires IsDecimal(d1) && IsDecimal(d2)
    requires StatusOf(d1, r1) == StatusOf(d2, r2)
    ensures d1 == d2 && r1 == r2
  {
    var x, y := " bytes" + r1, " bytes" + r2;
    assert StatusOf(d1, r1)[9..] == d1 + x;
    assert StatusOf(d2, r2)[9..] == d2 + y;
    DecimalPrefix(d1, x, d2, y);
    assert r1 == x[6..] && r2 == y[6..];
  }

  /** The status message determines the bit count: it states n / 8 bytes and
      n % 8 bits and nothing else. */
  lemma StatusTextInjective(n: nat, m: nat)
    requires StatusText(n) == StatusText(m)
    ensures n == m
  {
    StatusOfInjective(Number(n / 8, 10), BitsRemark(n % 8), Number(m / 8, 10), BitsRemark(m % 8));
    NumberRoundTrip(n / 8, 10);
    NumberRoundTrip(m / 8, 10);
    BitsRemarkInjective(n % 8, m % 8);
  }
}
