/** The output side of the window: the greedy grouping of the bit row into
    chunks of 8, 16 or 32 bits, the text of one chunk in the chosen radix, and
    the output line those texts are joined into. */
module OutputCodec {
  import opened QtText
  import opened InputCodec

  /** The three chunk-width radio buttons. */
  datatype ChunkWidth = Bits8 | Bits16 | Bits32
  {
    function Size(): (n: nat)
      ensures n == 8 || n == 16 || n == 32
    {
      match this
      case Bits8 => 8
      case Bits16 => 16
      case Bits32 => 32
    }
  }

  /** The output radio buttons and the "no space" toggle. */
  datatype OutputConfig = OutputConfig(radix: Radix, width: ChunkWidth, compact: bool)

  /** Greedy left-to-right groups of `size` bits, the remainder as a last,
      shorter group. */
  function Chunks(bits: string, size: nat): seq<string>
    requires size >= 1
    decreases |bits|
  {
    if bits == [] then []
    else if |bits| <= size then [bits]
    else [bits[..size]] + Chunks(bits[size..], size)
  }

  lemma ChunksStep(bits: string, size: nat)
    requires 1 <= size <= |bits|
    ensures Chunks(bits, size) == [bits[..size]] + Chunks(bits[size..], size)
  {
    if |bits| == size {
      assert bits[size..] == [] && bits[..size] == bits;
    }
  }

  /** One more chunk's worth of bits gives one more chunk. */
  lemma CeilDivStep(n: nat, size: nat)
    requires size >= 1
    ensures (n + size + size - 1) / size == (n + size - 1) / size + 1
  {
    var a := n + size - 1;
    var q, r := a / size, a % size;
    assert a == q * size + r;
    assert a + size == (q + 1) * size + r;
    DivUnique(a + size, size, q + 1, r);
  }

  /** tableBitsToChunks' result: every chunk but the last has exactly `size`
      bits, the last has between 1 and `size`, there are ceil(n / size) of them,
      and together they spell the bit row. */
  lemma {:induction false} ChunksShape(bits: string, size: nat)
    requires size >= 1
    ensures var cs := Chunks(bits, size);
      Concat(cs) == bits &&
      |cs| == (|bits| + size - 1) / size &&
      (forall k :: 0 <= k < |cs| - 1 ==> |cs[k]| == size) &&
      (forall k :: 0 <= k < |cs| ==> 1 <= |cs[k]| <= size)
    decreases |bits|
  {
    var cs := Chunks(bits, size);
    if bits == [] {
      DivUnique(size - 1, size, 0, size - 1);
    } else if |bits| <= size {
      assert cs == [bits];
      assert Concat(cs) == bits + Concat([]);
      DivUnique(|bits| + size - 1, size, 1, |bits| - 1);
    } else {
      var rest := bits[size..];
      ChunksShape(rest, size);
      assert cs == [bits[..size]] + Chunks(rest, size);
      assert cs[1..] == Chunks(rest, size);
      assert bits == bits[..size] + rest;
      CeilDivStep(|rest|, size);
    }
  }

  /** The uint32_t the chunk's toULong value is stored in. */
  function ChunkValue(chunk: string): nat
  {
    BitsToNat(chunk) % 0x1_0000_0000
  }

  /** A chunk has at most 32 bits, so the 32-bit value is exact. */
  lemma ChunkValueExact(chunk: string)
    requires |chunk| <= 32
    ensures ChunkValue(chunk) == BitsToNat(chunk)
  {
    BitsToNatBound(chunk);
    PowMonotone(2, |chunk|, 32);
    PowOfTwoWidths();
  }

  function HexPrefix(compact: bool): string
  {
    if compact then "" else "0x"
  }

  /** The text one chunk contributes to the output line. */
  function ChunkText(chunk: string, cfg: OutputConfig): string
  {
    match cfg.radix
    case Hex => HexPrefix(cfg.compact) + HexText(ChunkValue(chunk), |chunk| / 4)
    case Dec => Number(ChunkValue(chunk), 10)
    case Bin => chunk
  }

  function ChunkTexts(chunks: seq<string>, cfg: OutputConfig): (r: seq<string>)
    ensures |r| == |chunks|
  {
    seq(|chunks|, k requires 0 <= k < |chunks| => ChunkText(chunks[k], cfg))
  }

  function Separator(compact: bool): string
  {
    if compact then "" else " "
  }

  /** The output line for a bit row under the current output settings. */
  function Render(bits: string, cfg: OutputConfig): string
  {
    Join(ChunkTexts(Chunks(bits, cfg.width.Size()), cfg), Separator(cfg.compact))
  }

  /** Hexadecimal chunk text: the optional "0x", then upper-case digits that
      read back as the chunk's value. There are exactly as many as the value's
      own digits or floor(len/4), whichever is more (zero padding, never an
      extra leading zero), and so never more than ceil(len/4). */
  lemma HexChunkText(chunk: string, cfg: OutputConfig)
    requires cfg.radix == Hex && 1 <= |chunk| <= 32
    ensures var t := ChunkText(chunk, cfg);
      var p := HexPrefix(cfg.compact);
      var digits := |Number(BitsToNat(chunk), 16)|;
      |t| >= |p| && t[..|p|] == p &&
      IsUpperHex(t[|p|..]) &&
      DigitsValue(t[|p|..], 16) == BitsToNat(chunk) &&
      |t| - |p| == (if digits >= |chunk| / 4 then digits else |chunk| / 4) &&
      |chunk| / 4 <= |t| - |p| <= (|chunk| + 3) / 4
  {
    var k := (|chunk| + 3) / 4;
    ChunkValueExact(chunk);
    BitsToNatBound(chunk);
    PowMonotone(2, |chunk|, 4 * k);
    PowBinaryHex(k);
    HexTextDigits(ChunkValue(chunk), |chunk| / 4, k);
    var t := ChunkText(chunk, cfg);
    var p := HexPrefix(cfg.compact);
    assert t[|p|..] == HexText(ChunkValue(chunk), |chunk| / 4);
  }

  /** Decimal chunk text: unpadded decimal digits that read back as the
      chunk's value. */
  lemma DecimalChunkText(chunk: string, cfg: OutputConfig)
    requires cfg.radix == Dec && |chunk| <= 32
    ensures var t := ChunkText(chunk, cfg);
      IsDecimal(t) && DigitsValue(t, 10) == BitsToNat(chunk) &&
      (t[0] == '0' ==> |t| == 1 && BitsToNat(chunk) == 0)
  {
    ChunkValueExact(chunk);
    NumberRoundTrip(ChunkValue(chunk), 10);
    var t := Number(ChunkValue(chunk), 10);
    if ChunkValue(chunk) == 0 {
      assert t == [DigitChar(0)];
    }
  }

  lemma ChunkTextsSnoc(chunks: seq<string>, k: nat, cfg: OutputConfig)
    requires k < |chunks|
    ensures ChunkTexts(chunks[..k + 1], cfg) == ChunkTexts(chunks[..k], cfg) + [ChunkText(chunks[k], cfg)]
  {
  }

  lemma ChunkTextsCons(c: string, cs: seq<string>, cfg: OutputConfig)
    ensures ChunkTexts([c] + cs, cfg) == [ChunkText(c, cfg)] + ChunkTexts(cs, cfg)
  {
  }

  /** Compact binary output (chunks joined with nothing) is the bit row. */
  lemma RenderCompactBinary(bits: string, width: ChunkWidth)
    ensures Render(bits, OutputConfig(Bin, width, true)) == bits
  {
    var cfg := OutputConfig(Bin, width, true);
    var cs := Chunks(bits, width.Size());
    ChunksShape(bits, width.Size());
    assert ChunkTexts(cs, cfg) == cs;
    JoinEmptyIsConcat(cs);
  }

  /** A hexadecimal block of at most eight digits, encoded as nibbles, prints
      back as itself in upper case in compact hexadecimal mode. */
  lemma HexBlockText(block: string, width: ChunkWidth)
    requires 1 <= |block| <= 8
    requires forall i :: 0 <= i < |block| ==> DigitValue(block[i], 16).Some?
    ensures ChunkText(Encode(block, Hex), OutputConfig(Hex, width, true)) == ToUpper(block)
  {
    var e := Encode(block, Hex);
    EncodeShape(block, Hex);
    EncodeValue(block, Hex);
    ChunkValueExact(e);
    var v := DigitsValue(block, 16);
    DigitsValueBound(block, 16);
    PadNumberIsFixed(v, 16, |block|);
    FixedOfHexValue(block);
    assert |e| / 4 == |block|;
  }

  lemma ChunksAppend(x: string, y: string, size: nat)
    requires size >= 1 && |x| == size
    ensures Chunks(x + y, size) == [x] + Chunks(y, size)
  {
    ChunksStep(x + y, size);
    assert (x + y)[..size] == x && (x + y)[size..] == y;
  }

  /** One bit moved from the rest of the row into the pending chunk; once
      the chunk is full it is the next chunk of the row. */
  lemma ChunkCutStep(row: string, i: nat, chunk: string, size: nat)
    requires i < |row| && |chunk| < size
    ensures Chunks(chunk + row[i..], size) == Chunks((chunk + [row[i]]) + row[i + 1..], size)
    ensures |chunk| + 1 == size ==>
      Chunks(chunk + row[i..], size) == [chunk + [row[i]]] + Chunks(row[i + 1..], size)
  {
    assert chunk + row[i..] == (chunk + [row[i]]) + row[i + 1..];
    if |chunk| + 1 == size {
      ChunksAppend(chunk + [row[i]], row[i + 1..], size);
    }
  }

  /** What is left pending at the end of the row is its last chunk, if any. */
  lemma ChunkCutEnd(row: string, chunk: string, size: nat)
    requires |chunk| < size
    ensures Chunks(chunk + row[|row|..], size) == if chunk == [] then [] else [chunk]
  {
    assert chunk + row[|row|..] == chunk;
  }

  /** Hexadecimal input of a chunk's worth of digits followed by more: the
      first chunk holds exactly those digits' nibbles. */
  lemma HexChunksSplit(head: string, tail: string, width: ChunkWidth)
    requires |head| == width.Size() / 4
    ensures Chunks(Encode(head + tail, Hex), width.Size()) ==
      [Encode(head, Hex)] + Chunks(Encode(tail, Hex), width.Size())
  {
    EncodeAppend(head, tail, Hex);
    EncodeShape(head, Hex);
    ChunksAppend(Encode(head, Hex), Encode(tail, Hex), width.Size());
  }

  /** Compact hexadecimal texts of input that fits in one chunk. */
  lemma HexOneChunkText(s: string, width: ChunkWidth)
    requires 1 <= |s| <= width.Size() / 4
    requires forall i :: 0 <= i < |s| ==> DigitValue(s[i], 16).Some?
    ensures var cfg := OutputConfig(Hex, width, true);
      Concat(ChunkTexts(Chunks(Encode(s, Hex), width.Size()), cfg)) == ToUpper(s)
  {
    var cfg := OutputConfig(Hex, width, true);
    var e := Encode(s, Hex);
    EncodeShape(s, Hex);
    assert Chunks(e, width.Size()) == [e];
    HexBlockText(s, width);
    assert ChunkTexts([e], cfg) == [ChunkText(e, cfg)];
    assert Concat([ChunkText(e, cfg)]) == ChunkText(e, cfg) + Concat([]);
  }

  /** The first chunk's compact text is its digits in upper case. */
  lemma HexChunksCons(head: string, tail: string, width: ChunkWidth)
    requires |head| == width.Size() / 4
    requires forall i :: 0 <= i < |head| ==> DigitValue(head[i], 16).Some?
    ensures var cfg := OutputConfig(Hex, width, true);
      Concat(ChunkTexts(Chunks(Encode(head + tail, Hex), width.Size()), cfg)) ==
      ToUpper(head) + Concat(ChunkTexts(Chunks(Encode(tail, Hex), width.Size()), cfg))
  {
    var cfg := OutputConfig(Hex, width, true);
    var rest := Chunks(Encode(tail, Hex), width.Size());
    HexChunksSplit(head, tail, width);
    ChunkTextsCons(Encode(head, Hex), rest, cfg);
    HexBlockText(head, width);
  }

  /** Concatenating the compact texts of the chunks of hexadecimal input gives
      the input in upper case. */
  lemma {:induction false} HexChunksText(s: string, width: ChunkWidth)
    requires forall i :: 0 <= i < |s| ==> DigitValue(s[i], 16).Some?
    ensures var cfg := OutputConfig(Hex, width, true);
      Concat(ChunkTexts(Chunks(Encode(s, Hex), width.Size()), cfg)) == ToUpper(s)
    decreases |s|
  {
    var m := width.Size() / 4;
    if s == [] {
      assert Encode(s, Hex) == [];
    } else if |s| <= m {
      HexOneChunkText(s, width);
    } else {
      var head, tail := s[..m], s[m..];
      assert s == head + tail;
      HexChunksCons(head, tail, width);
      HexChunksText(tail, width);
      ToUpperAppend(head, tail);
    }
  }

  /** Compact hexadecimal output of hexadecimal input whose every character is
      a digit is the cleaned input in upper case, whatever the chunk width. */
  lemma RenderCompactHex(s: string, width: ChunkWidth)
    requires forall i :: 0 <= i < |s| ==> DigitValue(s[i], 16).Some?
    ensures Render(Encode(s, Hex), OutputConfig(Hex, width, true)) == ToUpper(s)
  {
    var cfg := OutputConfig(Hex, width, true);
    JoinEmptyIsConcat(ChunkTexts(Chunks(Encode(s, Hex), width.Size()), cfg));
    HexChunksText(s, width);
  }

  /** Every chunk of a bit row is made of bits. */
  lemma {:induction false} ChunksOfBits(bits: string, size: nat)
    requires size >= 1 && IsBits(bits)
    ensures forall k :: 0 <= k < |Chunks(bits, size)| ==> IsBits(Chunks(bits, size)[k])
    decreases |bits|
  {
    if |bits| > size {
      ChunksOfBits(bits[size..], size);
      assert Chunks(bits, size) == [bits[..size]] + Chunks(bits[size..], size);
    }
  }

  /** Spaced binary output with the spaces taken out is the bit row again:
      the chunks are the row's bits in order, separated by single spaces. */
  lemma RenderSpacedBinary(bits: string, width: ChunkWidth)
    requires IsBits(bits)
    ensures RemoveWhitespace(Render(bits, OutputConfig(Bin, width, false))) == bits
  {
    var cfg := OutputConfig(Bin, width, false);
    var cs := Chunks(bits, width.Size());
    ChunksShape(bits, width.Size());
    ChunksOfBits(bits, width.Size());
    assert ChunkTexts(cs, cfg) == cs;
    assert Separator(false) == " ";
    forall k, i | 0 <= k < |cs| && 0 <= i < |cs[k]|
      ensures !IsSpace(cs[k][i])
    {
      assert IsBits(cs[k]);
    }
    JoinSpaceRemoved(cs);
  }
}
