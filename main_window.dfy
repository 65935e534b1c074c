/** The main window's bit table and its event handlers. The table has three
    rows: row 0 the bits, row 1 the value of each field, row 2 the field
    names; a field is a run of columns merged by one column span. */
module Window {
  import opened QtText
  import opened InputCodec
  import opened OutputCodec
  import opened FieldLayout

  /** The horizontal header: column i is labelled with the bit number
      n - 1 - i, so the leftmost column holds the most significant bit. */
  function Headers(n: nat): (r: seq<string>)
    ensures |r| == n
  {
    seq(n, i requires 0 <= i < n => Number(n - 1 - i, 10))
  }

  /** Each header is a decimal number counting down from n - 1 to 0. */
  lemma HeadersCountDown(n: nat, i: nat)
    requires i < n
    ensures IsDecimal(Headers(n)[i]) && DigitsValue(Headers(n)[i], 10) == n - 1 - i
  {
    assert Headers(n)[i] == Number(n - 1 - i, 10);
    NumberRoundTrip(n - 1 - i, 10);
  }

  class MainWindow {
    /** The bit string of the last accepted or rejected input. */
    var inputBits: string
    /** Row 0: one bit per column. */
    var bits: string
    /** Row 1: at a field start the field's value, elsewhere hidden text. */
    var values: seq<string>
    /** Row 2: field names. */
    var labels: seq<string>
    /** The column span at each column of rows 1 and 2 (0 inside a field). */
    var spans: seq<nat>
    var headers: seq<string>
    /** The last status bar message. */
    var status: string
    /** The output line. */
    var output: string
    /** The state of the output radio buttons and the "no space" toggle. */
    var config: OutputConfig

    /** All rows have one cell per column, the spans tile the columns, and
        row 0 holds only '0' and '1'. */
    predicate Valid()
      reads this
    {
      |values| == |bits| && |labels| == |bits| && |spans| == |bits| && |headers| == |bits| &&
      Partition(spans) && IsBits(bits)
    }

    /** What the handlers keep between events: every field start shows its
        field's value, the headers number the bits, and the output line is
        the rendering of row 0 under the current output settings. */
    predicate Consistent()
      reads this
    {
      Valid() && values == Recomputed(bits, spans, values) &&
      headers == Headers(|bits|) && output == Render(bits, config)
    }

    /** An empty table. */
    constructor(cfg: OutputConfig)
      ensures Consistent()
      ensures bits == [] && inputBits == [] && status == "" && output == "" && config == cfg
    {
      inputBits, bits, values, labels, spans, headers := [], [], [], [], [], [];
      status, output, config := "", "", cfg;
    }

    /** convertToBits: the bits of every character in order; the flag is
        written once per character, so it reports only the last one, and it
        is left alone for empty input. */
    static method ConvertToBits(input: string, radix: Radix, okIn: bool) returns (result: string, ok: bool)
      ensures result == Encode(input, radix)
      ensures ok == if input == [] then okIn else ParseOk(input, radix)
    {
      result, ok := [], okIn;
      var i := 0;
      while i < |input|
        invariant 0 <= i <= |input|
        invariant result == Encode(input[..i], radix)
        invariant ok == if i == 0 then okIn else ParseOk(input[..i], radix)
      {
        ok := DigitValue(input[i], radix.Base()).Some?;
        result := result + CharBits(input[i], radix);
        ghost var prefix := input[..i + 1];
        assert prefix[..i] == input[..i] && prefix[|prefix| - 1] == input[i];
        EncodeSnoc(prefix, radix);
        assert ok == ParseOk(prefix, radix);
        i := i + 1;
      }
      assert input[..i] == input;
    }

    /** tableBitsToChunks: row 0 cut greedily into chunks of `size` bits. */
    static method TableBitsToChunks(row: string, size: nat) returns (chunks: seq<string>)
      requires size >= 1
      ensures chunks == Chunks(row, size)
    {
      chunks := [];
      var chunk := "";
      assert chunk + row[0..] == row;
      for i := 0 to |row|
        invariant |chunk| < size
        invariant Chunks(row, size) == chunks + Chunks(chunk + row[i..], size)
      {
        ChunkCutStep(row, i, chunk, size);
        chunk := chunk + [row[i]];
        if |chunk| >= size {
          chunks := chunks + [chunk];
          chunk := "";
          assert chunk + row[i + 1..] == row[i + 1..];
        }
      }
      ChunkCutEnd(row, chunk, size);
      if chunk != [] {
        chunks := chunks + [chunk];
      }
    }

    /** The loop of onOutputConfigUpdate: each chunk printed in the selected
        radix, in order. */
    static method FormatChunks(chunks: seq<string>, cfg: OutputConfig) returns (texts: seq<string>)
      ensures texts == ChunkTexts(chunks, cfg)
    {
      texts := [];
      for k := 0 to |chunks|
        invariant texts == ChunkTexts(chunks[..k], cfg)
      {
        ChunkTextsSnoc(chunks, k, cfg);
        texts := texts + [ChunkText(chunks[k], cfg)];
      }
      assert chunks[..|chunks|] == chunks;
    }

    /** onOutputConfigUpdate: the output line is rebuilt from row 0. */
    method OnOutputConfigUpdate()
      modifies this
      ensures output == Render(bits, config)
      ensures inputBits == old(inputBits) && bits == old(bits) && values == old(values)
      ensures labels == old(labels) && spans == old(spans) && headers == old(headers)
      ensures status == old(status) && config == old(config)
    {
      var chunks := TableBitsToChunks(bits, config.width.Size());
      var texts := FormatChunks(chunks, config);
      output := Join(texts, Separator(config.compact));
    }

    /** A click on an output radio button or the "no space" toggle. */
    method SelectOutput(cfg: OutputConfig)
      modifies this
      ensures config == cfg && output == Render(bits, cfg)
      ensures inputBits == old(inputBits) && bits == old(bits) && values == old(values)
      ensures labels == old(labels) && spans == old(spans) && headers == old(headers)
      ensures status == old(status)
      ensures old(Consistent()) ==> Consistent()
    {
      config := cfg;
      OnOutputConfigUpdate();
    }

    /** The value text onTableFieldUpdate computes for the field of `span`
        columns at `start`: its bits collected left to right, read as a
        64-bit unsigned number and printed in hexadecimal. */
    static method HexFieldValue(bits: string, start: nat, span: nat) returns (fieldText: string)
      requires 1 < span && start + span <= |bits|
      ensures fieldText == HexFieldText(bits[start..start + span])
    {
      var fieldBits := "";
      var j := start;
      while j < start + span
        invariant start <= j <= start + span
        invariant fieldBits == bits[start..j]
      {
        fieldBits := fieldBits + [bits[j]];
        j := j + 1;
      }
      var fieldValue := ULongLong(BitsToNat(fieldBits));
      fieldText := "0x" + HexText(fieldValue, (span + 3) / 4);
    }

    /** The text one pass of onTableFieldUpdate's loop writes at the field
        start i: the bit itself for a one-column field, its hexadecimal
        value otherwise. */
    static method FieldValue(bits: string, i: nat, colSpan: nat) returns (text: string)
      requires 1 <= colSpan && i + colSpan <= |bits|
      ensures text == FieldText(bits, i, colSpan)
    {
      if colSpan > 1 {
        text := HexFieldValue(bits, i, colSpan);
      } else {
        text := [bits[i]];
      }
    }

    /** The loop of onTableFieldUpdate over row 1: at each field start the
        field's value is written and the loop jumps past the field. */
    static method RecomputeValues(bits: string, spans: seq<nat>, values: seq<string>) returns (row: seq<string>)
      requires |spans| == |bits| == |values| && Partition(spans)
      ensures row == Recomputed(bits, spans, values)
    {
      RecomputedUpToEnds(bits, spans, values);
      row := values;
      var i := 0;
      while i < |bits|
        invariant 0 <= i <= |bits|
        invariant i < |bits| ==> spans[i] >= 1
        invariant row == RecomputedUpTo(bits, spans, values, i)
        decreases |bits| - i
      {
        var colSpan := spans[i];
        RecomputeStep(bits, spans, values, i);
        var text := FieldValue(bits, i, colSpan);
        row := row[i := text];
        i := i + colSpan;
      }
    }

    /** onTableFieldUpdate: every field start of row 1 gets its field's
        value; the cells inside a field are skipped. */
    method OnTableFieldUpdate()
      requires Valid()
      modifies this
      ensures inputBits == old(inputBits) && bits == old(bits) && labels == old(labels)
      ensures spans == old(spans) && headers == old(headers) && status == old(status)
      ensures output == old(output) && config == old(config)
      ensures values == Recomputed(bits, spans, old(values))
    {
      values := RecomputeValues(bits, spans, values);
    }

    /** The table-update part of onInputUpdate: one column per bit of
        inputBits, each its own field, with its bit in rows 0 and 1, no name,
        and its bit number as header. */
    method RebuildTable()
      modifies this
      ensures bits == inputBits && values == UnitValues(bits) && labels == NoNames(|bits|)
      ensures spans == UnitSpans(|bits|) && headers == Headers(|bits|)
      ensures inputBits == old(inputBits) && status == old(status)
      ensures output == old(output) && config == old(config)
    {
      var n := |inputBits|;
      var row0, row1, row2, header := "", [], [], [];
      var i, j := 0, n - 1;
      while i < n
        invariant 0 <= i <= n && j == n - 1 - i
        invariant row0 == inputBits[..i]
        invariant |row1| == i && forall k :: 0 <= k < i ==> row1[k] == [inputBits[k]]
        invariant row2 == NoNames(i)
        invariant header == Headers(n)[..i]
      {
        header := header + [Number(j, 10)];
        row0 := row0 + [inputBits[i]];
        row1 := row1 + [[inputBits[i]]];
        row2 := row2 + [""];
        i, j := i + 1, j - 1;
      }
      assert inputBits[..n] == inputBits && Headers(n)[..n] == Headers(n);
      bits, values, labels, headers, spans := row0, row1, row2, header, UnitSpans(n);
    }

    /** onInputUpdate: clean the typed text, convert it, report the result in
        the status bar and, when the conversion succeeded, rebuild the table
        with one-bit fields and redraw the output. */
    method OnInputUpdate(text: string, radix: Radix)
      requires Valid()
      requires text != [] ==> CleanInput(text, radix) != []
      modifies this
      ensures Valid() && config == old(config)
      ensures text == [] ==> unchanged(this)
      ensures text != [] ==> inputBits == Encode(CleanInput(text, radix), radix)
      ensures text != [] && !ParseOk(CleanInput(text, radix), radix) ==>
        status == ParseFailedText && bits == old(bits) && values == old(values) &&
        labels == old(labels) && spans == old(spans) && headers == old(headers) &&
        output == old(output)
      ensures text != [] && ParseOk(CleanInput(text, radix), radix) ==>
        bits == inputBits && status == StatusText(|bits|) &&
        values == UnitValues(bits) && labels == NoNames(|bits|) && spans == UnitSpans(|bits|) &&
        headers == Headers(|bits|) && output == Render(bits, config) && Consistent()
      ensures old(Consistent()) ==> Consistent()
    {
      var inputText := RemoveWhitespace(text);
      if text == [] {
        return;
      }
      var conversionSuccess;
      if radix == Hex {
        inputText := RemoveZeroX(inputText);
      }
      inputBits, conversionSuccess := ConvertToBits(inputText, radix, false);
      if !conversionSuccess {
        status := ParseFailedText;
        return;
      }
      EncodeShape(inputText, radix);
      var n := |inputBits|;
      var message := "Detected " + Number(n / 8, 10) + " bytes";
      if n % 8 != 0 {
        var remark := " and " + Number(n % 8, 10) + " bits";
        message := message + remark;
      }
      assert message == StatusText(n);
      status := message;
      RebuildTable();
      RecomputedUnits(bits, values);
      OnOutputConfigUpdate();
    }

    /** onCellDoubleClick: a double click on row 0 toggles that bit and
        refreshes the field values and the output; other rows are ignored. */
    method OnCellDoubleClick(row: int, column: nat)
      requires Valid()
      requires row == 0 ==> column < |bits|
      modifies this
      ensures Valid()
      ensures row != 0 ==> unchanged(this)
      ensures row == 0 ==>
        bits == Flip(old(bits), column) && values == Recomputed(bits, spans, old(values)) &&
        output == Render(bits, config)
      ensures inputBits == old(inputBits) && labels == old(labels) && spans == old(spans)
      ensures headers == old(headers) && status == old(status) && config == old(config)
      ensures old(Consistent()) ==> Consistent()
    {
      if row != 0 {
        return;
      }
      FlipTwice(bits, column);
      if bits[column] == '0' {
        bits := bits[column := '1'];
      } else {
        bits := bits[column := '0'];
      }
      OnTableFieldUpdate();
      RecomputedIdempotent(bits, spans, old(values));
      OnOutputConfigUpdate();
    }

    /** getSelectedColumns: the columns of the selected cells, each once, in
        the order the selection lists them. */
    static method GetSelectedColumns(indexColumns: seq<nat>) returns (selected: seq<nat>)
      ensures selected == Dedup(indexColumns)
      ensures Distinct(selected) && forall c :: c in selected <==> c in indexColumns
    {
      selected := [];
      for k := 0 to |indexColumns|
        invariant selected == Dedup(indexColumns[..k])
      {
        assert indexColumns[..k + 1][..k] == indexColumns[..k];
        if indexColumns[k] !in selected {
          selected := selected + [indexColumns[k]];
        }
      }
      assert indexColumns[..|indexColumns|] == indexColumns;
    }

    /** The name-moving loop of onCellMergeRequest: walking the range after
        `first` up to `last`, the first column takes the first name it meets
        while its own is empty, and every name it walks past is cleared. */
    static method MoveFieldNames(labels: seq<string>, first: nat, last: nat) returns (names: seq<string>)
      requires first < |labels| && last < |labels|
      ensures names == MergeLabels(labels, first, last)
    {
      MovedUpToEnds(labels, first, last);
      names := labels;
      var i := first + 1;
      while i <= last
        invariant first + 1 <= i && (i <= last + 1 || i == first + 1)
        invariant names == MovedUpTo(labels, first, i)
      {
        MoveNameStep(labels, first, i);
        if names[first] == "" {
          names := names[first := names[i]];
        }
        names := names[i := ""];
        i := i + 1;
      }
    }

    /** The span part of onCellMergeRequest: a wider field at the first
        selected column is split back into one-column fields, otherwise a
        field of |last - first| + 1 columns is set there. */
    static method SetOrRemoveSpan(spans: seq<nat>, selected: seq<nat>) returns (r: seq<nat>)
      requires Partition(spans) && |selected| >= 2 && MergeAllowed(spans, selected)
      ensures r == MergeRequestSpans(spans, selected)
    {
      var first, last := selected[0], selected[|selected| - 1];
      if spans[first] > 1 {
        r := UnmergeSpans(spans, first);
      } else {
        var width := (if last >= first then last - first else first - last) + 1;
        r := MergeSpans(spans, first, width);
      }
    }

    /** onCellMergeRequest: with two or more selected columns, the names of
        the range from the first to the last selected column move to its
        first column, and the span at the first column is removed when it is
        a wider field and set over the range otherwise. */
    method OnCellMergeRequest(indexColumns: seq<nat>)
      requires Valid()
      requires forall c :: c in indexColumns ==> c < |bits|
      requires MergeAllowed(spans, Dedup(indexColumns))
      modifies this
      ensures Valid()
      ensures |Dedup(indexColumns)| <= 1 ==> unchanged(this)
      ensures |Dedup(indexColumns)| >= 2 ==>
        labels == MergeRequestLabels(old(labels), Dedup(indexColumns)) &&
        spans == MergeRequestSpans(old(spans), Dedup(indexColumns)) &&
        values == Recomputed(bits, spans, old(values)) && output == Render(bits, config)
      ensures inputBits == old(inputBits) && bits == old(bits) && headers == old(headers)
      ensures status == old(status) && config == old(config)
      ensures old(Consistent()) ==> Consistent()
    {
      var selected := GetSelectedColumns(indexColumns);
      if |selected| <= 1 {
        return;
      }
      var first, last := selected[0], selected[|selected| - 1];
      assert first in selected && last in selected;
      ghost var newLabels := MergeRequestLabels(labels, selected);
      assert newLabels == MergeLabels(labels, first, last);
      labels := MoveFieldNames(labels, first, last);
      spans := SetOrRemoveSpan(spans, selected);
      OnTableFieldUpdate();
      RecomputedIdempotent(bits, spans, old(values));
      OnOutputConfigUpdate();
    }
  }
}
