/**
 * `CSVResultsWriter` (writer.py): a state machine over the destination
 * file.  Entering writes the header row once (or closes the file when that
 * write fails); each `write_results` re-reads the first CSV record of a
 * result line, strips its fields and appends them as a row, or skips the
 * line when it does not read; a flush (with `fsync`) happens after every
 * call that leaves the row counter on a multiple of ten.  A flush is
 * recorded as an event; file contents are the rows written.
 */
module ResultsWriter {
  import opened Wrappers
  import opened Strings
  import Csv
  import ResponseParser

  /** `__FLUSH_BATCH_SIZE`. */
  const FlushBatch: nat := 10

  /** Writing or flushing after the destination was closed raises. */
  datatype IoError = ClosedFile

  /**
   * `headed`: the header row was written; `rows`: the result rows written
   * after it; `counter`: `_flush_counter`; `flushes`: flush events so far;
   * `flushedRows`: the counter at the last flush; `open`: the destination
   * is still open.
   */
  datatype Writer = Writer(
    header: seq<string>,
    headed: bool,
    rows: seq<seq<string>>,
    counter: nat,
    flushes: nat,
    flushedRows: nat,
    open: bool)

  /** The rows in the destination, in order. */
  function Output(w: Writer): seq<seq<string>> {
    (if w.headed then [w.header] else []) + w.rows
  }

  /** The destination's text: each row as the `QUOTE_NONNUMERIC` writer formats it. */
  function Text(rows: seq<seq<string>>): string
    decreases |rows|
  {
    if rows == [] then "" else Csv.FormatRow(rows[0]) + Text(rows[1..])
  }

  /**
   * `__init__` then `__enter__`: the header row is written, or, when that
   * write raises (`headerOk` false), the destination is closed and the
   * error swallowed.
   */
  function Enter(header: seq<string>, headerOk: bool): (w: Writer)
    ensures Valid(w)
    ensures w.open == headerOk && w.counter == 0 && w.flushes == 0
    ensures Output(w) == if headerOk then [header] else []
  {
    var start := Writer(header, false, [], 0, 0, 0, true);
    if headerOk then start.(headed := true) else Close(start)
  }

  /** `close` (also `__exit__`): closing twice is harmless. */
  function Close(w: Writer): (r: Writer)
    ensures !r.open && Output(r) == Output(w) && r.counter == w.counter
  {
    w.(open := false)
  }

  /**
   * The re-read of a result line: the first record under
   * `skipinitialspace=True`, each field stripped; `None` where reading
   * raises (no record, or a `csv.Error`).
   */
  function ParseResult(text: string): Option<seq<string>> {
    match Csv.ReadRecord(Csv.Dialect(true), text)
    case Ok(fs) => Some(seq(|fs|, i requires 0 <= i < |fs| => Strip(fs[i])))
    case Err(_) => None
  }

  /** After a call the counter sits on a multiple of the batch size: flush, or raise if closed. */
  function MaybeFlush(w: Writer): Result<Writer, IoError> {
    if w.counter % FlushBatch != 0 then Ok(w)
    else if !w.open then Err(ClosedFile)
    else Ok(w.(flushes := w.flushes + 1, flushedRows := w.counter))
  }

  /** `write_results`. */
  function WriteResults(w: Writer, text: string): (r: Result<Writer, IoError>)
    ensures r.Err? <==> !w.open && (ParseResult(text).Some? || w.counter % FlushBatch == 0)
    ensures r.Ok? ==> r.value.counter == w.counter + (if ParseResult(text).Some? then 1 else 0)
    ensures r.Ok? ==> Output(r.value) == Output(w) + (if ParseResult(text).Some? then [ParseResult(text).value] else [])
    ensures r.Ok? ==> r.value.flushes == w.flushes + (if r.value.counter % FlushBatch == 0 then 1 else 0)
    ensures r.Ok? ==> r.value.open == w.open && r.value.header == w.header && r.value.headed == w.headed
  {
    match ParseResult(text)
    case None => MaybeFlush(w)
    case Some(row) =>
      if !w.open then Err(ClosedFile)
      else MaybeFlush(w.(rows := w.rows + [row], counter := w.counter + 1))
  }

  /**
   * The writer's invariant: the counter is the number of rows written and
   * never runs more than nine rows ahead of the last flush, which happened
   * on a multiple of ten; a writer whose header failed is closed and empty.
   */
  predicate Valid(w: Writer) {
    && w.counter == |w.rows|
    && w.flushedRows <= w.counter < w.flushedRows + FlushBatch
    && w.flushedRows % FlushBatch == 0
    && (!w.headed ==> !w.open && w.rows == [])
  }

  lemma WriteResultsKeepsValid(w: Writer, text: string)
    requires Valid(w)
    ensures WriteResults(w, text).Ok? ==> Valid(WriteResults(w, text).value)
  {
  }

  /** Every call on a writer whose header write failed raises: no row ever follows a missing header. */
  lemma HeaderlessWriterRaises(w: Writer, text: string)
    requires Valid(w) && !w.headed
    ensures WriteResults(w, text).Err?
  {
  }

  /**
   * A line that does not read is skipped, yet the flush still fires while
   * the counter sits on a multiple of ten, zero included.
   */
  lemma {:induction false} SkippedLineStillFlushes(w: Writer)
    requires w.open && w.counter % FlushBatch == 0
    ensures WriteResults(w, "") == Ok(w.(flushes := w.flushes + 1, flushedRows := w.counter))
  {
    assert Csv.Syms("") == [];
    assert Csv.ReadRecord(Csv.Dialect(true), "") == Err(Csv.EndOfInput);
  }

  /** `write_results` over a sequence of result lines, stopping at the first error. */
  function WriteAll(w: Writer, texts: seq<string>): Result<Writer, IoError>
    decreases |texts|
  {
    if texts == [] then Ok(w)
    else
      match WriteResults(w, texts[0])
      case Err(e) => Err(e)
      case Ok(next) => WriteAll(next, texts[1..])
  }

  /** How many of the lines read as a record. */
  function Parsed(texts: seq<string>): nat
    decreases |texts|
  {
    if texts == [] then 0 else (if ParseResult(texts[0]).Some? then 1 else 0) + Parsed(texts[1..])
  }

  /**
   * Over a session on an open writer nothing raises, the counter grows by
   * the number of lines that read, the header stays first, and the
   * invariant holds throughout.
   */
  lemma {:induction false} SessionCounts(w: Writer, texts: seq<string>)
    requires Valid(w) && w.open
    ensures WriteAll(w, texts).Ok?
    ensures Valid(WriteAll(w, texts).value)
    ensures WriteAll(w, texts).value.counter == w.counter + Parsed(texts)
    ensures WriteAll(w, texts).value.counter >= w.counter
    ensures |Output(w)| <= |Output(WriteAll(w, texts).value)|
    ensures Output(WriteAll(w, texts).value)[..|Output(w)|] == Output(w)
    decreases |texts|
  {
    if texts != [] {
      WriteResultsKeepsValid(w, texts[0]);
      var next := WriteResults(w, texts[0]).value;
      SessionCounts(next, texts[1..]);
      var last := WriteAll(next, texts[1..]).value;
      assert Output(next)[..|Output(w)|] == Output(w);
      assert Output(last)[..|Output(w)|] == Output(last)[..|Output(next)|][..|Output(w)|];
    }
  }

  // ---------------------------------------------------------------------
  // Reading back
  // ---------------------------------------------------------------------

  /** Text without surrounding whitespace, no `"` and within the field limit. */
  predicate PlainField(f: string) {
    && '"' !in f
    && |f| <= Csv.FieldLimit
    && (f == [] || (!IsSpace(f[0]) && !IsSpace(f[|f| - 1])))
  }

  /**
   * A line rendered as quoted, comma-joined plain values is re-read as
   * exactly those values.
   */
  lemma {:induction false} QuoteJoinParses(fs: seq<string>)
    requires fs != []
    requires forall i :: 0 <= i < |fs| ==> PlainField(fs[i])
    ensures ParseResult(Csv.QuoteJoin(fs)) == Some(fs)
  {
    Csv.QuoteJoinReadsBack(Csv.Dialect(true), fs);
    var stripped := seq(|fs|, i requires 0 <= i < |fs| => Strip(fs[i]));
    forall i | 0 <= i < |fs| ensures stripped[i] == fs[i] {
      StripUnchanged(fs[i]);
    }
    assert stripped == fs;
  }

  /**
   * The round trip between the parser and the writer: a successful
   * `json_to_csv` line whose fields are plain is written as exactly
   * `len(attributes_list)` fields, in attribute order, the package name first.
   */
  lemma {:induction false} SuccessLineIsWrittenAsFields(p: ResponseParser.Parser, text: string, pkg: string)
    requires ResponseParser.Decoded(p, text).Ok?
    requires var fs := ResponseParser.Fields(p.schema, pkg, ResponseParser.Decoded(p, text).value);
      forall i :: 0 <= i < |fs| ==> PlainField(fs[i])
    ensures var fs := ResponseParser.Fields(p.schema, pkg, ResponseParser.Decoded(p, text).value);
      && ResponseParser.JsonToCsv(p, text, pkg).error.None?
      && ParseResult(ResponseParser.JsonToCsv(p, text, pkg).line) == Some(fs)
      && |fs| == |ResponseParser.Attributes(p.schema)| && fs[0] == pkg
  {
    var fs := ResponseParser.Fields(p.schema, pkg, ResponseParser.Decoded(p, text).value);
    QuoteJoinParses(fs);
  }

  /**
   * The degraded row of `get_empty_response`, for a package name without
   * separators, quotes, line breaks or surrounding blanks, is written as the
   * name followed by one empty field per further attribute; only the empty
   * name with a single attribute gives an empty line, which is skipped.
   */
  lemma {:induction false} EmptyLineIsWrittenAsBlanks(schema: ResponseParser.Schema, pkg: string)
    requires PlainField(pkg) && Csv.PlainText(pkg)
    ensures var n := |schema.rest|;
      ParseResult(ResponseParser.EmptyLine(schema, pkg))
        == if pkg == [] && n == 0 then None else Some([pkg] + Csv.Blanks(n))
    ensures |[pkg] + Csv.Blanks(|schema.rest|)| == |ResponseParser.Attributes(schema)|
  {
    var n := |schema.rest|;
    var line := ResponseParser.EmptyLine(schema, pkg);
    assert line == pkg + Repeat(',', n);
    if pkg == [] && n == 0 {
      assert line == [];
      assert Csv.Syms(line) == [];
    } else {
      Csv.PlainLineReadsBack(Csv.Dialect(true), pkg, n);
      BlankRowStripped(pkg, n);
    }
  }

  /** Stripping the fields of a blank row changes nothing. */
  lemma BlankRowStripped(pkg: string, n: nat)
    requires PlainField(pkg)
    ensures var fs := [pkg] + Csv.Blanks(n);
      seq(|fs|, i requires 0 <= i < |fs| => Strip(fs[i])) == fs
  {
    var fs := [pkg] + Csv.Blanks(n);
    var stripped := seq(|fs|, i requires 0 <= i < |fs| => Strip(fs[i]));
    forall i | 0 <= i < |fs| ensures stripped[i] == fs[i] {
      StripUnchanged(fs[i]);
    }
  }

  lemma {:induction false} TextAppendFormatted(row: seq<string>, rest: seq<seq<string>>)
    ensures Text([row] + rest) == Csv.FormatRow(row) + Text(rest)
  {
    assert ([row] + rest)[1..] == rest;
  }

  /** Whatever follows, the destination's first record is the header row. */
  lemma {:induction false} HeaderReadsFirst(d: Csv.Dialect, w: Writer)
    requires w.headed && Csv.FieldsFit(w.header)
    ensures Csv.ReadRecord(d, Text(Output(w))) == Ok(w.header)
  {
    var head := Csv.FormatRow(w.header);
    var rest := Text(w.rows);
    TextAppendFormatted(w.header, w.rows);
    Csv.FormatRowSyms(w.header);
    Csv.FormattedFieldsEndRecord(d, w.header);
    Csv.ExpandAppend(head, rest);
    assert head[|head| - 1] == '\n';
    Csv.SymsAfterLine(head, rest);
    Csv.FeedAppend(d, Csv.Initial, Csv.Expand(head), Csv.Syms(rest));
  }
}
