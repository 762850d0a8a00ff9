/**
 * Python's `csv` module as the result writer uses it: the reader's state
 * machine (delimiter `,`, quote character `"`, doubled quotes, no escape
 * character, non-strict, field size limit 131072) reading the first record
 * of an in-memory text, and the writer's `QUOTE_NONNUMERIC` row format for
 * rows of strings.
 *
 * The reader consumes the text line by line (lines end after each `\n`
 * and keep it) and, after every line, one end-of-line signal. Both are
 * flattened here into one stream of symbols.
 */
module Csv {
  import opened Wrappers
  import opened Strings

  /** The reader's default `field_size_limit` (128 * 1024 characters). */
  const FieldLimit: nat := 131072

  /** One input character, or the end-of-line signal sent after each line. */
  datatype Sym = Ch(c: char) | Eol

  datatype Mode = StartRecord | StartField | InField | InQuotedField | QuoteInQuotedField | EatCrnl

  /** The reader's state: the current mode, the saved fields and the field being read. */
  datatype Reader = Reader(mode: Mode, fields: seq<string>, field: string)

  /** The only dialect option that varies between the callers. */
  datatype Dialect = Dialect(skipInitialSpace: bool)

  /**
   * Why no record came back: the input was exhausted before a line
   * (`StopIteration`), a field outgrew the limit, or a character followed
   * a line break inside an unquoted field (both `csv.Error`).
   */
  datatype ReadError = EndOfInput | FieldTooLong | NewlineInUnquotedField

  /** Progress through a symbol stream: a finished read, or a reader waiting for more. */
  datatype Progress = Done(outcome: Result<seq<string>, ReadError>) | Pending(reader: Reader)

  const Initial: Reader := Reader(StartRecord, [], [])

  predicate IsNewline(c: char) {
    c == '\n' || c == '\r'
  }

  /** The symbols of one character: a `\n` ends its line. */
  function CharSyms(c: char): seq<Sym> {
    if c == '\n' then [Ch(c), Eol] else [Ch(c)]
  }

  /** The symbols of a text without the end-of-line signal of an unterminated last line. */
  function Expand(s: string): seq<Sym>
    decreases |s|
  {
    if s == [] then [] else CharSyms(s[0]) + Expand(s[1..])
  }

  /** The symbols the reader sees for a whole text. */
  function Syms(s: string): seq<Sym> {
    if s != [] && s[|s| - 1] != '\n' then Expand(s) + [Eol] else Expand(s)
  }

  function AddChar(r: Reader, c: char): Result<Reader, ReadError> {
    if |r.field| >= FieldLimit then Err(FieldTooLong) else Ok(r.(field := r.field + [c]))
  }

  function SaveField(r: Reader, next: Mode): Reader {
    Reader(next, r.fields + [r.field], [])
  }

  /** A line break, or the end-of-line signal, while a field may be open. */
  predicate EndsLine(s: Sym) {
    s.Eol? || IsNewline(s.c)
  }

  function LineEndMode(s: Sym): Mode {
    if s.Eol? then StartRecord else EatCrnl
  }

  function StartFieldStep(d: Dialect, r: Reader, s: Sym): Result<Reader, ReadError> {
    if EndsLine(s) then Ok(SaveField(r, LineEndMode(s)))
    else if s.c == '"' then Ok(r.(mode := InQuotedField))
    else if s.c == ' ' && d.skipInitialSpace then Ok(r.(mode := StartField))
    else if s.c == ',' then Ok(SaveField(r, StartField))
    else AddChar(r.(mode := InField), s.c)
  }

  /** One transition of the reader. */
  function Step(d: Dialect, r: Reader, s: Sym): Result<Reader, ReadError> {
    match r.mode
    case StartRecord =>
      if s.Eol? then Ok(r)
      else if IsNewline(s.c) then Ok(r.(mode := EatCrnl))
      else StartFieldStep(d, r.(mode := StartField), s)
    case StartField => StartFieldStep(d, r, s)
    case InField =>
      if EndsLine(s) then Ok(SaveField(r, LineEndMode(s)))
      else if s.c == ',' then Ok(SaveField(r, StartField))
      else AddChar(r, s.c)
    case InQuotedField =>
      if s.Eol? then Ok(r)
      else if s.c == '"' then Ok(r.(mode := QuoteInQuotedField))
      else AddChar(r, s.c)
    case QuoteInQuotedField =>
      if s.Ch? && s.c == '"' then AddChar(r.(mode := InQuotedField), s.c)
      else if s.Ch? && s.c == ',' then Ok(SaveField(r, StartField))
      else if EndsLine(s) then Ok(SaveField(r, LineEndMode(s)))
      else AddChar(r.(mode := InField), s.c)
    case EatCrnl =>
      if s.Eol? then Ok(r.(mode := StartRecord))
      else if IsNewline(s.c) then Ok(r)
      else Err(NewlineInUnquotedField)
  }

  /** Runs the reader until an end-of-line signal leaves it at the start of a record. */
  function Feed(d: Dialect, r: Reader, syms: seq<Sym>): Progress
    decreases |syms|
  {
    if syms == [] then Pending(r)
    else
      match Step(d, r, syms[0])
      case Err(e) => Done(Err(e))
      case Ok(next) =>
        if syms[0].Eol? && next.mode == StartRecord then Done(Ok(next.fields))
        else Feed(d, next, syms[1..])
  }

  /** End of input: a pending field (or an open quote) still makes a record. */
  function Finish(r: Reader): Result<seq<string>, ReadError> {
    if |r.field| != 0 || r.mode == InQuotedField then Ok(r.fields + [r.field]) else Err(EndOfInput)
  }

  /** `next(csv.reader(StringIO(s), ...))`: the first record of `s`. */
  function ReadRecord(d: Dialect, s: string): Result<seq<string>, ReadError> {
    match Feed(d, Initial, Syms(s))
    case Done(x) => x
    case Pending(r) => Finish(r)
  }

  /** A field's text with every `"` doubled. */
  function Double(f: string): string
    decreases |f|
  {
    if f == [] then [] else (if f[0] == '"' then "\"\"" else [f[0]]) + Double(f[1..])
  }

  /** The writer's form of a string field under `QUOTE_NONNUMERIC`: always quoted. */
  function QuoteField(f: string): string {
    "\"" + Double(f) + "\""
  }

  function QuoteFields(fs: seq<string>): seq<string> {
    seq(|fs|, i requires 0 <= i < |fs| => QuoteField(fs[i]))
  }

  /** `csv.writer(..., quoting=QUOTE_NONNUMERIC).writerow(fs)` for a row of strings. */
  function FormatRow(fs: seq<string>): string {
    Join(",", QuoteFields(fs)) + "\r\n"
  }

  predicate FieldsFit(fs: seq<string>) {
    forall i :: 0 <= i < |fs| ==> |fs[i]| <= FieldLimit
  }

  // ---------------------------------------------------------------------
  // Composition of the symbol stream
  // ---------------------------------------------------------------------

  lemma {:induction false} ExpandAppend(a: string, b: string)
    ensures Expand(a + b) == Expand(a) + Expand(b)
    decreases |a|
  {
    if a == [] {
      assert a + b == b;
    } else {
      assert (a + b)[0] == a[0];
      assert (a + b)[1..] == a[1..] + b;
      ExpandAppend(a[1..], b);
    }
  }

  /** After a complete line, the symbols of the rest follow those of the line. */
  lemma {:induction false} SymsAfterLine(a: string, b: string)
    requires a != [] && a[|a| - 1] == '\n'
    ensures Syms(a + b) == Expand(a) + Syms(b)
  {
    var tail := EolAfter(b);
    assert EolAfter(a + b) == tail by {
      if b != [] {
        assert (a + b)[|a + b| - 1] == b[|b| - 1];
      }
    }
    ExpandAppend(a, b);
    assert Expand(a + b) + tail == Expand(a) + (Expand(b) + tail);
  }

  /** The sentinel `Syms` adds after a last line without a newline. */
  function EolAfter(s: string): (r: seq<Sym>)
    ensures Syms(s) == Expand(s) + r
  {
    if s != [] && s[|s| - 1] != '\n' then [Eol] else []
  }



  /** Reading `a + b` is reading `a`, then reading `b` if `a` left a record open. */
  lemma {:induction false} FeedAppend(d: Dialect, r: Reader, a: seq<Sym>, b: seq<Sym>)
    ensures Feed(d, r, a + b) ==
      match Feed(d, r, a)
      case Done(x) => Done(x)
      case Pending(next) => Feed(d, next, b)
    decreases |a|
  {
    if a == [] {
      assert a + b == b;
    } else {
      assert (a + b)[0] == a[0];
      assert (a + b)[1..] == a[1..] + b;
      match Step(d, r, a[0])
      case Err(_) =>
      case Ok(next) =>
        if !(a[0].Eol? && next.mode == StartRecord) {
          FeedAppend(d, next, a[1..], b);
        }
    }
  }

  // ---------------------------------------------------------------------
  // Reading back what the writer wrote
  // ---------------------------------------------------------------------

  /** Inside quotes, a doubled field reads back as the field itself. */
  lemma {:induction false} QuotedRun(d: Dialect, fields: seq<string>, acc: string, f: string)
    requires |acc| + |f| <= FieldLimit
    ensures Feed(d, Reader(InQuotedField, fields, acc), Expand(Double(f)))
         == Pending(Reader(InQuotedField, fields, acc + f))
    decreases |f|
  {
    var r := Reader(InQuotedField, fields, acc);
    if f == [] {
      assert acc + f == acc;
    } else {
      var c := f[0];
      var head := DoubledChar(c);
      assert Double(f) == head + Double(f[1..]);
      ExpandAppend(head, Double(f[1..]));
      FeedAppend(d, r, Expand(head), Expand(Double(f[1..])));
      QuotedChar(d, fields, acc, c);
      QuotedRun(d, fields, acc + [c], f[1..]);
      assert acc + [c] + f[1..] == acc + f;
    }
  }

  /** How the writer spells one character inside quotes. */
  function DoubledChar(c: char): string {
    if c == '"' then "\"\"" else [c]
  }

  /** Inside quotes, the spelling of one character adds exactly that character. */
  lemma QuotedChar(d: Dialect, fields: seq<string>, acc: string, c: char)
    requires |acc| < FieldLimit
    ensures Feed(d, Reader(InQuotedField, fields, acc), Expand(DoubledChar(c)))
         == Pending(Reader(InQuotedField, fields, acc + [c]))
  {
    if c == '"' {
      QuotedQuote(d, fields, acc);
    } else if c == '\n' {
      QuotedNewline(d, fields, acc);
    } else {
      QuotedPlain(d, fields, acc, c);
    }
  }

  lemma QuotedQuote(d: Dialect, fields: seq<string>, acc: string)
    requires |acc| < FieldLimit
    ensures Feed(d, Reader(InQuotedField, fields, acc), Expand("\"\""))
         == Pending(Reader(InQuotedField, fields, acc + ['"']))
  {
    var r := Reader(InQuotedField, fields, acc);
    var next := Reader(InQuotedField, fields, acc + ['"']);
    var mid := Reader(QuoteInQuotedField, fields, acc);
    assert Expand("\"\"") == [Ch('"'), Ch('"')];
    assert Step(d, r, Ch('"')) == Ok(mid);
    assert Step(d, mid, Ch('"')) == Ok(next);
    assert Feed(d, next, []) == Pending(next);
    assert Feed(d, mid, [Ch('"')]) == Pending(next);
  }

  lemma QuotedNewline(d: Dialect, fields: seq<string>, acc: string)
    requires |acc| < FieldLimit
    ensures Feed(d, Reader(InQuotedField, fields, acc), Expand("\n"))
         == Pending(Reader(InQuotedField, fields, acc + ['\n']))
  {
    var r := Reader(InQuotedField, fields, acc);
    var next := Reader(InQuotedField, fields, acc + ['\n']);
    assert Expand("\n") == [Ch('\n'), Eol];
    assert Step(d, r, Ch('\n')) == Ok(next);
    assert Step(d, next, Eol) == Ok(next);
    assert Feed(d, next, []) == Pending(next);
    assert Feed(d, next, [Eol]) == Pending(next);
  }

  lemma QuotedPlain(d: Dialect, fields: seq<string>, acc: string, c: char)
    requires |acc| < FieldLimit && c != '"' && c != '\n'
    ensures Feed(d, Reader(InQuotedField, fields, acc), Expand([c]))
         == Pending(Reader(InQuotedField, fields, acc + [c]))
  {
    var r := Reader(InQuotedField, fields, acc);
    var next := Reader(InQuotedField, fields, acc + [c]);
    assert Expand([c]) == [Ch(c)];
    assert Step(d, r, Ch(c)) == Ok(next);
    assert Feed(d, next, []) == Pending(next);
  }


  /** One quoted field, read from the start of a field. */
  lemma {:induction false} OneQuotedField(d: Dialect, m: Mode, fields: seq<string>, f: string)
    requires m == StartRecord || m == StartField
    requires |f| <= FieldLimit
    ensures Feed(d, Reader(m, fields, []), Expand(QuoteField(f)))
         == Pending(Reader(QuoteInQuotedField, fields, f))
  {
    var r := Reader(m, fields, []);
    var open := Reader(InQuotedField, fields, []);
    ExpandAppend("\"", Double(f));
    ExpandAppend("\"" + Double(f), "\"");
    assert Expand(QuoteField(f)) == [Ch('"')] + Expand(Double(f)) + [Ch('"')];
    FeedAppend(d, r, [Ch('"')], Expand(Double(f)));
    assert Feed(d, r, [Ch('"')]) == Pending(open);
    QuotedRun(d, fields, [], f);
    assert [] + f == f;
    FeedAppend(d, r, [Ch('"')] + Expand(Double(f)), [Ch('"')]);
  }

  /**
   * The joined quoted fields leave the reader just after the last closing
   * quote, with every earlier field saved.
   */
  lemma {:induction false} JoinedFieldsRun(d: Dialect, m: Mode, fields: seq<string>, fs: seq<string>)
    requires m == StartRecord || m == StartField
    requires fs != [] && FieldsFit(fs)
    ensures Feed(d, Reader(m, fields, []), Expand(Join(",", QuoteFields(fs))))
         == Pending(Reader(QuoteInQuotedField, fields + fs[..|fs| - 1], fs[|fs| - 1]))
    decreases |fs|
  {
    var q := QuoteFields(fs);
    OneQuotedField(d, m, fields, fs[0]);
    if |fs| == 1 {
      assert Join(",", q) == QuoteField(fs[0]);
      assert fields + fs[..0] == fields;
    } else {
      var r := Reader(m, fields, []);
      var first := Expand(QuoteField(fs[0]));
      var rest := Join(",", QuoteFields(fs[1..]));
      JoinedExpand(fs);
      FeedAppend(d, r, first + [Ch(',')], Expand(rest));
      CommaClosesField(d, r, first, fields, fs[0]);
      JoinedFieldsRun(d, StartField, fields + [fs[0]], fs[1..]);
      SavedPrefix(fields, fs);
    }
  }

  lemma SavedPrefix(fields: seq<string>, fs: seq<string>)
    requires |fs| >= 2
    ensures fields + [fs[0]] + fs[1..][..|fs[1..]| - 1] == fields + fs[..|fs| - 1]
  {
    assert [fs[0]] + fs[1..][..|fs[1..]| - 1] == fs[..|fs| - 1];
  }

  /** The symbols of a joined row: the first quoted field, a comma, the rest. */
  lemma {:induction false} JoinedExpand(fs: seq<string>)
    requires |fs| >= 2
    ensures Expand(Join(",", QuoteFields(fs)))
         == Expand(QuoteField(fs[0])) + [Ch(',')] + Expand(Join(",", QuoteFields(fs[1..])))
  {
    var q := QuoteFields(fs);
    assert q[1..] == QuoteFields(fs[1..]);
    var rest := Join(",", QuoteFields(fs[1..]));
    assert Join(",", q) == QuoteField(fs[0]) + "," + rest;
    ExpandAppend(QuoteField(fs[0]), ",");
    ExpandAppend(QuoteField(fs[0]) + ",", rest);
    assert Expand(",") == [Ch(',')];
  }

  /** A comma after a closing quote saves the field and starts the next. */
  lemma CommaClosesField(d: Dialect, r: Reader, first: seq<Sym>, fields: seq<string>, f: string)
    requires Feed(d, r, first) == Pending(Reader(QuoteInQuotedField, fields, f))
    ensures Feed(d, r, first + [Ch(',')]) == Pending(Reader(StartField, fields + [f], []))
  {
    var mid := Reader(QuoteInQuotedField, fields, f);
    var nxt := Reader(StartField, fields + [f], []);
    assert Step(d, mid, Ch(',')) == Ok(nxt);
    assert Feed(d, nxt, []) == Pending(nxt);
    assert Feed(d, mid, [Ch(',')]) == Pending(nxt);
    FeedAppend(d, r, first, [Ch(',')]);
  }

  /** From the start of a record, the joined quoted fields leave the last one open after its closing quote. */
  lemma {:induction false} BodyRun(d: Dialect, fs: seq<string>)
    requires fs != [] && FieldsFit(fs)
    ensures Feed(d, Initial, Expand(Join(",", QuoteFields(fs))))
         == Pending(Reader(QuoteInQuotedField, fs[..|fs| - 1], fs[|fs| - 1]))
  {
    JoinedFieldsRun(d, StartRecord, [], fs);
    assert [] + fs[..|fs| - 1] == fs[..|fs| - 1];
  }

  lemma LastSplit(fs: seq<string>)
    requires fs != []
    ensures fs[..|fs| - 1] + [fs[|fs| - 1]] == fs
  {
  }


  /** The row the writer writes reads back as the same row, in any dialect. */
  lemma {:induction false} FormatRowReadsBack(d: Dialect, fs: seq<string>)
    requires FieldsFit(fs)
    ensures ReadRecord(d, FormatRow(fs)) == Ok(fs)
  {
    FormatRowSyms(fs);
    FormattedFieldsEndRecord(d, fs);
  }

  lemma {:induction false} FormattedFieldsEndRecord(d: Dialect, fs: seq<string>)
    requires FieldsFit(fs)
    ensures Feed(d, Initial, Expand(Join(",", QuoteFields(fs))) + [Ch('\r'), Ch('\n'), Eol]) == Done(Ok(fs))
  {
    if fs == [] {
      EmptyRowEndsRecord(d);
    } else {
      var body := Join(",", QuoteFields(fs));
      var last := Reader(QuoteInQuotedField, fs[..|fs| - 1], fs[|fs| - 1]);
      BodyRun(d, fs);
      FeedAppend(d, Initial, Expand(body), [Ch('\r'), Ch('\n'), Eol]);
      TerminatorEndsRecord(d, last);
      LastSplit(fs);
    }
  }


  lemma EmptyRowEndsRecord(d: Dialect)
    ensures Feed(d, Initial, Expand(Join(",", QuoteFields([]))) + [Ch('\r'), Ch('\n'), Eol]) == Done(Ok([]))
  {
    assert QuoteFields([]) == [];
    assert Join(",", QuoteFields([])) == "";
    assert Expand("") == [];
    assert [] + [Ch('\r'), Ch('\n'), Eol] == [Ch('\r'), Ch('\n'), Eol];
    TerminatorEndsRecord(d, Initial);
  }

  lemma {:induction false} FormatRowSyms(fs: seq<string>)
    ensures Syms(FormatRow(fs)) == Expand(Join(",", QuoteFields(fs))) + [Ch('\r'), Ch('\n'), Eol]
  {
    var body := Join(",", QuoteFields(fs));
    var s := FormatRow(fs);
    ExpandAppend(body, "\r\n");
    assert Expand("\r\n") == [Ch('\r'), Ch('\n'), Eol];
    assert s[|s| - 1] == '\n';
  }

  /** The writer's `\r\n` terminator ends the record after a closing quote, or an empty one. */
  lemma {:induction false} TerminatorEndsRecord(d: Dialect, r: Reader)
    requires r.mode == QuoteInQuotedField || r == Initial
    ensures Feed(d, r, [Ch('\r'), Ch('\n'), Eol])
         == Done(Ok(if r == Initial then [] else r.fields + [r.field]))
  {
    var eat := if r == Initial then r.(mode := EatCrnl) else SaveField(r, EatCrnl);
    assert Step(d, r, Ch('\r')) == Ok(eat);
    assert Step(d, eat, Ch('\n')) == Ok(eat);
    assert Step(d, eat, Eol) == Ok(eat.(mode := StartRecord));
    assert Feed(d, eat, [Eol]) == Done(Ok(eat.fields));
    assert [Ch('\r'), Ch('\n'), Eol][1..] == [Ch('\n'), Eol];
    assert Feed(d, eat, [Ch('\n'), Eol]) == Done(Ok(eat.fields));
  }

  /** Without a `"` in the text, doubling changes nothing. */
  lemma {:induction false} DoubleNoQuote(f: string)
    requires '"' !in f
    ensures Double(f) == f
    decreases |f|
  {
    if f != [] {
      DoubleNoQuote(f[1..]);
    }
  }

  /**
   * Values each wrapped in quotes, with no doubling, and joined by commas
   * without a line terminator: the line `json_to_csv` renders.
   */
  function QuoteJoin(vs: seq<string>): string {
    Join(",", seq(|vs|, i requires 0 <= i < |vs| => "\"" + vs[i] + "\""))
  }

  /** Values with no `"` read back from their rendered line as themselves. */
  lemma {:induction false} QuoteJoinReadsBack(d: Dialect, fs: seq<string>)
    requires fs != [] && FieldsFit(fs)
    requires forall i :: 0 <= i < |fs| ==> '"' !in fs[i]
    ensures ReadRecord(d, QuoteJoin(fs)) == Ok(fs)
  {
    QuoteJoinIsQuoted(fs);
    QuotedBodyReadsBack(d, fs);
  }

  /** Without `"` in the values, doubling changes nothing and the two renderings agree. */
  lemma {:induction false} QuoteJoinIsQuoted(fs: seq<string>)
    requires forall i :: 0 <= i < |fs| ==> '"' !in fs[i]
    ensures QuoteJoin(fs) == Join(",", QuoteFields(fs))
  {
    forall i | 0 <= i < |fs|
      ensures QuoteFields(fs)[i] == "\"" + fs[i] + "\""
    {
      DoubleNoQuote(fs[i]);
    }
    assert QuoteFields(fs) == seq(|fs|, i requires 0 <= i < |fs| => "\"" + fs[i] + "\"");
  }

  /** The quoted, comma-joined fields, read alone, give back the fields. */
  lemma {:induction false} QuotedBodyReadsBack(d: Dialect, fs: seq<string>)
    requires fs != [] && FieldsFit(fs)
    ensures Feed(d, Initial, Syms(Join(",", QuoteFields(fs)))) == Done(Ok(fs))
  {
    var s := Join(",", QuoteFields(fs));
    JoinEndsWithQuote(fs);
    assert EolAfter(s) == [Eol];
    var last := Reader(QuoteInQuotedField, fs[..|fs| - 1], fs[|fs| - 1]);
    BodyRun(d, fs);
    FeedAppend(d, Initial, Expand(s), [Eol]);
    ClosingEol(d, last);
    LastSplit(fs);
  }

  /** The end of the text after a closing quote ends the record. */
  lemma ClosingEol(d: Dialect, r: Reader)
    requires r.mode == QuoteInQuotedField
    ensures Feed(d, r, [Eol]) == Done(Ok(r.fields + [r.field]))
  {
    assert Step(d, r, Eol) == Ok(SaveField(r, StartRecord));
  }


  lemma {:induction false} JoinEndsWithQuote(fs: seq<string>)
    requires fs != []
    ensures Join(",", QuoteFields(fs)) != []
    ensures Join(",", QuoteFields(fs))[|Join(",", QuoteFields(fs))| - 1] == '"'
    decreases |fs|
  {
    var q := QuoteFields(fs);
    if |fs| > 1 {
      assert q[1..] == QuoteFields(fs[1..]);
      JoinEndsWithQuote(fs[1..]);
    }
  }

  // ---------------------------------------------------------------------
  // Reading an unquoted line
  // ---------------------------------------------------------------------

  /** Text the reader takes character by character outside quotes: no separator, quote or line break. */
  predicate PlainText(f: string) {
    forall i :: 0 <= i < |f| ==> f[i] != ',' && f[i] != '"' && !IsNewline(f[i])
  }

  /** `n` empty fields. */
  function Blanks(n: nat): (r: seq<string>)
    ensures |r| == n && forall i :: 0 <= i < n ==> r[i] == []
  {
    seq(n, _ => [])
  }

  /** Outside quotes, a run of ordinary characters is added to the open field. */
  lemma {:induction false} PlainRun(d: Dialect, fields: seq<string>, acc: string, f: string)
    requires PlainText(f) && |acc| + |f| <= FieldLimit
    ensures Feed(d, Reader(InField, fields, acc), Expand(f)) == Pending(Reader(InField, fields, acc + f))
    decreases |f|
  {
    var r := Reader(InField, fields, acc);
    if f == [] {
      assert acc + f == acc;
    } else {
      var c := f[0];
      assert Expand(f) == [Ch(c)] + Expand(f[1..]);
      FeedAppend(d, r, [Ch(c)], Expand(f[1..]));
      assert Step(d, r, Ch(c)) == Ok(Reader(InField, fields, acc + [c]));
      assert Feed(d, r, [Ch(c)]) == Pending(Reader(InField, fields, acc + [c]));
      assert PlainText(f[1..]) by {
        forall i | 0 <= i < |f[1..]| ensures f[1..][i] == f[i + 1] { }
      }
      PlainRun(d, fields, acc + [c], f[1..]);
      assert acc + [c] + f[1..] == acc + f;
    }
  }

  /** At the start of a field, each comma closes one more empty field. */
  lemma {:induction false} CommaRun(d: Dialect, fields: seq<string>, n: nat)
    ensures Feed(d, Reader(StartField, fields, []), Expand(Repeat(',', n)))
         == Pending(Reader(StartField, fields + Blanks(n), []))
    decreases n
  {
    var r := Reader(StartField, fields, []);
    if n == 0 {
      assert Repeat(',', 0) == [];
      assert fields + Blanks(0) == fields;
    } else {
      assert Repeat(',', n) == [','] + Repeat(',', n - 1);
      ExpandAppend([','], Repeat(',', n - 1));
      assert Expand([',']) == [Ch(',')];
      FeedAppend(d, r, [Ch(',')], Expand(Repeat(',', n - 1)));
      assert Feed(d, r, [Ch(',')]) == Pending(Reader(StartField, fields + [[]], []));
      CommaRun(d, fields + [[]], n - 1);
      assert fields + [[]] + Blanks(n - 1) == fields + Blanks(n);
    }
  }

  /** The reader after the first field of a line, before the separator that follows it. */
  function AfterField(f: string): Reader {
    if f == [] then Initial else Reader(InField, [], f)
  }

  /** A plain first field is read into the open field. */
  lemma {:induction false} PlainFieldRun(d: Dialect, f: string)
    requires PlainText(f) && |f| <= FieldLimit && (f == [] || f[0] != ' ')
    ensures Feed(d, Initial, Expand(f)) == Pending(AfterField(f))
  {
    if f != [] {
      var c := f[0];
      assert c != ',' && c != '"' && !IsNewline(c);
      assert Expand(f) == [Ch(c)] + Expand(f[1..]);
      FeedAppend(d, Initial, [Ch(c)], Expand(f[1..]));
      var r := Initial.(mode := StartField);
      assert Step(d, Initial, Ch(c)) == StartFieldStep(d, r, Ch(c));
      assert StartFieldStep(d, r, Ch(c)) == AddChar(r.(mode := InField), c);
      var empty: string := [];
      assert empty + [c] == [c];
      assert AddChar(r.(mode := InField), c) == Ok(Reader(InField, [], [c]));
      assert PlainText(f[1..]) by {
        forall i | 0 <= i < |f[1..]| ensures f[1..][i] == f[i + 1] { }
      }
      PlainRun(d, [], [c], f[1..]);
      assert [c] + f[1..] == f;
    }
  }

  /** The separator after the first field closes it. */
  lemma FirstComma(d: Dialect, f: string)
    ensures Feed(d, AfterField(f), [Ch(',')]) == Pending(Reader(StartField, [f], []))
  {
    if f == [] {
      var r := Initial.(mode := StartField);
      assert StartFieldStep(d, r, Ch(',')) == Ok(SaveField(r, StartField));
      assert SaveField(r, StartField) == Reader(StartField, [f], []);
    } else {
      var r := AfterField(f);
      assert Step(d, r, Ch(',')) == Ok(SaveField(r, StartField));
      assert SaveField(r, StartField) == Reader(StartField, [f], []);
    }
  }

  /** The symbols of a line of one field and `n` commas, without a newline. */
  lemma {:induction false} PlainLineSyms(f: string, n: nat)
    requires PlainText(f) && (f != [] || n > 0)
    ensures Syms(f + Repeat(',', n)) == Expand(f) + (Expand(Repeat(',', n)) + [Eol])
  {
    var commas := Repeat(',', n);
    var s := f + commas;
    assert s != [] && s[|s| - 1] != '\n' by {
      if n > 0 {
        assert s[|s| - 1] == commas[n - 1];
      } else {
        assert s == f;
        assert !IsNewline(f[|f| - 1]);
      }
    }
    ExpandAppend(f, commas);
  }

  /** After the first field, `n` commas and the end of the text finish the record. */
  lemma {:induction false} CommasEndRecord(d: Dialect, f: string, n: nat)
    requires f != [] || n > 0
    ensures Feed(d, AfterField(f), Expand(Repeat(',', n)) + [Eol]) == Done(Ok([f] + Blanks(n)))
  {
    var commas := Repeat(',', n);
    if n == 0 {
      assert Expand(commas) + [Eol] == [Eol];
      var r := AfterField(f);
      assert Step(d, r, Eol) == Ok(SaveField(r, StartRecord));
      assert SaveField(r, StartRecord) == Reader(StartRecord, [f], []);
      assert [f] + Blanks(0) == [f];
    } else {
      var more := Repeat(',', n - 1);
      assert commas == [','] + more;
      ExpandAppend([','], more);
      assert Expand([',']) == [Ch(',')];
      assert Expand(commas) + [Eol] == [Ch(',')] + (Expand(more) + [Eol]);
      FeedAppend(d, AfterField(f), [Ch(',')], Expand(more) + [Eol]);
      FirstComma(d, f);
      var open := Reader(StartField, [f], []);
      FeedAppend(d, open, Expand(more), [Eol]);
      CommaRun(d, [f], n - 1);
      var last := Reader(StartField, [f] + Blanks(n - 1), []);
      assert Step(d, last, Eol) == Ok(SaveField(last, StartRecord));
      assert SaveField(last, StartRecord).fields == [f] + Blanks(n);
    }
  }

  /**
   * A line of one plain field followed by `n` commas, as `get_empty_response`
   * writes it, reads as that field and `n` empty fields.
   */
  lemma {:induction false} PlainLineReadsBack(d: Dialect, f: string, n: nat)
    requires PlainText(f) && |f| <= FieldLimit && (f == [] || f[0] != ' ')
    requires f != [] || n > 0
    ensures ReadRecord(d, f + Repeat(',', n)) == Ok([f] + Blanks(n))
  {
    var tail := Expand(Repeat(',', n)) + [Eol];
    PlainLineSyms(f, n);
    PlainFieldRun(d, f);
    FeedAppend(d, Initial, Expand(f), tail);
    CommasEndRecord(d, f, n);
  }
}
