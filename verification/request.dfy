/**
 * `RequestManger` (request.py): the retry loop of `do_request`, the row
 * loop of `run` with its query restriction, and the `_log_progress`
 * predicate.  The query handler is an oracle that, for a package row and
 * an attempt number, raises a `ServerError`, raises any other exception,
 * or replies with a text; sleeping is recorded as the list of pauses.
 */
module Request {
  import opened Wrappers
  import opened ResponseParser
  import ResultsWriter

  /** `RETRY_COUNT`. */
  const RetryCount: nat := 3

  /** `PACKAGE_LOG_ITERATIONS`, the default `log_iterations`. */
  const PackageLogIterations: int := 10

  /** What one call of the query handler does. */
  datatype Outcome = ServerError | OtherError | Reply(text: string)

  /** How `do_request` ends: with a line, or with an exception other than `ServerError` escaping. */
  datatype Answer = Answered(line: string) | Raised

  /** The outcome of attempt `k` (1-based). */
  type Oracle = nat -> Outcome

  /** `2 ** attempt`: the pause after a `ServerError` on that attempt. */
  function Pow2(k: nat): (r: nat)
    ensures r >= 1
  {
    if k == 0 then 1 else 2 * Pow2(k - 1)
  }

  function Sum(s: seq<nat>): nat
    decreases |s|
  {
    if s == [] then 0 else s[0] + Sum(s[1..])
  }

  /**
   * What the retry loop needs of the handler for one package: the parse of
   * a reply (`parse_response(response, package_name)`) and the empty
   * response (`get_empty_response(package_name)`).
   */
  datatype Handling = Handling(parse: string -> ParseOutcome, empty: string)

  /** The handling of a package by a parser. */
  function HandlingFor(p: Parser, pkg: string): (h: Handling)
    ensures h.empty == EmptyLine(p.schema, pkg)
    ensures forall text :: h.parse(text) == Parse(p, text, pkg)
  {
    Handling(text => Parse(p, text, pkg), EmptyLine(p.schema, pkg))
  }

  /** The line a finished loop answers with: the last parse, or the empty response if none. */
  function Fallback(h: Handling, parsed: Option<string>): string {
    if parsed.Some? then parsed.value else h.empty
  }

  /**
   * A reference description of `do_request` from attempt `k` on, given the
   * last parse so far: the answer, the number of handler calls, and the
   * pauses slept.
   */
  function Attempts(h: Handling, outcome: Oracle, k: nat, parsed: Option<string>): (r: (Answer, nat, seq<nat>))
    requires 1 <= k <= RetryCount + 1
    ensures (if k <= RetryCount then k else k - 1) <= r.1 <= RetryCount
    decreases RetryCount + 1 - k
  {
    if k > RetryCount then (Answered(Fallback(h, parsed)), k - 1, [])
    else
      match outcome(k)
      case OtherError => (Raised, k, [])
      case ServerError =>
        var rest := Attempts(h, outcome, k + 1, parsed);
        (rest.0, rest.1, [Pow2(k)] + rest.2)
      case Reply(text) =>
        var o := h.parse(text);
        if o.error.None? then (Answered(o.line), k, [])
        else Attempts(h, outcome, k + 1, Some(o.line))
  }

  /**
   * `do_request`.  `staleError` is whatever `last_error` the parser kept
   * from an earlier package; because every handler call resets it, the
   * answer does not depend on it.
   */
  method DoRequest(h: Handling, outcome: Oracle, staleError: Option<ParseError>)
    returns (answer: Answer, calls: nat, sleeps: seq<nat>)
    ensures (answer, calls, sleeps) == Attempts(h, outcome, 1, None)
    ensures 1 <= calls <= RetryCount
  {
    var attempt: nat := 0;
    var parsed: Option<string> := None;
    var lastError := staleError;
    sleeps := [];
    ghost var whole := Attempts(h, outcome, 1, None);
    assert [] + whole.2 == whole.2;
    while attempt < RetryCount
      invariant attempt <= RetryCount
      invariant attempt == 0 ==> parsed.None?
      invariant var rest := Attempts(h, outcome, attempt + 1, parsed);
        whole.0 == rest.0 && whole.1 == rest.1 && whole.2 == sleeps + rest.2
      decreases RetryCount - attempt
    {
      ghost var before := Attempts(h, outcome, attempt + 1, parsed);
      attempt := attempt + 1;
      lastError := None;
      match outcome(attempt)
      case OtherError =>
        assert sleeps + [] == sleeps;
        return Raised, attempt, sleeps;
      case ServerError =>
        var rest := Attempts(h, outcome, attempt + 1, parsed);
        assert before.2 == [Pow2(attempt)] + rest.2;
        assert sleeps + ([Pow2(attempt)] + rest.2) == (sleeps + [Pow2(attempt)]) + rest.2;
        sleeps := sleeps + [Pow2(attempt)];
      case Reply(text) =>
        var o := h.parse(text);
        parsed := Some(o.line);
        if o.error.Some? {
          lastError := o.error;
        }
        if lastError.None? {
          assert sleeps + [] == sleeps;
          return Answered(o.line), attempt, sleeps;
        }
    }
    answer := Answered(Fallback(h, parsed));
    calls := attempt;
    assert sleeps + [] == sleeps;
  }

  // ---------------------------------------------------------------------
  // Properties of the retry loop
  // ---------------------------------------------------------------------

  /** Attempt `k` ends the loop: the handler raised something other than a `ServerError`, or a parse left no error. */
  predicate StopsAt(h: Handling, outcome: Oracle, k: nat) {
    outcome(k).OtherError? || (outcome(k).Reply? && h.parse(outcome(k).text).error.None?)
  }

  /**
   * The first attempt that stops the loop decides it: that many calls,
   * and either the escaping exception or that attempt's parse.
   */
  lemma {:induction false} FirstStopDecides(h: Handling, outcome: Oracle, k: nat, parsed: Option<string>, n: nat)
    requires 1 <= k <= n <= RetryCount
    requires forall j :: k <= j < n ==> !StopsAt(h, outcome, j)
    requires StopsAt(h, outcome, n)
    ensures Attempts(h, outcome, k, parsed).1 == n
    ensures Attempts(h, outcome, k, parsed).0 ==
      if outcome(n).OtherError? then Raised else Answered(h.parse(outcome(n).text).line)
    decreases n - k
  {
    if k < n {
      assert !StopsAt(h, outcome, k);
      match outcome(k)
      case ServerError =>
        FirstStopDecides(h, outcome, k + 1, parsed, n);
      case Reply(text) =>
        FirstStopDecides(h, outcome, k + 1, Some(h.parse(text).line), n);
    }
  }

  /** The parse of the most recent reply among attempts `1..n`, if there was one. */
  function LatestParse(h: Handling, outcome: Oracle, n: nat): Option<string>
    decreases n
  {
    if n == 0 then None
    else if outcome(n).Reply? then Some(h.parse(outcome(n).text).line)
    else LatestParse(h, outcome, n - 1)
  }

  /**
   * When no attempt stops the loop, all three calls are made and the answer
   * is the parse of the most recent reply, even though it recorded an
   * error; with no reply at all it is the empty response.
   */
  lemma {:induction false} NoStopFallsBack(h: Handling, outcome: Oracle, k: nat, parsed: Option<string>)
    requires 1 <= k <= RetryCount + 1
    requires forall j :: k <= j <= RetryCount ==> !StopsAt(h, outcome, j)
    requires parsed == LatestParse(h, outcome, k - 1)
    ensures Attempts(h, outcome, k, parsed).1 == RetryCount
    ensures Attempts(h, outcome, k, parsed).0 == Answered(Fallback(h, LatestParse(h, outcome, RetryCount)))
    decreases RetryCount + 1 - k
  {
    if k <= RetryCount {
      assert !StopsAt(h, outcome, k);
      match outcome(k)
      case ServerError =>
        NoStopFallsBack(h, outcome, k + 1, parsed);
      case Reply(text) =>
        NoStopFallsBack(h, outcome, k + 1, Some(h.parse(text).line));
    }
  }

  /** Only a `ServerError` pauses, for `2 ** attempt` seconds: at most 2 + 4 + 8 = 14 seconds in all. */
  lemma {:induction false} PausesBounded(h: Handling, outcome: Oracle, k: nat, parsed: Option<string>)
    requires 1 <= k <= RetryCount + 1
    ensures Sum(Attempts(h, outcome, k, parsed).2) + Pow2(k) <= Pow2(RetryCount + 1)
    ensures |Attempts(h, outcome, k, parsed).2| <= RetryCount + 1 - k
    decreases RetryCount + 1 - k
  {
    if k <= RetryCount {
      match outcome(k)
      case OtherError =>
        PowGrows(k);
      case ServerError =>
        PausesBounded(h, outcome, k + 1, parsed);
        var rest := Attempts(h, outcome, k + 1, parsed).2;
        assert Sum([Pow2(k)] + rest) == Pow2(k) + Sum(rest) by {
          assert ([Pow2(k)] + rest)[1..] == rest;
        }
      case Reply(text) =>
        if h.parse(text).error.None? {
          PowGrows(k);
        } else {
          PausesBounded(h, outcome, k + 1, Some(h.parse(text).line));
          PowGrows(k);
        }
    }
  }

  lemma {:induction false} PowGrows(k: nat)
    requires k <= RetryCount + 1
    ensures Pow2(k) <= Pow2(RetryCount + 1)
    decreases RetryCount + 1 - k
  {
    if k < RetryCount + 1 {
      PowGrows(k + 1);
    }
  }

  /** The whole of `do_request` pauses at most 14 seconds. */
  lemma {:induction false} TotalPauseAtMost14(h: Handling, outcome: Oracle)
    ensures Sum(Attempts(h, outcome, 1, None).2) <= 14
  {
    PausesBounded(h, outcome, 1, None);
    assert Pow2(1) == 2 && Pow2(RetryCount + 1) == 16;
  }

  /** Three `ServerError`s: three calls, pauses of 2, 4 and 8 seconds, and the empty response. */
  lemma {:induction false} AllServerErrors(h: Handling, outcome: Oracle)
    requires outcome(1) == ServerError && outcome(2) == ServerError && outcome(3) == ServerError
    ensures Attempts(h, outcome, 1, None) == (Answered(h.empty), 3, [2, 4, 8])
  {
    assert Pow2(1) == 2 && Pow2(2) == 4 && Pow2(3) == 8;
    var a4 := Attempts(h, outcome, 4, None);
    assert a4 == (Answered(h.empty), 3, []);
    var a3 := Attempts(h, outcome, 3, None);
    assert a3 == (a4.0, a4.1, [Pow2(3)] + a4.2);
    assert [Pow2(3)] + a4.2 == [8];
    assert a3 == (Answered(h.empty), 3, [8]);
    var a2 := Attempts(h, outcome, 2, None);
    assert a2 == (a3.0, a3.1, [Pow2(2)] + a3.2);
    assert [Pow2(2)] + a3.2 == [4, 8];
    assert Attempts(h, outcome, 1, None) == (a2.0, a2.1, [Pow2(1)] + a2.2);
    assert [Pow2(1)] + a2.2 == [2, 4, 8];
  }

  // ---------------------------------------------------------------------
  // `_log_progress`
  // ---------------------------------------------------------------------

  /** Why `run` ends with an exception. */
  datatype RunError =
    | MissingHeader            // `next(package_reader)` on an empty input
    | ShortRow(index: nat)     // `row[0]`, `row[2]` or `row[3]` out of range
    | RequestRaised(index: nat)
    | WriteRaised(index: nat)
    | ZeroLogIterations        // `idx % self.log_iterations` with zero iterations

  /** An exception raised inside the `with CSVResultsWriter(...)` block, and the writer at that moment. */
  datatype Raise = Raise(error: RunError, writer: ResultsWriter.Writer)

  /**
   * How `run` ends with an exception: the error and, when it was raised
   * after the writer was entered, the writer as `__exit__` leaves it.
   */
  datatype Failure = Failure(error: RunError, writer: Option<ResultsWriter.Writer>)

  /**
   * `_log_progress`: whether row `idx` is logged.  The modulo is evaluated
   * before `force_log` is consulted, so zero iterations raise even when
   * forced.  Python's `%` and Dafny's differ in sign for a negative divisor,
   * but agree on when the remainder is zero.
   */
  function LogProgress(idx: nat, logIterations: int, force: bool): (r: Result<bool, RunError>)
    ensures r.Err? <==> logIterations == 0
    ensures r.Err? ==> r.error == ZeroLogIterations
    ensures r.Ok? ==> (r.value <==> force || MultipleOf(idx, logIterations))
  {
    if logIterations == 0 then Err(ZeroLogIterations)
    else
      ModZeroIsMultiple(idx, logIterations);
      Ok(idx % logIterations == 0 || force)
  }

  function Abs(n: int): nat {
    if n < 0 then -n else n
  }

  /** `idx` is a multiple of `n`: taking `|n|` away repeatedly reaches zero. */
  predicate MultipleOf(idx: nat, n: int)
    requires n != 0
    decreases idx
  {
    if idx < Abs(n) then idx == 0 else MultipleOf(idx - Abs(n), n)
  }

  lemma {:induction false} ModZeroIsMultiple(idx: nat, n: int)
    requires n != 0
    ensures idx % n == 0 <==> MultipleOf(idx, n)
    decreases idx
  {
    if idx >= Abs(n) {
      ModZeroIsMultiple(idx - Abs(n), n);
      ModShift(idx, n);
    }
  }

  lemma {:induction false} ModShift(idx: nat, n: int)
    requires n != 0 && idx >= Abs(n)
    ensures idx % n == (idx - Abs(n)) % n
  {
    var q := idx / n;
    var r := idx % n;
    var q' := if n > 0 then q - 1 else q + 1;
    assert n * q' == n * q - Abs(n);
    ModUnique(idx - Abs(n), n, q', r);
  }

  /** Euclidean division has one quotient and one remainder. */
  lemma {:induction false} ModUnique(a: int, n: int, q: int, r: int)
    requires n != 0 && a == n * q + r && 0 <= r < Abs(n)
    ensures a % n == r
  {
    var q0 := a / n;
    var r0 := a % n;
    assert n * (q - q0) == r0 - r;
    if q != q0 {
      MulBound(n, q - q0);
    }
  }

  lemma {:induction false} MulBound(n: int, d: int)
    requires n != 0 && d != 0
    ensures Abs(n * d) >= Abs(n)
  {
    if d > 0 {
      MulNonNeg(Abs(n), d - 1);
      assert Abs(n) * (d - 1) == Abs(n * d) - Abs(n);
    } else {
      MulNonNeg(Abs(n), -d - 1);
      assert Abs(n) * (-d - 1) == Abs(n * d) - Abs(n);
    }
  }

  lemma {:induction false} MulNonNeg(a: nat, b: nat)
    ensures a * b >= 0
    decreases b
  {
    if b > 0 {
      MulNonNeg(a, b - 1);
      assert a * b == a * (b - 1) + a;
    }
  }

  /** With the default of ten iterations, rows 0, 10, 20, ... are logged. */
  lemma DefaultLogsEveryTenth(k: nat)
    ensures LogProgress(10 * k, PackageLogIterations, false) == Ok(true)
    ensures LogProgress(10 * k + 1, PackageLogIterations, false) == Ok(false)
  {
  }

  // ---------------------------------------------------------------------
  // `run`
  // ---------------------------------------------------------------------

  /**
   * A request manager: the handling of each package name, the writer's
   * header (`attributes_list`), `_query_restriction` and `log_iterations`.
   */
  datatype Manager = Manager(handle: string -> Handling, attributes: seq<string>, restriction: int, logIterations: int)

  /** The manager of a query handler whose response parser is `p`. */
  function ManagerFor(p: Parser, restriction: int, logIterations: int): (m: Manager)
    ensures m.attributes == Attributes(p.schema) && m.attributes[0] == p.schema.identity
    ensures forall pkg :: m.handle(pkg) == HandlingFor(p, pkg)
    ensures m.restriction == restriction && m.logIterations == logIterations
  {
    Manager(pkg => HandlingFor(p, pkg), Attributes(p.schema), restriction, logIterations)
  }

  /** The state of a finished run: the writer, how many rows were processed, and the rows logged. */
  datatype RunState = RunState(writer: ResultsWriter.Writer, processed: nat, logged: seq<nat>)

  /**
   * One pass of the loop body of `run` for row `idx`: the request, the
   * write of its answer, and the progress log; the writer afterwards and
   * whether the row was logged.
   */
  function RowStep(m: Manager, row: seq<string>, oracle: Oracle, idx: nat, w: ResultsWriter.Writer)
    : (r: Result<(ResultsWriter.Writer, bool), Raise>)
    ensures r.Ok? ==> |row| >= 4
    ensures r.Ok? ==> Behaves(r.value, idx, w, m.restriction, m.logIterations)
    ensures r.Err? ==> Keeps(w, r.error.writer)
    ensures r.Err? && r.error.error != ZeroLogIterations ==> r.error.writer == w
  {
    if |row| < 4 then Err(Raise(ShortRow(idx), w))
    else
      match Attempts(m.handle(row[0]), oracle, 1, None).0
      case Raised => Err(Raise(RequestRaised(idx), w))
      case Answered(line) =>
        match ResultsWriter.WriteResults(w, line)
        case Err(_) => Err(Raise(WriteRaised(idx), w))
        case Ok(next) =>
          WriteGrows(w, line);
          match LogProgress(idx, m.logIterations, m.restriction <= idx + 1)
          case Err(e) => Err(Raise(e, next))
          case Ok(log) => Ok((next, log))
  }

  /** A failed pass leaves a valid writer as it was, or with the row it wrote before raising. */
  predicate Keeps(w: ResultsWriter.Writer, after: ResultsWriter.Writer) {
    ResultsWriter.Valid(w) ==> Grows(w, after)
  }

  /**
   * What a successful pass promises: row `idx` is logged exactly when it is
   * a multiple of the iterations or the restriction is reached, and a valid
   * writer grows by at most one row.
   */
  predicate Behaves(out: (ResultsWriter.Writer, bool), idx: nat, w: ResultsWriter.Writer, restriction: int, logIterations: int) {
    && logIterations != 0
    && (out.1 <==> restriction <= idx + 1 || MultipleOf(idx, logIterations))
    && (ResultsWriter.Valid(w) ==> Grows(w, out.0))
  }

  /** `next` is `w` after at most one more row: still valid, with everything of `w` in front. */
  predicate Grows(w: ResultsWriter.Writer, next: ResultsWriter.Writer) {
    && ResultsWriter.Valid(next)
    && next.headed == w.headed
    && w.counter <= next.counter <= w.counter + 1
    && |ResultsWriter.Output(w)| <= |ResultsWriter.Output(next)|
    && ResultsWriter.Output(next)[..|ResultsWriter.Output(w)|] == ResultsWriter.Output(w)
  }

  lemma WriteGrows(w: ResultsWriter.Writer, line: string)
    requires ResultsWriter.WriteResults(w, line).Ok?
    ensures ResultsWriter.Valid(w) ==> Grows(w, ResultsWriter.WriteResults(w, line).value)
  {
    if ResultsWriter.Valid(w) {
      ResultsWriter.WriteResultsKeepsValid(w, line);
      var next := ResultsWriter.WriteResults(w, line).value;
      assert ResultsWriter.Output(next)[..|ResultsWriter.Output(w)|] == ResultsWriter.Output(w);
    }
  }

  /** The loop body as a function of the row index and the writer. */
  type Work = (nat, ResultsWriter.Writer) -> Result<(ResultsWriter.Writer, bool), Raise>

  /** The loop body of a manager over the data rows, each request answered by `replies(idx)`. */
  function WorkOf(m: Manager, rows: seq<seq<string>>, replies: nat -> Oracle): Work {
    (idx: nat, w: ResultsWriter.Writer) =>
      if idx < |rows| then RowStep(m, rows[idx], replies(idx), idx, w) else Err(Raise(ShortRow(idx), w))
  }

  /** Every successful pass of a body behaves as promised. */
  ghost predicate WellBehaved(work: Work, restriction: int, logIterations: int) {
    forall idx: nat, w ::
      && (work(idx, w).Ok? ==> Behaves(work(idx, w).value, idx, w, restriction, logIterations))
      && (work(idx, w).Err? ==> Keeps(w, work(idx, w).error.writer))
  }

  lemma WorkOfBehaves(m: Manager, rows: seq<seq<string>>, replies: nat -> Oracle)
    ensures WellBehaved(WorkOf(m, rows, replies), m.restriction, m.logIterations)
  {
    var work := WorkOf(m, rows, replies);
    forall idx: nat, w
      ensures work(idx, w).Ok? ==> Behaves(work(idx, w).value, idx, w, m.restriction, m.logIterations)
      ensures work(idx, w).Err? ==> Keeps(w, work(idx, w).error.writer)
    {
      if idx >= |rows| {
        assert work(idx, w) == Err(Raise(ShortRow(idx), w));
        if ResultsWriter.Valid(w) {
          assert ResultsWriter.Output(w)[..|ResultsWriter.Output(w)|] == ResultsWriter.Output(w);
        }
      } else {
        assert work(idx, w) == RowStep(m, rows[idx], replies(idx), idx, w);
      }
    }
  }

  /**
   * The loop of `run` over `count` data rows from row `idx` on: each pass
   * does the work, logs the row if asked, and breaks once the restriction
   * is reached.
   */
  function Rows(work: Work, count: nat, restriction: int, idx: nat,
                w: ResultsWriter.Writer, logged: seq<nat>): Result<RunState, Raise>
    requires idx <= count
    decreases count - idx
  {
    if idx == count then Ok(RunState(w, idx, logged))
    else
      match work(idx, w)
      case Err(e) => Err(e)
      case Ok((next, log)) =>
        var more := logged + (if log then [idx] else []);
        if restriction <= idx + 1 then Ok(RunState(next, idx + 1, more))
        else Rows(work, count, restriction, idx + 1, next, more)
  }

  /**
   * `run`: the first row of the input table is the skipped header; the
   * writer is entered with the attributes as header (`headerOk` says
   * whether that write succeeds) and closed on the way out.
   */
  function Run(m: Manager, table: seq<seq<string>>, replies: nat -> Oracle, headerOk: bool): (r: Result<RunState, Failure>)
    ensures table == [] <==> r == Err(Failure(MissingHeader, None))
    ensures r.Ok? ==> !r.value.writer.open
    ensures r.Err? && table != [] ==> r.error.writer.Some? && !r.error.writer.value.open
  {
    if table == [] then Err(Failure(MissingHeader, None))
    else
      var work := WorkOf(m, table[1..], replies);
      match Rows(work, |table| - 1, m.restriction, 0, ResultsWriter.Enter(m.attributes, headerOk), [])
      case Err(x) => Err(Failure(x.error, Some(ResultsWriter.Close(x.writer))))
      case Ok(st) => Ok(st.(writer := ResultsWriter.Close(st.writer)))
  }

  function Min(a: int, b: int): int {
    if a <= b then a else b
  }

  function Max(a: int, b: int): int {
    if a <= b then b else a
  }

  /**
   * The restriction counts rows: from row `idx` the loop processes rows up
   * to the restriction, at least one, and no further than the input.
   */
  lemma {:induction false} RowsProcessed(work: Work, count: nat, restriction: int, idx: nat,
                                         w: ResultsWriter.Writer, logged: seq<nat>)
    requires idx <= count
    ensures var r := Rows(work, count, restriction, idx, w, logged);
      r.Ok? ==> r.value.processed == if idx == count then idx else Min(count, Max(idx + 1, restriction))
    decreases count - idx
  {
    if idx < count {
      var step := work(idx, w);
      if step.Ok? && restriction > idx + 1 {
        var more := logged + (if step.value.1 then [idx] else []);
        RowsProcessed(work, count, restriction, idx + 1, step.value.0, more);
      }
    }
  }

  /**
   * With `N` data rows, a successful run processes `min(N, max(1,
   * query_restriction))` of them: the restriction is checked only after a
   * row is written, so even a restriction of zero processes one row.
   */
  lemma {:induction false} RunProcessed(m: Manager, table: seq<seq<string>>, replies: nat -> Oracle, headerOk: bool)
    requires table != []
    ensures var r := Run(m, table, replies, headerOk);
      r.Ok? ==> r.value.processed == if |table| == 1 then 0 else Min(|table| - 1, Max(1, m.restriction))
  {
    var work := WorkOf(m, table[1..], replies);
    RowsProcessed(work, |table| - 1, m.restriction, 0, ResultsWriter.Enter(m.attributes, headerOk), []);
  }

  /** Row `i` of a run that processed `processed` rows is logged. */
  predicate LoggedRow(logIterations: int, restriction: int, i: nat, processed: nat) {
    && logIterations != 0
    && i < processed
    && (MultipleOf(i, logIterations) || (restriction <= processed && i + 1 == processed))
  }

  /**
   * The rows logged are the multiples of `log_iterations` among those
   * processed, plus the last one when the restriction stopped the loop.
   */
  lemma {:induction false} RowsLogged(work: Work, count: nat, restriction: int, logIterations: int, idx: nat,
                                      w: ResultsWriter.Writer, logged: seq<nat>)
    requires idx <= count && WellBehaved(work, restriction, logIterations)
    requires forall j :: j in logged ==> j < idx
    ensures var r := Rows(work, count, restriction, idx, w, logged);
      r.Ok? ==> forall i :: i in r.value.logged <==> i in logged || (idx <= i && LoggedRow(logIterations, restriction, i, r.value.processed))
    decreases count - idx
  {
    var r := Rows(work, count, restriction, idx, w, logged);
    if idx < count && r.Ok? {
      var step := work(idx, w);
      assert step.Ok?;
      var next := step.value.0;
      var log := step.value.1;
      assert Behaves(step.value, idx, w, restriction, logIterations);
      var more := logged + (if log then [idx] else []);
      assert forall j :: j in more <==> j in logged || (j == idx && log);
      if restriction <= idx + 1 {
        assert r == Ok(RunState(next, idx + 1, more));
        forall i ensures i in more <==> i in logged || (idx <= i && LoggedRow(logIterations, restriction, i, idx + 1)) {
          if i == idx {
            assert i !in logged;
          }
        }
      } else {
        assert r == Rows(work, count, restriction, idx + 1, next, more);
        RowsLogged(work, count, restriction, logIterations, idx + 1, next, more);
        RowsProcessed(work, count, restriction, idx + 1, next, more);
        var n := r.value.processed;
        assert n >= idx + 1;
        forall i ensures i in r.value.logged <==> i in logged || (idx <= i && LoggedRow(logIterations, restriction, i, n)) {
          if i == idx {
            assert i !in logged;
            assert LoggedRow(logIterations, restriction, i, n) <==> log;
          }
        }
      }
    }
  }

  /** Over a whole run, exactly the multiples of `log_iterations` and the restriction's last row are logged. */
  lemma {:induction false} RunLogged(m: Manager, table: seq<seq<string>>, replies: nat -> Oracle, headerOk: bool)
    ensures var r := Run(m, table, replies, headerOk);
      r.Ok? ==> forall i :: i in r.value.logged <==> LoggedRow(m.logIterations, m.restriction, i, r.value.processed)
  {
    if table != [] {
      var work := WorkOf(m, table[1..], replies);
      WorkOfBehaves(m, table[1..], replies);
      RowsLogged(work, |table| - 1, m.restriction, m.logIterations, 0, ResultsWriter.Enter(m.attributes, headerOk), []);
    }
  }

  /**
   * From row `idx` on, the writer keeps its invariant, everything already
   * in the destination stays in front, and at most one row is added per
   * processed input row.
   */
  lemma {:induction false} RowsKeepWriter(work: Work, count: nat, restriction: int, logIterations: int, idx: nat,
                                          w: ResultsWriter.Writer, logged: seq<nat>)
    requires idx <= count && ResultsWriter.Valid(w) && WellBehaved(work, restriction, logIterations)
    ensures var r := Rows(work, count, restriction, idx, w, logged);
      r.Ok? ==>
        && ResultsWriter.Valid(r.value.writer)
        && r.value.writer.headed == w.headed
        && idx <= r.value.processed
        && w.counter <= r.value.writer.counter <= w.counter + (r.value.processed - idx)
        && |ResultsWriter.Output(w)| <= |ResultsWriter.Output(r.value.writer)|
        && ResultsWriter.Output(r.value.writer)[..|ResultsWriter.Output(w)|] == ResultsWriter.Output(w)
    ensures var r := Rows(work, count, restriction, idx, w, logged);
      r.Err? ==> PrefixKept(w, r.error.writer)
    decreases count - idx
  {
    var r := Rows(work, count, restriction, idx, w, logged);
    if idx < count {
      var step := work(idx, w);
      if step.Err? {
        assert Keeps(w, step.error.writer);
      } else {
        assert Behaves(step.value, idx, w, restriction, logIterations);
        var next := step.value.0;
        var more := logged + (if step.value.1 then [idx] else []);
        if restriction > idx + 1 {
          assert r == Rows(work, count, restriction, idx + 1, next, more);
          RowsKeepWriter(work, count, restriction, logIterations, idx + 1, next, more);
          var last := if r.Ok? then r.value.writer else r.error.writer;
          PrefixTransitive(w, next, last);
        }
      }
    }
  }

  /** `after` is valid, keeps whether the header was written, and has all of `w`'s rows in front. */
  predicate PrefixKept(w: ResultsWriter.Writer, after: ResultsWriter.Writer) {
    && ResultsWriter.Valid(after)
    && after.headed == w.headed
    && |ResultsWriter.Output(w)| <= |ResultsWriter.Output(after)|
    && ResultsWriter.Output(after)[..|ResultsWriter.Output(w)|] == ResultsWriter.Output(w)
  }

  lemma PrefixTransitive(a: ResultsWriter.Writer, b: ResultsWriter.Writer, c: ResultsWriter.Writer)
    requires Grows(a, b)
    requires PrefixKept(b, c)
    ensures PrefixKept(a, c)
  {
    var oc := ResultsWriter.Output(c);
    assert oc[..|ResultsWriter.Output(a)|] == oc[..|ResultsWriter.Output(b)|][..|ResultsWriter.Output(a)|];
  }

  /**
   * Whichever way the `with CSVResultsWriter(...)` block is left, normally
   * or by an exception from a row, `__exit__` closes the destination, and
   * the header and every row already written stay in it.
   */
  lemma {:induction false} RunClosesOnEveryExit(m: Manager, table: seq<seq<string>>, replies: nat -> Oracle, headerOk: bool)
    requires table != []
    ensures var r := Run(m, table, replies, headerOk);
      var out := if r.Ok? then r.value.writer else r.error.writer.value;
      var start := ResultsWriter.Output(ResultsWriter.Enter(m.attributes, headerOk));
      && !out.open
      && ResultsWriter.Valid(out)
      && |start| <= |ResultsWriter.Output(out)|
      && ResultsWriter.Output(out)[..|start|] == start
  {
    var w := ResultsWriter.Enter(m.attributes, headerOk);
    var work := WorkOf(m, table[1..], replies);
    WorkOfBehaves(m, table[1..], replies);
    RowsKeepWriter(work, |table| - 1, m.restriction, m.logIterations, 0, w, []);
  }

  /**
   * A successful run leaves the header row first in the destination and
   * writes at most one row per processed package; when the header write
   * failed, a run succeeds only on an input with no data rows.
   */
  lemma {:induction false} RunWritesHeaderFirst(m: Manager, table: seq<seq<string>>, replies: nat -> Oracle, headerOk: bool)
    ensures var r := Run(m, table, replies, headerOk);
      r.Ok? ==>
        && r.value.writer.counter <= r.value.processed
        && (headerOk ==> |ResultsWriter.Output(r.value.writer)| >= 1 && ResultsWriter.Output(r.value.writer)[0] == m.attributes)
        && (!headerOk ==> r.value.processed == 0)
  {
    if table != [] {
      var w := ResultsWriter.Enter(m.attributes, headerOk);
      var work := WorkOf(m, table[1..], replies);
      WorkOfBehaves(m, table[1..], replies);
      RowsKeepWriter(work, |table| - 1, m.restriction, m.logIterations, 0, w, []);
      if !headerOk && |table| > 1 {
        HeaderlessFirstRowFails(m, table[1..], replies);
      }
    }
  }

  /** With the header write failed, the first pass never succeeds. */
  lemma HeaderlessFirstRowFails(m: Manager, rows: seq<seq<string>>, replies: nat -> Oracle)
    requires rows != []
    ensures WorkOf(m, rows, replies)(0, ResultsWriter.Enter(m.attributes, false)).Err?
  {
    var w := ResultsWriter.Enter(m.attributes, false);
    if |rows[0]| >= 4 {
      var a := Attempts(m.handle(rows[0][0]), replies(0), 1, None).0;
      if a.Answered? {
        ResultsWriter.HeaderlessWriterRaises(w, a.line);
      }
    }
  }

  /** When the header write failed, the first package that gets an answer makes `run` raise. */
  lemma {:induction false} HeaderFailureRaisesOnFirstRow(m: Manager, table: seq<seq<string>>, replies: nat -> Oracle)
    requires |table| >= 2 && |table[1]| >= 4
    requires Attempts(m.handle(table[1][0]), replies(0), 1, None).0.Answered?
    ensures Run(m, table, replies, false) ==
      Err(Failure(WriteRaised(0), Some(ResultsWriter.Close(ResultsWriter.Enter(m.attributes, false)))))
  {
    var w := ResultsWriter.Enter(m.attributes, false);
    ResultsWriter.HeaderlessWriterRaises(w, Attempts(m.handle(table[1][0]), replies(0), 1, None).0.line);
  }
}
