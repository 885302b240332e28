/** The row validator of `be/tsv_validator.py`: the schema check run over the
    rows of an uploaded tab-separated file before any team processing. The
    three cell checks (`Decimal` parsing, `datetime.strptime` against
    `DATETIME_FMT`, `email_validator`) are given as opaque predicates. */
module TsvValidator {

  import opened Text

  const DATETIME_FMT := "%Y-%m-%d %H:%M:%S"
  const SCHEMA: seq<string> := ["number", "datetime", "email", "text1", "text2", "text3", "text4"]

  const MSG_NUMBER := "Неверное число"
  const MSG_DATETIME := "Ожидался формат " + DATETIME_FMT
  const MSG_EMAIL := "Неверный адрес электронной почты"
  const MSG_EMPTY := "Файл пуст"

  /** `_is_number`, `_is_datetime` and `_is_email`, left uninterpreted. */
  datatype CellChecks = CellChecks(
    isNumber: string -> bool,
    isDatetime: string -> bool,
    isEmail: string -> bool)

  /** The exceptions the validator can raise. */
  datatype Exception =
    | IndexError      // `row[1]` or `row[2]` on a row that is too short
    | AttributeError  // `.as_dict()` called on something that is already a dict

  /** A value, or the exception that ended the call. */
  datatype Outcome<T> = Done(value: T) | Raised(exc: Exception)

  /** One schema violation: `RowError`, and equally its `as_dict()` image. */
  datatype RowError = RowError(line: int, column: int, field: string, message: string, value: string)

  /** An entry of `ValidationResult.errors`: a `RowError` object, or the plain dict
      `RowError.as_dict()` already produced (which has no `as_dict` of its own). */
  datatype ErrorEntry = Object(error: RowError) | Dict(error: RowError)

  /** The dictionary `ValidationResult.as_dict()` returns. */
  datatype Report = Report(
    ok: bool,
    schema: seq<string>,
    rowsTotal: int,
    rowsValid: int,
    rowsInvalid: int,
    skippedHeader: bool,
    errors: seq<RowError>)

  datatype ValidationResult = ValidationResult(
    ok: bool,
    rowsTotal: int,
    rowsValid: int,
    rowsInvalid: int,
    errors: seq<ErrorEntry>,
    skippedHeader: bool)
  {
    /** `ValidationResult.as_dict()`: it calls `as_dict()` on every error entry, so
        it raises exactly when some entry is already a dict; otherwise it copies
        the counters and the errors, in order, and adds the schema. */
    function AsDict(): (r: Outcome<Report>)
      ensures r.Raised? <==> exists i :: 0 <= i < |errors| && errors[i].Dict?
      ensures r.Raised? ==> r.exc == AttributeError
      ensures r.Done? ==>
        r.value.ok == ok && r.value.schema == SCHEMA
        && r.value.rowsTotal == rowsTotal && r.value.rowsValid == rowsValid
        && r.value.rowsInvalid == rowsInvalid && r.value.skippedHeader == skippedHeader
        && |r.value.errors| == |errors|
        && forall i :: 0 <= i < |errors| ==> r.value.errors[i] == errors[i].error
    {
      match ErrorDicts(errors)
      case Raised(x) => Raised(x)
      case Done(es) => Done(Report(ok, SCHEMA, rowsTotal, rowsValid, rowsInvalid, skippedHeader, es))
    }
  }

  /** `[e.as_dict() for e in errors]`. */
  function ErrorDicts(es: seq<ErrorEntry>): (r: Outcome<seq<RowError>>)
    ensures r.Raised? <==> exists i :: 0 <= i < |es| && es[i].Dict?
    ensures r.Raised? ==> r.exc == AttributeError
    ensures r.Done? ==> |r.value| == |es| && forall i :: 0 <= i < |es| ==> r.value[i] == es[i].error
    decreases |es|
  {
    if es == [] then Done([])
    else if es[0].Dict? then Raised(AttributeError)
    else
      match ErrorDicts(es[1..])
      case Raised(x) =>
        assert exists i :: 0 <= i < |es[1..]| && es[1..][i].Dict?;
        var i :| 0 <= i < |es[1..]| && es[1..][i].Dict?;
        assert es[i + 1].Dict?;
        Raised(x)
      case Done(rest) =>
        assert forall i :: 1 <= i < |es| ==> es[i] == es[1..][i - 1];
        Done([es[0].error] + rest)
  }

  // ---------------------------------------------------------------------
  // Line endings

  /** `s.replace("\r\n", "\n")`. */
  function ReplaceCrLf(s: string): string
    decreases |s|
  {
    if s == [] then []
    else if |s| >= 2 && s[0] == '\r' && s[1] == '\n' then "\n" + ReplaceCrLf(s[2..])
    else [s[0]] + ReplaceCrLf(s[1..])
  }

  /** `s.replace("\r", "\n")`. */
  function ReplaceCr(s: string): string
    decreases |s|
  {
    if s == [] then [] else [if s[0] == '\r' then '\n' else s[0]] + ReplaceCr(s[1..])
  }

  /** The normalisation at the start of `validate_tsv`. */
  function NormalizeNewlines(s: string): string {
    ReplaceCr(ReplaceCrLf(s))
  }

  /** The intended reading in one pass: every "\r\n" and every lone "\r" becomes
      one "\n"; nothing else changes. */
  function NewlinesOnePass(s: string): string
    decreases |s|
  {
    if s == [] then []
    else if s[0] == '\r' then
      "\n" + NewlinesOnePass(if |s| >= 2 && s[1] == '\n' then s[2..] else s[1..])
    else [s[0]] + NewlinesOnePass(s[1..])
  }

  /** The two `replace` calls do what the one-pass reading says. */
  lemma {:induction false} NormalizeNewlinesOnePass(s: string)
    ensures NormalizeNewlines(s) == NewlinesOnePass(s)
    decreases |s|
  {
    if s != [] {
      if |s| >= 2 && s[0] == '\r' && s[1] == '\n' {
        NormalizeNewlinesOnePass(s[2..]);
        assert ReplaceCrLf(s) == "\n" + ReplaceCrLf(s[2..]);
        assert ReplaceCr("\n" + ReplaceCrLf(s[2..])) == "\n" + ReplaceCr(ReplaceCrLf(s[2..]));
      } else {
        NormalizeNewlinesOnePass(s[1..]);
        assert ReplaceCrLf(s) == [s[0]] + ReplaceCrLf(s[1..]);
        assert ([s[0]] + ReplaceCrLf(s[1..]))[1..] == ReplaceCrLf(s[1..]);
      }
    }
  }

  /** No carriage return survives the normalisation. */
  lemma {:induction false} OnePassNoCr(s: string)
    ensures '\r' !in NewlinesOnePass(s)
    decreases |s|
  {
    if s != [] {
      if s[0] == '\r' {
        OnePassNoCr(if |s| >= 2 && s[1] == '\n' then s[2..] else s[1..]);
      } else {
        OnePassNoCr(s[1..]);
      }
    }
  }

  /** Text without carriage returns is left alone. */
  lemma {:induction false} OnePassNoCrFixed(s: string)
    requires '\r' !in s
    ensures NewlinesOnePass(s) == s
    decreases |s|
  {
    if s != [] {
      assert s[0] != '\r';
      assert '\r' !in s[1..] by {
        assert forall c :: c in s[1..] ==> c in s;
      }
      OnePassNoCrFixed(s[1..]);
      assert [s[0]] + s[1..] == s;
    }
  }

  /** The normalisation removes every '\r', maps each line break to one '\n',
      and is idempotent. */
  lemma NormalizeNewlinesShape(s: string)
    ensures '\r' !in NormalizeNewlines(s)
    ensures NormalizeNewlines(s) == NewlinesOnePass(s)
    ensures '\r' !in s ==> NormalizeNewlines(s) == s
    ensures NormalizeNewlines(NormalizeNewlines(s)) == NormalizeNewlines(s)
  {
    NormalizeNewlinesOnePass(s);
    OnePassNoCr(s);
    if '\r' !in s {
      OnePassNoCrFixed(s);
    }
    var t := NormalizeNewlines(s);
    NormalizeNewlinesOnePass(t);
    OnePassNoCrFixed(t);
  }

  // ---------------------------------------------------------------------
  // Rows

  /** A row the loop skips: no cells, or one cell that is all whitespace. */
  predicate IsBlank(row: seq<string>) {
    row == [] || (|row| == 1 && Strip(row[0]) == "")
  }

  /** What the loop body decides about one row. */
  datatype Verdict = Blank | Good | Bad(error: RowError) | Raises

  /** The loop body of `validate_tsv` for the row at `line`: the checks run in
      column order, the first failing one is reported, and a too-short row whose
      earlier checks pass raises `IndexError`. */
  function RowVerdict(row: seq<string>, line: int, c: CellChecks): Verdict {
    if IsBlank(row) then Blank
    else if !c.isNumber(Strip(row[0])) then Bad(RowError(line, 1, "number", MSG_NUMBER, row[0]))
    else if |row| < 2 then Raises
    else if !c.isDatetime(Strip(row[1])) then Bad(RowError(line, 2, "datetime", MSG_DATETIME, row[1]))
    else if |row| < 3 then Raises
    else if !c.isEmail(Strip(row[2])) then Bad(RowError(line, 3, "email", MSG_EMAIL, row[2]))
    else Good
  }

  /** A reported error names the row's line, a column the row has, and that
      cell's text as it was, not stripped. */
  lemma RowVerdictError(row: seq<string>, line: int, c: CellChecks)
    requires RowVerdict(row, line, c).Bad?
    ensures var e := RowVerdict(row, line, c).error;
      e.line == line && 1 <= e.column <= 3 && e.column <= |row|
      && e.value == row[e.column - 1]
  {
  }

  /** The error is for the first failing check in column order. */
  lemma RowVerdictFirstFailure(row: seq<string>, line: int, c: CellChecks)
    requires RowVerdict(row, line, c).Bad?
    ensures var e := RowVerdict(row, line, c).error;
      !IsBlank(row)
      && (e.column == 1 <==> !c.isNumber(Strip(row[0])))
      && (e.column == 2 ==> c.isNumber(Strip(row[0])) && !c.isDatetime(Strip(row[1])))
      && (e.column == 3 ==> c.isNumber(Strip(row[0])) && c.isDatetime(Strip(row[1]))
                            && !c.isEmail(Strip(row[2])))
  {
  }

  /** A row passes iff it is not blank, has the three checked cells and all
      three checks pass. */
  lemma RowVerdictGood(row: seq<string>, line: int, c: CellChecks)
    ensures RowVerdict(row, line, c).Good? <==>
      !IsBlank(row) && |row| >= 3 && c.isNumber(Strip(row[0]))
      && c.isDatetime(Strip(row[1])) && c.isEmail(Strip(row[2]))
  {
  }

  /** `IndexError` is raised for a row whose first cell is a number but that
      has no second cell, or a valid second cell and no third. */
  lemma RowVerdictRaises(row: seq<string>, line: int, c: CellChecks)
    ensures RowVerdict(row, line, c).Raises? <==>
      !IsBlank(row) && c.isNumber(Strip(row[0]))
      && (|row| < 2 || (|row| == 2 && c.isDatetime(Strip(row[1]))))
  {
  }

  /** The loop's counters. */
  datatype Tally = Tally(total: nat, valid: nat, errors: seq<RowError>)

  /** One iteration of the loop. */
  function Step(t: Tally, v: Verdict): Outcome<Tally> {
    match v
    case Blank => Done(t)
    case Good => Done(Tally(t.total + 1, t.valid + 1, t.errors))
    case Bad(e) => Done(Tally(t.total + 1, t.valid, t.errors + [e]))
    case Raises => Raised(IndexError)
  }

  /** The loop over `data`, whose first row is at line `first`. */
  function Scan(data: seq<seq<string>>, first: int, c: CellChecks): Outcome<Tally>
    decreases |data|
  {
    if data == [] then Done(Tally(0, 0, []))
    else
      match Scan(data[..|data| - 1], first, c)
      case Raised(x) => Raised(x)
      case Done(t) => Step(t, RowVerdict(data[|data| - 1], first + |data| - 1, c))
  }

  predicate Counted(v: Verdict) { !v.Blank? }
  predicate Passed(v: Verdict) { v.Good? }
  predicate Failed(v: Verdict) { v.Bad? }

  /** The number of rows of `data` whose verdict satisfies `p`. */
  function CountVerdicts(data: seq<seq<string>>, first: int, c: CellChecks, p: Verdict -> bool): nat
    decreases |data|
  {
    if data == [] then 0
    else CountVerdicts(data[..|data| - 1], first, c, p)
         + (if p(RowVerdict(data[|data| - 1], first + |data| - 1, c)) then 1 else 0)
  }

  /** The header rule: the first row is skipped iff it has a cell and its first
      cell, not stripped, is not a number. */
  predicate HasHeader(rows: seq<seq<string>>, c: CellChecks) {
    rows != [] && rows[0] != [] && !c.isNumber(rows[0][0])
  }

  /** The rows the loop sees and the line number of the first of them. */
  function DataRows(rows: seq<seq<string>>, c: CellChecks): seq<seq<string>> {
    if HasHeader(rows, c) then rows[1..] else rows
  }

  function FirstLine(rows: seq<seq<string>>, c: CellChecks): int {
    if HasHeader(rows, c) then 2 else 1
  }

  /** The validator on already split rows, as written: an empty file takes the
      branch of lines 99-107, which raises (see `ValidateEmptyRaises`). */
  function Validate(rows: seq<seq<string>>, c: CellChecks): Outcome<Report> {
    if rows == [] then EmptyInputAsWritten() else ValidateData(rows, c)
  }

  /** The validator as evidently intended: an empty file gets its one "file"
      error reported. */
  function ValidateIntended(rows: seq<seq<string>>, c: CellChecks): Outcome<Report> {
    if rows == [] then EmptyInputReport() else ValidateData(rows, c)
  }

  /** Lines 109-147: the header rule, the loop and the result. */
  function ValidateData(rows: seq<seq<string>>, c: CellChecks): Outcome<Report> {
    match Scan(DataRows(rows, c), FirstLine(rows, c), c)
    case Raised(x) => Raised(x)
    case Done(t) =>
      var invalid := t.total - t.valid;
      ValidationResult(invalid == 0, t.total, t.valid, invalid,
                       ObjectEntries(t.errors), HasHeader(rows, c)).AsDict()
  }

  /** The error list as `RowError` objects. */
  function ObjectEntries(es: seq<RowError>): (r: seq<ErrorEntry>)
    ensures |r| == |es| && forall i :: 0 <= i < |es| ==> r[i] == Object(es[i])
  {
    seq(|es|, i requires 0 <= i < |es| => Object(es[i]))
  }

  /** The result for an empty file, with the error entry as a `RowError`. */
  function EmptyInputReport(): (r: Outcome<Report>)
  {
    ValidationResult(false, 0, 0, 0, [Object(RowError(1, 1, "file", MSG_EMPTY, ""))], false).AsDict()
  }

  /** Lines 99-107 as written: the error entry is already `as_dict()`-ed. */
  function EmptyInputAsWritten(): (r: Outcome<Report>)
  {
    ValidationResult(false, 0, 0, 0, [Dict(RowError(1, 1, "file", MSG_EMPTY, ""))], false).AsDict()
  }

  /** As written, an empty file makes line 58 call `as_dict()` on a dict. */
  lemma EmptyInputAsWrittenRaises()
    ensures EmptyInputAsWritten() == Raised(AttributeError)
  {
    assert [Dict(RowError(1, 1, "file", MSG_EMPTY, ""))][0].Dict?;
  }

  /** As written, `validate_tsv` of a file without rows raises `AttributeError`. */
  lemma ValidateEmptyRaises(c: CellChecks)
    ensures Validate([], c) == Raised(AttributeError)
  {
    EmptyInputAsWrittenRaises();
  }

  /** The correction changes only the empty file. */
  lemma ValidateIntendedAgrees(rows: seq<seq<string>>, c: CellChecks)
    ensures rows != [] ==> ValidateIntended(rows, c) == Validate(rows, c)
    ensures rows == [] ==> Validate(rows, c).Raised? && ValidateIntended(rows, c).Done?
  {
    if rows == [] {
      ValidateEmptyRaises(c);
      EmptyInputReported(c);
    }
  }

  /** The intended empty-file result: not ok, no rows, one error at line 1,
      column 1, field "file". */
  lemma EmptyInputReported(c: CellChecks)
    ensures ValidateIntended([], c).Done?
    ensures var r := ValidateIntended([], c).value;
      !r.ok && r.rowsTotal == 0 && r.rowsValid == 0 && r.rowsInvalid == 0
      && !r.skippedHeader && r.schema == SCHEMA
      && r.errors == [RowError(1, 1, "file", MSG_EMPTY, "")]
  {
    var es := [Object(RowError(1, 1, "file", MSG_EMPTY, ""))];
    assert !es[0].Dict?;
    assert forall i :: 0 <= i < |es| ==> !es[i].Dict?;
  }

  // ---------------------------------------------------------------------
  // Properties of the loop

  /** The counters agree with the verdicts: only non-blank rows are counted,
      `valid` counts good rows, and there is one error per bad row. */
  lemma {:induction false} ScanCounts(data: seq<seq<string>>, first: int, c: CellChecks)
    requires Scan(data, first, c).Done?
    ensures var t := Scan(data, first, c).value;
      t.total == CountVerdicts(data, first, c, Counted)
      && t.valid == CountVerdicts(data, first, c, Passed)
      && |t.errors| == CountVerdicts(data, first, c, Failed)
      && t.valid <= t.total
      && t.total - t.valid == |t.errors|
    decreases |data|
  {
    if data != [] {
      ScanCounts(data[..|data| - 1], first, c);
    }
  }

  /** Error lines lie within the data and strictly increase; each error is the
      verdict of the row at its line. */
  lemma ScanErrorLines(data: seq<seq<string>>, first: int, c: CellChecks)
    requires Scan(data, first, c).Done?
    ensures var es := Scan(data, first, c).value.errors;
      (forall i :: 0 <= i < |es| ==> first <= es[i].line < first + |data|)
      && (forall i, j :: 0 <= i < j < |es| ==> es[i].line < es[j].line)
      && (forall i :: 0 <= i < |es| ==>
            RowVerdict(data[es[i].line - first], es[i].line, c) == Bad(es[i]))
  {
    ScanErrorOrder(data, first, c);
    ScanErrorVerdicts(data, first, c);
  }

  /** The last row of the loop adds its error, if it has one, at the end. */
  lemma ScanLastErrors(data: seq<seq<string>>, first: int, c: CellChecks)
    requires data != [] && Scan(data, first, c).Done?
    ensures var n := |data| - 1;
      var v := RowVerdict(data[n], first + n, c);
      Scan(data[..n], first, c).Done?
      && Scan(data, first, c).value.errors
         == Scan(data[..n], first, c).value.errors + (if v.Bad? then [v.error] else [])
      && (v.Bad? ==> v.error.line == first + n)
  {
    var n := |data| - 1;
    var v := RowVerdict(data[n], first + n, c);
    if v.Bad? {
      RowVerdictError(data[n], first + n, c);
    }
  }

  lemma {:induction false} ScanErrorOrder(data: seq<seq<string>>, first: int, c: CellChecks)
    requires Scan(data, first, c).Done?
    ensures var es := Scan(data, first, c).value.errors;
      (forall i :: 0 <= i < |es| ==> first <= es[i].line < first + |data|)
      && (forall i, j :: 0 <= i < j < |es| ==> es[i].line < es[j].line)
    decreases |data|
  {
    if data != [] {
      ScanLastErrors(data, first, c);
      ScanErrorOrder(data[..|data| - 1], first, c);
    }
  }

  /** Every error of `es` lies within `data` and is the verdict of its row. */
  predicate ErrorsTied(data: seq<seq<string>>, first: int, c: CellChecks, es: seq<RowError>) {
    forall i :: 0 <= i < |es| ==>
      first <= es[i].line < first + |data|
      && RowVerdict(data[es[i].line - first], es[i].line, c) == Bad(es[i])
  }

  /** One more row keeps every error tied to the verdict of its row. */
  lemma ErrorsExtend(data: seq<seq<string>>, first: int, c: CellChecks,
                     prev: seq<RowError>, es: seq<RowError>)
    requires data != []
    requires ErrorsTied(data[..|data| - 1], first, c, prev)
    requires var n := |data| - 1;
      var v := RowVerdict(data[n], first + n, c);
      es == prev + (if v.Bad? then [v.error] else []) && (v.Bad? ==> v.error.line == first + n)
    ensures ErrorsTied(data, first, c, es)
  {
    var n := |data| - 1;
    forall i | 0 <= i < |es|
      ensures first <= es[i].line < first + |data|
      ensures RowVerdict(data[es[i].line - first], es[i].line, c) == Bad(es[i])
    {
      if i < |prev| {
        var k := prev[i].line - first;
        assert data[..n][k] == data[k];
      }
    }
  }

  lemma {:induction false} ScanErrorVerdicts(data: seq<seq<string>>, first: int, c: CellChecks)
    requires Scan(data, first, c).Done?
    ensures ErrorsTied(data, first, c, Scan(data, first, c).value.errors)
    decreases |data|
  {
    if data != [] {
      var n := |data| - 1;
      ScanLastErrors(data, first, c);
      ScanErrorVerdicts(data[..n], first, c);
      ErrorsExtend(data, first, c, Scan(data[..n], first, c).value.errors, Scan(data, first, c).value.errors);
    }
  }

  /** The loop raises exactly when some row would raise; otherwise it sees
      every row. */
  lemma {:induction false} ScanRaises(data: seq<seq<string>>, first: int, c: CellChecks)
    ensures Scan(data, first, c).Raised? <==>
      exists i :: 0 <= i < |data| && RowVerdict(data[i], first + i, c).Raises?
    ensures Scan(data, first, c).Raised? ==> Scan(data, first, c).exc == IndexError
    decreases |data|
  {
    if data != [] {
      var init := data[..|data| - 1];
      ScanRaises(init, first, c);
      ScanLastRaises(data, first, c);
      SomeRowRaisesSnoc(data, first, c);
    }
  }

  /** The last row raises, or the earlier rows did. */
  lemma ScanLastRaises(data: seq<seq<string>>, first: int, c: CellChecks)
    requires data != []
    ensures var n := |data| - 1;
      Scan(data, first, c).Raised? <==>
        Scan(data[..n], first, c).Raised? || RowVerdict(data[n], first + n, c).Raises?
    ensures var n := |data| - 1;
      Scan(data, first, c).Raised? ==>
        Scan(data, first, c).exc == IndexError
        || (Scan(data[..n], first, c).Raised?
            && Scan(data, first, c).exc == Scan(data[..n], first, c).exc)
  {
  }

  /** A row of `data` raises iff one of its first rows or its last row raises. */
  lemma SomeRowRaisesSnoc(data: seq<seq<string>>, first: int, c: CellChecks)
    requires data != []
    ensures var n := |data| - 1;
      (exists i :: 0 <= i < |data| && RowVerdict(data[i], first + i, c).Raises?) <==>
        (exists i :: 0 <= i < n && RowVerdict(data[..n][i], first + i, c).Raises?)
        || RowVerdict(data[n], first + n, c).Raises?
  {
    var n := |data| - 1;
    assert forall k :: 0 <= k < n ==> data[..n][k] == data[k];
  }


  /** The result of a non-empty file: header as the rule says, counters
      consistent, `ok` iff there are no errors, errors in line order starting
      at the first data line. */
  lemma ValidateReport(rows: seq<seq<string>>, c: CellChecks)
    requires rows != []
    requires Validate(rows, c).Done?
    ensures var r := Validate(rows, c).value;
      var data := DataRows(rows, c);
      var first := FirstLine(rows, c);
      r.skippedHeader == (rows[0] != [] && !c.isNumber(rows[0][0]))
      && first == (if r.skippedHeader then 2 else 1)
      && r.rowsTotal == CountVerdicts(data, first, c, Counted)
      && r.rowsValid == CountVerdicts(data, first, c, Passed)
      && r.rowsInvalid == r.rowsTotal - r.rowsValid == |r.errors|
      && (r.ok <==> r.rowsInvalid == 0)
      && (r.ok <==> r.errors == [])
      && (forall i :: 0 <= i < |r.errors| ==> first <= r.errors[i].line < first + |data|)
      && (forall i, j :: 0 <= i < j < |r.errors| ==> r.errors[i].line < r.errors[j].line)
  {
    var data := DataRows(rows, c);
    var first := FirstLine(rows, c);
    ScanCounts(data, first, c);
    ScanErrorLines(data, first, c);
  }

  /** One raising row makes the whole loop raise. */
  lemma RaiseStopsScan(data: seq<seq<string>>, i: int, first: int, c: CellChecks)
    requires 0 <= i < |data| && RowVerdict(data[i], first + i, c).Raises?
    ensures Scan(data, first, c) == Raised(IndexError)
  {
    ScanRaises(data, first, c);
  }

  // ---------------------------------------------------------------------
  // The loop itself

  /** `validate_tsv` on the rows `csv.reader` produced: the empty-file case,
      the header rule, the loop, and the result. */
  method ValidateRows(rows: seq<seq<string>>, c: CellChecks) returns (out: Outcome<Report>)
    ensures out == Validate(rows, c)
  {
    if rows == [] {
      return EmptyInputAsWritten();
    }
    var skippedHeader := false;
    var data := rows;
    var firstLine := 1;
    if rows[0] != [] && !c.isNumber(rows[0][0]) {
      skippedHeader := true;
      data := rows[1..];
      firstLine := 2;
    }
    var scanned := ScanRows(data, firstLine, c);
    match scanned
    case Raised(x) =>
      out := Raised(x);
    case Done(t) =>
      var invalid := t.total - t.valid;
      out := ValidationResult(invalid == 0, t.total, t.valid, invalid,
                              ObjectEntries(t.errors), skippedHeader).AsDict();
  }

  /** The counting loop of `validate_tsv`, with its early `continue`s. */
  method ScanRows(data: seq<seq<string>>, firstLine: int, c: CellChecks) returns (out: Outcome<Tally>)
    ensures out == Scan(data, firstLine, c)
  {
    var total, valid, errors := 0, 0, [];
    var i := 0;
    while i < |data|
      invariant 0 <= i <= |data|
      invariant Scan(data[..i], firstLine, c) == Done(Tally(total, valid, errors))
    {
      var row, line := data[i], firstLine + i;
      assert data[..i + 1][..i] == data[..i];
      assert Scan(data[..i + 1], firstLine, c)
        == Step(Tally(total, valid, errors), RowVerdict(row, line, c));
      if row == [] || (|row| == 1 && Strip(row[0]) == "") {
        i := i + 1;
        continue;
      }
      total := total + 1;
      if !c.isNumber(Strip(row[0])) {
        errors := errors + [RowError(line, 1, "number", MSG_NUMBER, row[0])];
        i := i + 1;
        continue;
      }
      if |row| < 2 {
        RaiseStopsScan(data, i, firstLine, c);
        return Raised(IndexError);
      }
      if !c.isDatetime(Strip(row[1])) {
        errors := errors + [RowError(line, 2, "datetime", MSG_DATETIME, row[1])];
        i := i + 1;
        continue;
      }
      if |row| < 3 {
        RaiseStopsScan(data, i, firstLine, c);
        return Raised(IndexError);
      }
      if !c.isEmail(Strip(row[2])) {
        errors := errors + [RowError(line, 3, "email", MSG_EMAIL, row[2])];
        i := i + 1;
        continue;
      }
      valid := valid + 1;
      i := i + 1;
    }
    assert data[..i] == data;
    out := Done(Tally(total, valid, errors));
  }

  /** `validate_tsv(text)`: line endings normalised, then split into rows by the
      given reader (`csv.reader(text.splitlines(), delimiter="\t")`). */
  method ValidateTsv(text: string, readRows: string -> seq<seq<string>>, c: CellChecks)
    returns (out: Outcome<Report>)
    ensures out == Validate(readRows(NormalizeNewlines(text)), c)
  {
    NormalizeNewlinesShape(text);
    var normalized := ReplaceCr(ReplaceCrLf(text));
    out := ValidateRows(readRows(normalized), c);
  }
}
