/** The theme-sheet validator run by the "create event" operation: an uploaded sheet is
    admitted only when it has rows, carries every required column, every max_teams cell
    is a non-negative integer and no theme name occurs twice in the sheet. */
module ImportValidator {
  import opened Rows
  import opened Records

  /** One data row of the uploaded sheet: the text of each required column. An empty
      cell is the empty string; the spreadsheet reader turns it into a NaN value, which
      compares equal to nothing, not even another empty cell. */
  datatype SheetRow = SheetRow(theme: string, company: string, maxTeams: string, responsible: string,
                               email: string, description: string, background: string,
                               problem: string, expectedResult: string)

  /** The uploaded sheet: its header (the set of column names) and its data rows. */
  datatype Sheet = Sheet(columns: set<string>, rows: seq<SheetRow>)
  {
    /** A data frame is empty when it has no rows or no columns. */
    predicate IsEmpty() { |rows| == 0 || |columns| == 0 }
  }

  /** The validator's messages. Row errors name the spreadsheet line: the 0-based data
      index plus one for the header and one because sheet lines count from 1. */
  datatype ImportError =
    | NoData
    | MissingColumn(column: string)
    | NotANumber(line: int, cell: string)
    | Duplicate(line: int, theme: string)
  {
    predicate NamesLine(n: int) { (NotANumber? || Duplicate?) && line == n }
  }

  /** The required header, in the order in which missing columns are reported. */
  const RequiredColumns: seq<string> :=
    ["theme", "company", "max_teams", "responsible", "email", "description",
     "background", "problem", "expected_result"]

  /** Python's str.isdigit, for ASCII digits: non-empty and digits only. */
  predicate IsDigit(s: string): (b: bool)
    ensures b <==> s != "" && forall c :: c in s ==> c in "0123456789"
  {
    DigitString(s);
    |s| > 0 && AllDigits(s)
  }

  /** The ten digit characters are exactly the range '0'..'9'. */
  lemma DigitChars()
    ensures forall c: char :: c in "0123456789" <==> '0' <= c <= '9'
  {
    forall c: char | '0' <= c <= '9' ensures c in "0123456789" {
      assert "0123456789"[c as int - '0' as int] == c;
    }
  }

  predicate AllDigits(s: string)
  {
    forall i :: 0 <= i < |s| ==> '0' <= s[i] <= '9'
  }

  /** A string is all digits iff each of its characters is one of the ten digits. */
  lemma DigitString(s: string)
    ensures AllDigits(s) <==> forall c :: c in s ==> c in "0123456789"
  {
    DigitChars();
    if AllDigits(s) {
      forall c | c in s ensures c in "0123456789" {
        var i :| 0 <= i < |s| && s[i] == c;
      }
    } else {
      var i :| 0 <= i < |s| && !('0' <= s[i] <= '9');
      assert s[i] in s;
    }
  }

  /** The value of a string of decimal digits. */
  function ParseDigits(s: string): nat
    requires AllDigits(s)
  {
    if s == [] then 0
    else ParseDigits(s[..|s| - 1]) * 10 + (s[|s| - 1] - '0') as int
  }

  /** The decimal text of a natural number, as str() renders an integer cell. */
  function Decimal(n: nat): string
  {
    if n < 10 then [('0' as int + n) as char]
    else Decimal(n / 10) + [('0' as int + n % 10) as char]
  }

  /** An integer cell holding n >= 0 passes the digit check and commits the value n. */
  lemma {:induction false} IntegerCellAccepted(n: nat)
    ensures IsDigit(Decimal(n))
    ensures ParseDigits(Decimal(n)) == n
  {
    if n >= 10 {
      IntegerCellAccepted(n / 10);
      var d := Decimal(n / 10);
      var c := ('0' as int + n % 10) as char;
      assert (d + [c])[..|d + [c]| - 1] == d;
    }
  }

  /** A header name that the sheet does not carry. */
  function Absent(cols: set<string>): string -> bool
  {
    (c: string) => c !in cols
  }

  /** The column check: one MissingColumn error per absent column of `cs`, in order. */
  function MissingErrors(cs: seq<string>, cols: set<string>): (errs: seq<ImportError>)
    ensures |errs| <= |cs|
    ensures forall err :: err in errs ==> err.MissingColumn?
    ensures forall c :: MissingColumn(c) in errs <==> c in cs && c !in cols
  {
    if cs == [] then []
    else
      var init, last := cs[..|cs| - 1], cs[|cs| - 1];
      assert cs == init + [last];
      MissingErrors(init, cols) + (if last in cols then [] else [MissingColumn(last)])
  }

  /** The column check reports each absent column once: it yields exactly as many
      errors as `cs` has absent columns. */
  lemma {:induction false} MissingErrorsCount(cs: seq<string>, cols: set<string>)
    ensures |MissingErrors(cs, cols)| == Count(cs, Absent(cols))
  {
    if cs != [] {
      var init, last := cs[..|cs| - 1], cs[|cs| - 1];
      assert cs == init + [last];
      MissingErrorsCount(init, cols);
      CountAppend(init, last, Absent(cols));
    }
  }

  /** Number of rows of the sheet whose theme cell equals `name`; an empty cell equals
      nothing, so an empty `name` matches no row. */
  function ThemeCount(rows: seq<SheetRow>, name: string): nat
  {
    Count(rows, (r: SheetRow) => r.theme == name && name != "")
  }

  /** The duplicate test reads: the theme cell is empty, or another row has the same
      theme name. */
  lemma DuplicateTest(rows: seq<SheetRow>, i: nat)
    requires i < |rows|
    ensures ThemeCount(rows, rows[i].theme) != 1 <==>
            rows[i].theme == "" || exists j :: 0 <= j < |rows| && j != i && rows[j].theme == rows[i].theme
  {
    var name := rows[i].theme;
    var p := (r: SheetRow) => r.theme == name && name != "";
    if name != "" {
      if j :| 0 <= j < |rows| && j != i && rows[j].theme == name {
        if i < j { CountTwo(rows, p, i, j); } else { CountTwo(rows, p, j, i); }
      } else {
        CountSingle(rows, p, i);
      }
    } else {
      assert forall r :: r in rows ==> !p(r);
    }
  }

  /** The error, if any, that the row check reports for data row `i`: a non-numeric
      max_teams cell first, otherwise an empty or repeated theme name. */
  function RowError(rows: seq<SheetRow>, i: nat): (err: Option<ImportError>)
    requires i < |rows|
    ensures err.Some? ==> err.value.NamesLine(i + 2)
    ensures !IsDigit(rows[i].maxTeams) ==> err == Some(NotANumber(i + 2, rows[i].maxTeams))
    ensures IsDigit(rows[i].maxTeams) && err.Some? ==> err == Some(Duplicate(i + 2, rows[i].theme))
    ensures err.Some? <==>
              !IsDigit(rows[i].maxTeams) || rows[i].theme == "" ||
              exists j :: 0 <= j < |rows| && j != i && rows[j].theme == rows[i].theme
  {
    DuplicateTest(rows, i);
    if !IsDigit(rows[i].maxTeams) then Some(NotANumber(i + 2, rows[i].maxTeams))
    else if ThemeCount(rows, rows[i].theme) != 1 then Some(Duplicate(i + 2, rows[i].theme))
    else None
  }

  /** The errors the row check reports for the first `n` data rows, in row order. */
  function RowErrors(rows: seq<SheetRow>, n: nat): (errs: seq<ImportError>)
    requires n <= |rows|
    ensures |errs| <= n
    ensures forall err :: err in errs ==> err.NotANumber? || err.Duplicate?
    ensures forall k :: 0 <= k < |errs| ==> 2 <= errs[k].line < n + 2
    ensures forall k, l :: 0 <= k < l < |errs| ==> errs[k].line < errs[l].line
  {
    if n == 0 then []
    else RowErrors(rows, n - 1) + (if RowError(rows, n - 1).Some? then [RowError(rows, n - 1).value] else [])
  }

  /** The rows among the first `n` that pass the row check, in row order. */
  function PassingRows(rows: seq<SheetRow>, n: nat): seq<SheetRow>
    requires n <= |rows|
  {
    if n == 0 then []
    else PassingRows(rows, n - 1) + (if RowError(rows, n - 1).None? then [rows[n - 1]] else [])
  }

  /** What the validator reports for a sheet; the sheet is admitted iff this is empty. */
  function SheetErrors(sheet: Sheet): (errors: seq<ImportError>)
    ensures sheet.IsEmpty() ==> errors == [NoData]
    ensures !sheet.IsEmpty() && (exists c :: c in RequiredColumns && c !in sheet.columns) ==>
              0 < |errors| <= |RequiredColumns| &&
              (forall err :: err in errors ==> err.MissingColumn?) &&
              (forall c :: MissingColumn(c) in errors <==> c in RequiredColumns && c !in sheet.columns)
    ensures !sheet.IsEmpty() && (forall c :: c in RequiredColumns ==> c in sheet.columns) ==>
              forall err :: err in errors ==> err.NotANumber? || err.Duplicate?
  {
    if sheet.IsEmpty() then [NoData]
    else
      var missing := MissingErrors(RequiredColumns, sheet.columns);
      if missing != [] then missing
      else RowErrors(sheet.rows, |sheet.rows|)
  }

  /** A sheet with rows but missing headers gets exactly one error per missing header. */
  lemma MissingHeadersCount(sheet: Sheet)
    requires !sheet.IsEmpty() && exists c :: c in RequiredColumns && c !in sheet.columns
    ensures |SheetErrors(sheet)| == Count(RequiredColumns, Absent(sheet.columns))
  {
    MissingErrorsCount(RequiredColumns, sheet.columns);
  }

  /** Some error of `errs` names spreadsheet line `line`. */
  predicate Reports(errs: seq<ImportError>, line: int)
  {
    exists err :: err in errs && err.NamesLine(line)
  }

  /** Row `i` is reported, under its own line number, exactly when it is among the
      first `n` rows and fails the row check. */
  lemma {:induction false} RowErrorsLine(rows: seq<SheetRow>, n: nat, i: nat)
    requires n <= |rows| && i < |rows|
    ensures Reports(RowErrors(rows, n), i + 2) <==> i < n && RowError(rows, i).Some?
  {
    if n > 0 {
      RowErrorsLine(rows, n - 1, i);
      var err := RowError(rows, n - 1);
      var tail: seq<ImportError> := if err.Some? then [err.value] else [];
      ReportsAppend(RowErrors(rows, n - 1), tail, i + 2);
      assert Reports(tail, i + 2) <==> i == n - 1 && err.Some? by {
        if err.Some? {
          assert tail == [err.value];
          assert err.value.NamesLine(n + 1);
        }
      }
    }
  }

  /** Some error of a concatenation names the line iff some error of either part does. */
  lemma ReportsAppend(a: seq<ImportError>, b: seq<ImportError>, line: int)
    ensures Reports(a + b, line) <==> Reports(a, line) || Reports(b, line)
  {
    if Reports(a + b, line) {
      var err: ImportError :| err in a + b && err.NamesLine(line);
      assert err in a || err in b;
    }
    if Reports(a, line) {
      var err: ImportError :| err in a && err.NamesLine(line);
      assert err in a + b;
    }
    if Reports(b, line) {
      var err: ImportError :| err in b && err.NamesLine(line);
      assert err in a + b;
    }
  }

  /** A data row whose max_teams is not all digits, whose theme cell is empty, or whose
      theme name occurs in another row, is reported with an error naming line index + 2;
      no other row is. */
  lemma RowReported(rows: seq<SheetRow>, i: nat)
    requires i < |rows|
    ensures Reports(RowErrors(rows, |rows|), i + 2) <==>
            !IsDigit(rows[i].maxTeams) || rows[i].theme == "" ||
            exists j :: 0 <= j < |rows| && j != i && rows[j].theme == rows[i].theme
  {
    RowErrorsLine(rows, |rows|, i);
  }

  /** Every row is either reported or passes; so no row errors means every row passes. */
  lemma {:induction false} NoErrorsAllPass(rows: seq<SheetRow>, n: nat)
    requires n <= |rows|
    ensures |RowErrors(rows, n)| + |PassingRows(rows, n)| == n
    ensures RowErrors(rows, n) == [] <==> PassingRows(rows, n) == rows[..n]
  {
    if n > 0 {
      NoErrorsAllPass(rows, n - 1);
      assert rows[..n] == rows[..n - 1] + [rows[n - 1]];
    }
  }

  /** A sheet the validator admits has rows, every required column, numeric max_teams
      cells, no empty theme cell and pairwise distinct theme names. */
  lemma AdmittedSheet(sheet: Sheet)
    requires SheetErrors(sheet) == []
    ensures !sheet.IsEmpty()
    ensures forall c :: c in RequiredColumns ==> c in sheet.columns
    ensures forall i :: 0 <= i < |sheet.rows| ==> IsDigit(sheet.rows[i].maxTeams) && sheet.rows[i].theme != ""
    ensures forall i, j :: 0 <= i < j < |sheet.rows| ==> sheet.rows[i].theme != sheet.rows[j].theme
  {
    var rows := sheet.rows;
    forall i | 0 <= i < |rows|
      ensures IsDigit(rows[i].maxTeams) && rows[i].theme != "" &&
              forall j :: 0 <= j < |rows| && j != i ==> rows[j].theme != rows[i].theme
    {
      RowReported(rows, i);
    }
  }

  /** The max_teams cells of an admitted sheet are digit strings, so they parse. */
  lemma AdmittedCaps(sheet: Sheet)
    requires SheetErrors(sheet) == []
    ensures forall i :: 0 <= i < |sheet.rows| ==> AllDigits(sheet.rows[i].maxTeams)
  {
    AdmittedSheet(sheet);
  }

  /** Conversely, a sheet with rows, every required column, numeric max_teams cells, no
      empty theme cell and pairwise distinct theme names is admitted. */
  lemma CleanSheetAdmitted(sheet: Sheet)
    requires !sheet.IsEmpty()
    requires forall c :: c in RequiredColumns ==> c in sheet.columns
    requires forall i :: 0 <= i < |sheet.rows| ==> IsDigit(sheet.rows[i].maxTeams) && sheet.rows[i].theme != ""
    requires forall i, j :: 0 <= i < j < |sheet.rows| ==> sheet.rows[i].theme != sheet.rows[j].theme
    ensures SheetErrors(sheet) == []
  {
    var missing := MissingErrors(RequiredColumns, sheet.columns);
    forall i | 0 <= i < |sheet.rows| ensures RowError(sheet.rows, i).None? {
      forall j | 0 <= j < |sheet.rows| && j != i ensures sheet.rows[j].theme != sheet.rows[i].theme {
      }
    }
    MissingErrorsCount(RequiredColumns, sheet.columns);
    CleanRowsNoErrors(sheet.rows, |sheet.rows|);
  }

  /** Rows that all pass the row check produce no errors. */
  lemma {:induction false} CleanRowsNoErrors(rows: seq<SheetRow>, n: nat)
    requires n <= |rows|
    requires forall i :: 0 <= i < |rows| ==> RowError(rows, i).None?
    ensures RowErrors(rows, n) == []
  {
    if n > 0 {
      CleanRowsNoErrors(rows, n - 1);
    }
  }

  /** The validator itself: the emptiness check, the header loop and the row loop.
      `accepted` collects the rows that pass; the caller commits them only when
      `errors` is empty, and then they are all the rows of the sheet. */
  method Validate(sheet: Sheet) returns (errors: seq<ImportError>, accepted: seq<SheetRow>)
    ensures errors == SheetErrors(sheet)
    ensures errors == [] ==> accepted == sheet.rows
  {
    errors, accepted := [], [];
    if sheet.IsEmpty() {
      errors := [NoData];
      return;
    }
    errors := CheckHeader(sheet.columns);
    if errors != [] {
      return;
    }
    errors, accepted := CheckRows(sheet.rows);
  }

  /** The header loop of the validator: each required column, in order, is reported
      when the sheet lacks it. */
  method CheckHeader(columns: set<string>) returns (errors: seq<ImportError>)
    ensures errors == MissingErrors(RequiredColumns, columns)
  {
    errors := [];
    var k := 0;
    while k < |RequiredColumns|
      invariant 0 <= k <= |RequiredColumns|
      invariant errors == MissingErrors(RequiredColumns[..k], columns)
    {
      assert RequiredColumns[..k + 1][..k] == RequiredColumns[..k];
      if RequiredColumns[k] !in columns {
        errors := errors + [MissingColumn(RequiredColumns[k])];
      }
      k := k + 1;
    }
    assert RequiredColumns[..k] == RequiredColumns;
  }

  /** The row loop of the validator: each data row is reported or collected, in order. */
  method CheckRows(rows: seq<SheetRow>) returns (errors: seq<ImportError>, accepted: seq<SheetRow>)
    ensures errors == RowErrors(rows, |rows|)
    ensures errors == [] ==> accepted == rows
  {
    errors, accepted := [], [];
    var i := 0;
    while i < |rows|
      invariant 0 <= i <= |rows|
      invariant errors == RowErrors(rows, i)
      invariant accepted == PassingRows(rows, i)
    {
      var row := rows[i];
      if !IsDigit(row.maxTeams) {
        errors := errors + [NotANumber(i + 2, row.maxTeams)];
      } else if ThemeCount(rows, row.theme) != 1 {
        errors := errors + [Duplicate(i + 2, row.theme)];
      } else {
        accepted := accepted + [row];
      }
      i := i + 1;
    }
    NoErrorsAllPass(rows, |rows|);
    assert rows[..|rows|] == rows;
  }

  /** The theme rows committed for an admitted sheet: one per data row, in order, each
      carrying the new event's key and the key derived from its own theme name. */
  function ThemeRows(rows: seq<SheetRow>, eventKey: int, hash: string -> int): (themes: seq<Theme>)
    requires forall i :: 0 <= i < |rows| ==> AllDigits(rows[i].maxTeams)
    ensures |themes| == |rows|
    ensures forall i :: 0 <= i < |rows| ==>
              themes[i] == Theme(rows[i].theme, rows[i].company, ParseDigits(rows[i].maxTeams),
                                 rows[i].responsible, rows[i].email, rows[i].description,
                                 rows[i].background, rows[i].problem, rows[i].expectedResult,
                                 eventKey, hash(rows[i].theme))
  {
    if rows == [] then []
    else
      var r := rows[0];
      [Theme(r.theme, r.company, ParseDigits(r.maxTeams), r.responsible, r.email, r.description,
             r.background, r.problem, r.expectedResult, eventKey, hash(r.theme))]
      + ThemeRows(rows[1..], eventKey, hash)
  }
}
