/**
 * The country lookup at the start of `queryRunwaysFromCountry`: the query is
 * trimmed and unquoted, then the countries file is scanned in order and the
 * scan stops at the first row whose code equals the query exactly or whose
 * name equals it ignoring case. The check after the scan reports "no match"
 * unless the code matched or rows remain, so a match by name alone on the last
 * data row is reported as no match.
 */
module CountryResolver {
  import opened Text
  import opened Csv

  /** The row the scan stopped on: its line and its `codeRow` / `countryRow`. */
  datatype Country = Country(line: nat, code: string, name: string)

  /** Whether a countries row answers the (normalised) query. */
  predicate Matches(q: string, code: string, name: string)
  {
    q == code || EqualsIgnoreCase(q, name)
  }

  /** A row the scan reads and goes past: both fields present, no match. */
  predicate Misses(q: string, row: Option<seq<string>>)
  {
    row.Some? && |row.value| == 2 && !Matches(q, row.value[0], row.value[1])
  }

  /** Every row in [i, j) is read and passed over. */
  predicate Passed(rows: seq<Option<seq<string>>>, q: string, i: nat, j: nat)
    requires j <= |rows|
  {
    forall k :: i <= k < j ==> Misses(q, rows[k])
  }

  /** The scan from row j on (row j being data line j + 1), with the check
      that follows it: `hasNext()` is false exactly after the last row. */
  function Scan(rows: seq<Option<seq<string>>>, q: string, j: nat): (r: Result<Country>)
    requires j <= |rows| && Arity(rows, 2)
    ensures r.Ok? ==> j < r.value.line <= |rows|
    decreases |rows| - j
  {
    if j == |rows| then Err(NoMatch(q))
    else
      match rows[j]
      case None => Err(ShortRow(j + 1))
      case Some(f) =>
        if Matches(q, f[0], f[1]) then
          if q != f[0] && j == |rows| - 1 then Err(NoMatch(q)) else Ok(Country(j + 1, f[0], f[1]))
        else Scan(rows, q, j + 1)
  }

  /** The records of the countries' data lines, `code` and `name` each. */
  function CountryRows(countries: seq<string>): (rows: seq<Option<seq<string>>>)
    requires Columns(countries, [CODE, NAME]).Ok?
    ensures |rows| == |countries| - 1 && Arity(rows, 2)
  {
    var idxs := Columns(countries, [CODE, NAME]).value;
    RowsArity(countries, idxs, |countries|);
    Rows(countries, idxs, |countries|)
  }

  /** Entry j of the country rows is the record of data line j + 1. */
  lemma CountryRowAt(countries: seq<string>, j: nat)
    requires Columns(countries, [CODE, NAME]).Ok? && j < |countries| - 1
    ensures CountryRows(countries)[j] == Record(countries[j + 1], Columns(countries, [CODE, NAME]).value)
  {
    RowAt(countries, Columns(countries, [CODE, NAME]).value, |countries|, j);
  }

  /** The whole lookup: normalise the query, find the columns, scan. */
  function Resolve(countries: seq<string>, query: string): Result<Country>
  {
    if Columns(countries, [CODE, NAME]).Err? then Err(Columns(countries, [CODE, NAME]).error)
    else Scan(CountryRows(countries), Normalize(query), 0)
  }

  /** Rows the scan passes over change nothing about where it ends. */
  lemma {:induction false} ScanSkip(rows: seq<Option<seq<string>>>, q: string, i: nat, m: nat)
    requires i <= m <= |rows| && Arity(rows, 2)
    requires Passed(rows, q, i, m)
    ensures Scan(rows, q, i) == Scan(rows, q, m)
    decreases m - i
  {
    if i < m {
      assert Misses(q, rows[i]);
      ScanSkip(rows, q, i + 1, m);
    }
  }

  /** A scan that succeeds stops on a matching row after passing over every
      row before it, and it is either a code match or not the last row. */
  lemma {:induction false} ScanFound(rows: seq<Option<seq<string>>>, q: string, i: nat)
    requires i <= |rows| && Arity(rows, 2)
    requires Scan(rows, q, i).Ok?
    ensures var c := Scan(rows, q, i).value;
      Passed(rows, q, i, c.line - 1) &&
      rows[c.line - 1] == Some([c.code, c.name]) &&
      Matches(q, c.code, c.name) &&
      (q == c.code || c.line < |rows|)
    decreases |rows| - i
  {
    var f := rows[i].value;
    if !Matches(q, f[0], f[1]) {
      ScanFound(rows, q, i + 1);
    } else {
      assert f == [f[0], f[1]];
    }
  }

  /** A scan that fails either meets a short row after passing over the rows
      before it, or reads every row, the last one being at most a match by
      name alone. */
  lemma {:induction false} ScanFailed(rows: seq<Option<seq<string>>>, q: string, i: nat)
    requires i <= |rows| && Arity(rows, 2)
    requires Scan(rows, q, i).Err?
    ensures var e := Scan(rows, q, i).error;
      (e.ShortRow? && i < e.line <= |rows| && Passed(rows, q, i, e.line - 1) && rows[e.line - 1].None?) ||
      (e == NoMatch(q) && (i == |rows| || (Passed(rows, q, i, |rows| - 1) &&
        rows[|rows| - 1].Some? && rows[|rows| - 1].value[0] != q)))
    decreases |rows| - i
  {
    if i < |rows| && rows[i].Some? && !Matches(q, rows[i].value[0], rows[i].value[1]) {
      ScanFailed(rows, q, i + 1);
    }
  }

  /** A found country is the first row, in file order, whose code equals the
      query or whose name equals it ignoring case; every row before it was read
      and did not match; and it matched by code or was not the last row. */
  lemma ResolveFirstMatch(countries: seq<string>, query: string)
    requires Resolve(countries, query).Ok?
    ensures var c := Resolve(countries, query).value;
      var rows := CountryRows(countries);
      1 <= c.line < |countries| &&
      rows[c.line - 1] == Some([c.code, c.name]) &&
      Matches(Normalize(query), c.code, c.name) &&
      Passed(rows, Normalize(query), 0, c.line - 1) &&
      (c.code == Normalize(query) || c.line < |countries| - 1)
  {
    ScanFound(CountryRows(countries), Normalize(query), 0);
  }

  /** A failed lookup past the header is either a short row met before any
      match, or "no match": no data row at all, or every row passed over but
      the last, which is not a code match. */
  lemma ResolveFailure(countries: seq<string>, query: string)
    requires Columns(countries, [CODE, NAME]).Ok? && Resolve(countries, query).Err?
    ensures var e := Resolve(countries, query).error;
      var rows := CountryRows(countries);
      var q := Normalize(query);
      (e.ShortRow? && 1 <= e.line < |countries| && Passed(rows, q, 0, e.line - 1) && rows[e.line - 1].None?) ||
      (e == NoMatch(q) && (|countries| == 1 || (Passed(rows, q, 0, |rows| - 1) &&
        rows[|rows| - 1].Some? && rows[|rows| - 1].value[0] != q)))
  {
    ScanFailed(CountryRows(countries), Normalize(query), 0);
  }

  /** A code match is never reported as a failure, wherever the row is. */
  lemma ScanCodeMatch(rows: seq<Option<seq<string>>>, q: string, m: nat, name: string)
    requires m < |rows| && Arity(rows, 2)
    requires Passed(rows, q, 0, m) && rows[m] == Some([q, name])
    ensures Scan(rows, q, 0) == Ok(Country(m + 1, q, name))
  {
    ScanSkip(rows, q, 0, m);
  }

  /** A match by name on a row that is not the last is found. */
  lemma ScanNameMatch(rows: seq<Option<seq<string>>>, q: string, m: nat, code: string, name: string)
    requires m < |rows| - 1 && Arity(rows, 2)
    requires Passed(rows, q, 0, m) && rows[m] == Some([code, name])
    requires EqualsIgnoreCase(q, name)
    ensures Scan(rows, q, 0) == Ok(Country(m + 1, code, name))
  {
    ScanSkip(rows, q, 0, m);
  }

  /** The check after the scan: a match by name alone on the last data row is
      reported as no match. */
  lemma ScanLastRowByName(rows: seq<Option<seq<string>>>, q: string, code: string, name: string)
    requires |rows| >= 1 && Arity(rows, 2)
    requires Passed(rows, q, 0, |rows| - 1) && rows[|rows| - 1] == Some([code, name])
    requires code != q && EqualsIgnoreCase(q, name)
    ensures Scan(rows, q, 0) == Err(NoMatch(q))
  {
    ScanSkip(rows, q, 0, |rows| - 1);
  }

  /** No row matching, the scan fails with "no match". */
  lemma ScanNoRowMatches(rows: seq<Option<seq<string>>>, q: string)
    requires Arity(rows, 2) && Passed(rows, q, 0, |rows|)
    ensures Scan(rows, q, 0) == Err(NoMatch(q))
  {
    ScanSkip(rows, q, 0, |rows|);
  }

  /** A short row met before any match stops the scan there. */
  lemma ScanShortRow(rows: seq<Option<seq<string>>>, q: string, l: nat)
    requires l < |rows| && Arity(rows, 2)
    requires Passed(rows, q, 0, l) && rows[l].None?
    ensures Scan(rows, q, 0) == Err(ShortRow(l + 1))
  {
    ScanSkip(rows, q, 0, l);
  }

  /** The scan reads nothing past the row it stops on: rows that agree up to
      it, with at least one more row after it, give the same country. */
  lemma ScanIgnoresLaterRows(rows: seq<Option<seq<string>>>, other: seq<Option<seq<string>>>, q: string)
    requires Arity(rows, 2) && Arity(other, 2)
    requires Scan(rows, q, 0).Ok?
    requires |other| > Scan(rows, q, 0).value.line
    requires other[..Scan(rows, q, 0).value.line] == rows[..Scan(rows, q, 0).value.line]
    ensures Scan(other, q, 0) == Scan(rows, q, 0)
  {
    var c := Scan(rows, q, 0).value;
    ScanFound(rows, q, 0);
    forall k | 0 <= k < c.line ensures other[k] == rows[k] {
      assert other[..c.line][k] == rows[..c.line][k];
    }
    ScanSkip(other, q, 0, c.line - 1);
  }

  /** One row with both fields, as the scan sees it: a match ends the scan
      (as "no match" for a name-only match on the last row), a miss goes on. */
  lemma ScanStep(rows: seq<Option<seq<string>>>, q: string, j: nat, code: string, name: string)
    requires j < |rows| && Arity(rows, 2) && rows[j] == Some([code, name])
    ensures Scan(rows, q, j) ==
      if Matches(q, code, name) then
        if q != code && j == |rows| - 1 then Err(NoMatch(q)) else Ok(Country(j + 1, code, name))
      else Scan(rows, q, j + 1)
  {
  }

  /** The lookup past a header that has both columns is the scan of the rows. */
  lemma ResolveScan(countries: seq<string>, query: string)
    requires Columns(countries, [CODE, NAME]).Ok?
    ensures Resolve(countries, query) == Scan(CountryRows(countries), Normalize(query), 0)
  {
  }

  /** Files that agree on the header and on the lines up to n agree on the
      country rows before line n. */
  lemma CountryRowsAgree(countries: seq<string>, other: seq<string>, n: nat)
    requires 1 <= n <= |countries| && n <= |other| && other[..n] == countries[..n]
    requires Columns(countries, [CODE, NAME]).Ok?
    ensures Columns(other, [CODE, NAME]) == Columns(countries, [CODE, NAME])
    ensures CountryRows(other)[..n - 1] == CountryRows(countries)[..n - 1]
  {
    assert other[0] == countries[0];
    var rows, rows' := CountryRows(countries), CountryRows(other);
    forall k | 0 <= k < n - 1 ensures rows'[k] == rows[k] {
      assert other[k + 1] == countries[k + 1];
      CountryRowAt(countries, k);
      CountryRowAt(other, k);
    }
  }

  /** The lookup reads nothing past the row it stops on: a file that agrees up
      to that row and still has a line after it gives the same country. */
  lemma ResolveIgnoresLaterRows(countries: seq<string>, other: seq<string>, query: string)
    requires Resolve(countries, query).Ok?
    requires |other| > Resolve(countries, query).value.line + 1
    requires other[..Resolve(countries, query).value.line + 1] == countries[..Resolve(countries, query).value.line + 1]
    ensures Resolve(other, query) == Resolve(countries, query)
  {
    var n := Resolve(countries, query).value.line + 1;
    ResolveScan(countries, query);
    CountryRowsAgree(countries, other, n);
    ResolveScan(other, query);
    ScanIgnoresLaterRows(CountryRows(countries), CountryRows(other), Normalize(query));
  }

  /** The country rows are what reading the `code` and `name` columns gives. */
  lemma CountryRowsRead(countries: seq<string>)
    requires Columns(countries, [CODE, NAME]).Ok?
    ensures var idxs := Columns(countries, [CODE, NAME]).value;
      ReadsAsPairs(countries, idxs[0], idxs[1], CountryRows(countries))
  {
    RowsArePairs(countries, Columns(countries, [CODE, NAME]).value);
  }

  /** The lookup of `queryRunwaysFromCountry`: header first, then the scan. */
  method ResolveCountry(countries: seq<string>, query: string) returns (r: Result<Country>)
    ensures r == Resolve(countries, query)
  {
    var q := Normalize(query);
    var columns := Columns(countries, [CODE, NAME]);
    if columns.Err? {
      return Err(columns.error);
    }
    ResolveScan(countries, query);
    CountryRowsRead(countries);
    r := ScanCountries(countries, columns.value[0], columns.value[1], q, CountryRows(countries));
  }

  /** The lookup loop: `codeRow` and `countryRow` carry the last row read out
      of the loop, which breaks on a match, and the check after it decides
      between the row found and "no match". */
  method ScanCountries(countries: seq<string>, codeIndex: nat, countryIndex: nat, q: string,
                       ghost rows: seq<Option<seq<string>>>) returns (r: Result<Country>)
    requires Arity(rows, 2) && ReadsAsPairs(countries, codeIndex, countryIndex, rows)
    ensures r == Scan(rows, q, 0)
  {
    var codeRow: Option<string> := None;
    var countryRow: Option<string> := None;
    var next := 1;  // the line the iterator hands out next
    while next < |countries|
      invariant 1 <= next <= |countries|
      invariant Scan(rows, q, 0) == Scan(rows, q, next - 1)
      invariant codeRow.None? <==> next == 1
      invariant countryRow.None? <==> next == 1
      invariant codeRow.Some? ==> codeRow.value != q
    {
      var line := countries[next];
      next := next + 1;
      var code := Field(line, codeIndex);
      if code.None? {
        assert rows[next - 2].None?;
        return Err(ShortRow(next - 1));
      }
      var name := Field(line, countryIndex);
      if name.None? {
        assert rows[next - 2].None?;
        return Err(ShortRow(next - 1));
      }
      ScanStep(rows, q, next - 2, code.value, name.value);
      codeRow, countryRow := code, name;
      if q == code.value || EqualsIgnoreCase(q, name.value) {
        break;
      }
    }
    if codeRow != Some(q) && !(next < |countries|) {
      return Err(NoMatch(q));
    }
    return Ok(Country(next - 1, codeRow.value, countryRow.value));
  }
}
