/**
 * The row/field reader every scan of Main.java repeats: the first line of a
 * file is the header, a column is found by literal match of its quoted name in
 * the comma-split header, and a data row's field is its comma piece, trimmed
 * and stripped of one layer of quotes. A file is given as its lines.
 */
module Csv {
  import opened Text

  /** The failures of a query: an empty file (no header line to take), a
      required column absent from the header, a data row split into too few
      fields, and a country query that matched no row. */
  datatype Error =
    | NoHeader
    | MissingColumn(columns: seq<string>)
    | ShortRow(line: nat)
    | NoMatch(query: string)

  datatype Result<T> = Ok(value: T) | Err(error: Error)

  datatype Option<T> = None | Some(value: T)

  /** The header names as they are looked up: with their quotes. */
  const CODE := "\"code\""
  const NAME := "\"name\""
  const ISO_COUNTRY := "\"iso_country\""
  const ID := "\"id\""
  const AIRPORT_REF := "\"airport_ref\""

  /** `List.indexOf`: the first position holding `name`, or -1. */
  function IndexOf(cols: seq<string>, name: string): (r: int)
    ensures -1 <= r < |cols|
    ensures r == -1 <==> name !in cols
    ensures 0 <= r ==> cols[r] == name && name !in cols[..r]
  {
    if |cols| == 0 then -1
    else if cols[0] == name then 0
    else
      var k := IndexOf(cols[1..], name);
      assert cols[1..][..k + 1] == cols[..k + 2][1..] by {
        if k >= 0 { assert cols[1..][..k + 1] == cols[1..k + 2]; }
      }
      if k == -1 then -1 else k + 1
  }

  /** The positions of the required header names, each the first literal match
      in the comma-split header line; one group of names fails together. */
  function Columns(lines: seq<string>, names: seq<string>): (r: Result<seq<nat>>)
    ensures r == Err(NoHeader) <==> |lines| == 0
    ensures r.Err? && |lines| > 0 ==> r.error == MissingColumn(names)
    ensures r.Ok? ==> |r.value| == |names|
  {
    if |lines| == 0 then Err(NoHeader)
    else
      var cols := Split(lines[0]);
      if forall n :: n in names ==> n in cols then
        Ok(seq(|names|, i requires 0 <= i < |names| => IndexOf(cols, names[i]) as nat))
      else Err(MissingColumn(names))
  }

  /** The header lookup succeeds exactly when every name is a header field, and
      then gives each name the position of its first occurrence there. */
  lemma ColumnsFound(lines: seq<string>, names: seq<string>)
    ensures Columns(lines, names).Ok? <==> |lines| > 0 && forall n :: n in names ==> n in Split(lines[0])
    ensures Columns(lines, names).Ok? ==> forall i :: 0 <= i < |names| ==>
      Columns(lines, names).value[i] == IndexOf(Split(lines[0]), names[i])
  {
  }

  /** `line.split(",")[idx].trim().replaceAll("^\"|\"$", "")`, or None where
      the index is past the split (Java's ArrayIndexOutOfBoundsException). */
  function Field(line: string, idx: nat): (r: Option<string>)
    ensures r.Some? <==> idx < |Split(line)|
  {
    if idx < |Split(line)| then Some(Normalize(Split(line)[idx])) else None
  }

  /** Whether the split line reaches every chosen column. */
  predicate Complete(line: string, idxs: seq<nat>)
  {
    forall i :: 0 <= i < |idxs| ==> idxs[i] < |Split(line)|
  }

  /** All the chosen fields of one data row, or None if any is missing. */
  function Record(line: string, idxs: seq<nat>): (r: Option<seq<string>>)
    ensures r.Some? <==> Complete(line, idxs)
    ensures r.Some? ==> |r.value| == |idxs|
  {
    if Complete(line, idxs) then
      Some(seq(|idxs|, i requires 0 <= i < |idxs| => Normalize(Split(line)[idxs[i]])))
    else None
  }

  /** The fields read one by one make up the record, and one missing field
      makes the record missing. */
  lemma RecordOfFields(line: string, idxs: seq<nat>, f: seq<string>)
    requires |f| == |idxs|
    requires forall k :: 0 <= k < |idxs| ==> Field(line, idxs[k]) == Some(f[k])
    ensures Record(line, idxs) == Some(f)
  {
    assert Complete(line, idxs);
    var r := Record(line, idxs);
    forall k | 0 <= k < |idxs| ensures r.value[k] == f[k] {
      assert Field(line, idxs[k]) == Some(r.value[k]);
    }
    assert r.value == f;
  }

  /** Each data line's record, for lines 1 .. n-1 in file order. */
  function Rows(lines: seq<string>, idxs: seq<nat>, n: nat): (r: seq<Option<seq<string>>>)
    requires 1 <= n <= |lines|
    ensures |r| == n - 1
  {
    seq(n - 1, j requires 0 <= j < n - 1 => Record(lines[j + 1], idxs))
  }

  /** The records in order, or the first missing one as a `ShortRow` naming its
      line (entry j stands for line j + 1). */
  function Gather(rows: seq<Option<seq<string>>>): (r: Result<seq<seq<string>>>)
    ensures r.Ok? ==> |r.value| == |rows|
    ensures r.Err? ==> r.error.ShortRow? && 1 <= r.error.line <= |rows|
  {
    if |rows| == 0 then Ok([])
    else
      match Gather(rows[..|rows| - 1])
      case Err(e) => Err(e)
      case Ok(recs) =>
        match rows[|rows| - 1]
        case None => Err(ShortRow(|rows|))
        case Some(f) => Ok(recs + [f])
  }

  /** Gathering succeeds exactly when no record is missing, and then holds every
      record at its own place. */
  lemma {:induction false} GatherOk(rows: seq<Option<seq<string>>>)
    ensures Gather(rows).Ok? <==> forall j :: 0 <= j < |rows| ==> rows[j].Some?
    ensures Gather(rows).Ok? ==> forall j :: 0 <= j < |rows| ==> rows[j] == Some(Gather(rows).value[j])
  {
    if |rows| > 0 {
      var init := rows[..|rows| - 1];
      GatherOk(init);
      assert forall j :: 0 <= j < |init| ==> init[j] == rows[j];
    }
  }

  /** A failed gathering names the first missing record. */
  lemma {:induction false} GatherFirstMissing(rows: seq<Option<seq<string>>>)
    requires Gather(rows).Err?
    ensures rows[Gather(rows).error.line - 1].None?
    ensures forall j :: 0 <= j < Gather(rows).error.line - 1 ==> rows[j].Some?
  {
    var init := rows[..|rows| - 1];
    assert forall j :: 0 <= j < |init| ==> init[j] == rows[j];
    if Gather(init).Err? {
      GatherFirstMissing(init);
    } else {
      GatherOk(init);
    }
  }

  /** Once gathering has failed, gathering further rows keeps the same failure. */
  lemma {:induction false} GatherFailurePersists(rows: seq<Option<seq<string>>>, m: nat)
    requires m <= |rows|
    requires Gather(rows[..m]).Err?
    ensures Gather(rows) == Gather(rows[..m])
    decreases |rows| - m
  {
    if m < |rows| {
      var init := rows[..|rows| - 1];
      assert init[..m] == rows[..m];
      GatherFailurePersists(init, m);
    } else {
      assert rows[..m] == rows;
    }
  }

  /** The records of data lines 1 .. n-1 in file order; the first line with too
      few fields stops the read with its line number. */
  function ParseRows(lines: seq<string>, idxs: seq<nat>, n: nat): (r: Result<seq<seq<string>>>)
    requires 1 <= n <= |lines|
  {
    Gather(Rows(lines, idxs, n))
  }

  /** Entry j of the rows is the record of line j + 1. */
  lemma RowAt(lines: seq<string>, idxs: seq<nat>, n: nat, j: nat)
    requires 1 <= n <= |lines| && j < n - 1
    ensures Rows(lines, idxs, n)[j] == Record(lines[j + 1], idxs)
  {
  }

  /** Reading fewer lines gives a prefix of the rows. */
  lemma RowsPrefix(lines: seq<string>, idxs: seq<nat>, m: nat, n: nat)
    requires 1 <= m <= n <= |lines|
    ensures Rows(lines, idxs, n)[..m - 1] == Rows(lines, idxs, m)
  {
  }

  /** Reading one line further adds that line's record at the end. */
  lemma RowsSnoc(lines: seq<string>, idxs: seq<nat>, i: nat)
    requires 1 <= i < |lines|
    ensures Rows(lines, idxs, i + 1) == Rows(lines, idxs, i) + [Record(lines[i], idxs)]
    ensures Rows(lines, idxs, i + 1)[..i - 1] == Rows(lines, idxs, i)
  {
    assert Rows(lines, idxs, i + 1)[..i - 1] == Rows(lines, idxs, i);
  }

  /** Reading no data line yet gives no record. */
  lemma ParseStart(lines: seq<string>, idxs: seq<nat>)
    requires 1 <= |lines|
    ensures ParseRows(lines, idxs, 1) == Ok([])
  {
  }

  /** A read that has got through line i and finds every chosen field of line i
      goes one line further, with those fields as the new record. */
  lemma RowRead(lines: seq<string>, idxs: seq<nat>, i: nat, recs: seq<seq<string>>, f: seq<string>)
    requires 1 <= i < |lines|
    requires ParseRows(lines, idxs, i) == Ok(recs)
    requires |f| == |idxs|
    requires forall k :: 0 <= k < |idxs| ==> Field(lines[i], idxs[k]) == Some(f[k])
    ensures ParseRows(lines, idxs, i + 1) == Ok(recs + [f])
  {
    RecordOfFields(lines[i], idxs, f);
    RowsSnoc(lines, idxs, i);
  }

  /** A read that has got through line i and misses a chosen field of line i
      fails there, whatever follows. */
  lemma RowShort(lines: seq<string>, idxs: seq<nat>, i: nat, k: nat)
    requires 1 <= i < |lines|
    requires ParseRows(lines, idxs, i).Ok?
    requires k < |idxs| && |Split(lines[i])| <= idxs[k]
    ensures ParseRows(lines, idxs, |lines|) == Err(ShortRow(i))
  {
    assert !Complete(lines[i], idxs);
    RowsSnoc(lines, idxs, i);
    assert ParseRows(lines, idxs, i + 1) == Err(ShortRow(i));
    RowsPrefix(lines, idxs, i + 1, |lines|);
    GatherFailurePersists(Rows(lines, idxs, |lines|), i);
  }

  /** A whole file read for the named columns: header lookup, then every data row. */
  function Read(lines: seq<string>, names: seq<string>): (r: Result<seq<seq<string>>>)
    ensures r.Ok? ==> |lines| > 0 && |r.value| == |lines| - 1
  {
    match Columns(lines, names)
    case Err(e) => Err(e)
    case Ok(idxs) => ParseRows(lines, idxs, |lines|)
  }

  /** Once the header has every column, a read succeeds exactly when every data
      line reaches every chosen column. */
  lemma ReadOk(lines: seq<string>, names: seq<string>)
    requires Columns(lines, names).Ok?
    ensures Read(lines, names).Ok? <==> forall j :: 1 <= j < |lines| ==> Complete(lines[j], Columns(lines, names).value)
  {
    var idxs := Columns(lines, names).value;
    var rows := Rows(lines, idxs, |lines|);
    GatherOk(rows);
    forall j | 1 <= j < |lines| ensures rows[j - 1].Some? <==> Complete(lines[j], idxs) {
      RowAt(lines, idxs, |lines|, j - 1);
    }
  }

  /** A successful read holds, at place j, the record of line j + 1, with one
      field per requested column. */
  lemma ReadRecords(lines: seq<string>, names: seq<string>)
    requires Read(lines, names).Ok?
    ensures forall j :: 0 <= j < |lines| - 1 ==>
      Record(lines[j + 1], Columns(lines, names).value) == Some(Read(lines, names).value[j])
    ensures forall j :: 0 <= j < |lines| - 1 ==> |Read(lines, names).value[j]| == |names|
  {
    var idxs := Columns(lines, names).value;
    var rows := Rows(lines, idxs, |lines|);
    GatherOk(rows);
    forall j | 0 <= j < |lines| - 1 ensures rows[j] == Record(lines[j + 1], idxs) {
      RowAt(lines, idxs, |lines|, j);
    }
  }

  /** A read that fails past the header fails on a data line. */
  lemma ReadFailsOnRow(lines: seq<string>, names: seq<string>)
    requires Columns(lines, names).Ok? && Read(lines, names).Err?
    ensures Read(lines, names).error.ShortRow?
    ensures 1 <= Read(lines, names).error.line < |lines|
  {
  }

  /** Reading rows that fails stops on a data line that falls short of a chosen
      column. */
  lemma ParseShortRow(lines: seq<string>, idxs: seq<nat>, l: nat)
    requires 1 <= |lines| && ParseRows(lines, idxs, |lines|) == Err(ShortRow(l))
    ensures 1 <= l < |lines|
    ensures Record(lines[l], idxs).None?
  {
    GatherFirstMissing(Rows(lines, idxs, |lines|));
    RowAt(lines, idxs, |lines|, l - 1);
  }

  /** Every data line before the one a failed read stops on was complete. */
  lemma ParseBeforeShortRow(lines: seq<string>, idxs: seq<nat>, l: nat)
    requires 1 <= |lines| && ParseRows(lines, idxs, |lines|) == Err(ShortRow(l))
    ensures forall j :: 1 <= j < l ==> Record(lines[j], idxs).Some?
  {
    var rows := Rows(lines, idxs, |lines|);
    GatherFirstMissing(rows);
    assert forall j :: 0 <= j < l - 1 ==> rows[j].Some?;
    forall j | 1 <= j < l ensures Record(lines[j], idxs).Some? {
      assert rows[j - 1].Some?;
      RowAt(lines, idxs, |lines|, j - 1);
    }
  }

  /** The data line a read fails on is the first one that falls short of a
      chosen column; every line before it was complete. */
  lemma ReadFirstShortRow(lines: seq<string>, names: seq<string>, l: nat)
    requires Columns(lines, names).Ok? && Read(lines, names) == Err(ShortRow(l))
    ensures 1 <= l < |lines|
    ensures !Complete(lines[l], Columns(lines, names).value)
    ensures forall j :: 1 <= j < l ==> Complete(lines[j], Columns(lines, names).value)
  {
    var idxs := Columns(lines, names).value;
    ParseShortRow(lines, idxs, l);
    ParseBeforeShortRow(lines, idxs, l);
    forall j | 1 <= j < l ensures Complete(lines[j], idxs) {
      assert Record(lines[j], idxs).Some?;
    }
  }

  /** The rows with the required columns absent fail before any data row is looked at. */
  lemma MissingColumnFirst(lines: seq<string>, names: seq<string>)
    requires |lines| > 0
    requires exists n :: n in names && n !in Split(lines[0])
    ensures Read(lines, names) == Err(MissingColumn(names))
    ensures forall rest: seq<string> :: Read([lines[0]] + rest, names) == Err(MissingColumn(names))
  {
  }

  /** One data line read field by field, as the loops do: the fields at `a`
      and `b` in that order, or None as soon as one is past the split. */
  function PairAt(line: string, a: nat, b: nat): (r: Option<seq<string>>)
    ensures r.Some? ==> |r.value| == 2
  {
    match (Field(line, a), Field(line, b))
    case (Some(x), Some(y)) => Some([x, y])
    case _ => None
  }

  /** The same for three fields. */
  function TripleAt(line: string, a: nat, b: nat, c: nat): (r: Option<seq<string>>)
    ensures r.Some? ==> |r.value| == 3
  {
    match (Field(line, a), Field(line, b), Field(line, c))
    case (Some(x), Some(y), Some(z)) => Some([x, y, z])
    case _ => None
  }

  /** The rows are, line by line, what reading two fields gives. */
  predicate ReadsAsPairs(lines: seq<string>, a: nat, b: nat, rows: seq<Option<seq<string>>>)
  {
    |rows| == |lines| - 1 &&
    forall i :: 1 <= i < |lines| ==> rows[i - 1] == PairAt(lines[i], a, b)
  }

  /** The rows are, line by line, what reading three fields gives. */
  predicate ReadsAsTriples(lines: seq<string>, a: nat, b: nat, c: nat, rows: seq<Option<seq<string>>>)
  {
    |rows| == |lines| - 1 &&
    forall i :: 1 <= i < |lines| ==> rows[i - 1] == TripleAt(lines[i], a, b, c)
  }

  /** The record of a line for two columns is the two fields read in turn. */
  lemma RecordPair(line: string, idxs: seq<nat>)
    requires |idxs| == 2
    ensures Record(line, idxs) == PairAt(line, idxs[0], idxs[1])
  {
    var x, y := Field(line, idxs[0]), Field(line, idxs[1]);
    if x.Some? && y.Some? {
      RecordOfFields(line, idxs, [x.value, y.value]);
    } else {
      var k := if x.None? then 0 else 1;
      assert !(idxs[k] < |Split(line)|);
    }
  }

  /** The record of a line for three columns is the three fields read in turn. */
  lemma RecordTriple(line: string, idxs: seq<nat>)
    requires |idxs| == 3
    ensures Record(line, idxs) == TripleAt(line, idxs[0], idxs[1], idxs[2])
  {
    var x, y, z := Field(line, idxs[0]), Field(line, idxs[1]), Field(line, idxs[2]);
    if x.Some? && y.Some? && z.Some? {
      RecordOfFields(line, idxs, [x.value, y.value, z.value]);
    } else {
      var k := if x.None? then 0 else if y.None? then 1 else 2;
      assert !(idxs[k] < |Split(line)|);
    }
  }

  /** Read for two columns, the data lines give their pairs of fields. */
  lemma RowsArePairs(lines: seq<string>, idxs: seq<nat>)
    requires 1 <= |lines| && |idxs| == 2
    ensures ReadsAsPairs(lines, idxs[0], idxs[1], Rows(lines, idxs, |lines|))
  {
    forall i | 1 <= i < |lines|
      ensures Rows(lines, idxs, |lines|)[i - 1] == PairAt(lines[i], idxs[0], idxs[1])
    {
      RowAt(lines, idxs, |lines|, i - 1);
      RecordPair(lines[i], idxs);
    }
  }

  /** Read for three columns, the data lines give their triples of fields. */
  lemma RowsAreTriples(lines: seq<string>, idxs: seq<nat>)
    requires 1 <= |lines| && |idxs| == 3
    ensures ReadsAsTriples(lines, idxs[0], idxs[1], idxs[2], Rows(lines, idxs, |lines|))
  {
    forall i | 1 <= i < |lines|
      ensures Rows(lines, idxs, |lines|)[i - 1] == TripleAt(lines[i], idxs[0], idxs[1], idxs[2])
    {
      RowAt(lines, idxs, |lines|, i - 1);
      RecordTriple(lines[i], idxs);
    }
  }

  /** A read past a header that has every column gathers the rows. */
  lemma ReadRows(lines: seq<string>, names: seq<string>)
    requires Columns(lines, names).Ok?
    ensures Read(lines, names) == Gather(Rows(lines, Columns(lines, names).value, |lines|))
  {
  }

  /** Gathering one row further: a missing record fails there, a present one
      is added at the end. */
  lemma GatherStep(rows: seq<Option<seq<string>>>, j: nat, recs: seq<seq<string>>)
    requires j < |rows| && Gather(rows[..j]) == Ok(recs)
    ensures rows[j].None? ==> Gather(rows) == Err(ShortRow(j + 1))
    ensures rows[j].Some? ==> Gather(rows[..j + 1]) == Ok(recs + [rows[j].value])
  {
    assert rows[..j + 1][..j] == rows[..j];
    if rows[j].None? {
      assert Gather(rows[..j + 1]) == Err(ShortRow(j + 1));
      GatherFailurePersists(rows, j + 1);
    }
  }

  /** Every record present has n fields. */
  predicate Arity(rows: seq<Option<seq<string>>>, n: nat)
  {
    forall j :: 0 <= j < |rows| && rows[j].Some? ==> |rows[j].value| == n
  }

  /** Records read from two columns. */
  predicate Pairs(recs: seq<seq<string>>)
  {
    forall j :: 0 <= j < |recs| ==> |recs[j]| == 2
  }

  /** Records read from three columns. */
  predicate Triples(recs: seq<seq<string>>)
  {
    forall j :: 0 <= j < |recs| ==> |recs[j]| == 3
  }

  /** A record present has one field per chosen column. */
  lemma RowsArity(lines: seq<string>, idxs: seq<nat>, n: nat)
    requires 1 <= n <= |lines|
    ensures Arity(Rows(lines, idxs, n), |idxs|)
  {
    forall j | 0 <= j < n - 1 && Rows(lines, idxs, n)[j].Some?
      ensures |Rows(lines, idxs, n)[j].value| == |idxs|
    {
      RowAt(lines, idxs, n, j);
    }
  }

  /** Gathered records keep the arity of the rows. */
  lemma GatherArity(rows: seq<Option<seq<string>>>, n: nat)
    requires Arity(rows, n) && Gather(rows).Ok?
    ensures forall j :: 0 <= j < |Gather(rows).value| ==> |Gather(rows).value[j]| == n
  {
    GatherOk(rows);
  }
}
