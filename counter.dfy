/**
 * `calcMostAirports`: the countries file becomes an insertion-ordered
 * code -> name table, every known code is seeded with 0, and every airport row
 * whose `iso_country` is a known code adds one to that code's count.
 */
module AirportCounter {
  import opened Csv

  /** The countries `LinkedHashMap<String, String>`: its keys in first-insertion
      order, and the value last put under each key. */
  datatype CountryTable = CountryTable(order: seq<string>, names: map<string, string>)

  predicate Distinct(s: seq<string>)
  {
    forall i, j :: 0 <= i < j < |s| ==> s[i] != s[j]
  }

  /** The order lists every key exactly once. */
  predicate Valid(t: CountryTable)
  {
    Distinct(t.order) &&
    (forall k :: k in t.names ==> k in t.order) &&
    (forall i :: 0 <= i < |t.order| ==> t.order[i] in t.names)
  }

  /** `LinkedHashMap.put`: a new key goes to the end, an old key keeps its place. */
  function Put(t: CountryTable, code: string, name: string): (r: CountryTable)
    requires Valid(t)
    ensures Valid(r)
  {
    if code in t.names then CountryTable(t.order, t.names[code := name])
    else CountryTable(t.order + [code], t.names[code := name])
  }

  /** The first field of every record: the codes, in file order. */
  function Firsts(recs: seq<seq<string>>): (r: seq<string>)
    requires forall j :: 0 <= j < |recs| ==> |recs[j]| >= 1
    ensures |r| == |recs|
  {
    if |recs| == 0 then []
    else Firsts(recs[..|recs| - 1]) + [recs[|recs| - 1][0]]
  }

  /** The table the countries loop has built after putting every (code, name) record. */
  function TableOf(recs: seq<seq<string>>): (t: CountryTable)
    requires Pairs(recs)
    ensures Valid(t)
  {
    if |recs| == 0 then CountryTable([], map[])
    else
      var last := recs[|recs| - 1];
      Put(TableOf(recs[..|recs| - 1]), last[0], last[1])
  }

  /** The countries file read for its `"code"` and `"name"` columns. */
  function CountryRecords(countries: seq<string>): (r: Result<seq<seq<string>>>)
    ensures r.Ok? ==> Pairs(r.value)
  {
    if Read(countries, [CODE, NAME]).Ok? then
      ReadRecords(countries, [CODE, NAME]);
      Read(countries, [CODE, NAME])
    else Read(countries, [CODE, NAME])
  }

  /** The table's keys are exactly the codes read. */
  lemma {:induction false} TableKeys(recs: seq<seq<string>>)
    requires Pairs(recs)
    ensures forall k :: k in TableOf(recs).names <==> k in Firsts(recs)
  {
    if |recs| > 0 {
      var init := recs[..|recs| - 1];
      TableKeys(init);
      assert Firsts(recs) == Firsts(init) + [recs[|recs| - 1][0]];
    }
  }

  /** Each code maps to the name of the last row that carries it. */
  lemma {:induction false} TableNames(recs: seq<seq<string>>, j: nat)
    requires Pairs(recs)
    requires j < |recs|
    requires forall l :: j < l < |recs| ==> recs[l][0] != recs[j][0]
    ensures recs[j][0] in TableOf(recs).names
    ensures TableOf(recs).names[recs[j][0]] == recs[j][1]
  {
    if j < |recs| - 1 {
      var init := recs[..|recs| - 1];
      TableNames(init, j);
    }
  }

  /** How many entries of `codes` equal `k`. */
  function Occurrences(k: string, codes: seq<string>): nat
  {
    if |codes| == 0 then 0
    else Occurrences(k, codes[..|codes| - 1]) + (if codes[|codes| - 1] == k then 1 else 0)
  }

  /** The counts over `keys` once the rows with `codes` have been counted. */
  predicate Counted(counts: map<string, nat>, keys: set<string>, codes: seq<string>)
  {
    counts.Keys == keys && forall k :: k in counts ==> counts[k] == Occurrences(k, codes)
  }

  /** `keySet().stream().collect(toMap(identity(), k -> 0))`: every key at 0,
      which is the count before any row. */
  function Seed(keys: set<string>): (m: map<string, nat>)
    ensures Counted(m, keys, [])
  {
    map k | k in keys :: 0
  }

  /** One airport row: `if (containsKey(code)) replace(code, get(code) + 1)`. */
  function Bump(counts: map<string, nat>, c: string): (m: map<string, nat>)
    ensures m.Keys == counts.Keys
  {
    if c in counts then counts[c := counts[c] + 1] else counts
  }

  /** The count map after the rows with `codes`, one `Bump` per row from the seed. */
  function Tally(keys: set<string>, codes: seq<string>): map<string, nat>
  {
    if |codes| == 0 then Seed(keys)
    else Bump(Tally(keys, codes[..|codes| - 1]), codes[|codes| - 1])
  }

  /** Counting one more row: its code's count goes up by one if the code is known,
      and no other count changes. */
  lemma CountStep(counts: map<string, nat>, keys: set<string>, codes: seq<string>, c: string)
    requires Counted(counts, keys, codes)
    ensures Counted(Bump(counts, c), keys, codes + [c])
  {
    assert (codes + [c])[..|codes|] == codes;
  }

  /** The map the counting loop builds holds, for every known code and only for
      those, the number of rows carrying it. */
  lemma {:induction false} TallyCounts(keys: set<string>, codes: seq<string>)
    ensures Counted(Tally(keys, codes), keys, codes)
  {
    if |codes| > 0 {
      var init := codes[..|codes| - 1];
      TallyCounts(keys, init);
      CountStep(Tally(keys, init), keys, init, codes[|codes| - 1]);
      assert init + [codes[|codes| - 1]] == codes;
    }
  }

  lemma FirstsSnoc(recs: seq<seq<string>>, c: string)
    requires forall j :: 0 <= j < |recs| ==> |recs[j]| >= 1
    ensures Firsts(recs + [[c]]) == Firsts(recs) + [c]
  {
    assert (recs + [[c]])[..|recs|] == recs;
  }

  /** The `iso_country` value of every airport row, in file order. */
  function IsoCodes(airports: seq<string>): (r: Result<seq<string>>)
    ensures r.Ok? ==> |r.value| == |airports| - 1
  {
    match Read(airports, [ISO_COUNTRY])
    case Err(e) => Err(e)
    case Ok(recs) =>
      ReadRecords(airports, [ISO_COUNTRY]);
      Ok(Firsts(recs))
  }

  /** The codes of a read that got through every airport row. */
  lemma IsoCodesRead(airports: seq<string>, idxs: seq<nat>, recs: seq<seq<string>>)
    requires Columns(airports, [ISO_COUNTRY]) == Ok(idxs)
    requires 1 <= |airports| && ParseRows(airports, idxs, |airports|) == Ok(recs)
    requires forall j :: 0 <= j < |recs| ==> |recs[j]| == 1
    ensures IsoCodes(airports) == Ok(Firsts(recs))
  {
  }

  /** A read of the airport rows that failed after the header. */
  lemma IsoCodesFail(airports: seq<string>, idxs: seq<nat>, e: Error)
    requires Columns(airports, [ISO_COUNTRY]) == Ok(idxs)
    requires 1 <= |airports| && ParseRows(airports, idxs, |airports|) == Err(e)
    ensures IsoCodes(airports) == Err(e)
  {
  }

  /** One complete countries row: the read goes one line further and the table
      built so far takes one more `put`. */
  lemma LoadRow(countries: seq<string>, idxs: seq<nat>, i: nat, recs: seq<seq<string>>, code: string, name: string)
    requires 1 <= i < |countries| && |idxs| == 2
    requires ParseRows(countries, idxs, i) == Ok(recs)
    requires Field(countries[i], idxs[0]) == Some(code) && Field(countries[i], idxs[1]) == Some(name)
    requires Pairs(recs)
    ensures ParseRows(countries, idxs, i + 1) == Ok(recs + [[code, name]])
    ensures Pairs(recs + [[code, name]])
    ensures TableOf(recs + [[code, name]]) == Put(TableOf(recs), code, name)
  {
    RowRead(countries, idxs, i, recs, [code, name]);
    assert (recs + [[code, name]])[..|recs|] == recs;
  }

  /** Reads the countries file into the table (the first loop of `calcMostAirports`). */
  method LoadCountries(countries: seq<string>) returns (r: Result<CountryTable>)
    ensures CountryRecords(countries).Err? ==> r == Err(CountryRecords(countries).error)
    ensures CountryRecords(countries).Ok? ==> r == Ok(TableOf(CountryRecords(countries).value))
  {
    var columns := Columns(countries, [CODE, NAME]);
    if columns.Err? {
      return Err(columns.error);
    }
    var codeIndex, countryIndex := columns.value[0], columns.value[1];
    ghost var idxs: seq<nat> := columns.value;
    var order: seq<string> := [];
    var names: map<string, string> := map[];
    ghost var recs: seq<seq<string>> := [];
    ParseStart(countries, idxs);
    var i := 1;
    while i < |countries|
      invariant 1 <= i <= |countries|
      invariant ParseRows(countries, idxs, i) == Ok(recs)
      invariant Pairs(recs)
      invariant CountryTable(order, names) == TableOf(recs)
    {
      var code := Field(countries[i], codeIndex);
      if code.None? {
        RowShort(countries, idxs, i, 0);
        return Err(ShortRow(i));
      }
      var country := Field(countries[i], countryIndex);
      if country.None? {
        RowShort(countries, idxs, i, 1);
        return Err(ShortRow(i));
      }
      LoadRow(countries, idxs, i, recs, code.value, country.value);
      if code.value !in names {
        order := order + [code.value];
      }
      names := names[code.value := country.value];
      recs := recs + [[code.value, country.value]];
      i := i + 1;
    }
    return Ok(CountryTable(order, names));
  }

  /** Seeds every key of the table with 0 and counts the airport rows per known
      code (the second half of `calcMostAirports`). */
  method CountAirports(airports: seq<string>, table: CountryTable) returns (r: Result<map<string, nat>>)
    ensures IsoCodes(airports).Err? ==> r == Err(IsoCodes(airports).error)
    ensures IsoCodes(airports).Ok? ==> r == Ok(Tally(table.names.Keys, IsoCodes(airports).value))
  {
    var counts := Seed(table.names.Keys);
    var columns := Columns(airports, [ISO_COUNTRY]);
    if columns.Err? {
      return Err(columns.error);
    }
    assert columns.value == [columns.value[0]];
    r := CountRows(airports, columns.value[0], table.names.Keys, counts);
  }

  /** The airport-row loop: one more count for every row whose code is a key. */
  method CountRows(airports: seq<string>, codeIndex: nat, ghost keys: set<string>, counts0: map<string, nat>)
    returns (r: Result<map<string, nat>>)
    requires Columns(airports, [ISO_COUNTRY]) == Ok([codeIndex])
    requires counts0 == Seed(keys)
    ensures IsoCodes(airports).Err? ==> r == Err(IsoCodes(airports).error)
    ensures IsoCodes(airports).Ok? ==> r == Ok(Tally(keys, IsoCodes(airports).value))
  {
    var counts := counts0;
    ghost var idxs: seq<nat> := [codeIndex];
    ghost var recs: seq<seq<string>> := [];
    ParseStart(airports, idxs);
    assert Tally(keys, Firsts(recs)) == Seed(keys);
    var i := 1;
    while i < |airports|
      invariant 1 <= i <= |airports|
      invariant ParseRows(airports, idxs, i) == Ok(recs)
      invariant forall j :: 0 <= j < |recs| ==> |recs[j]| == 1
      invariant counts == Tally(keys, Firsts(recs))
    {
      var code := Field(airports[i], codeIndex);
      if code.None? {
        RowShort(airports, idxs, i, 0);
        IsoCodesFail(airports, idxs, ShortRow(i));
        return Err(ShortRow(i));
      }
      CountRow(airports, idxs, i, recs, keys, code.value);
      counts := Bump(counts, code.value);
      recs := recs + [[code.value]];
      i := i + 1;
    }
    IsoCodesRead(airports, idxs, recs);
    return Ok(counts);
  }

  /** One complete airport row: the read goes one line further and the count map
      takes one more `Bump`. */
  lemma CountRow(airports: seq<string>, idxs: seq<nat>, i: nat, recs: seq<seq<string>>, keys: set<string>, c: string)
    requires 1 <= i < |airports| && |idxs| == 1
    requires ParseRows(airports, idxs, i) == Ok(recs)
    requires Field(airports[i], idxs[0]) == Some(c)
    requires forall j :: 0 <= j < |recs| ==> |recs[j]| == 1
    ensures ParseRows(airports, idxs, i + 1) == Ok(recs + [[c]])
    ensures forall j :: 0 <= j < |recs + [[c]]| ==> |(recs + [[c]])[j]| == 1
    ensures Tally(keys, Firsts(recs + [[c]])) == Bump(Tally(keys, Firsts(recs)), c)
  {
    RowRead(airports, idxs, i, recs, [c]);
    FirstsSnoc(recs, c);
    var codes := Firsts(recs);
    assert (codes + [c])[..|codes|] == codes;
  }

  /** `calcMostAirports`: the countries file is read first and any failure there
      is final; then the count map over exactly the codes read. */
  method CalcMostAirports(airports: seq<string>, countries: seq<string>) returns (r: Result<map<string, nat>>)
    ensures CountryRecords(countries).Err? ==> r == Err(CountryRecords(countries).error)
    ensures CountryRecords(countries).Ok? ==> (r.Ok? <==> IsoCodes(airports).Ok?)
    ensures CountryRecords(countries).Ok? && IsoCodes(airports).Err? ==> r == Err(IsoCodes(airports).error)
    ensures r.Ok? ==> forall k :: k in r.value <==> k in Firsts(CountryRecords(countries).value)
    ensures r.Ok? ==> forall k :: k in r.value ==> r.value[k] == Occurrences(k, IsoCodes(airports).value)
  {
    var table := LoadCountries(countries);
    if table.Err? {
      return Err(table.error);
    }
    TableKeys(CountryRecords(countries).value);
    r := CountAirports(airports, table.value);
    if r.Ok? {
      TallyCounts(table.value.names.Keys, IsoCodes(airports).value);
    }
  }

  /** The sum of the counts over the distinct keys. */
  function SumOver(keys: seq<string>, codes: seq<string>): nat
  {
    if |keys| == 0 then 0 else Occurrences(keys[0], codes) + SumOver(keys[1..], codes)
  }

  /** How many entries of `codes` are among `keys`. */
  function Known(codes: seq<string>, keys: seq<string>): nat
  {
    if |codes| == 0 then 0
    else Known(codes[..|codes| - 1], keys) + (if codes[|codes| - 1] in keys then 1 else 0)
  }

  lemma {:induction false} SumOverEmpty(keys: seq<string>)
    ensures SumOver(keys, []) == 0
  {
    if |keys| > 0 {
      SumOverEmpty(keys[1..]);
    }
  }

  lemma {:induction false} SumOverSnoc(keys: seq<string>, codes: seq<string>, c: string)
    requires Distinct(keys)
    ensures SumOver(keys, codes + [c]) == SumOver(keys, codes) + (if c in keys then 1 else 0)
  {
    if |keys| > 0 {
      SumOverSnoc(keys[1..], codes, c);
      assert (codes + [c])[..|codes|] == codes;
      assert keys == [keys[0]] + keys[1..];
    }
  }

  lemma {:induction false} KnownAtMost(codes: seq<string>, keys: seq<string>)
    ensures Known(codes, keys) <= |codes|
  {
    if |codes| > 0 {
      KnownAtMost(codes[..|codes| - 1], keys);
    }
  }

  /** The counts add up to the number of airport rows whose code is known, so
      never to more than the number of airport rows. */
  lemma {:induction false} SumOfCounts(keys: seq<string>, codes: seq<string>)
    requires Distinct(keys)
    ensures SumOver(keys, codes) == Known(codes, keys)
    ensures SumOver(keys, codes) <= |codes|
  {
    if |codes| == 0 {
      SumOverEmpty(keys);
    } else {
      var init := codes[..|codes| - 1];
      SumOfCounts(keys, init);
      SumOverSnoc(keys, init, codes[|codes| - 1]);
      assert init + [codes[|codes| - 1]] == codes;
    }
    KnownAtMost(codes, keys);
  }

  /** An airport row with an unknown code leaves every count as it was. */
  lemma {:induction false} UnknownCodeIgnored(table: CountryTable, codes: seq<string>, c: string)
    requires c !in table.names
    ensures forall k :: k in table.names ==> Occurrences(k, codes + [c]) == Occurrences(k, codes)
  {
    assert (codes + [c])[..|codes|] == codes;
  }
}
