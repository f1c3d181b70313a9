/**
 * The rest of `queryRunwaysFromCountry`: the airports of the resolved country
 * are collected id -> name, an empty collection ends the query before the
 * runways file is opened, and otherwise every airport id gets the list of
 * runway ids whose `airport_ref` names it, in file order.
 */
module RunwayQuery {
  import opened Csv
  import opened CountryResolver

  /** The airports file read for `iso_country`, `id` and `name`. */
  function AirportRecords(airports: seq<string>): (r: Result<seq<seq<string>>>)
    ensures r.Ok? ==> Triples(r.value)
  {
    if Read(airports, [ISO_COUNTRY, ID, NAME]).Ok? then
      ReadRecords(airports, [ISO_COUNTRY, ID, NAME]);
      Read(airports, [ISO_COUNTRY, ID, NAME])
    else Read(airports, [ISO_COUNTRY, ID, NAME])
  }

  /** The runways file read for `airport_ref` and `id`. */
  function RunwayRecords(runways: seq<string>): (r: Result<seq<seq<string>>>)
    ensures r.Ok? ==> Pairs(r.value)
  {
    if Read(runways, [AIRPORT_REF, ID]).Ok? then
      ReadRecords(runways, [AIRPORT_REF, ID]);
      Read(runways, [AIRPORT_REF, ID])
    else Read(runways, [AIRPORT_REF, ID])
  }

  /** The `HashMap` of airports after the records (iso_country, id, name):
      `put(id, name)` for every record of the country, in file order. */
  function AirportsOf(recs: seq<seq<string>>, code: string): map<string, string>
    requires Triples(recs)
  {
    if |recs| == 0 then map[]
    else
      var m := AirportsOf(recs[..|recs| - 1], code);
      var last := recs[|recs| - 1];
      if last[0] == code then m[last[1] := last[2]] else m
  }

  /** The airport ids collected are exactly the ids of the country's rows. */
  lemma {:induction false} AirportKeys(recs: seq<seq<string>>, code: string)
    requires Triples(recs)
    ensures forall k :: k in AirportsOf(recs, code) <==>
      exists j :: 0 <= j < |recs| && recs[j][0] == code && recs[j][1] == k
  {
    if |recs| > 0 {
      var init := recs[..|recs| - 1];
      AirportKeys(init, code);
      forall k | k in AirportsOf(recs, code)
        ensures exists j :: 0 <= j < |recs| && recs[j][0] == code && recs[j][1] == k
      {
        if k !in AirportsOf(init, code) {
          assert recs[|recs| - 1][1] == k;
        } else {
          var j :| 0 <= j < |init| && init[j][0] == code && init[j][1] == k;
          assert recs[j] == init[j];
        }
      }
      forall k | exists j :: 0 <= j < |recs| && recs[j][0] == code && recs[j][1] == k
        ensures k in AirportsOf(recs, code)
      {
        var j :| 0 <= j < |recs| && recs[j][0] == code && recs[j][1] == k;
        if j < |init| {
          assert init[j] == recs[j];
        }
      }
    }
  }

  /** An id keeps the name of the last row of the country that carries it. */
  lemma {:induction false} AirportLastName(recs: seq<seq<string>>, code: string, j: nat)
    requires Triples(recs) && j < |recs| && recs[j][0] == code
    requires forall l :: j < l < |recs| && recs[l][0] == code ==> recs[l][1] != recs[j][1]
    ensures recs[j][1] in AirportsOf(recs, code)
    ensures AirportsOf(recs, code)[recs[j][1]] == recs[j][2]
  {
    if j < |recs| - 1 {
      var init := recs[..|recs| - 1];
      assert init[j] == recs[j];
      forall l | j < l < |init| && init[l][0] == code ensures init[l][1] != init[j][1] {
        assert init[l] == recs[l];
      }
      AirportLastName(init, code, j);
    }
  }

  /** One more airport row: a row of the country puts its id and name, any
      other row changes nothing. */
  lemma AirportStep(recs: seq<seq<string>>, code: string, iso: string, id: string, name: string)
    requires Triples(recs)
    ensures Triples(recs + [[iso, id, name]])
    ensures AirportsOf(recs + [[iso, id, name]], code) ==
      if iso == code then AirportsOf(recs, code)[id := name] else AirportsOf(recs, code)
  {
    assert (recs + [[iso, id, name]])[..|recs|] == recs;
  }

  /** The airport loop of `queryRunwaysFromCountry`, header first. */
  method FilterAirports(airports: seq<string>, code: string) returns (r: Result<map<string, string>>)
    ensures AirportRecords(airports).Err? ==> r == Err(AirportRecords(airports).error)
    ensures AirportRecords(airports).Ok? ==> r == Ok(AirportsOf(AirportRecords(airports).value, code))
  {
    var columns := Columns(airports, [ISO_COUNTRY, ID, NAME]);
    if columns.Err? {
      return Err(columns.error);
    }
    ghost var rows := Rows(airports, columns.value, |airports|);
    ReadRows(airports, [ISO_COUNTRY, ID, NAME]);
    RowsAreTriples(airports, columns.value);
    RowsArity(airports, columns.value, |airports|);
    r := FilterRows(airports, columns.value[0], columns.value[1], columns.value[2], code, rows);
  }

  /** Reads every airport row and puts the id and name of the country's rows. */
  method FilterRows(airports: seq<string>, countryIndex: nat, idIndex: nat, nameIndex: nat, code: string,
                    ghost rows: seq<Option<seq<string>>>) returns (r: Result<map<string, string>>)
    requires Arity(rows, 3) && ReadsAsTriples(airports, countryIndex, idIndex, nameIndex, rows)
    ensures Gather(rows).Err? ==> r == Err(Gather(rows).error)
    ensures Gather(rows).Ok? ==> Triples(Gather(rows).value) && r == Ok(AirportsOf(Gather(rows).value, code))
  {
    var airportsMap: map<string, string> := map[];
    ghost var recs: seq<seq<string>> := [];
    var next := 1;
    while next < |airports|
      invariant 1 <= next <= |airports|
      invariant Gather(rows[..next - 1]) == Ok(recs)
      invariant Triples(recs)
      invariant airportsMap == AirportsOf(recs, code)
    {
      var line := airports[next];
      next := next + 1;
      GatherStep(rows, next - 2, recs);
      var isoCountry := Field(line, countryIndex);
      if isoCountry.None? {
        return Err(ShortRow(next - 1));
      }
      var id := Field(line, idIndex);
      if id.None? {
        return Err(ShortRow(next - 1));
      }
      var airportName := Field(line, nameIndex);
      if airportName.None? {
        return Err(ShortRow(next - 1));
      }
      AirportStep(recs, code, isoCountry.value, id.value, airportName.value);
      if isoCountry.value == code {
        airportsMap := airportsMap[id.value := airportName.value];
      }
      recs := recs + [[isoCountry.value, id.value, airportName.value]];
    }
    assert rows[..next - 1] == rows;
    return Ok(airportsMap);
  }

  /** The runway lists of `airportRunways`. A list is an object that several
      keys can share once `replace(runway, runwayList)` has run with a runway
      id that is also an airport id, so each list is named by the key it was
      created for, and `owner` maps every key to the list it now holds. */
  datatype Groups = Groups(owner: map<string, string>, lists: map<string, seq<string>>)

  /** The keys are the airport ids, and every key holds one of the lists. */
  predicate Over(g: Groups, ids: set<string>)
  {
    g.owner.Keys == ids && g.lists.Keys == ids && g.owner.Values <= ids
  }

  /** `toMap(identity(), k -> new ArrayList<String>())`: a new empty list per id. */
  function Fresh(ids: set<string>): (g: Groups)
    ensures Over(g, ids)
  {
    Groups(map k | k in ids :: k, map k | k in ids :: [])
  }

  /** One runway row: if the airport is a key, its list gets the runway id,
      and `replace(runway, list)` makes a key equal to the runway id hold that
      same list. */
  function Add(g: Groups, ids: set<string>, airport: string, runway: string): (h: Groups)
    requires Over(g, ids)
    ensures Over(h, ids)
  {
    if airport in g.owner then
      var o := g.owner[airport];
      Groups(if runway in g.owner then g.owner[runway := o] else g.owner, g.lists[o := g.lists[o] + [runway]])
    else g
  }

  /** What `airportRunways.get(id)` gives for every airport id. */
  function View(g: Groups, ids: set<string>): (v: map<string, seq<string>>)
    requires Over(g, ids)
    ensures v.Keys == ids
  {
    map k | k in g.owner :: g.lists[g.owner[k]]
  }

  /** The lists after the runway records (airport_ref, id), in file order. */
  function GroupOf(ids: set<string>, recs: seq<seq<string>>): (g: Groups)
    requires Pairs(recs)
    ensures Over(g, ids)
  {
    if |recs| == 0 then Fresh(ids)
    else
      var last := recs[|recs| - 1];
      Add(GroupOf(ids, recs[..|recs| - 1]), ids, last[0], last[1])
  }

  /** The runway ids of the records for airport k, in file order. */
  function RunwaysOf(k: string, recs: seq<seq<string>>): (r: seq<string>)
    requires Pairs(recs)
    ensures |r| <= |recs|
  {
    if |recs| == 0 then []
    else
      var last := recs[|recs| - 1];
      RunwaysOf(k, recs[..|recs| - 1]) + (if last[0] == k then [last[1]] else [])
  }

  /** While no runway id is also an airport id, no list is shared, and every
      airport's list holds its own runways in file order; rows for other
      airports leave every list alone. */
  lemma {:induction false} GroupUnshared(ids: set<string>, recs: seq<seq<string>>)
    requires Pairs(recs)
    requires forall j :: 0 <= j < |recs| ==> recs[j][1] !in ids
    ensures forall k :: k in ids ==> GroupOf(ids, recs).owner[k] == k
    ensures forall k :: k in ids ==> GroupOf(ids, recs).lists[k] == RunwaysOf(k, recs)
  {
    if |recs| > 0 {
      var init := recs[..|recs| - 1];
      forall j | 0 <= j < |init| ensures init[j][1] !in ids {
        assert init[j] == recs[j];
      }
      GroupUnshared(ids, init);
    }
  }

  /** With no runway id among the airport ids, every airport id is listed
      with exactly the runways that name it, in file order. */
  lemma GroupedRunways(ids: set<string>, recs: seq<seq<string>>)
    requires Pairs(recs)
    requires forall j :: 0 <= j < |recs| ==> recs[j][1] !in ids
    ensures forall k :: k in ids ==> View(GroupOf(ids, recs), ids)[k] == RunwaysOf(k, recs)
  {
    GroupUnshared(ids, recs);
  }

  /** A runway id that is also an airport id: after the row, that key holds
      the very list of the row's airport, so later additions show under both. */
  lemma ReplaceShares(g: Groups, ids: set<string>, airport: string, runway: string)
    requires Over(g, ids) && airport in ids && runway in ids
    ensures Add(g, ids, airport, runway).owner[runway] == Add(g, ids, airport, runway).owner[airport]
    ensures View(Add(g, ids, airport, runway), ids)[runway] == View(g, ids)[airport] + [runway]
  {
  }

  /** One more runway row as the lists see it. */
  lemma GroupStep(ids: set<string>, recs: seq<seq<string>>, airport: string, runway: string)
    requires Pairs(recs)
    ensures Pairs(recs + [[airport, runway]])
    ensures GroupOf(ids, recs + [[airport, runway]]) == Add(GroupOf(ids, recs), ids, airport, runway)
  {
    assert (recs + [[airport, runway]])[..|recs|] == recs;
  }

  /** The runway loop of `queryRunwaysFromCountry`, header first; the result
      is what the report prints per airport id. */
  method GroupRunways(runways: seq<string>, ids: set<string>) returns (r: Result<map<string, seq<string>>>)
    ensures RunwayRecords(runways).Err? ==> r == Err(RunwayRecords(runways).error)
    ensures RunwayRecords(runways).Ok? ==> r == Ok(View(GroupOf(ids, RunwayRecords(runways).value), ids))
  {
    var columns := Columns(runways, [AIRPORT_REF, ID]);
    if columns.Err? {
      return Err(columns.error);
    }
    ghost var rows := Rows(runways, columns.value, |runways|);
    ReadRows(runways, [AIRPORT_REF, ID]);
    RowsArePairs(runways, columns.value);
    RowsArity(runways, columns.value, |runways|);
    r := GroupRows(runways, columns.value[0], columns.value[1], ids, rows);
  }

  /** Reads every runway row and adds its id to the list of its airport. */
  method GroupRows(runways: seq<string>, airportIndex: nat, runwayIdIndex: nat, ids: set<string>,
                   ghost rows: seq<Option<seq<string>>>) returns (r: Result<map<string, seq<string>>>)
    requires Arity(rows, 2) && ReadsAsPairs(runways, airportIndex, runwayIdIndex, rows)
    ensures Gather(rows).Err? ==> r == Err(Gather(rows).error)
    ensures Gather(rows).Ok? ==> Pairs(Gather(rows).value) && r == Ok(View(GroupOf(ids, Gather(rows).value), ids))
  {
    var owner: map<string, string> := map k | k in ids :: k;
    var lists: map<string, seq<string>> := map k | k in ids :: [];
    ghost var recs: seq<seq<string>> := [];
    var next := 1;
    while next < |runways|
      invariant 1 <= next <= |runways|
      invariant Gather(rows[..next - 1]) == Ok(recs)
      invariant Pairs(recs)
      invariant Groups(owner, lists) == GroupOf(ids, recs)
    {
      var line := runways[next];
      next := next + 1;
      GatherStep(rows, next - 2, recs);
      var airport := Field(line, airportIndex);
      if airport.None? {
        return Err(ShortRow(next - 1));
      }
      var runway := Field(line, runwayIdIndex);
      if runway.None? {
        return Err(ShortRow(next - 1));
      }
      GroupStep(ids, recs, airport.value, runway.value);
      if airport.value in owner {
        var o := owner[airport.value];
        lists := lists[o := lists[o] + [runway.value]];
        if runway.value in owner {
          owner := owner[runway.value := o];
        }
      }
      recs := recs + [[airport.value, runway.value]];
    }
    assert rows[..next - 1] == rows;
    return Ok(map k | k in owner :: lists[owner[k]]);
  }

  /** What the query reports once the country is found: no airports (and the
      runways file left unread), or the airports with their runway lists. */
  datatype Report =
    | NoAirports(country: Country)
    | Runways(country: Country, airports: map<string, string>, runways: map<string, seq<string>>)

  /** `queryRunwaysFromCountry`: country lookup, airport filter, then, only if
      an airport was found, the runway lists; the first failure is final. */
  function Query(countries: seq<string>, airports: seq<string>, runways: seq<string>, query: string): Result<Report>
  {
    match Resolve(countries, query)
    case Err(e) => Err(e)
    case Ok(c) =>
      match AirportRecords(airports)
      case Err(e) => Err(e)
      case Ok(recs) =>
        var found := AirportsOf(recs, c.code);
        if |found| == 0 then Ok(NoAirports(c))
        else
          match RunwayRecords(runways)
          case Err(e) => Err(e)
          case Ok(refs) => Ok(Runways(c, found, View(GroupOf(found.Keys, refs), found.Keys)))
  }

  /** The query as the method runs it, one file after the other. */
  method QueryRunwaysFromCountry(countries: seq<string>, airports: seq<string>, runways: seq<string>, query: string)
    returns (r: Result<Report>)
    ensures r == Query(countries, airports, runways, query)
  {
    var country := ResolveCountry(countries, query);
    if country.Err? {
      return Err(country.error);
    }
    var airportsMap := FilterAirports(airports, country.value.code);
    if airportsMap.Err? {
      return Err(airportsMap.error);
    }
    if |airportsMap.value| == 0 {
      return Ok(NoAirports(country.value));
    }
    var airportRunways := GroupRunways(runways, airportsMap.value.Keys);
    if airportRunways.Err? {
      return Err(airportRunways.error);
    }
    return Ok(Runways(country.value, airportsMap.value, airportRunways.value));
  }

  /** A country without airports ends the query before the runways file is
      read: any runways file gives the same report. */
  lemma NoAirportsSkipsRunways(countries: seq<string>, airports: seq<string>, runways: seq<string>,
                               other: seq<string>, query: string)
    requires Query(countries, airports, runways, query).Ok?
    requires Query(countries, airports, runways, query).value.NoAirports?
    ensures Query(countries, airports, other, query) == Query(countries, airports, runways, query)
  {
  }

  /** No airport is collected exactly when no row carries the code. */
  lemma AirportsEmpty(recs: seq<seq<string>>, code: string)
    requires Triples(recs)
    ensures |AirportsOf(recs, code)| == 0 <==> forall j :: 0 <= j < |recs| ==> recs[j][0] != code
  {
    AirportKeys(recs, code);
    if forall j :: 0 <= j < |recs| ==> recs[j][0] != code {
      assert AirportsOf(recs, code) == map[];
    } else {
      var j :| 0 <= j < |recs| && recs[j][0] == code;
      assert recs[j][1] in AirportsOf(recs, code);
    }
  }

  /** The query reports no airports exactly when the country is found, the
      airports file reads, and no airport row carries the country's code. */
  lemma NoAirportsWhenNoRow(countries: seq<string>, airports: seq<string>, runways: seq<string>, query: string)
    requires Resolve(countries, query).Ok? && AirportRecords(airports).Ok?
    ensures var recs := AirportRecords(airports).value;
      Query(countries, airports, runways, query).Ok? &&
      Query(countries, airports, runways, query).value.NoAirports? <==>
      forall j :: 0 <= j < |recs| ==> recs[j][0] != Resolve(countries, query).value.code
  {
    AirportsEmpty(AirportRecords(airports).value, Resolve(countries, query).value.code);
  }

  /** A full report lists the found country's airports, keyed by the ids of
      its rows, and gives every one of them, and nothing else, a runway list;
      while no runway id is an airport id, that list is the airport's runways
      in file order. */
  lemma QueryReport(countries: seq<string>, airports: seq<string>, runways: seq<string>, query: string)
    requires Query(countries, airports, runways, query).Ok?
    requires Query(countries, airports, runways, query).value.Runways?
    ensures var rep := Query(countries, airports, runways, query).value;
      var recs := AirportRecords(airports).value;
      var refs := RunwayRecords(runways).value;
      rep.country == Resolve(countries, query).value &&
      |rep.airports| > 0 &&
      (forall k :: k in rep.airports <==> exists j :: 0 <= j < |recs| && recs[j][0] == rep.country.code && recs[j][1] == k) &&
      rep.runways.Keys == rep.airports.Keys &&
      ((forall j :: 0 <= j < |refs| ==> refs[j][1] !in rep.airports) ==>
        forall k :: k in rep.airports ==> rep.runways[k] == RunwaysOf(k, refs))
  {
    var rep := Query(countries, airports, runways, query).value;
    var refs := RunwayRecords(runways).value;
    AirportKeys(AirportRecords(airports).value, rep.country.code);
    if forall j :: 0 <= j < |refs| ==> refs[j][1] !in rep.airports {
      GroupedRunways(rep.airports.Keys, refs);
    }
  }
}
