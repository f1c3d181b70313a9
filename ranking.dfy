/**
 * The "top countries" report: `reverseOrderMapByIntegerValue` sorts the
 * entries of the count map by value, largest first, into an insertion-ordered
 * map, and `printAirportRanking` prints at most `limit` of them, numbered
 * from 1, stopping early when the entries run out.
 */
module Ranking {
  import opened Csv
  import opened AirportCounter

  /** One entry of the count map: a country code and its airport count. */
  datatype Entry = Entry(key: string, value: nat)

  /** One printed line of the ranking: `place. key: value`. */
  datatype Line = Line(place: nat, key: string, value: nat)

  predicate NonIncreasing(s: seq<Entry>)
  {
    forall i, j :: 0 <= i < j < |s| ==> s[i].value >= s[j].value
  }

  /** The entries of `m`, each once: every element is an entry of the map,
      every key of the map has an element, and there are as many as keys. */
  predicate EntriesOf(s: seq<Entry>, m: map<string, nat>)
  {
    |s| == |m| &&
    (forall i :: 0 <= i < |s| ==> s[i].key in m && m[s[i].key] == s[i].value) &&
    (forall k :: k in m ==> Entry(k, m[k]) in s)
  }

  /** Places `e` after every entry whose value is at least its own, so that
      equal values keep their order of arrival. */
  function Insert(s: seq<Entry>, e: Entry): (r: seq<Entry>)
    ensures |r| == |s| + 1
  {
    if |s| == 0 then [e]
    else if s[0].value >= e.value then [s[0]] + Insert(s[1..], e)
    else [e] + s
  }

  /** `sorted(comparingByValue(reverseOrder()))`: a stable sort, largest value
      first, taking the entries in their order of arrival. */
  function SortDescending(s: seq<Entry>): (r: seq<Entry>)
    ensures |r| == |s|
  {
    if |s| == 0 then []
    else Insert(SortDescending(s[..|s| - 1]), s[|s| - 1])
  }

  /** Inserting adds exactly the one entry. */
  lemma {:induction false} InsertPermutes(s: seq<Entry>, e: Entry)
    ensures multiset(Insert(s, e)) == multiset(s) + multiset{e}
  {
    if |s| > 0 && s[0].value >= e.value {
      InsertPermutes(s[1..], e);
      assert s == [s[0]] + s[1..];
    }
  }

  /** Inserting keeps every value under a bound that all the parts respect. */
  lemma {:induction false} InsertBounded(s: seq<Entry>, e: Entry, v: nat)
    requires forall i :: 0 <= i < |s| ==> s[i].value <= v
    requires e.value <= v
    ensures forall i :: 0 <= i < |Insert(s, e)| ==> Insert(s, e)[i].value <= v
  {
    if |s| > 0 && s[0].value >= e.value {
      InsertBounded(s[1..], e, v);
    }
  }

  /** Inserting into a non-increasing sequence keeps it non-increasing. */
  lemma {:induction false} InsertSorted(s: seq<Entry>, e: Entry)
    requires NonIncreasing(s)
    ensures NonIncreasing(Insert(s, e))
  {
    if |s| > 0 && s[0].value >= e.value {
      InsertSorted(s[1..], e);
      InsertBounded(s[1..], e, s[0].value);
    }
  }

  /** The sort rearranges its input. */
  lemma {:induction false} SortPermutes(s: seq<Entry>)
    ensures multiset(SortDescending(s)) == multiset(s)
  {
    if |s| > 0 {
      var init, last := s[..|s| - 1], s[|s| - 1];
      assert s == init + [last];
      SortPermutes(init);
      InsertPermutes(SortDescending(init), last);
    }
  }

  /** The sort puts larger values first. */
  lemma {:induction false} SortSorted(s: seq<Entry>)
    ensures NonIncreasing(SortDescending(s))
  {
    if |s| > 0 {
      SortSorted(s[..|s| - 1]);
      InsertSorted(SortDescending(s[..|s| - 1]), s[|s| - 1]);
    }
  }

  /** Rearranging the entries of a map still lists its entries. */
  lemma PermutedEntries(s: seq<Entry>, r: seq<Entry>, m: map<string, nat>)
    requires EntriesOf(s, m) && multiset(r) == multiset(s)
    ensures EntriesOf(r, m)
  {
    assert |r| == |multiset(r)| == |multiset(s)| == |s|;
    forall i | 0 <= i < |r| ensures r[i].key in m && m[r[i].key] == r[i].value {
      assert r[i] in multiset(s);
    }
    forall k | k in m ensures Entry(k, m[k]) in r {
      assert Entry(k, m[k]) in multiset(s);
    }
  }

  /** The keys that occur in `s`. */
  function KeySet(s: seq<Entry>): (r: set<string>)
    ensures |r| <= |s|
  {
    if |s| == 0 then {} else KeySet(s[..|s| - 1]) + {s[|s| - 1].key}
  }

  /** The keys occurring in `s` are the keys of its elements. */
  lemma {:induction false} KeySetHas(s: seq<Entry>)
    ensures forall i :: 0 <= i < |s| ==> s[i].key in KeySet(s)
    ensures forall k :: k in KeySet(s) ==> exists i :: 0 <= i < |s| && s[i].key == k
  {
    if |s| > 0 {
      var init := s[..|s| - 1];
      KeySetHas(init);
      forall k | k in KeySet(s) ensures exists i :: 0 <= i < |s| && s[i].key == k {
        if k != s[|s| - 1].key {
          var i :| 0 <= i < |init| && init[i].key == k;
          assert s[i].key == k;
        }
      }
    }
  }

  /** A key occurring twice leaves fewer distinct keys than elements. */
  lemma {:induction false} RepeatedKey(s: seq<Entry>, i: nat, j: nat)
    requires i < j < |s| && s[i].key == s[j].key
    ensures |KeySet(s)| < |s|
  {
    var init := s[..|s| - 1];
    if j == |s| - 1 {
      KeySetHas(init);
      assert init[i].key == s[j].key;
      assert KeySet(s) == KeySet(init);
    } else {
      RepeatedKey(init, i, j);
    }
  }

  /** The entries of a map name each key once. */
  lemma EntriesDistinct(s: seq<Entry>, m: map<string, nat>)
    requires EntriesOf(s, m)
    ensures forall i, j :: 0 <= i < j < |s| ==> s[i].key != s[j].key
  {
    KeySetHas(s);
    forall k | k in m ensures k in KeySet(s) {
      var i :| 0 <= i < |s| && s[i] == Entry(k, m[k]);
    }
    assert KeySet(s) == m.Keys;
    forall i, j | 0 <= i < j < |s| ensures s[i].key != s[j].key {
      if s[i].key == s[j].key {
        RepeatedKey(s, i, j);
      }
    }
  }

  /** The first `n` places of the ranking of `m`: min(n, |m|) lines numbered from
      1, each an entry of `m` with a distinct key, counts non-increasing, and
      no entry left out counting more than the last line. */
  predicate Ranked(lines: seq<Line>, m: map<string, nat>, n: nat)
  {
    |lines| == (if |m| < n then |m| else n) &&
    (forall j :: 0 <= j < |lines| ==>
      lines[j].place == j + 1 && lines[j].key in m && lines[j].value == m[lines[j].key]) &&
    (forall i, j :: 0 <= i < j < |lines| ==>
      lines[i].key != lines[j].key && lines[i].value >= lines[j].value) &&
    (forall k ::
      (k in m && forall j :: 0 <= j < |lines| ==> lines[j].key != k) ==>
      |lines| == n && (0 < n ==> m[k] <= lines[n - 1].value))
  }

  /** Printing the first `n` of the sorted entries of `m` ranks `m`. */
  lemma RankedLines(sorted: seq<Entry>, m: map<string, nat>, n: nat, lines: seq<Line>)
    requires EntriesOf(sorted, m) && NonIncreasing(sorted)
    requires |lines| == if n < |sorted| then n else |sorted|
    requires forall j :: 0 <= j < |lines| ==> lines[j] == Line(j + 1, sorted[j].key, sorted[j].value)
    ensures Ranked(lines, m, n)
  {
    EntriesDistinct(sorted, m);
    forall k | k in m && (forall j :: 0 <= j < |lines| ==> lines[j].key != k)
      ensures |lines| == n && (0 < n ==> m[k] <= lines[n - 1].value)
    {
      Unlisted(sorted, m, n, lines, k);
    }
  }

  /** An entry the first `n` lines leave out comes after all of them. */
  lemma Unlisted(sorted: seq<Entry>, m: map<string, nat>, n: nat, lines: seq<Line>, k: string)
    requires EntriesOf(sorted, m) && NonIncreasing(sorted)
    requires |lines| == if n < |sorted| then n else |sorted|
    requires forall j :: 0 <= j < |lines| ==> lines[j] == Line(j + 1, sorted[j].key, sorted[j].value)
    requires k in m && forall j :: 0 <= j < |lines| ==> lines[j].key != k
    ensures |lines| == n && (0 < n ==> m[k] <= lines[n - 1].value)
  {
    var p :| 0 <= p < |sorted| && sorted[p] == Entry(k, m[k]);
    assert n < |sorted| && |lines| == n;
    if 0 < n {
      assert sorted[n - 1].value >= sorted[p].value;
    }
  }

  /** The ranking of the airport counts, read back in terms of the country
      codes and the airport rows' codes. */
  lemma RankedCounts(lines: seq<Line>, m: map<string, nat>, recs: seq<seq<string>>, codes: seq<string>)
    requires Pairs(recs)
    requires forall k :: k in m <==> k in Firsts(recs)
    requires forall k :: k in m ==> m[k] == Occurrences(k, codes)
    requires Ranked(lines, m, 10)
    ensures |lines| <= 10
    ensures forall j :: 0 <= j < |lines| ==>
      lines[j].place == j + 1 && lines[j].key in Firsts(recs) && lines[j].value == Occurrences(lines[j].key, codes)
    ensures forall i, j :: 0 <= i < j < |lines| ==> lines[i].value >= lines[j].value
    ensures forall i, j :: 0 <= i < j < |lines| ==> lines[i].key != lines[j].key
    ensures var keys := set k | k in Firsts(recs);
      |lines| == if |keys| < 10 then |keys| else 10
    ensures forall k ::
      (k in Firsts(recs) && forall j :: 0 <= j < |lines| ==> lines[j].key != k) ==>
      |lines| == 10 && Occurrences(k, codes) <= lines[9].value
  {
    assert m.Keys == set k | k in Firsts(recs);
  }

  /** `map.entrySet()` in a `HashMap`'s iteration order, which is left open:
      each step takes any key not yet visited. */
  method EntrySet(m: map<string, nat>) returns (s: seq<Entry>)
    ensures EntriesOf(s, m)
  {
    s := [];
    var rest := m.Keys;
    while rest != {}
      invariant rest <= m.Keys
      invariant |s| + |rest| == |m.Keys|
      invariant forall i :: 0 <= i < |s| ==> s[i].key in m && s[i].key !in rest && m[s[i].key] == s[i].value
      invariant forall k :: k in m && k !in rest ==> Entry(k, m[k]) in s
      decreases rest
    {
      var k :| k in rest;
      s := s + [Entry(k, m[k])];
      rest := rest - {k};
    }
  }

  /** `reverseOrderMapByIntegerValue`: the entries sorted by value, largest
      first, collected in that order (the keys being distinct, no merge
      happens). */
  method ReverseOrderByValue(m: map<string, nat>) returns (r: seq<Entry>)
    ensures EntriesOf(r, m)
    ensures NonIncreasing(r)
  {
    var entries := EntrySet(m);
    r := SortDescending(entries);
    SortSorted(entries);
    SortPermutes(entries);
    PermutedEntries(entries, r, m);
  }

  /** `printAirportRanking`: the counted loop from 1 to `limit` that takes the
      next entry while there is one and breaks otherwise. */
  method PrintRanking(sorted: seq<Entry>, limit: int) returns (lines: seq<Line>)
    ensures |lines| == if limit <= 0 then 0 else if limit < |sorted| then limit else |sorted|
    ensures forall j :: 0 <= j < |lines| ==> lines[j] == Line(j + 1, sorted[j].key, sorted[j].value)
  {
    lines := [];
    var next := 0;  // the entry the iterator hands out next
    var i := 1;
    while i <= limit
      invariant 1 <= i && next == i - 1 && next <= |sorted|
      invariant i == 1 || i <= limit + 1
      invariant |lines| == next
      invariant forall j :: 0 <= j < |lines| ==> lines[j] == Line(j + 1, sorted[j].key, sorted[j].value)
      decreases limit - i
    {
      if next < |sorted| {
        var entry := sorted[next];
        next := next + 1;
        lines := lines + [Line(i, entry.key, entry.value)];
      } else {
        break;
      }
      i := i + 1;
    }
  }

  /** `printAirportRanking(reverseOrderMapByIntegerValue(counts), limit)`:
      sort, then print the first `limit` entries. */
  method Top(counts: map<string, nat>, limit: nat) returns (lines: seq<Line>)
    ensures Ranked(lines, counts, limit)
  {
    var sorted := ReverseOrderByValue(counts);
    lines := PrintRanking(sorted, limit);
    RankedLines(sorted, counts, limit, lines);
  }

  /** The top-ten report: count, sort, print the first ten. The lines are the
      ten countries (or all, when there are fewer) with the most airports. */
  method TopTen(airports: seq<string>, countries: seq<string>) returns (r: Result<seq<Line>>)
    ensures r.Ok? <==> CountryRecords(countries).Ok? && IsoCodes(airports).Ok?
    ensures r.Ok? ==> |r.value| <= 10
    ensures r.Ok? ==> forall j :: 0 <= j < |r.value| ==>
      r.value[j].place == j + 1 &&
      r.value[j].key in Firsts(CountryRecords(countries).value) &&
      r.value[j].value == Occurrences(r.value[j].key, IsoCodes(airports).value)
    ensures r.Ok? ==> forall i, j :: 0 <= i < j < |r.value| ==> r.value[i].value >= r.value[j].value
    ensures r.Ok? ==> forall i, j :: 0 <= i < j < |r.value| ==> r.value[i].key != r.value[j].key
    ensures r.Ok? ==> var codes := set k | k in Firsts(CountryRecords(countries).value);
      |r.value| == if |codes| < 10 then |codes| else 10
    ensures r.Ok? ==> forall k ::
      (k in Firsts(CountryRecords(countries).value) && forall j :: 0 <= j < |r.value| ==> r.value[j].key != k) ==>
      |r.value| == 10 && Occurrences(k, IsoCodes(airports).value) <= r.value[9].value
  {
    var counts := CalcMostAirports(airports, countries);
    if counts.Err? {
      return Err(counts.error);
    }
    var lines := Top(counts.value, 10);
    RankedCounts(lines, counts.value, CountryRecords(countries).value, IsoCodes(airports).value);
    return Ok(lines);
  }
}
