/**
 * The reshaping shared by the four report endpoints of main.py: a flat list
 * of table rows, one JSON object per row, becomes one record per year, with
 * the endpoint's output fields in the endpoint's order.
 */
module Reshape {
  import opened Wrappers
  import opened PyStr
  import opened PyDict
  import opened JsonValue
  import opened ValueCleaner

  /** A cell of an input row: a string or JSON null. */
  type Cell = Option<string>

  /** One input row, as parsed from the table file. */
  type Row = map<string, Cell>

  /** `key.isdigit() and len(key) == 4`, with ASCII digits. */
  predicate IsYearKey(k: string) {
    |k| == 4 && AllDigits(k)
  }

  /** `int(year)`. */
  function YearValue(y: string): nat
    requires IsYearKey(y)
  {
    DecimalValue(y)
  }

  /** No entry occurs twice. */
  predicate NoRepeats(keys: seq<string>) {
    forall i, j | 0 <= i < j < |keys| :: keys[i] != keys[j]
  }

  // ---------------------------------------------------------------- years

  function YearKeysOf(r: Row): set<string> {
    set k | k in r && IsYearKey(k)
  }

  /** The `available_years` set after the discovery loop has seen `rows`. */
  function YearsIn(rows: seq<Row>): (ys: set<string>)
    ensures forall y | y in ys :: IsYearKey(y)
  {
    if rows == [] then {}
    else YearsIn(rows[..|rows| - 1]) + YearKeysOf(rows[|rows| - 1])
  }

  /** A year is available exactly when some row carries it as a key. */
  lemma {:induction false} YearsInExactly(rows: seq<Row>, y: string)
    ensures y in YearsIn(rows) <==> IsYearKey(y) && exists i | 0 <= i < |rows| :: y in rows[i]
  {
    if rows != [] {
      var init := rows[..|rows| - 1];
      YearsInExactly(init, y);
      if IsYearKey(y) && exists i | 0 <= i < |rows| :: y in rows[i] {
        var i :| 0 <= i < |rows| && y in rows[i];
        if i < |rows| - 1 {
          assert init[i] == rows[i];
        }
      }
      if y in YearsIn(init) {
        var i :| 0 <= i < |init| && y in init[i];
        assert rows[i] == init[i];
      }
    }
  }

  lemma YearsInStep(rows: seq<Row>, i: int)
    requires 0 <= i < |rows|
    ensures YearsIn(rows[..i + 1]) == YearsIn(rows[..i]) + YearKeysOf(rows[i])
  {
    assert rows[..i + 1][..i] == rows[..i];
  }

  /** The year discovery loop over every key of every row. */
  method DiscoverYears(rows: seq<Row>) returns (years: set<string>)
    ensures years == YearsIn(rows)
  {
    years := {};
    var i := 0;
    while i < |rows|
      invariant 0 <= i <= |rows|
      invariant years == YearsIn(rows[..i])
    {
      var item := rows[i];
      ghost var before := years;
      var keys := item.Keys;
      while keys != {}
        invariant keys <= item.Keys
        invariant forall y :: y in years <==> y in before || (y in item && y !in keys && IsYearKey(y))
        decreases |keys|
      {
        var key :| key in keys;
        if IsYearKey(key) {
          years := years + {key};
        }
        keys := keys - {key};
      }
      YearsInStep(rows, i);
      assert years == before + YearKeysOf(item);
      i := i + 1;
    }
    assert rows[..|rows|] == rows;
  }

  /** `y` comes no later than any year of the set. */
  predicate Earliest(years: set<string>, y: string)
    requires forall z | z in years :: IsYearKey(z)
    requires IsYearKey(y)
  {
    forall z | z in years :: YearValue(y) <= YearValue(z)
  }

  lemma {:induction false} EarliestExists(years: set<string>)
    requires years != {} && forall z | z in years :: IsYearKey(z)
    ensures exists y | y in years :: Earliest(years, y)
    decreases |years|
  {
    var x :| x in years;
    var rest := years - {x};
    if rest == {} {
      assert years == {x};
      assert Earliest(years, x);
    } else {
      EarliestExists(rest);
      var m :| m in rest && Earliest(rest, m);
      if YearValue(x) <= YearValue(m) {
        assert Earliest(years, x);
      } else {
        assert Earliest(years, m);
      }
    }
  }

  /** Two year keys with the same value are the same key. */
  lemma EarliestUnique(years: set<string>, a: string, b: string)
    requires forall z | z in years :: IsYearKey(z)
    requires a in years && b in years && Earliest(years, a) && Earliest(years, b)
    ensures a == b
  {
    DecimalValueInjective(a, b);
  }

  /** `sorted(list(available_years))`. */
  function SortedYears(years: set<string>): (r: seq<string>)
    requires forall y | y in years :: IsYearKey(y)
    ensures |r| == |years|
    ensures forall i | 0 <= i < |r| :: r[i] in years
    ensures forall y | y in years :: y in r
    ensures forall i, j | 0 <= i < j < |r| :: YearValue(r[i]) < YearValue(r[j])
    decreases |years|
  {
    if years == {} then []
    else
      EarliestExists(years);
      EarliestDetermined(years);
      var y :| y in years && Earliest(years, y);
      var rest := SortedYears(years - {y});
      EarliestBeforeRest(years, y, rest);
      ConsListing(years, y, rest);
      [y] + rest
  }

  /** Putting the earliest year in front of a listing of the others lists them all. */
  lemma ConsListing(years: set<string>, y: string, rest: seq<string>)
    requires forall z | z in years :: IsYearKey(z)
    requires y in years && |rest| == |years - {y}|
    requires forall i | 0 <= i < |rest| :: rest[i] in years - {y}
    requires forall z | z in years - {y} :: z in rest
    ensures var r := [y] + rest;
      && |r| == |years|
      && (forall i | 0 <= i < |r| :: r[i] in years)
      && (forall z | z in years :: z in r)
  {
    var r := [y] + rest;
    forall i | 0 <= i < |r|
      ensures r[i] in years
    {
      if i > 0 {
        assert r[i] == rest[i - 1];
      }
    }
    forall z | z in years
      ensures z in r
    {
      if z != y {
        assert z in rest;
      }
    }
  }

  lemma EarliestDetermined(years: set<string>)
    requires forall z | z in years :: IsYearKey(z)
    ensures forall a, b | a in years && b in years && Earliest(years, a) && Earliest(years, b) :: a == b
  {
    forall a, b | a in years && b in years && Earliest(years, a) && Earliest(years, b)
      ensures a == b
    {
      EarliestUnique(years, a, b);
    }
  }

  lemma EarliestBeforeRest(years: set<string>, y: string, rest: seq<string>)
    requires forall z | z in years :: IsYearKey(z)
    requires y in years && Earliest(years, y)
    requires forall i | 0 <= i < |rest| :: rest[i] in years - {y}
    ensures forall j | 0 <= j < |rest| :: YearValue(y) < YearValue(rest[j])
  {
    forall j | 0 <= j < |rest|
      ensures YearValue(y) < YearValue(rest[j])
    {
      EarliestStrict(years, y, rest[j]);
    }
  }

  lemma EarliestStrict(years: set<string>, y: string, z: string)
    requires forall w | w in years :: IsYearKey(w)
    requires y in years && Earliest(years, y) && z in years && z != y
    ensures YearValue(y) < YearValue(z)
  {
    if YearValue(y) == YearValue(z) {
      DecimalValueInjective(y, z);
    }
  }

  /** The first year comes off the set, the rest is sorted the same way. */
  lemma SortedYearsHead(years: set<string>)
    requires years != {} && forall y | y in years :: IsYearKey(y)
    ensures var r := SortedYears(years);
      r != [] && r == [r[0]] + SortedYears(years - {r[0]})
  {
  }

  /** The order above is Python's string order on the keys. */
  lemma SortedYearsPythonOrder(years: set<string>)
    requires forall y | y in years :: IsYearKey(y)
    ensures var r := SortedYears(years);
      forall i, j | 0 <= i < j < |r| :: LexLess(r[i], r[j])
  {
    var r := SortedYears(years);
    forall i, j | 0 <= i < j < |r|
      ensures LexLess(r[i], r[j])
    {
      LexLessIsNumeric(r[i], r[j]);
    }
  }

  /** Exactly the keys of `years`, once each, in strictly ascending Python string order. */
  predicate ListsInOrder(years: set<string>, s: seq<string>)
    requires forall y | y in years :: IsYearKey(y)
  {
    && |s| == |years|
    && (forall i | 0 <= i < |s| :: s[i] in years)
    && (forall y | y in years :: y in s)
    && (forall i, j | 0 <= i < j < |s| :: LexLess(s[i], s[j]))
  }

  /** The head of an ascending listing is the earliest year. */
  lemma AscendingHeadEarliest(years: set<string>, s: seq<string>)
    requires forall y | y in years :: IsYearKey(y)
    requires s != [] && forall i | 0 <= i < |s| :: s[i] in years
    requires forall y | y in years :: y in s
    requires forall i, j | 0 <= i < j < |s| :: YearValue(s[i]) < YearValue(s[j])
    ensures Earliest(years, s[0])
  {
    forall z | z in years
      ensures YearValue(s[0]) <= YearValue(z)
    {
      var k :| 0 <= k < |s| && s[k] == z;
      assert k == 0 || YearValue(s[0]) < YearValue(s[k]);
    }
  }

  /** Dropping the head of an ordered listing lists the remaining years in order. */
  lemma ListsInOrderTail(years: set<string>, s: seq<string>)
    requires forall y | y in years :: IsYearKey(y)
    requires s != [] && ListsInOrder(years, s)
    ensures ListsInOrder(years - {s[0]}, s[1..])
  {
    var rest, tail := years - {s[0]}, s[1..];
    forall i | 0 <= i < |tail|
      ensures tail[i] in rest
    {
      assert tail[i] == s[i + 1];
      LexLessIrreflexive(s[0], s[i + 1]);
    }
    forall y | y in rest
      ensures y in tail
    {
      var k :| 0 <= k < |s| && s[k] == y;
      assert tail[k - 1] == y;
    }
    forall i, j | 0 <= i < j < |tail|
      ensures LexLess(tail[i], tail[j])
    {
      assert tail[i] == s[i + 1] && tail[j] == s[j + 1];
    }
  }

  lemma LexLessIrreflexive(a: string, b: string)
    requires LexLess(a, b)
    ensures a != b
  {
    if a == b {
      LexLessSelf(a);
    }
  }

  lemma {:induction false} LexLessSelf(a: string)
    ensures !LexLess(a, a)
  {
    if a != [] {
      LexLessSelf(a[1..]);
    }
  }

  /**
   * `sorted` has one possible result: any list of exactly these keys in
   * strictly ascending string order is the one above.
   */
  lemma {:induction false} SortedYearsUnique(years: set<string>, s: seq<string>)
    requires forall y | y in years :: IsYearKey(y)
    requires ListsInOrder(years, s)
    ensures s == SortedYears(years)
    decreases |years|
  {
    if years != {} {
      var r := SortedYears(years);
      SortedYearsHead(years);
      assert s != [] by {
        var x :| x in years;
        assert x in s;
      }
      assert s[0] == r[0] by {
        forall i, j | 0 <= i < j < |s|
          ensures YearValue(s[i]) < YearValue(s[j])
        {
          LexLessIsNumeric(s[i], s[j]);
        }
        AscendingHeadEarliest(years, s);
        AscendingHeadEarliest(years, r);
        EarliestUnique(years, s[0], r[0]);
      }
      assert s[1..] == SortedYears(years - {s[0]}) by {
        ListsInOrderTail(years, s);
        SortedYearsUnique(years - {s[0]}, s[1..]);
      }
      SameHeadAndTail(s, r, SortedYears(years - {s[0]}));
    }
  }

  lemma SameHeadAndTail(s: seq<string>, r: seq<string>, t: seq<string>)
    requires s != [] && r == [s[0]] + t && s[1..] == t
    ensures s == r
  {
    assert s == [s[0]] + s[1..];
  }

  // -------------------------------------------------------------- per year

  /** The row has an `Akun` label the endpoint maps, and a cell for `year`. */
  predicate Contributes(r: Row, accounts: map<string, string>, year: string) {
    "Akun" in r && r["Akun"].Some? && r["Akun"].value in accounts && year in r
  }

  /** The output field a contributing row fills. */
  function Target(r: Row, accounts: map<string, string>, year: string): string
    requires Contributes(r, accounts, year)
  {
    accounts[r["Akun"].value]
  }

  /** The row writes field `k` for `year`. */
  predicate Feeds(r: Row, accounts: map<string, string>, year: string, k: string) {
    Contributes(r, accounts, year) && Target(r, accounts, year) == k
  }

  /** `{"value": v, "conUidence": None}`, with the key spelled as the endpoints spell it. */
  function FieldEntry(v: Option<string>): (e: Json)
    ensures e.Obj? && Keys(e.members) == ["value", "conUidence"]
    ensures Get(e.members, "value") == Some(if v.Some? then Str(v.value) else Null)
    ensures Get(e.members, "conUidence") == Some(Null)
  {
    var members := [("value", if v.Some? then Str(v.value) else Null), ("conUidence", Null)];
    assert IndexOf(members, "value") == 0;
    assert IndexOf(members, "conUidence") == 1 by {
      assert members[0].0 != "conUidence";
    }
    Obj(members)
  }

  /** `temp_data_storage` after the collection loop has seen `rows`. */
  function Collected(rows: seq<Row>, accounts: map<string, string>, year: string): map<string, Json> {
    if rows == [] then map[]
    else
      var m := Collected(rows[..|rows| - 1], accounts, year);
      var r := rows[|rows| - 1];
      if Contributes(r, accounts, year) then
        m[Target(r, accounts, year) := FieldEntry(CleanValue(r[year]))]
      else m
  }

  /** A field is collected exactly when some row feeds it. */
  lemma {:induction false} CollectedExactly(rows: seq<Row>, accounts: map<string, string>, year: string, k: string)
    ensures k in Collected(rows, accounts, year) <==> exists i | 0 <= i < |rows| :: Feeds(rows[i], accounts, year, k)
  {
    if rows != [] {
      var n := |rows| - 1;
      var init := rows[..n];
      CollectedExactly(init, accounts, year, k);
      if exists i | 0 <= i < |rows| :: Feeds(rows[i], accounts, year, k) {
        var i :| 0 <= i < |rows| && Feeds(rows[i], accounts, year, k);
        if i < n {
          assert init[i] == rows[i];
        }
      }
      if exists i | 0 <= i < |init| :: Feeds(init[i], accounts, year, k) {
        var i :| 0 <= i < |init| && Feeds(init[i], accounts, year, k);
        assert init[i] == rows[i];
      }
    }
  }

  /** Last write wins: a collected field holds the cleaned cell of the last row that feeds it. */
  lemma {:induction false} CollectedLastWins(rows: seq<Row>, accounts: map<string, string>, year: string, k: string, i: int)
    requires 0 <= i < |rows| && Feeds(rows[i], accounts, year, k)
    requires forall j | i < j < |rows| :: !Feeds(rows[j], accounts, year, k)
    ensures k in Collected(rows, accounts, year)
    ensures Collected(rows, accounts, year)[k] == FieldEntry(CleanValue(rows[i][year]))
  {
    var n := |rows| - 1;
    if i < n {
      var init := rows[..n];
      assert init[i] == rows[i];
      assert forall j | i < j < |init| :: !Feeds(init[j], accounts, year, k) by {
        forall j | i < j < |init|
          ensures !Feeds(init[j], accounts, year, k)
        {
          assert init[j] == rows[j];
        }
      }
      CollectedLastWins(init, accounts, year, k, i);
      assert !Feeds(rows[n], accounts, year, k);
    }
  }

  /** A row that feeds nothing can be dropped from anywhere in the list. */
  lemma {:induction false} CollectedIgnores(a: seq<Row>, r: Row, b: seq<Row>, accounts: map<string, string>, year: string)
    requires !Contributes(r, accounts, year)
    ensures Collected(a + [r] + b, accounts, year) == Collected(a + b, accounts, year)
    decreases |b|
  {
    if b == [] {
      assert (a + [r] + b)[..|a|] == a;
      assert a + b == a;
    } else {
      var n := |b| - 1;
      CollectedIgnores(a, r, b[..n], accounts, year);
      assert (a + [r] + b)[..|a| + 1 + n] == a + [r] + b[..n];
      assert (a + b)[..|a| + n] == a + b[..n];
    }
  }

  /** The collection loop for one year. */
  method CollectYear(rows: seq<Row>, accounts: map<string, string>, year: string) returns (scratch: map<string, Json>)
    ensures scratch == Collected(rows, accounts, year)
  {
    scratch := map[];
    var i := 0;
    while i < |rows|
      invariant 0 <= i <= |rows|
      invariant scratch == Collected(rows[..i], accounts, year)
    {
      var item := rows[i];
      var akun := if "Akun" in item then item["Akun"] else None;
      if akun.Some? && akun.value in accounts && year in item {
        var outputKey := accounts[akun.value];
        scratch := scratch[outputKey := FieldEntry(CleanValue(item[year]))];
      }
      assert rows[..i + 1][..i] == rows[..i];
      i := i + 1;
    }
    assert rows[..|rows|] == rows;
  }

  // --------------------------------------------------------------- records

  /** What the record-building loop stores under `key`. */
  function EntryFor(key: string, year: string, scratch: map<string, Json>): Json
    requires IsYearKey(year)
  {
    if key == "year" then Num(YearValue(year))
    else if key in scratch then scratch[key]
    else FieldEntry(None)
  }

  /** `year_data_entry` after the record-building loop has seen `keys`. */
  function RecordOf(keys: seq<string>, year: string, scratch: map<string, Json>): Dict<Json>
    requires IsYearKey(year)
  {
    if keys == [] then []
    else
      var n := |keys| - 1;
      Assign(RecordOf(keys[..n], year, scratch), keys[n], EntryFor(keys[n], year, scratch))
  }

  /** A record holds exactly the listed fields, each with its entry. */
  lemma {:induction false} RecordFields(keys: seq<string>, year: string, scratch: map<string, Json>, k: string)
    requires IsYearKey(year)
    ensures Get(RecordOf(keys, year, scratch), k) == if k in keys then Some(EntryFor(k, year, scratch)) else None
  {
    if keys != [] {
      var n := |keys| - 1;
      RecordFields(keys[..n], year, scratch, k);
      InInitOrLast(keys, k);
    }
  }

  lemma InInitOrLast(keys: seq<string>, k: string)
    requires keys != []
    ensures k in keys <==> k in keys[..|keys| - 1] || k == keys[|keys| - 1]
  {
    assert keys == keys[..|keys| - 1] + [keys[|keys| - 1]];
  }

  /** Building a record never repeats a key. */
  lemma {:induction false} RecordDistinct(keys: seq<string>, year: string, scratch: map<string, Json>)
    requires IsYearKey(year)
    ensures DistinctKeys(RecordOf(keys, year, scratch))
  {
    if keys != [] {
      RecordDistinct(keys[..|keys| - 1], year, scratch);
    }
  }

  /** With a list that repeats nothing, the record's keys are the list, in its order. */
  lemma {:induction false} RecordKeyOrder(keys: seq<string>, year: string, scratch: map<string, Json>)
    requires IsYearKey(year) && NoRepeats(keys)
    ensures Keys(RecordOf(keys, year, scratch)) == keys
  {
    if keys != [] {
      var n := |keys| - 1;
      assert NoRepeats(keys[..n]);
      RecordKeyOrder(keys[..n], year, scratch);
      assert keys[n] !in keys[..n];
      RecordFields(keys[..n], year, scratch, keys[n]);
      AssignKeys(RecordOf(keys[..n], year, scratch), keys[n], EntryFor(keys[n], year, scratch));
      assert keys == keys[..n] + [keys[n]];
    }
  }

  /** The record-building loop over the endpoint's field list. */
  method BuildRecord(keys: seq<string>, year: string, scratch: map<string, Json>) returns (entry: Dict<Json>)
    requires IsYearKey(year)
    ensures entry == RecordOf(keys, year, scratch)
  {
    entry := [];
    for n := 0 to |keys|
      invariant entry == RecordOf(keys[..n], year, scratch)
    {
      var key := keys[n];
      if key == "year" {
        entry := Assign(entry, "year", Num(YearValue(year)));
      } else if key in scratch {
        entry := Assign(entry, key, scratch[key]);
      } else {
        entry := Assign(entry, key, FieldEntry(None));
      }
      assert keys[..n + 1][..n] == keys[..n];
    }
    assert keys[..|keys|] == keys;
  }

  // ---------------------------------------------------------------- report

  /** The response payload: `status`, `reason` and `read`, in that order. */
  datatype Report = Report(status: string, reason: string, read: seq<Dict<Json>>)

  const Succeeded := "SUCCESS"
  const SuccessReason := "File Successfully Read"
  const Failed := "FAILED"
  const NoYearReason := "No year data found in the file."

  /** One record per listed year. */
  function RecordsFor(rows: seq<Row>, accounts: map<string, string>, keys: seq<string>, years: seq<string>): (read: seq<Dict<Json>>)
    requires forall i | 0 <= i < |years| :: IsYearKey(years[i])
    ensures |read| == |years|
  {
    seq(|years|, i requires 0 <= i < |years| => RecordOf(keys, years[i], Collected(rows, accounts, years[i])))
  }

  /** The payload an endpoint returns for a parsed table file. */
  function ReportOf(rows: seq<Row>, accounts: map<string, string>, keys: seq<string>): Report {
    var years := SortedYears(YearsIn(rows));
    var read := RecordsFor(rows, accounts, keys, years);
    if read == [] then Report(Failed, NoYearReason, read)
    else Report(Succeeded, SuccessReason, read)
  }

  /** The body shared by the four endpoints, once the file is parsed. */
  method ReshapeReport(rows: seq<Row>, accounts: map<string, string>, keys: seq<string>) returns (report: Report)
    ensures report == ReportOf(rows, accounts, keys)
  {
    var status, reason := Succeeded, SuccessReason;
    var read: seq<Dict<Json>> := [];
    var available := DiscoverYears(rows);
    var years := SortedYears(available);
    for n := 0 to |years|
      invariant |read| == n
      invariant forall j | 0 <= j < n :: read[j] == RecordOf(keys, years[j], Collected(rows, accounts, years[j]))
    {
      var year := years[n];
      var scratch := CollectYear(rows, accounts, year);
      var entry := BuildRecord(keys, year, scratch);
      read := read + [entry];
    }
    assert read == RecordsFor(rows, accounts, keys, years);
    if read == [] {
      status, reason := Failed, NoYearReason;
    }
    report := Report(status, reason, read);
  }

  /**
   * The status is FAILED, with the no-year reason and nothing read, exactly
   * when no row has a year key; otherwise there is one record per year.
   */
  lemma ReportStatus(rows: seq<Row>, accounts: map<string, string>, keys: seq<string>)
    ensures var r := ReportOf(rows, accounts, keys);
      && |r.read| == |YearsIn(rows)|
      && (r.status == Failed <==> YearsIn(rows) == {})
      && (r.status == Failed ==> r.reason == NoYearReason && r.read == [])
      && (r.status != Failed ==> r.status == Succeeded && r.reason == SuccessReason)
  {
  }

  /**
   * Record `i` is the record of the `i`-th year in ascending order: each
   * listed field holds the entry built from the rows, and nothing else is there.
   */
  lemma ReportRecords(rows: seq<Row>, accounts: map<string, string>, keys: seq<string>, i: int, k: string)
    requires 0 <= i < |ReportOf(rows, accounts, keys).read|
    ensures var ys := SortedYears(YearsIn(rows));
      && i < |ys|
      && Get(ReportOf(rows, accounts, keys).read[i], k) ==
        if k in keys then Some(EntryFor(k, ys[i], Collected(rows, accounts, ys[i]))) else None
  {
    var ys := SortedYears(YearsIn(rows));
    RecordFields(keys, ys[i], Collected(rows, accounts, ys[i]), k);
  }

  /** With a list that repeats nothing, every record has the listed fields in the listed order. */
  lemma ReportKeyOrder(rows: seq<Row>, accounts: map<string, string>, keys: seq<string>, i: int)
    requires NoRepeats(keys)
    requires 0 <= i < |ReportOf(rows, accounts, keys).read|
    ensures Keys(ReportOf(rows, accounts, keys).read[i]) == keys
  {
    var ys := SortedYears(YearsIn(rows));
    RecordKeyOrder(keys, ys[i], Collected(rows, accounts, ys[i]));
  }

  /**
   * When "year" is listed, record `i` carries `int(year)` of the `i`-th
   * available year, and these strictly increase along the list.
   */
  lemma ReportYearsAscend(rows: seq<Row>, accounts: map<string, string>, keys: seq<string>, i: int, j: int)
    requires "year" in keys
    requires 0 <= i < j < |ReportOf(rows, accounts, keys).read|
    ensures var read := ReportOf(rows, accounts, keys).read;
      && Get(read[i], "year").Some? && Get(read[i], "year").value.Num?
      && Get(read[j], "year").Some? && Get(read[j], "year").value.Num?
      && Get(read[i], "year").value.n < Get(read[j], "year").value.n
  {
    ReportRecords(rows, accounts, keys, i, "year");
    ReportRecords(rows, accounts, keys, j, "year");
  }

  /** Every available year gets a record carrying its `int(year)`, when "year" is listed. */
  lemma ReportCoversYears(rows: seq<Row>, accounts: map<string, string>, keys: seq<string>, y: string)
    requires "year" in keys && y in YearsIn(rows)
    ensures exists i | 0 <= i < |ReportOf(rows, accounts, keys).read| ::
      Get(ReportOf(rows, accounts, keys).read[i], "year") == Some(Num(YearValue(y)))
  {
    var ys := SortedYears(YearsIn(rows));
    var i :| 0 <= i < |ys| && ys[i] == y;
    ReportRecords(rows, accounts, keys, i, "year");
  }

  /** A listed field other than "year" that no row feeds holds the null placeholder. */
  lemma ReportFieldPlaceholder(rows: seq<Row>, accounts: map<string, string>, keys: seq<string>, i: int, k: string)
    requires k in keys && k != "year"
    requires 0 <= i < |ReportOf(rows, accounts, keys).read|
    requires forall m | 0 <= m < |rows| :: !Feeds(rows[m], accounts, SortedYears(YearsIn(rows))[i], k)
    ensures Get(ReportOf(rows, accounts, keys).read[i], k) == Some(FieldEntry(None))
  {
    var y := SortedYears(YearsIn(rows))[i];
    ReportRecords(rows, accounts, keys, i, k);
    CollectedExactly(rows, accounts, y, k);
  }

  /** A listed field other than "year" holds the cleaned cell of the last row feeding it. */
  lemma ReportFieldLastWins(rows: seq<Row>, accounts: map<string, string>, keys: seq<string>, i: int, k: string, m: int)
    requires k in keys && k != "year"
    requires 0 <= i < |ReportOf(rows, accounts, keys).read|
    requires 0 <= m < |rows| && Feeds(rows[m], accounts, SortedYears(YearsIn(rows))[i], k)
    requires forall j | m < j < |rows| :: !Feeds(rows[j], accounts, SortedYears(YearsIn(rows))[i], k)
    ensures Get(ReportOf(rows, accounts, keys).read[i], k) == Some(FieldEntry(CleanValue(rows[m][SortedYears(YearsIn(rows))[i]])))
  {
    var y := SortedYears(YearsIn(rows))[i];
    ReportRecords(rows, accounts, keys, i, k);
    CollectedLastWins(rows, accounts, y, k, m);
  }
}
