/** Ingestion of NYC Open Data collision records into the warehouse: the
    per-day `insert_data` step and the date loop of the backfill script, and
    the daily `fetch_and_store` HTTP function. The HTTP client and the
    warehouse client are parameters: `fetch` answers a GET of a URL and
    `insert` returns the row errors of an `insert_rows_json` call. */
module Ingest {
  import opened Results
  import opened Calendar
  import opened DateText
  import opened Coercion

  /** `str(n)` of a natural number: decimal digits without leading zeros. */
  function NatText(n: nat): (s: string)
    ensures |s| > 0 && AllDigits(s) && NumeralValue(s) == n
    ensures |s| > 1 ==> s[0] != '0'
  {
    if n < 10 then [DigitChar(n)]
    else
      var s := NatText(n / 10) + [DigitChar(n % 10)];
      assert s[..|s| - 1] == NatText(n / 10);
      s
  }

  /** A decimal numeral without leading zeros is the `str` of its value, so
      distinct numbers print distinctly. */
  lemma {:induction false} NatTextUnique(s: string)
    requires |s| > 0 && AllDigits(s) && (|s| > 1 ==> s[0] != '0')
    ensures NatText(NumeralValue(s)) == s
    decreases |s|
  {
    var n := NumeralValue(s);
    if |s| == 1 {
      assert n == DigitValue(s[0]) by { assert s[..0] == []; }
    } else {
      var init := s[..|s| - 1];
      assert init[0] == s[0];
      NatTextUnique(init);
      NumeralValueBound(init);
      assert NumeralValue(init) > 0;
      assert n / 10 == NumeralValue(init) && n % 10 == DigitValue(s[|s| - 1]);
      assert s == init + [s[|s| - 1]];
    }
  }

  /** `str(i)` of any integer. */
  function IntText(i: int): string {
    if i < 0 then "-" + NatText(-i) else NatText(i)
  }

  /** `endpoint_mapping[table]`: the Open Data dataset behind each table. */
  function Endpoint(table: string): (r: Result<string, PyError>)
    ensures r.Ok? <==> table == "crashes" || table == "person"
    ensures r.Err? ==> r.error == KeyError(table)
    ensures table == "crashes" ==> r.Ok? && r.value == "h9gi-nx95"
    ensures table == "person" ==> r.Ok? && r.value == "f55k-p6yu"
  {
    if table == "crashes" then Ok("h9gi-nx95")
    else if table == "person" then Ok("f55k-p6yu")
    else Err(KeyError(table))
  }

  const ApiBase := "https://data.cityofnewyork.us/resource/"
  const WhereCrashDate := ".json?$where=crash_date = '"
  const MidnightLimit := "T00:00:00' limit 50000"

  /** The backfill request for one day: the dataset's records whose
      `crash_date` is midnight of `dt`, at most 50000 of them. */
  function BackfillUrl(endpoint: string, dt: string): string {
    ApiBase + endpoint + WhereCrashDate + dt + MidnightLimit
  }

  /** The daily request: the person dataset's records of `dt`. */
  function DailyUrl(dt: string): string {
    ApiBase + "f55k-p6yu" + WhereCrashDate + dt + "'"
  }

  /** The date quoted in a backfill URL of a known dataset. */
  function BackfillUrlDate(endpoint: string, url: string): string
    requires |ApiBase + endpoint + WhereCrashDate| + |MidnightLimit| <= |url|
  {
    url[|ApiBase + endpoint + WhereCrashDate| .. |url| - |MidnightLimit|]
  }

  /** A backfill URL names exactly the day it was built for. */
  lemma BackfillUrlNamesDay(endpoint: string, dt: string)
    ensures |ApiBase + endpoint + WhereCrashDate| + |MidnightLimit| <= |BackfillUrl(endpoint, dt)|
    ensures BackfillUrlDate(endpoint, BackfillUrl(endpoint, dt)) == dt
  {
    var head := ApiBase + endpoint + WhereCrashDate;
    assert BackfillUrl(endpoint, dt) == head + dt + MidnightLimit;
  }

  /** A backfill URL asks the dataset it was built for. */
  lemma BackfillUrlDataset(endpoint: string, dt: string)
    ensures BackfillUrl(endpoint, dt)[..|ApiBase + endpoint|] == ApiBase + endpoint
  {
    assert BackfillUrl(endpoint, dt) == (ApiBase + endpoint) + (WhereCrashDate + dt + MidnightLimit);
  }

  /** Different days are requested with different URLs. */
  lemma BackfillUrlInjective(endpoint: string, d1: string, d2: string)
    requires BackfillUrl(endpoint, d1) == BackfillUrl(endpoint, d2)
    ensures d1 == d2
  {
    BackfillUrlNamesDay(endpoint, d1);
    BackfillUrlNamesDay(endpoint, d2);
  }

  /** The date quoted in a daily URL. */
  function DailyUrlDate(url: string): string
    requires |ApiBase + "f55k-p6yu" + WhereCrashDate| + 1 <= |url|
  {
    url[|ApiBase + "f55k-p6yu" + WhereCrashDate| .. |url| - 1]
  }

  lemma DailyUrlNamesDay(dt: string)
    ensures |ApiBase + "f55k-p6yu" + WhereCrashDate| + 1 <= |DailyUrl(dt)|
    ensures DailyUrlDate(DailyUrl(dt)) == dt
  {
    var head := ApiBase + "f55k-p6yu" + WhereCrashDate;
    assert DailyUrl(dt) == head + dt + "'";
  }

  /** `{project}.{dataset}.{table}` of the warehouse table written to. */
  function TableId(table: string): string {
    "nyc-transit-426211.motor_vehicle_crashes." + table
  }

  /** What the HTTP client returns: the status, the body text and, when the
      body decodes to a JSON list of objects, those records. */
  datatype Response = Response(status: int, text: string, json: Option<seq<Record>>)

  /** The external calls made, in order. */
  datatype Call = Fetch(url: string) | Insert(table: string, rows: seq<Row>)

  function FetchError(response: Response): string {
    "Error fetching data: " + IntText(response.status) + ", " + response.text
  }

  /** The `{errors}` rendering of the error list returned by the insert. */
  function ListText(items: seq<string>): string {
    "[" + Separated(items) + "]"
  }

  function Separated(items: seq<string>): string {
    if |items| == 0 then ""
    else if |items| == 1 then items[0]
    else items[0] + ", " + Separated(items[1..])
  }

  function InsertError(errors: seq<string>): string {
    "Encountered errors while inserting rows: " + ListText(errors)
  }

  const Success := "Data successfully written to BQ"

  /** How a fetch-and-insert ended when it did not raise. */
  datatype DayOutcome =
    | FetchFailed(message: string)
    | InsertFailed(message: string)
    | Inserted(count: nat)
  {
    /** The value `insert_data` returns: the message, or `None` once the
        rows are in (it then prints `count`). */
    function ReturnValue(): Option<string> {
      match this
      case FetchFailed(m) => Some(m)
      case InsertFailed(m) => Some(m)
      case Inserted(_) => None
    }

    /** The body `fetch_and_store` answers with. */
    function Body(): string {
      match this
      case FetchFailed(m) => m
      case InsertFailed(m) => m
      case Inserted(_) => Success
    }
  }

  /** The calls made, and how the work ended. */
  datatype Attempt = Attempt(calls: seq<Call>, result: Result<DayOutcome, PyError>)

  /** The work both entry points share: GET `url`; on a status other than
      200 report it; otherwise decode the body, coerce every record against
      the schema and insert the rows into `target`, reporting the row errors
      if there are any. A body that is not a list of records raises, and so
      does a DATE value the coercion rejects. */
  function Transfer(url: string, target: string, schema: Schema,
                    fetch: string -> Response, insert: (string, seq<Row>) -> seq<string>): (r: Attempt)
    requires DistinctNames(schema)
    ensures r.calls == [Fetch(url)] || (|r.calls| == 2 && r.calls[0] == Fetch(url) && r.calls[1].Insert?)
    ensures r.result.Ok? && r.result.value.FetchFailed? <==> fetch(url).status != 200
    ensures r.result.Ok? && r.result.value.FetchFailed? ==> r.result.value.message == FetchError(fetch(url))
    ensures |r.calls| == 2 <==> r.result.Ok? && !r.result.value.FetchFailed?
    ensures |r.calls| == 2 ==>
              r.calls[1].table == target && fetch(url).status == 200 && fetch(url).json.Some? &&
              CoerceBatch(schema, fetch(url).json.value) == Ok(r.calls[1].rows)
    ensures |r.calls| == 2 ==>
              (r.result.value.Inserted? <==> insert(target, r.calls[1].rows) == [])
    ensures r.result.Ok? && r.result.value.Inserted? ==> r.result.value.count == |r.calls[1].rows|
    ensures r.result.Ok? && r.result.value.InsertFailed? ==>
              r.result.value.message == InsertError(insert(target, r.calls[1].rows))
    ensures fetch(url).status == 200 && fetch(url).json.None? ==>
              r == Attempt([Fetch(url)], Err(DecodeError(fetch(url).text)))
    ensures fetch(url).status == 200 && fetch(url).json.Some? &&
            CoerceBatch(schema, fetch(url).json.value).Err? ==>
              r == Attempt([Fetch(url)], Err(CoerceBatch(schema, fetch(url).json.value).error))
    ensures fetch(url).status == 200 && fetch(url).json.Some? &&
            CoerceBatch(schema, fetch(url).json.value).Ok? ==>
              r.calls == [Fetch(url), Insert(target, CoerceBatch(schema, fetch(url).json.value).value)]
  {
    var response := fetch(url);
    if response.status != 200 then Attempt([Fetch(url)], Ok(FetchFailed(FetchError(response))))
    else
      match response.json
      case None => Attempt([Fetch(url)], Err(DecodeError(response.text)))
      case Some(collisions) =>
        match CoerceBatch(schema, collisions)
        case Err(e) => Attempt([Fetch(url)], Err(e))
        case Ok(rows) =>
          var errors := insert(target, rows);
          var calls := [Fetch(url), Insert(target, rows)];
          if |errors| > 0 then Attempt(calls, Ok(InsertFailed(InsertError(errors))))
          else Attempt(calls, Ok(Inserted(|collisions|)))
  }

  /** `insert_data(client, dt, table, ...)`: the shared transfer from the
      table's dataset for the day `dt` into the table of the same name. */
  function InsertData(dt: string, table: string, schema: Schema,
                      fetch: string -> Response, insert: (string, seq<Row>) -> seq<string>): (r: Attempt)
    requires DistinctNames(schema)
    ensures Endpoint(table).Err? ==> r == Attempt([], Err(KeyError(table)))
    ensures Endpoint(table).Ok? ==>
              r == Transfer(BackfillUrl(Endpoint(table).value, dt), TableId(table), schema, fetch, insert)
  {
    match Endpoint(table)
    case Err(e) => Attempt([], Err(e))
    case Ok(endpoint) => Transfer(BackfillUrl(endpoint, dt), TableId(table), schema, fetch, insert)
  }

  /** For a known table, the day's step requests the midnight records of the
      day it is given, from that table's dataset, and writes to that table. */
  lemma InsertDataNamesDay(d: Date, table: string, schema: Schema,
                           fetch: string -> Response, insert: (string, seq<Row>) -> seq<string>)
    requires Valid(d) && DistinctNames(schema) && Endpoint(table).Ok?
    ensures var r := InsertData(FormatDate(d), table, schema, fetch, insert);
            var endpoint := Endpoint(table).value;
            r.calls[0].Fetch? &&
            |ApiBase + endpoint + WhereCrashDate| + |MidnightLimit| <= |r.calls[0].url| &&
            ValidateDate(BackfillUrlDate(endpoint, r.calls[0].url)) == Ok(d) &&
            r.calls[0].url[..|ApiBase + endpoint|] == ApiBase + endpoint &&
            (|r.calls| == 2 ==> r.calls[1].table == TableId(table))
  {
    var endpoint := Endpoint(table).value;
    BackfillUrlNamesDay(endpoint, FormatDate(d));
    ValidateFormatted(d);
    BackfillUrlDataset(endpoint, FormatDate(d));
  }

  /** The two tables are fed from different datasets: whatever the days, a
      backfill step for `crashes` and one for `person` never make the same
      request, and the daily function's request is one of the person
      dataset's. */
  lemma BackfillTablesApart(dt: string, dt': string, schema: Schema,
                            fetch: string -> Response, insert: (string, seq<Row>) -> seq<string>)
    requires DistinctNames(schema)
    ensures InsertData(dt, "crashes", schema, fetch, insert).calls[0] !=
            InsertData(dt', "person", schema, fetch, insert).calls[0]
    ensures DailyUrl(dt')[..|ApiBase| + 9] == ApiBase + Endpoint("person").value
  {
    var crashes := BackfillUrl(Endpoint("crashes").value, dt);
    var person := BackfillUrl(Endpoint("person").value, dt');
    assert crashes[|ApiBase|] == 'h' && person[|ApiBase|] == 'f';
    assert DailyUrl(dt') == (ApiBase + "f55k-p6yu") + (WhereCrashDate + dt' + "'");
  }

  /** The calls of the days `ds`, one step after another. */
  function DayCalls(ds: seq<Date>, step: Date -> Attempt): seq<Call> {
    if |ds| == 0 then [] else step(ds[0]).calls + DayCalls(ds[1..], step)
  }

  /** A run of the backfill loop: the dates it visited, the calls it made
      and its result. */
  datatype Run = Run(visited: seq<Date>, calls: seq<Call>, result: Result<string, PyError>)

  /** The loop over the dates `ds` in order. The value a step returns is
      ignored; an exception it raises ends the run, and so does stepping past
      9999-12-31 once that day's step is done. */
  function RunOver(ds: seq<Date>, step: Date -> Attempt): Run {
    if |ds| == 0 then Run([], [], Ok(Success))
    else
      var a := step(ds[0]);
      if a.result.Err? then Run([ds[0]], a.calls, Err(a.result.error))
      else if ds[0] == LastDate then Run([ds[0]], a.calls, Err(OverflowError))
      else
        var rest := RunOver(ds[1..], step);
        Run([ds[0]] + rest.visited, a.calls + rest.calls, rest.result)
  }

  /** A run visits a prefix of the dates, at least one when there is one, and
      makes exactly the calls of the steps it ran. */
  lemma {:induction false} RunOverVisitsPrefix(ds: seq<Date>, step: Date -> Attempt)
    ensures |RunOver(ds, step).visited| <= |ds|
    ensures RunOver(ds, step).visited == ds[..|RunOver(ds, step).visited|]
    ensures |ds| > 0 ==> |RunOver(ds, step).visited| > 0
    ensures RunOver(ds, step).calls == DayCalls(RunOver(ds, step).visited, step)
  {
    if |ds| > 0 {
      var a := step(ds[0]);
      if a.result.Ok? && ds[0] != LastDate {
        RunOverVisitsPrefix(ds[1..], step);
        var rest := RunOver(ds[1..], step);
        assert ([ds[0]] + rest.visited)[1..] == rest.visited;
      } else {
        assert [ds[0]][1..] == [];
      }
    }
  }

  /** A run succeeds exactly when every step does and no date is the last
      one the calendar has; it has then visited every date. */
  lemma {:induction false} RunOverSucceeds(ds: seq<Date>, step: Date -> Attempt)
    ensures RunOver(ds, step).result.Ok? <==>
              forall i :: 0 <= i < |ds| ==> step(ds[i]).result.Ok? && ds[i] != LastDate
    ensures RunOver(ds, step).result.Ok? ==> RunOver(ds, step).visited == ds && RunOver(ds, step).result.value == Success
  {
    if |ds| > 0 {
      RunOverSucceeds(ds[1..], step);
      assert forall i :: 1 <= i < |ds| ==> ds[i] == ds[1..][i - 1];
      if step(ds[0]).result.Ok? && ds[0] != LastDate {
        assert ds == [ds[0]] + ds[1..];
      }
    }
  }

  /** A failed run ends on the date whose step raised, or on 9999-12-31 with
      `OverflowError`; every date before it ran without raising. */
  lemma {:induction false} RunOverFails(ds: seq<Date>, step: Date -> Attempt)
    requires RunOver(ds, step).result.Err?
    ensures var v := RunOver(ds, step).visited;
            |v| > 0 &&
            (step(v[|v| - 1]).result == Err(RunOver(ds, step).result.error) ||
             (v[|v| - 1] == LastDate && RunOver(ds, step).result.error == OverflowError))
    ensures var v := RunOver(ds, step).visited;
            forall i :: 0 <= i < |v| - 1 ==> step(v[i]).result.Ok?
  {
    var a := step(ds[0]);
    if a.result.Ok? && ds[0] != LastDate {
      RunOverFails(ds[1..], step);
      var rest := RunOver(ds[1..], step);
      var v := [ds[0]] + rest.visited;
      assert forall i :: 1 <= i < |v| ==> v[i] == rest.visited[i - 1];
    }
  }

  /** `vs` and `cs` done, then the run `rest`. */
  function Extend(vs: seq<Date>, cs: seq<Call>, rest: Run): Run {
    Run(vs + rest.visited, cs + rest.calls, rest.result)
  }

  /** One more date of a run that continues past it. */
  lemma RunOverContinues(ds: seq<Date>, k: nat, step: Date -> Attempt, vs: seq<Date>, cs: seq<Call>)
    requires k < |ds| && step(ds[k]).result.Ok? && ds[k] != LastDate
    ensures Extend(vs, cs, RunOver(ds[k..], step)) ==
            Extend(vs + [ds[k]], cs + step(ds[k]).calls, RunOver(ds[k + 1..], step))
  {
    assert ds[k..][0] == ds[k] && ds[k..][1..] == ds[k + 1..];
  }

  /** The date on which a run stops. */
  lemma RunOverStops(ds: seq<Date>, k: nat, step: Date -> Attempt, vs: seq<Date>, cs: seq<Call>)
    requires k < |ds| && (step(ds[k]).result.Err? || ds[k] == LastDate)
    ensures Extend(vs, cs, RunOver(ds[k..], step)) ==
            Run(vs + [ds[k]], cs + step(ds[k]).calls,
                if step(ds[k]).result.Err? then Err(step(ds[k]).result.error) else Err(OverflowError))
  {
    assert ds[k..][0] == ds[k];
  }

  /** The `while start_date <= end_date` loop of the backfill script with the
      per-day work as `step`. */
  method RunDays(start: Date, end: Date, step: Date -> Attempt)
    returns (visited: seq<Date>, calls: seq<Call>, r: Result<string, PyError>)
    requires Valid(start) && Valid(end)
    ensures Run(visited, calls, r) == RunOver(DayRange(start, end), step)
  {
    ghost var range := DayRange(start, end);
    var cur := start;
    visited, calls := [], [];
    assert range[0..] == range;
    while NotAfter(cur, end)
      invariant Valid(cur) && |visited| <= |range|
      invariant |visited| < |range| ==> cur == range[|visited|]
      invariant |visited| < |range| <==> NotAfter(cur, end)
      invariant RunOver(range, step) == Extend(visited, calls, RunOver(range[|visited|..], step))
      decreases |range| - |visited|
    {
      var attempt := step(cur);
      if attempt.result.Err? || cur == LastDate {
        RunOverStops(range, |visited|, step, visited, calls);
        visited, calls := visited + [cur], calls + attempt.calls;
        return visited, calls, if attempt.result.Err? then Err(attempt.result.error) else Err(OverflowError);
      }
      RunOverContinues(range, |visited|, step, visited, calls);
      visited, calls := visited + [cur], calls + attempt.calls;
      cur := NextDay(cur);
      if |visited| == |range| {
        assert cur == NextDay(end) && Before(end, cur);
      }
    }
    assert range[|visited|..] == [];
    return visited, calls, Ok(Success);
  }

  /** The per-day step of the backfill: `insert_data` of the date's
      `%Y-%m-%d` text. Every date the loop reaches is a real one, so the
      other branch is never taken. */
  function DayStep(table: string, schema: Schema,
                   fetch: string -> Response, insert: (string, seq<Row>) -> seq<string>): Date -> Attempt
    requires DistinctNames(schema)
  {
    d => if Valid(d) then InsertData(FormatDate(d), table, schema, fetch, insert) else Attempt([], Err(OverflowError))
  }

  /** `main(start_date, end_date, table)` of the backfill script: the day loop
      with `insert_data` as its step. */
  method Backfill(start: Date, end: Date, table: string, schema: Schema,
                  fetch: string -> Response, insert: (string, seq<Row>) -> seq<string>)
    returns (visited: seq<Date>, calls: seq<Call>, r: Result<string, PyError>)
    requires Valid(start) && Valid(end) && DistinctNames(schema)
    ensures Run(visited, calls, r) == RunOver(DayRange(start, end), DayStep(table, schema, fetch, insert))
  {
    visited, calls, r := RunDays(start, end, DayStep(table, schema, fetch, insert));
  }

  /** The backfill visits the dates from `start` to `end` in order, one
      `insert_data` each; it reports success exactly when no day raised and
      `end` is not 9999-12-31, and then it has visited every date. */
  lemma BackfillCoversRange(start: Date, end: Date, step: Date -> Attempt)
    requires Valid(start) && Valid(end)
    ensures var run := RunOver(DayRange(start, end), step);
            |run.visited| <= |DayRange(start, end)| &&
            run.visited == DayRange(start, end)[..|run.visited|] &&
            run.calls == DayCalls(run.visited, step) &&
            (run.result.Ok? <==>
               (forall i :: 0 <= i < |DayRange(start, end)| ==> step(DayRange(start, end)[i]).result.Ok?) &&
               (Before(end, start) || end != LastDate)) &&
            (run.result.Ok? ==> run.visited == DayRange(start, end) && run.result.value == Success)
  {
    var range := DayRange(start, end);
    RunOverVisitsPrefix(range, step);
    RunOverSucceeds(range, step);
    if !Before(end, start) && end == LastDate {
      assert range[|range| - 1] == LastDate;
    }
    if forall i :: 0 <= i < |range| ==> step(range[i]).result.Ok? {
      if Before(end, start) || end != LastDate {
        forall i | 0 <= i < |range|
          ensures range[i] != LastDate
        {
          if range[i] == LastDate {
            LastDateIsLast(end);
          }
        }
      }
    }
  }

  /** With `start > end` the loop body never runs: no request, no insert. */
  lemma BackfillEmptyRange(start: Date, end: Date, step: Date -> Attempt)
    requires Valid(start) && Valid(end) && Before(end, start)
    ensures RunOver(DayRange(start, end), step) == Run([], [], Ok(Success))
  {
  }

  /** A table outside the endpoint map raises `KeyError` on the first day,
      before any request is made. */
  lemma BackfillUnknownTable(start: Date, end: Date, table: string, schema: Schema,
                             fetch: string -> Response, insert: (string, seq<Row>) -> seq<string>)
    requires Valid(start) && Valid(end) && DistinctNames(schema)
    requires NotAfter(start, end) && Endpoint(table).Err?
    ensures RunOver(DayRange(start, end), DayStep(table, schema, fetch, insert)) == Run([start], [], Err(KeyError(table)))
  {
  }

  /** The request `fetch_and_store` receives; only its method matters. */
  datatype Request = Request(httpMethod: string)

  /** The `(body, status)` a Flask view returns; a bare string is a 200. */
  datatype Reply = Reply(body: string, status: int)

  datatype Handled = Handled(calls: seq<Call>, result: Result<Reply, PyError>)

  /** `fetch_and_store(request)`, with `today` the current date: the
      shared transfer from the person dataset for the day six days ago into
      the `collisions` table. A reply other than the 405 is a 200: a failed
      fetch or insert is reported in the body, not the status. */
  function FetchAndStore(request: Request, today: Date, schema: Schema,
                         fetch: string -> Response, insert: (string, seq<Row>) -> seq<string>): (r: Handled)
    requires Valid(today) && DistinctNames(schema)
    ensures request.httpMethod != "POST" <==> r.result == Ok(Reply("Invalid request method", 405))
    ensures request.httpMethod != "POST" ==> r.calls == []
    ensures r.result.Ok? && request.httpMethod == "POST" ==> r.result.value.status == 200 && |r.calls| > 0
  {
    if request.httpMethod != "POST" then Handled([], Ok(Reply("Invalid request method", 405)))
    else
      match DaysBefore(today, 6)
      case None => Handled([], Err(OverflowError))
      case Some(day) =>
        var a := Transfer(DailyUrl(FormatDate(day)), TableId("collisions"), schema, fetch, insert);
        Handled(a.calls, if a.result.Ok? then Ok(Reply(a.result.value.Body(), 200)) else Err(a.result.error))
  }

  /** The daily function is the shared transfer for the day six days ago
      whenever it gets that far, and makes no call otherwise. */
  lemma DailyIsTransfer(request: Request, today: Date, schema: Schema,
                        fetch: string -> Response, insert: (string, seq<Row>) -> seq<string>)
    requires Valid(today) && DistinctNames(schema)
    ensures var r := FetchAndStore(request, today, schema, fetch, insert);
            if request.httpMethod == "POST" && DaysBefore(today, 6).Some? then
              var a := Transfer(DailyUrl(FormatDate(DaysBefore(today, 6).value)), TableId("collisions"), schema, fetch, insert);
              r.calls == a.calls && (r.result.Ok? <==> a.result.Ok?) &&
              (r.result.Ok? ==> r.result.value.body == a.result.value.Body())
            else r.calls == []
  {
  }

  /** The only request the shared transfer makes is the GET of its URL, and
      it is the first call. */
  lemma TransferFetchesOnce(url: string, target: string, schema: Schema,
                            fetch: string -> Response, insert: (string, seq<Row>) -> seq<string>)
    requires DistinctNames(schema)
    ensures var a := Transfer(url, target, schema, fetch, insert);
            forall c :: c in a.calls && c.Fetch? ==> c == a.calls[0] == Fetch(url)
  {
  }

  /** The daily function asks for exactly one day, the one six days before
      `today`: its URL quotes that date, which parses back to it. */
  lemma DailyRequestsSixDaysAgo(request: Request, today: Date, schema: Schema,
                                fetch: string -> Response, insert: (string, seq<Row>) -> seq<string>)
    requires Valid(today) && DistinctNames(schema)
    ensures var r := FetchAndStore(request, today, schema, fetch, insert);
            forall c :: c in r.calls && c.Fetch? ==>
              c == r.calls[0] &&
              |ApiBase + "f55k-p6yu" + WhereCrashDate| + 1 <= |c.url| &&
              ValidateDate(DailyUrlDate(c.url)).Ok? &&
              DaysAfter(ValidateDate(DailyUrlDate(c.url)).value, 6) == Some(today)
  {
    DailyIsTransfer(request, today, schema, fetch, insert);
    if request.httpMethod == "POST" && DaysBefore(today, 6).Some? {
      var day := DaysBefore(today, 6).value;
      TransferFetchesOnce(DailyUrl(FormatDate(day)), TableId("collisions"), schema, fetch, insert);
      DailyUrlNamesDay(FormatDate(day));
      ValidateFormatted(day);
    }
  }

  /** The daily function writes only to the `collisions` table, once, after
      a successful fetch, and what it writes is the coerced batch of the
      fetched records; the reply is the success message exactly when the
      insert reported no error. */
  lemma DailyInsertsCoercedRows(request: Request, today: Date, schema: Schema,
                                fetch: string -> Response, insert: (string, seq<Row>) -> seq<string>)
    requires Valid(today) && DistinctNames(schema)
    ensures var r := FetchAndStore(request, today, schema, fetch, insert);
            forall c :: c in r.calls && c.Insert? ==>
              |r.calls| == 2 && c == r.calls[1] && r.calls[0].Fetch? &&
              c.table == TableId("collisions") &&
              fetch(r.calls[0].url).status == 200 && fetch(r.calls[0].url).json.Some? &&
              CoerceBatch(schema, fetch(r.calls[0].url).json.value) == Ok(c.rows) &&
              r.result.Ok? && (r.result.value.body == Success <==> insert(c.table, c.rows) == [])
    ensures request.httpMethod == "POST" && DaysBefore(today, 6).Some? ==>
              var r := FetchAndStore(request, today, schema, fetch, insert);
              var url := DailyUrl(FormatDate(DaysBefore(today, 6).value));
              var response := fetch(url);
              response.status == 200 && response.json.Some? &&
              CoerceBatch(schema, response.json.value).Ok? ==>
                r.calls == [Fetch(url), Insert(TableId("collisions"), CoerceBatch(schema, response.json.value).value)]
  {
    DailyIsTransfer(request, today, schema, fetch, insert);
    if request.httpMethod == "POST" && DaysBefore(today, 6).Some? {
      var url := DailyUrl(FormatDate(DaysBefore(today, 6).value));
      TransferInsertsCoercedRows(url, TableId("collisions"), schema, fetch, insert);
    }
  }

  /** The daily function's error cases after the request was accepted: a
      body that is not a list of records, or a record whose DATE value does
      not coerce, raises and nothing is written. */
  lemma DailyRaises(request: Request, today: Date, schema: Schema,
                    fetch: string -> Response, insert: (string, seq<Row>) -> seq<string>)
    requires Valid(today) && DistinctNames(schema)
    ensures request.httpMethod == "POST" && DaysBefore(today, 6).Some? ==>
              var r := FetchAndStore(request, today, schema, fetch, insert);
              var url := DailyUrl(FormatDate(DaysBefore(today, 6).value));
              var response := fetch(url);
              (response.status == 200 && response.json.None? ==>
                 r.calls == [Fetch(url)] && r.result == Err(DecodeError(response.text))) &&
              (response.status == 200 && response.json.Some? &&
               CoerceBatch(schema, response.json.value).Err? ==>
                 r.calls == [Fetch(url)] && r.result == Err(CoerceBatch(schema, response.json.value).error))
  {
    DailyIsTransfer(request, today, schema, fetch, insert);
  }

  /** What the shared transfer writes, and the body it reports: it writes
      exactly when the fetch answered 200 with a list of records that all
      coerce, and then it writes the coerced batch. */
  lemma TransferInsertsCoercedRows(url: string, target: string, schema: Schema,
                                   fetch: string -> Response, insert: (string, seq<Row>) -> seq<string>)
    requires DistinctNames(schema)
    ensures var a := Transfer(url, target, schema, fetch, insert);
            forall c :: c in a.calls && c.Insert? ==>
              |a.calls| == 2 && c == a.calls[1] && a.calls[0] == Fetch(url) &&
              c.table == target &&
              fetch(url).status == 200 && fetch(url).json.Some? &&
              CoerceBatch(schema, fetch(url).json.value) == Ok(c.rows) &&
              a.result.Ok? && (a.result.value.Body() == Success <==> insert(c.table, c.rows) == [])
    ensures var a := Transfer(url, target, schema, fetch, insert);
            var response := fetch(url);
            (exists c :: c in a.calls && c.Insert?) <==>
              response.status == 200 && response.json.Some? && CoerceBatch(schema, response.json.value).Ok?
  {
    var a := Transfer(url, target, schema, fetch, insert);
    if |a.calls| == 2 {
      var errors := insert(target, a.calls[1].rows);
      if |errors| > 0 {
        assert InsertError(errors)[0] != Success[0];
      }
    }
  }

  /** A fetch that does not answer 200 is reported with its status and body
      and nothing is written. */
  lemma DailyFetchFailure(request: Request, today: Date, schema: Schema,
                          fetch: string -> Response, insert: (string, seq<Row>) -> seq<string>)
    requires Valid(today) && DistinctNames(schema)
    requires request.httpMethod == "POST" && DaysBefore(today, 6).Some?
    ensures var r := FetchAndStore(request, today, schema, fetch, insert);
            var response := fetch(DailyUrl(FormatDate(DaysBefore(today, 6).value)));
            response.status != 200 <==> r.result == Ok(Reply(FetchError(response), 200)) && |r.calls| == 1
  {
  }

  /** The backfill step and the daily function share their coercion: handed
      the same records, they write the same rows. */
  lemma SharedCoercion(dt: string, table: string, request: Request, today: Date, schema: Schema,
                       fetch: string -> Response, insert: (string, seq<Row>) -> seq<string>)
    requires Valid(today) && DistinctNames(schema)
    ensures var backfill := InsertData(dt, table, schema, fetch, insert).calls;
            var daily := FetchAndStore(request, today, schema, fetch, insert).calls;
            |backfill| == 2 && |daily| == 2 && fetch(backfill[0].url).json == fetch(daily[0].url).json ==>
              backfill[1].rows == daily[1].rows
  {
  }
}
