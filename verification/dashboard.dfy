/** The Streamlit dashboard's three warehouse queries, evaluated over the
    tables as in-memory row lists, and the date guard in front of them. SQL
    NULL is `None`; a comparison with NULL is neither true nor false. */
module Dashboard {
  import opened Results
  import opened Calendar

  /** SQL's three truth values. */
  datatype Truth = True | False | Unknown

  /** SQL `AND`: FALSE wins over UNKNOWN. */
  function And(a: Truth, b: Truth): Truth {
    if a == False || b == False then False
    else if a == True && b == True then True
    else Unknown
  }

  /** `x > k` on a nullable integer column. */
  function Greater(x: Option<int>, k: int): Truth {
    if x.None? then Unknown else if x.value > k then True else False
  }

  /** `x = k` on a nullable integer column. */
  function Equal(x: Option<int>, k: int): Truth {
    if x.None? then Unknown else if x.value == k then True else False
  }

  /** The `person_injury` labels of a crash. */
  datatype Injury = Injury | InjuryAndDeath | Death | Unspecified
  {
    function Text(): string {
      match this
      case Injury => "Injury"
      case InjuryAndDeath => "Injury+Death"
      case Death => "Death"
      case Unspecified => "Unspecified"
    }
  }

  /** The `case` expression of `get_collision_data`: the first `when` whose
      condition is TRUE; UNKNOWN selects no branch, like FALSE. */
  function Classify(injured: Option<int>, killed: Option<int>): Injury {
    if And(Greater(injured, 0), Equal(killed, 0)) == True then Injury
    else if And(Greater(injured, 0), Greater(killed, 0)) == True then InjuryAndDeath
    else if And(Equal(injured, 0), Greater(killed, 0)) == True then Death
    else Unspecified
  }

  /** Each label of the `person_injury` column in terms of the two counts.
      A null count satisfies no condition, so it always yields
      `Unspecified`; for counts that are not negative, `Unspecified` means
      nobody was hurt. */
  lemma ClassifyCases(injured: Option<int>, killed: Option<int>)
    ensures Classify(injured, killed).Text() == "Injury" <==>
              injured.Some? && killed.Some? && injured.value > 0 && killed.value == 0
    ensures Classify(injured, killed).Text() == "Injury+Death" <==>
              injured.Some? && killed.Some? && injured.value > 0 && killed.value > 0
    ensures Classify(injured, killed).Text() == "Death" <==>
              injured.Some? && killed.Some? && injured.value == 0 && killed.value > 0
    ensures injured.None? || killed.None? ==> Classify(injured, killed).Text() == "Unspecified"
    ensures injured.Some? && killed.Some? && injured.value >= 0 && killed.value >= 0 ==>
              (Classify(injured, killed).Text() == "Unspecified" <==>
                 injured.value == 0 && killed.value == 0)
  {
  }

  /** A row of the person table, as far as the queries read it. */
  datatype PersonRow = PersonRow(crashDate: Option<Date>, collisionId: Option<int>)

  /** A row of the predictions table. */
  datatype PredictionRow = PredictionRow(ds: Option<Date>, yhat: Option<real>,
                                         yhatLower: Option<real>, yhatUpper: Option<real>)

  /** `count(*)` of the person rows of day `d`. */
  function PeopleOn(persons: seq<PersonRow>, d: Date): nat {
    if |persons| == 0 then 0
    else (if persons[0].crashDate == Some(d) then 1 else 0) + PeopleOn(persons[1..], d)
  }

  /** The non-null `collision_id`s among the person rows of day `d`;
      `count(distinct collision_id)` is the size of this set. */
  function CrashIdsOn(persons: seq<PersonRow>, d: Date): set<int> {
    if |persons| == 0 then {}
    else
      var p := persons[0];
      (if p.crashDate == Some(d) && p.collisionId.Some? then {p.collisionId.value} else {}) +
      CrashIdsOn(persons[1..], d)
  }

  /** A day has a group exactly when some person row carries its date. */
  lemma {:induction false} PeopleOnPositive(persons: seq<PersonRow>, d: Date)
    ensures PeopleOn(persons, d) > 0 <==> exists i :: 0 <= i < |persons| && persons[i].crashDate == Some(d)
  {
    if |persons| > 0 {
      PeopleOnPositive(persons[1..], d);
      if persons[0].crashDate != Some(d) && exists i :: 0 <= i < |persons| && persons[i].crashDate == Some(d) {
        var i :| 0 <= i < |persons| && persons[i].crashDate == Some(d);
        assert persons[1..][i - 1] == persons[i];
      }
    }
  }

  /** The distinct count counts the collision ids named on that day. */
  lemma {:induction false} CrashIdsOnMembers(persons: seq<PersonRow>, d: Date, x: int)
    ensures x in CrashIdsOn(persons, d) <==>
              exists i :: 0 <= i < |persons| && persons[i].crashDate == Some(d) && persons[i].collisionId == Some(x)
  {
    if |persons| > 0 {
      CrashIdsOnMembers(persons[1..], d, x);
      if exists i :: 0 <= i < |persons| && persons[i].crashDate == Some(d) && persons[i].collisionId == Some(x) {
        var i :| 0 <= i < |persons| && persons[i].crashDate == Some(d) && persons[i].collisionId == Some(x);
        if i > 0 {
          assert persons[1..][i - 1] == persons[i];
        }
      }
    }
  }

  /** Distinct crashes never outnumber the people involved in them. */
  lemma {:induction false} CrashesAtMostPeople(persons: seq<PersonRow>, d: Date)
    ensures |CrashIdsOn(persons, d)| <= PeopleOn(persons, d)
  {
    if |persons| > 0 {
      CrashesAtMostPeople(persons[1..], d);
      var p := persons[0];
      var rest := CrashIdsOn(persons[1..], d);
      if p.crashDate == Some(d) && p.collisionId.Some? {
        var x := p.collisionId.value;
        if x in rest {
          assert {x} + rest == rest;
        } else {
          assert |{x} + rest| == |rest| + 1;
        }
      } else {
        assert CrashIdsOn(persons, d) == rest;
      }
    }
  }

  /** A row of `get_collision_ts`. */
  datatype TsRow = TsRow(crashDate: Date, peopleInvolved: nat, crashes: nat,
                         yhat: real, lowerBound: real, upperBound: real)

  /** `ifnull(x, 0)`. */
  function OrZero(x: Option<real>): real {
    if x.Some? then x.value else 0.0
  }

  /** The days of `days` with at least one person row: the groups of the
      inner query, in the order of `days`. */
  function ActiveDays(persons: seq<PersonRow>, days: seq<Date>): seq<Date> {
    Select(days, d => PeopleOn(persons, d) > 0)
  }

  /** The prediction rows whose `ds` is `d`. */
  function PredictionsOn(predictions: seq<PredictionRow>, d: Date): seq<PredictionRow> {
    if |predictions| == 0 then []
    else (if predictions[0].ds == Some(d) then [predictions[0]] else []) + PredictionsOn(predictions[1..], d)
  }

  /** The left join of day `d`'s group with the predictions: one row per
      prediction of that day, or a single row of zeros when there is none. */
  function JoinDay(persons: seq<PersonRow>, predictions: seq<PredictionRow>, d: Date): seq<TsRow> {
    var people := PeopleOn(persons, d);
    var crashes := |CrashIdsOn(persons, d)|;
    var matches := PredictionsOn(predictions, d);
    if |matches| == 0 then [TsRow(d, people, crashes, 0.0, 0.0, 0.0)]
    else seq(|matches|, i requires 0 <= i < |matches| =>
               TsRow(d, people, crashes, OrZero(matches[i].yhat), OrZero(matches[i].yhatLower), OrZero(matches[i].yhatUpper)))
  }

  /** The joined rows of the days `days`, day after day. */
  function JoinDays(persons: seq<PersonRow>, predictions: seq<PredictionRow>, days: seq<Date>): seq<TsRow> {
    if |days| == 0 then [] else JoinDay(persons, predictions, days[0]) + JoinDays(persons, predictions, days[1..])
  }

  /** `get_collision_ts(client, start_date, end_date)`. */
  function CollisionTs(persons: seq<PersonRow>, predictions: seq<PredictionRow>, start: Date, end: Date): seq<TsRow>
    requires Valid(start) && Valid(end)
  {
    JoinDays(persons, predictions, ActiveDays(persons, DayRange(start, end)))
  }

  /** The prediction rows of day `d` are exactly those whose `ds` is `d`. */
  lemma {:induction false} PredictionsOnMembers(predictions: seq<PredictionRow>, d: Date, p: PredictionRow)
    ensures p in PredictionsOn(predictions, d) <==> p in predictions && p.ds == Some(d)
  {
    if |predictions| > 0 {
      PredictionsOnMembers(predictions[1..], d, p);
      assert predictions == [predictions[0]] + predictions[1..];
    }
  }

  /** No two prediction rows share a `ds`: the table is keyed by date. */
  predicate KeyedByDay(predictions: seq<PredictionRow>) {
    forall i, j :: 0 <= i < j < |predictions| && predictions[i].ds.Some? ==> predictions[i].ds != predictions[j].ds
  }

  lemma {:induction false} KeyedAtMostOne(predictions: seq<PredictionRow>, d: Date)
    requires KeyedByDay(predictions)
    ensures |PredictionsOn(predictions, d)| <= 1
  {
    if |predictions| > 0 {
      var tail := predictions[1..];
      assert KeyedByDay(tail) by {
        forall i, j | 0 <= i < j < |tail| && tail[i].ds.Some?
          ensures tail[i].ds != tail[j].ds
        {
          assert tail[i] == predictions[i + 1] && tail[j] == predictions[j + 1];
        }
      }
      KeyedAtMostOne(tail, d);
      if predictions[0].ds == Some(d) && |PredictionsOn(tail, d)| > 0 {
        var q := PredictionsOn(tail, d)[0];
        PredictionsOnMembers(tail, d, q);
        assert false;
      }
    }
  }

  /** What a time-series row of day `row.crashDate` holds: the person count,
      the distinct crash count, and the forecast of that day, or zeros when
      no forecast exists. */
  predicate RowOfDay(persons: seq<PersonRow>, predictions: seq<PredictionRow>, row: TsRow) {
    var matches := PredictionsOn(predictions, row.crashDate);
    && row.peopleInvolved == PeopleOn(persons, row.crashDate)
    && row.crashes == |CrashIdsOn(persons, row.crashDate)|
    && (|matches| == 0 ==> row.yhat == 0.0 && row.lowerBound == 0.0 && row.upperBound == 0.0)
    && (|matches| > 0 ==>
          exists p :: p in matches &&
            row.yhat == OrZero(p.yhat) && row.lowerBound == OrZero(p.yhatLower) && row.upperBound == OrZero(p.yhatUpper))
  }

  lemma JoinDayRows(persons: seq<PersonRow>, predictions: seq<PredictionRow>, d: Date)
    ensures var rows := JoinDay(persons, predictions, d);
            |rows| > 0 && (|PredictionsOn(predictions, d)| <= 1 ==> |rows| == 1) &&
            forall k :: 0 <= k < |rows| ==> rows[k].crashDate == d && RowOfDay(persons, predictions, rows[k])
  {
    var rows := JoinDay(persons, predictions, d);
    var matches := PredictionsOn(predictions, d);
    forall k | 0 <= k < |rows|
      ensures rows[k].crashDate == d && RowOfDay(persons, predictions, rows[k])
    {
      if |matches| > 0 {
        assert matches[k] in matches;
      }
    }
  }

  /** Every joined row belongs to one of the days and holds that day's
      figures. */
  lemma {:induction false} JoinDaysRows(persons: seq<PersonRow>, predictions: seq<PredictionRow>, days: seq<Date>)
    ensures forall k :: 0 <= k < |JoinDays(persons, predictions, days)| ==>
              JoinDays(persons, predictions, days)[k].crashDate in days &&
              RowOfDay(persons, predictions, JoinDays(persons, predictions, days)[k])
  {
    if |days| > 0 {
      JoinDayRows(persons, predictions, days[0]);
      JoinDaysRows(persons, predictions, days[1..]);
      var head := JoinDay(persons, predictions, days[0]);
      var rest := JoinDays(persons, predictions, days[1..]);
      var rows := head + rest;
      forall k | 0 <= k < |rows|
        ensures rows[k].crashDate in days && RowOfDay(persons, predictions, rows[k])
      {
        if k >= |head| {
          assert rows[k] == rest[k - |head|];
        } else {
          assert rows[k] == head[k];
        }
      }
    }
  }

  /** Every day gets at least one joined row. */
  lemma {:induction false} JoinDaysCover(persons: seq<PersonRow>, predictions: seq<PredictionRow>, days: seq<Date>, d: Date)
    requires d in days
    ensures exists k :: 0 <= k < |JoinDays(persons, predictions, days)| && JoinDays(persons, predictions, days)[k].crashDate == d
  {
    JoinDayRows(persons, predictions, days[0]);
    var head := JoinDay(persons, predictions, days[0]);
    var rows := JoinDays(persons, predictions, days);
    if days[0] == d {
      assert rows[0] == head[0];
    } else {
      JoinDaysCover(persons, predictions, days[1..], d);
      var rest := JoinDays(persons, predictions, days[1..]);
      var k :| 0 <= k < |rest| && rest[k].crashDate == d;
      assert rows[|head| + k] == rest[k];
    }
  }

  /** The groups are the days of the range that have a person row. */
  lemma ActiveDaysMembers(persons: seq<PersonRow>, days: seq<Date>, d: Date)
    ensures d in ActiveDays(persons, days) <==> d in days && PeopleOn(persons, d) > 0
  {
    SelectMembers(days, d => PeopleOn(persons, d) > 0, d);
  }

  /** Dates that never decrease. */
  predicate InDateOrder(rows: seq<TsRow>) {
    forall i, j :: 0 <= i < j < |rows| ==> NotAfter(rows[i].crashDate, rows[j].crashDate)
  }

  lemma {:induction false} JoinDaysOrdered(persons: seq<PersonRow>, predictions: seq<PredictionRow>, days: seq<Date>)
    requires Ascending(days)
    ensures InDateOrder(JoinDays(persons, predictions, days))
  {
    if |days| > 0 {
      var tail := days[1..];
      assert Ascending(tail) by {
        forall i, j | 0 <= i < j < |tail|
          ensures Before(tail[i], tail[j])
        {
          assert tail[i] == days[i + 1] && tail[j] == days[j + 1];
        }
      }
      JoinDaysOrdered(persons, predictions, tail);
      JoinDayRows(persons, predictions, days[0]);
      JoinDaysRows(persons, predictions, tail);
      var head := JoinDay(persons, predictions, days[0]);
      var rest := JoinDays(persons, predictions, tail);
      var rows := head + rest;
      forall i, j | 0 <= i < j < |rows|
        ensures NotAfter(rows[i].crashDate, rows[j].crashDate)
      {
        if j >= |head| {
          assert rows[j] == rest[j - |head|];
          if i < |head| {
            assert rows[i] == head[i];
            assert rest[j - |head|].crashDate in tail;
            var m :| 0 <= m < |tail| && tail[m] == rows[j].crashDate;
            assert days[m + 1] == rows[j].crashDate;
          } else {
            assert rows[i] == rest[i - |head|];
          }
        }
      }
    }
  }

  /** With one forecast per day at most, each day yields exactly one row. */
  lemma {:induction false} JoinDaysOnePerDay(persons: seq<PersonRow>, predictions: seq<PredictionRow>, days: seq<Date>)
    requires KeyedByDay(predictions)
    ensures |JoinDays(persons, predictions, days)| == |days|
    ensures forall k :: 0 <= k < |days| ==> JoinDays(persons, predictions, days)[k].crashDate == days[k]
  {
    if |days| > 0 {
      KeyedAtMostOne(predictions, days[0]);
      JoinDayRows(persons, predictions, days[0]);
      JoinDaysOnePerDay(persons, predictions, days[1..]);
      var rows := JoinDays(persons, predictions, days);
      forall k | 0 <= k < |days|
        ensures rows[k].crashDate == days[k]
      {
        if k > 0 {
          assert rows[k] == JoinDays(persons, predictions, days[1..])[k - 1];
        }
      }
    }
  }

  /** Every time-series row lies in the selected range, has at least one
      person, no more distinct crashes than people, and carries that day's
      forecast or zeros. */
  lemma CollisionTsRows(persons: seq<PersonRow>, predictions: seq<PredictionRow>, start: Date, end: Date)
    requires Valid(start) && Valid(end)
    ensures var rows := CollisionTs(persons, predictions, start, end);
            forall k :: 0 <= k < |rows| ==>
              var d := rows[k].crashDate;
              Valid(d) && NotAfter(start, d) && NotAfter(d, end) &&
              rows[k].peopleInvolved >= 1 && rows[k].crashes <= rows[k].peopleInvolved &&
              RowOfDay(persons, predictions, rows[k])
  {
    var range := DayRange(start, end);
    var days := ActiveDays(persons, range);
    var rows := CollisionTs(persons, predictions, start, end);
    assert rows == JoinDays(persons, predictions, days);
    JoinDaysRows(persons, predictions, days);
    forall k | 0 <= k < |rows|
      ensures var d := rows[k].crashDate;
              Valid(d) && NotAfter(start, d) && NotAfter(d, end) &&
              rows[k].peopleInvolved >= 1 && rows[k].crashes <= rows[k].peopleInvolved
    {
      var d := rows[k].crashDate;
      assert d in days;
      ActiveDaysMembers(persons, range, d);
      DayRangeMembership(start, end, d);
      CrashesAtMostPeople(persons, d);
    }
  }

  /** A date appears in the time series exactly when it lies in the range
      and some person row carries it. */
  lemma CollisionTsDates(persons: seq<PersonRow>, predictions: seq<PredictionRow>, start: Date, end: Date, d: Date)
    requires Valid(start) && Valid(end)
    ensures (exists k :: 0 <= k < |CollisionTs(persons, predictions, start, end)| &&
                         CollisionTs(persons, predictions, start, end)[k].crashDate == d) <==>
            Valid(d) && NotAfter(start, d) && NotAfter(d, end) &&
            exists i :: 0 <= i < |persons| && persons[i].crashDate == Some(d)
  {
    var days := ActiveDays(persons, DayRange(start, end));
    var rows := CollisionTs(persons, predictions, start, end);
    ActiveDaysMembers(persons, DayRange(start, end), d);
    DayRangeMembership(start, end, d);
    PeopleOnPositive(persons, d);
    assert rows == JoinDays(persons, predictions, days);
    JoinDaysRows(persons, predictions, days);
    if d in days {
      JoinDaysCover(persons, predictions, days, d);
    }
    if exists k :: 0 <= k < |rows| && rows[k].crashDate == d {
      var k :| 0 <= k < |rows| && rows[k].crashDate == d;
      assert d in days;
    }
  }

  /** `order by 1 asc`: the rows come in date order; when the predictions
      have one row per day at most, each date comes once and the order is
      strict. */
  lemma CollisionTsOrdered(persons: seq<PersonRow>, predictions: seq<PredictionRow>, start: Date, end: Date)
    requires Valid(start) && Valid(end)
    ensures InDateOrder(CollisionTs(persons, predictions, start, end))
    ensures KeyedByDay(predictions) ==>
              var rows := CollisionTs(persons, predictions, start, end);
              forall i, j :: 0 <= i < j < |rows| ==> Before(rows[i].crashDate, rows[j].crashDate)
  {
    var range := DayRange(start, end);
    DayRangeAscending(start, end);
    assert Ascending(range);
    var days := ActiveDays(persons, range);
    SelectAscending(range, d => PeopleOn(persons, d) > 0);
    JoinDaysOrdered(persons, predictions, days);
    if KeyedByDay(predictions) {
      JoinDaysOnePerDay(persons, predictions, days);
    }
  }

  /** A row of the crashes table, as far as the queries read it. */
  datatype CrashRow = CrashRow(collisionId: Option<int>, crashDate: Option<Date>, crashTime: Option<string>,
                               latitude: Option<real>, longitude: Option<real>,
                               injured: Option<int>, killed: Option<int>)

  /** The filter of the subquery `c`: crashes of day `end` whose latitude is
      neither null nor 0. */
  predicate OnMap(c: CrashRow, end: Date) {
    c.crashDate == Some(end) && c.latitude.Some? && c.latitude.value != 0.0
  }

  function MappedCrashes(crashes: seq<CrashRow>, end: Date): seq<CrashRow> {
    if |crashes| == 0 then []
    else (if OnMap(crashes[0], end) then [crashes[0]] else []) + MappedCrashes(crashes[1..], end)
  }

  /** The subquery keeps exactly the crashes that pass its filter. */
  lemma {:induction false} MappedCrashesMembers(crashes: seq<CrashRow>, end: Date, c: CrashRow)
    ensures c in MappedCrashes(crashes, end) <==> c in crashes && OnMap(c, end)
  {
    if |crashes| > 0 {
      MappedCrashesMembers(crashes[1..], end, c);
      assert crashes == [crashes[0]] + crashes[1..];
    }
  }

  /** One group of the subquery `p`: a `collision_id`, possibly null, and
      its `count(*)`. */
  datatype Group = Group(collisionId: Option<int>, people: nat)

  function Keys(groups: seq<Group>): set<Option<int>> {
    if |groups| == 0 then {} else {groups[0].collisionId} + Keys(groups[1..])
  }

  /** `group by` yields one group per key. */
  predicate DistinctKeys(groups: seq<Group>) {
    |groups| == 0 || (groups[0].collisionId !in Keys(groups[1..]) && DistinctKeys(groups[1..]))
  }

  /** The count of key `id`'s group, 0 when it has none. */
  function GroupPeople(groups: seq<Group>, id: Option<int>): nat {
    if |groups| == 0 then 0
    else if groups[0].collisionId == id then groups[0].people
    else GroupPeople(groups[1..], id)
  }

  /** Counts one more person row of key `id`: its group grows, or a new
      group is opened at the end. */
  function Bump(groups: seq<Group>, id: Option<int>): seq<Group> {
    if |groups| == 0 then [Group(id, 1)]
    else if groups[0].collisionId == id then [Group(id, groups[0].people + 1)] + groups[1..]
    else [groups[0]] + Bump(groups[1..], id)
  }

  lemma {:induction false} BumpKeys(groups: seq<Group>, id: Option<int>)
    ensures Keys(Bump(groups, id)) == Keys(groups) + {id}
  {
    if |groups| > 0 && groups[0].collisionId != id {
      BumpKeys(groups[1..], id);
    }
  }

  lemma {:induction false} BumpCounts(groups: seq<Group>, id: Option<int>, key: Option<int>)
    requires DistinctKeys(groups)
    ensures DistinctKeys(Bump(groups, id))
    ensures GroupPeople(Bump(groups, id), key) == GroupPeople(groups, key) + (if key == id then 1 else 0)
  {
    if |groups| > 0 {
      if groups[0].collisionId == id {
        assert Bump(groups, id)[1..] == groups[1..];
      } else {
        BumpCounts(groups[1..], id, key);
        BumpKeys(groups[1..], id);
        assert Bump(groups, id)[1..] == Bump(groups[1..], id);
      }
    }
  }

  /** The person rows of day `end` with key `id`. */
  function PersonsOf(persons: seq<PersonRow>, end: Date, id: Option<int>): nat {
    if |persons| == 0 then 0
    else
      var p := persons[|persons| - 1];
      PersonsOf(persons[..|persons| - 1], end, id) + (if p.crashDate == Some(end) && p.collisionId == id then 1 else 0)
  }

  /** `select collision_id, count(*) ... where crash_date = end group by 1`,
      groups in the order their keys first appear. */
  function GroupByCollision(persons: seq<PersonRow>, end: Date): seq<Group> {
    if |persons| == 0 then []
    else
      var groups := GroupByCollision(persons[..|persons| - 1], end);
      var p := persons[|persons| - 1];
      if p.crashDate == Some(end) then Bump(groups, p.collisionId) else groups
  }

  /** The grouping has one group per key, counting that key's person rows
      of the day. */
  lemma {:induction false} GroupByCollisionCounts(persons: seq<PersonRow>, end: Date, id: Option<int>)
    ensures DistinctKeys(GroupByCollision(persons, end))
    ensures GroupPeople(GroupByCollision(persons, end), id) == PersonsOf(persons, end, id)
  {
    if |persons| > 0 {
      var init := persons[..|persons| - 1];
      var p := persons[|persons| - 1];
      GroupByCollisionCounts(init, end, id);
      if p.crashDate == Some(end) {
        BumpCounts(GroupByCollision(init, end), p.collisionId, id);
      }
    }
  }

  /** The groups the join condition `c.collision_id = p.collision_id`
      pairs with key `id`; a null key equals nothing. */
  function Partners(groups: seq<Group>, id: Option<int>): seq<Group> {
    if |groups| == 0 then []
    else (if id.Some? && groups[0].collisionId == id then [groups[0]] else []) + Partners(groups[1..], id)
  }

  lemma {:induction false} PartnersOfKey(groups: seq<Group>, id: Option<int>)
    requires DistinctKeys(groups)
    ensures |Partners(groups, id)| <= 1
    ensures |Partners(groups, id)| == 1 ==> Partners(groups, id)[0].people == GroupPeople(groups, id)
    ensures |Partners(groups, id)| == 0 ==> id.None? || GroupPeople(groups, id) == 0
    ensures id.None? ==> Partners(groups, id) == []
  {
    if |groups| > 0 {
      PartnersOfKey(groups[1..], id);
      if id.Some? && groups[0].collisionId == id {
        PartnersAbsent(groups[1..], id);
        assert Partners(groups, id) == [groups[0]];
      } else {
        assert Partners(groups, id) == Partners(groups[1..], id);
      }
    }
  }

  lemma {:induction false} PartnersAbsent(groups: seq<Group>, id: Option<int>)
    requires id !in Keys(groups)
    ensures Partners(groups, id) == [] && GroupPeople(groups, id) == 0
  {
    if |groups| > 0 {
      PartnersAbsent(groups[1..], id);
    }
  }

  /** A row of `get_collision_data`. */
  datatype MapRow = MapRow(collisionId: Option<int>, crashTime: Option<string>,
                           latitude: Option<real>, longitude: Option<real>,
                           peopleInvolved: nat, injured: Option<int>, killed: Option<int>,
                           personInjury: Injury)

  /** The left join of one crash with the groups: a row per partner group,
      or one row with `ifnull(people_involved, 0)` when there is none. */
  function JoinCrash(c: CrashRow, groups: seq<Group>): seq<MapRow> {
    var partners := Partners(groups, c.collisionId);
    var injury := Classify(c.injured, c.killed);
    if |partners| == 0 then [MapRow(c.collisionId, c.crashTime, c.latitude, c.longitude, 0, c.injured, c.killed, injury)]
    else seq(|partners|, i requires 0 <= i < |partners| =>
               MapRow(c.collisionId, c.crashTime, c.latitude, c.longitude, partners[i].people, c.injured, c.killed, injury))
  }

  function JoinCrashes(crashes: seq<CrashRow>, groups: seq<Group>): seq<MapRow> {
    if |crashes| == 0 then [] else JoinCrash(crashes[0], groups) + JoinCrashes(crashes[1..], groups)
  }

  /** `get_collision_data(client, end_date)`. The query has no `order by`;
      the rows are given in the order of the crashes table. */
  function CollisionData(crashes: seq<CrashRow>, persons: seq<PersonRow>, end: Date): seq<MapRow> {
    JoinCrashes(MappedCrashes(crashes, end), GroupByCollision(persons, end))
  }

  /** The map row a crash is meant to give: its own columns, the number of
      person rows of that day naming it (0 for a null id), and its label. */
  function ExpectedMapRow(c: CrashRow, persons: seq<PersonRow>, end: Date): MapRow {
    var people := if c.collisionId.Some? then PersonsOf(persons, end, c.collisionId) else 0;
    MapRow(c.collisionId, c.crashTime, c.latitude, c.longitude, people, c.injured, c.killed, Classify(c.injured, c.killed))
  }

  /** Joined with the grouped person rows, a crash gives exactly its
      expected row. */
  lemma JoinCrashExpected(c: CrashRow, persons: seq<PersonRow>, end: Date)
    ensures JoinCrash(c, GroupByCollision(persons, end)) == [ExpectedMapRow(c, persons, end)]
  {
    var groups := GroupByCollision(persons, end);
    GroupByCollisionCounts(persons, end, c.collisionId);
    PartnersOfKey(groups, c.collisionId);
    var one := JoinCrash(c, groups);
    assert |one| == 1 && one[0] == ExpectedMapRow(c, persons, end);
  }

  lemma {:induction false} JoinCrashesOnePerCrash(crashes: seq<CrashRow>, persons: seq<PersonRow>, end: Date)
    ensures |JoinCrashes(crashes, GroupByCollision(persons, end))| == |crashes|
    ensures forall k :: 0 <= k < |crashes| ==>
              JoinCrashes(crashes, GroupByCollision(persons, end))[k] == ExpectedMapRow(crashes[k], persons, end)
  {
    if |crashes| > 0 {
      var groups := GroupByCollision(persons, end);
      JoinCrashExpected(crashes[0], persons, end);
      JoinCrashesOnePerCrash(crashes[1..], persons, end);
      var rows := JoinCrashes(crashes, groups);
      forall k | 0 <= k < |crashes|
        ensures rows[k] == ExpectedMapRow(crashes[k], persons, end)
      {
        if k > 0 {
          assert rows[k] == JoinCrashes(crashes[1..], groups)[k - 1];
        }
      }
    }
  }

  /** The map shows each crash of the day that has a non-zero latitude
      exactly once, with the number of people recorded for it (0 when none
      is) and its injury label. */
  lemma CollisionDataRows(crashes: seq<CrashRow>, persons: seq<PersonRow>, end: Date)
    ensures |CollisionData(crashes, persons, end)| == |MappedCrashes(crashes, end)|
    ensures forall k :: 0 <= k < |MappedCrashes(crashes, end)| ==>
              CollisionData(crashes, persons, end)[k] == ExpectedMapRow(MappedCrashes(crashes, end)[k], persons, end)
    ensures forall k :: 0 <= k < |CollisionData(crashes, persons, end)| ==>
              CollisionData(crashes, persons, end)[k].latitude.Some? &&
              CollisionData(crashes, persons, end)[k].latitude.value != 0.0
  {
    var mapped := MappedCrashes(crashes, end);
    JoinCrashesOnePerCrash(mapped, persons, end);
    forall k | 0 <= k < |mapped|
      ensures OnMap(mapped[k], end)
    {
      MappedCrashesMembers(crashes, end, mapped[k]);
    }
  }

  /** A row of `get_most_recent_day`; `round` is not modelled. */
  datatype RecentRow = RecentRow(crashes: Option<int>, yhat: Option<real>, delta: Option<real>)

  /** The non-null `collision_id`s of the crash rows of day `d`. */
  function CrashTableIdsOn(crashes: seq<CrashRow>, d: Date): set<int> {
    if |crashes| == 0 then {}
    else
      var c := crashes[0];
      (if c.crashDate == Some(d) && c.collisionId.Some? then {c.collisionId.value} else {}) +
      CrashTableIdsOn(crashes[1..], d)
  }

  /** Whether the crashes table has a row of day `d`, so that the subquery
      `c` has a group. */
  function HasCrashOn(crashes: seq<CrashRow>, d: Date): bool {
    |crashes| > 0 && (crashes[0].crashDate == Some(d) || HasCrashOn(crashes[1..], d))
  }

  /** The subquery `c` joined on `p.ds = c.crash_date`: its count when the
      day has a group, NULL otherwise. */
  function CrashCountOn(crashes: seq<CrashRow>, d: Date): Option<int> {
    if HasCrashOn(crashes, d) then Some(|CrashTableIdsOn(crashes, d)|) else None
  }

  /** `crashes - yhat`, NULL when either side is. */
  function Minus(a: Option<int>, b: Option<real>): Option<real> {
    if a.Some? && b.Some? then Some(a.value as real - b.value) else None
  }

  /** `get_most_recent_day(client, end_date)`: one row per forecast of
      `end`, with that day's distinct crash count from the crashes table. */
  function MostRecentDay(predictions: seq<PredictionRow>, crashes: seq<CrashRow>, end: Date): seq<RecentRow> {
    var forecasts := PredictionsOn(predictions, end);
    var count := CrashCountOn(crashes, end);
    seq(|forecasts|, i requires 0 <= i < |forecasts| =>
          RecentRow(count, forecasts[i].yhat, Minus(count, forecasts[i].yhat)))
  }

  lemma {:induction false} HasCrashOnExists(crashes: seq<CrashRow>, d: Date)
    ensures HasCrashOn(crashes, d) <==> exists j :: 0 <= j < |crashes| && crashes[j].crashDate == Some(d)
  {
    if |crashes| > 0 {
      HasCrashOnExists(crashes[1..], d);
      if exists j :: 0 <= j < |crashes| && crashes[j].crashDate == Some(d) {
        var j :| 0 <= j < |crashes| && crashes[j].crashDate == Some(d);
        if j > 0 {
          assert crashes[1..][j - 1] == crashes[j];
        }
      }
    }
  }

  lemma {:induction false} CrashTableIdsMembers(crashes: seq<CrashRow>, d: Date, x: int)
    ensures x in CrashTableIdsOn(crashes, d) <==>
              exists j :: 0 <= j < |crashes| && crashes[j].crashDate == Some(d) && crashes[j].collisionId == Some(x)
  {
    if |crashes| > 0 {
      CrashTableIdsMembers(crashes[1..], d, x);
      if exists j :: 0 <= j < |crashes| && crashes[j].crashDate == Some(d) && crashes[j].collisionId == Some(x) {
        var j :| 0 <= j < |crashes| && crashes[j].crashDate == Some(d) && crashes[j].collisionId == Some(x);
        if j > 0 {
          assert crashes[1..][j - 1] == crashes[j];
        }
      }
    }
  }

  /** The headline figures: one row per forecast of the day (at most one
      when the predictions are keyed by day); the actual count is present
      exactly when the crashes table has a row that day, and the delta
      exactly when both figures are. */
  lemma MostRecentDayRows(predictions: seq<PredictionRow>, crashes: seq<CrashRow>, end: Date)
    ensures var rows := MostRecentDay(predictions, crashes, end);
            |rows| == |PredictionsOn(predictions, end)| &&
            (KeyedByDay(predictions) ==> |rows| <= 1)
    ensures forall k :: 0 <= k < |MostRecentDay(predictions, crashes, end)| ==>
              var row := MostRecentDay(predictions, crashes, end)[k];
              row.yhat == PredictionsOn(predictions, end)[k].yhat &&
              (row.crashes.Some? <==> exists j :: 0 <= j < |crashes| && crashes[j].crashDate == Some(end)) &&
              (row.crashes.Some? ==> row.crashes.value == |CrashTableIdsOn(crashes, end)|) &&
              (row.delta.Some? <==> row.crashes.Some? && row.yhat.Some?) &&
              (row.delta.Some? ==> row.delta.value == row.crashes.value as real - row.yhat.value)
  {
    HasCrashOnExists(crashes, end);
    if KeyedByDay(predictions) {
      KeyedAtMostOne(predictions, end);
    }
  }

  /** The sidebar's default end date, 60 days before `today`; None where
      Python would overflow below year 1, which no date from year 2 on does. */
  function DefaultEnd(today: Date): (r: Option<Date>)
    requires Valid(today)
    ensures r.Some? <==> 60 <= Ordinal(today)
    ensures today.year > MinYear ==> r.Some?
    ensures r.Some? ==> Valid(r.value) && DaysAfter(r.value, 60) == Some(today)
  {
    DaysBefore(today, 60)
  }

  /** The default end date is the one date 60 days before `today`. */
  lemma DefaultEndExact(today: Date, e: Date)
    requires Valid(today) && Valid(e)
    ensures DaysAfter(e, 60) == Some(today) ==> DefaultEnd(today) == Some(e)
  {
    if DaysAfter(e, 60) == Some(today) {
      DaysBeforeExact(today, 60, e);
    }
  }

  const RangeError := "Error: End date must fall after start date."

  /** The tables the dashboard reads. */
  datatype Tables = Tables(persons: seq<PersonRow>, crashes: seq<CrashRow>, predictions: seq<PredictionRow>)

  /** What `main()` shows. A data page carries the three query results and
      the "Actual" metric, `int(last_day['crashes'][0])`. */
  datatype Page =
    | ErrorPage(message: string)
    | Aborted(error: PyError)
    | DataPage(recent: seq<RecentRow>, actual: int, series: seq<TsRow>, mapRows: seq<MapRow>)

  /** `main()` after the two date inputs: a start after the end shows the
      error and runs no query; equal dates are a valid one-day range.
      Otherwise the metrics read row 0 of the most-recent-day frame: an empty
      frame raises KeyError(0), and a NULL `crashes` or `yhat` makes `int()`
      raise ValueError, before either of the other two queries is shown. */
  function ShowDashboard(start: Date, end: Date, tables: Tables): (page: Page)
    requires Valid(start) && Valid(end)
    ensures page.ErrorPage? <==> Before(end, start)
    ensures page.ErrorPage? ==> page.message == RangeError
    ensures page.Aborted? <==>
              !Before(end, start) &&
              (PredictionsOn(tables.predictions, end) == [] ||
               (forall j :: 0 <= j < |tables.crashes| ==> tables.crashes[j].crashDate != Some(end)) ||
               PredictionsOn(tables.predictions, end)[0].yhat.None?)
    ensures page.Aborted? ==>
              page.error == if PredictionsOn(tables.predictions, end) == [] then KeyError("0")
                            else ValueError("nan")
    ensures page.DataPage? ==>
              page.recent == MostRecentDay(tables.predictions, tables.crashes, end) &&
              page.actual == |CrashTableIdsOn(tables.crashes, end)| &&
              page.series == CollisionTs(tables.persons, tables.predictions, start, end) &&
              page.mapRows == CollisionData(tables.crashes, tables.persons, end)
  {
    if Before(end, start) then ErrorPage(RangeError)
    else
      var recent := MostRecentDay(tables.predictions, tables.crashes, end);
      MostRecentDayRows(tables.predictions, tables.crashes, end);
      if |recent| == 0 then Aborted(KeyError("0"))
      else if recent[0].crashes.None? || recent[0].yhat.None? then Aborted(ValueError("nan"))
      else DataPage(recent, recent[0].crashes.value,
                    CollisionTs(tables.persons, tables.predictions, start, end),
                    CollisionData(tables.crashes, tables.persons, end))
  }

  /** A one-day range passes the date guard, and any series it shows holds
      only that day. */
  lemma OneDayRange(d: Date, tables: Tables)
    requires Valid(d)
    ensures !ShowDashboard(d, d, tables).ErrorPage?
    ensures ShowDashboard(d, d, tables).DataPage? ==>
              forall k :: 0 <= k < |ShowDashboard(d, d, tables).series| ==>
                ShowDashboard(d, d, tables).series[k].crashDate == d
  {
    CollisionTsRows(tables.persons, tables.predictions, d, d);
  }
}
