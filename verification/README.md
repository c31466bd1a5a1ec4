# NYC motor-vehicle collisions: ingestion, dashboard queries and training pipeline

A Dafny model of the core of `mvc`. That core has four parts:

- a range back-filler that copies one day at a time of NYC open-data collision records into a BigQuery table;
- a daily HTTP-triggered fetcher that does the same for the day six days back;
- the three SQL queries behind the Streamlit dashboard;
- the two-step Kubeflow pipeline that trains a Prophet model on daily crash counts and writes its one-day-ahead forecast.

The modules follow the program:

- `Results` (results.dfy): `Option`, `Result` and the Python exceptions the code can raise.
- `Calendar` (calendar.dfy): `datetime.date` as the code uses it.
  - Valid dates run from 0001-01-01 to 9999-12-31.
  - `Ordinal` numbers the days from 0001-01-01, as `toordinal() - 1` does.
  - It covers `+ timedelta(days=1)` and `- timedelta(days=n)`, with overflow as `None`.
  - It covers the `while start <= end` day enumeration `DayRange`.
- `DateText` (datetext.dfy): `strftime('%Y-%m-%d')`, and `strptime` for `%Y-%m-%d` and `%Y-%m-%dT%H:%M:%S.%f`.
  - The numeric fields are lenient, as Python's regular expressions for them are. `%Y` takes exactly four digits. Month, day, hour, minute and second each take their one- or two-digit spellings. `%d` also takes a space followed by a digit. `%f` takes one to six digits. The `T` matches in either case.
  - `ValidateDate` is the argparse type of the back-filler.
- `Coercion` (coercion.dfy): the record loop both scripts share.
  - Every schema column is looked up with `record.get`, so a missing key gives null and extra keys are dropped.
  - A truthy value in a `DATE` column is re-parsed from the API timestamp and re-formatted as `YYYY-MM-DD`.
  - A failure raises, and that aborts the whole batch.
- `Ingest` (ingest.dfy): `insert_data`, the back-fill loop of `main`, and `fetch_and_store`.
  - The HTTP GET and the BigQuery insert are function parameters. Each run returns the list of calls it made.
  - `Transfer` is the fetch, coerce and insert step the two scripts have in common.
  - `RunOver` is a functional reference for the back-fill loop. The `RunDays` method is proved equal to it.
- `Dashboard` (dashboard.dfy): the three queries of `app/app.py` as functions over in-memory tables.
  - SQL three-valued logic applies in the `CASE`.
  - The `left join` semantics include duplicate keys.
  - `count(distinct ...)` ignores nulls.
  - Also modelled: the default end date, and the start-after-end guard of `main`.
- `Training` (training.dfy): the model and prediction paths, the training query, the blob store as a map from path to blob, the `tail(1)` projection of the forecast, and the pipeline's cutoff date `today - 61 days`.

Behaviour of the code that a reader might not expect:

- A malformed `DATE` value raises and aborts the batch; no single record is dropped.
- The delete-before-insert step is commented out.
- A per-day fetch or insert failure is returned by `insert_data` as a string. `main` ignores that string, so the loop goes on and `main` still reports success.
- `crashes <= people_involved` does hold in the time-series query. Both counts are over the same `person` rows, and `count(distinct collision_id)` skips nulls (`Dashboard.CrashesAtMostPeople`).
- The model file is `model_{dt}.pickle`.

## Model

| member | source | states |
|---|---|---|
| Calendar.NextDay | bin/backfill.py:83 | `start_date + timedelta(days=1)` is a valid date strictly after the input, and no valid date lies strictly between the two |
| Calendar.PrevDay | bin/fetch_and_store.py:22 | one day back from a date other than 0001-01-01 is valid, and stepping forward from it gives the date back |
| Calendar.DayRange | bin/backfill.py:73-83 | the dates the loop visits: empty exactly when end is before start; otherwise it starts at start, ends at end, every date lies in the inclusive range, and each date is the day after the previous one |
| Calendar.DayRangeAscending | bin/backfill.py:73-83 | the loop visits dates in strictly ascending order, so no day twice |
| Calendar.DayRangeComplete | bin/backfill.py:73 | every valid date between start and end is visited |
| Calendar.DayRangeMembership | bin/backfill.py:73 | a date is visited if and only if it is valid and `start <= d <= end` |
| Calendar.DayRangeCons | bin/backfill.py:73-83 | one loop iteration: the range is its start followed by the range from the next day |
| Calendar.OrdinalOfPrev | bin/fetch_and_store.py:22 | stepping one day back lowers the day number by exactly one, across month and year ends |
| Calendar.OrdinalZero | bin/fetch_and_store.py:22 | 0001-01-01 is the only date with day number 0, so the only date with no day before it |
| Calendar.DaysBefore | app/app.py:112 | `today - timedelta(days=n)` is defined exactly when today's day number is at least n, and is then the valid date whose day number is n less, from which n days forward is today |
| Calendar.DaysBeforeExact | app/app.py:112 | any date from which n days forward reaches d is the date n days before d |
| Calendar.SelectMembers | app/app.py:51-56 | the dates a `group by` keeps are exactly the candidate dates that pass the filter |
| Calendar.SelectAscending | train/train_pipeline.py:33-34 | filtering an ascending date list keeps it ascending (`order by 1 asc`) |
| DateText.FormatDate | bin/backfill.py:74 | `strftime('%Y-%m-%d')` is ten characters with dashes at positions 4 and 7 |
| DateText.Pad2Value | bin/backfill.py:74 | the two-digit zero-padded field reads back as its number |
| DateText.Pad4Value | bin/backfill.py:74 | the four-digit zero-padded year reads back as its number |
| DateText.TwoDigits | bin/backfill.py:11 | any two ASCII digits are the padded form of their value |
| DateText.FourDigits | bin/backfill.py:11 | any four ASCII digits are the padded form of their value |
| DateText.NumeralValueAppend | bin/backfill.py:11 | the value of concatenated digit strings is the first part shifted by the length of the second, plus the second |
| DateText.IndexOfAnyJoin | bin/backfill.py:44 | the first separator of `a + [c] + b` is the `c` after a separator-free `a` |
| DateText.FieldsOfJoined | bin/backfill.py:44 | splitting text built from separator-free fields gives those fields back |
| DateText.JoinedOfFields | bin/backfill.py:44 | joining the fields of a successful split with its single-character separators rebuilds the text |
| DateText.FieldsAvoid | bin/backfill.py:44 | each field of a successful split contains none of the separators that ends it |
| DateText.ParseDate | bin/backfill.py:11 | `strptime(s, '%Y-%m-%d')` yields only valid dates |
| DateText.ParseDateSpells | bin/backfill.py:11 | the text parses to d if and only if d is valid and the text is a four-digit year, a dash, a month spelling and a day spelling of d |
| DateText.ParsedFields | bin/backfill.py:11 | a parsed text is the padded year, a dash, an accepted month spelling, a dash and an accepted day spelling |
| DateText.ParseSpelling | bin/backfill.py:11 | every accepted spelling of a valid date parses to that date |
| DateText.ValidateDate | bin/backfill.py:9-13 | succeeds exactly when the text parses, with the parsed date; otherwise raises `ArgumentTypeError("Not a valid date: '<s>'.")` |
| DateText.ValidateFormatted | bin/backfill.py:9-13 | `validate_date(d.strftime('%Y-%m-%d'))` is d for every valid date |
| DateText.CanonicalRoundTrip | bin/backfill.py:11 | a ten-character date text with no space that parses formats back to itself |
| DateText.RejectsImpossibleDay | bin/backfill.py:12-13 | a well-formed text naming an impossible day (like Feb 30) raises `ArgumentTypeError` with the text in the message |
| DateText.ParseTimestamp | bin/backfill.py:44 | `strptime(v, '%Y-%m-%dT%H:%M:%S.%f')` yields a valid date and an in-range time |
| DateText.ParseCanonicalTimestamp | bin/backfill.py:44 | the API's canonical timestamp text parses back to its date, time and microseconds |
| DateText.CanonicalTimestampPrefix | bin/backfill.py:44 | the first ten characters of a canonical timestamp are the `%Y-%m-%d` form of its date |
| DateText.TimestampDatePart | bin/backfill.py:44 | the text before the `T` of a parsed timestamp parses as a `%Y-%m-%d` date, the timestamp's date |
| Coercion.CoerceValue | bin/backfill.py:42-45 | non-DATE or falsy values pass unchanged; a truthy non-string in a DATE column raises TypeError; a non-empty string succeeds exactly when it parses as a timestamp and becomes its date's `%Y-%m-%d` text, otherwise it raises ValueError |
| Coercion.DateColumnKeepsDatePart | bin/backfill.py:43-44 | a coerced DATE value is the same date as the text before the `T`, and it validates |
| Coercion.DateColumnCanonical | bin/fetch_and_store.py:46-47 | a canonical API timestamp is coerced to its first ten characters |
| Coercion.CoerceRecord | bin/backfill.py:40-45 | the formatted record has exactly the schema's column names as keys |
| Coercion.RecordOkIffColumnsOk | bin/backfill.py:41-45 | a record is formatted exactly when every one of its columns coerces |
| Coercion.RecordValues | bin/backfill.py:41-45 | each column of the formatted record holds that column's coerced value |
| Coercion.RecordFirstFailure | bin/backfill.py:41-44 | a failing record raises the error of its first failing column, and every earlier column coerced |
| Coercion.RecordStopsAt | bin/backfill.py:41-44 | when the columns before k coerce and column k fails, the record raises column k's error |
| Coercion.UntouchedColumns | bin/backfill.py:42-45 | a non-DATE or falsy value is copied as is, and a key missing from the record becomes null |
| Coercion.ExtraFieldsDropped | bin/backfill.py:41-42 | records that agree on the schema's columns format identically, so fields outside the schema have no effect |
| Coercion.CoerceBatch | bin/backfill.py:38-46 | the batch succeeds exactly when every record does, with one formatted row per record in order |
| Coercion.BatchFirstFailure | bin/backfill.py:39-46 | a failing batch raises the first failing record's error, and every earlier record formats |
| Coercion.BatchStopsAt | bin/backfill.py:39-44 | when the records before i format and record i fails, the batch raises record i's error |
| Coercion.FormatRecord | bin/fetch_and_store.py:43-48 | the imperative column loop computes the formatted record, keyed by the schema's names |
| Coercion.FormatRecords | bin/fetch_and_store.py:41-49 | the imperative record loop computes the formatted batch, one row per record, each keyed by the schema's names |
| Ingest.NatText | bin/backfill.py:34 | the decimal text of a status code is a digit string without a leading zero that reads back as the number |
| Ingest.NatTextUnique | bin/backfill.py:34 | every digit string without a leading zero is the decimal text of its value |
| Ingest.Endpoint | bin/backfill.py:25-29 | `crashes` maps to `h9gi-nx95` and `person` to `f55k-p6yu`; any other table raises KeyError |
| Ingest.BackfillUrl | bin/backfill.py:31 | definition of the back-fill request URL; its properties are stated by `BackfillUrlDataset`, `BackfillUrlNamesDay` and `BackfillUrlInjective` |
| Ingest.BackfillUrlDataset | bin/backfill.py:31 | the back-fill request URL names the dataset it was built for, right after the API base |
| Ingest.BackfillTablesApart | bin/backfill.py:25-31 | a `crashes` step and a `person` step never make the same request, whatever their days; the daily request goes to the person dataset |
| Ingest.BackfillUrlNamesDay | bin/backfill.py:31 | the day can be read back out of the back-fill request URL |
| Ingest.BackfillUrlInjective | bin/backfill.py:31 | different days give different back-fill URLs |
| Ingest.DailyUrl | bin/fetch_and_store.py:23 | definition of the daily request URL; its properties are stated by `DailyUrlNamesDay` and `BackfillTablesApart` |
| Ingest.DailyUrlNamesDay | bin/fetch_and_store.py:23 | the day can be read back out of the daily request URL |
| Ingest.Transfer | bin/backfill.py:32-49 | one GET, then an insert only on status 200; a non-200 status returns "Error fetching data" with code and body; a body that is not a list of records raises a decode error and a record that does not coerce raises its error, both after the GET alone; a 200 response whose records all coerce is followed by the insert of exactly the coerced records into the target; an empty error list means success with the row count, otherwise the errors are returned |
| Ingest.TransferFetchesOnce | bin/backfill.py:32 | a day's step issues exactly one GET, first, to its URL |
| Ingest.TransferInsertsCoercedRows | bin/backfill.py:38-49 | a step inserts exactly when the response is a 200 whose records all coerce; any insert carries exactly the coerced records to the target table; the step succeeds exactly when the insert reports no errors |
| Ingest.InsertData | bin/backfill.py:24-50 | an unknown table raises KeyError before any call; otherwise the step is the transfer from the table's endpoint URL to the table |
| Ingest.InsertDataNamesDay | bin/backfill.py:25-32 | the GET of a day's step names that day and the table's own dataset, and its insert goes to the requested table |
| Ingest.RunOver | bin/backfill.py:73-85 | definition of the back-fill loop as a function of the days and the per-day step; its properties are stated by `RunOverVisitsPrefix`, `RunOverSucceeds`, `RunOverFails`, `RunOverContinues` and `RunOverStops`, and `RunDays` is proved equal to it |
| Ingest.RunOverVisitsPrefix | bin/backfill.py:73-85 | the loop visits a prefix of the range, at least one day when the range is not empty, and its calls are those of the visited days in order |
| Ingest.RunOverSucceeds | bin/backfill.py:73-85 | the loop completes exactly when no day raises and the range does not reach 9999-12-31; it then visits the whole range and returns "Data successfully written to BQ" |
| Ingest.RunOverFails | bin/backfill.py:73-85 | when the loop raises, the last visited day raised it, or it is 9999-12-31 and stepping past it raised OverflowError; every earlier day completed |
| Ingest.RunOverContinues | bin/backfill.py:80-83 | a day that completes and is not the last date hands over to the next day |
| Ingest.RunOverStops | bin/backfill.py:80-83 | a day that raises, or the last date, ends the loop with that error |
| Ingest.RunDays | bin/backfill.py:73-85 | the imperative while loop computes exactly the reference run over `DayRange(start, end)` |
| Ingest.Backfill | bin/backfill.py:53-85 | `main` is the loop over the range with `insert_data` of each day's `%Y-%m-%d` text as the step |
| Ingest.BackfillCoversRange | bin/backfill.py:73-85 | over a date range the run visits a prefix of the dates, and succeeds exactly when no day raises and the range does not pass 9999-12-31, in which case it visits them all |
| Ingest.BackfillEmptyRange | bin/backfill.py:73 | a start after the end makes no call and reports success |
| Ingest.BackfillUnknownTable | bin/backfill.py:29 | an unknown table raises KeyError on the first day with no call made |
| Ingest.FetchAndStore | bin/fetch_and_store.py:10-54 | a non-POST request is answered `('Invalid request method', 405)` with no call; any other answer has status 200 and follows at least one call |
| Ingest.DailyIsTransfer | bin/fetch_and_store.py:22-54 | a POST is the shared fetch/coerce/insert step from the daily URL to the `collisions` table, its text as the reply |
| Ingest.DailyRequestsSixDaysAgo | bin/fetch_and_store.py:22-24 | the only GET names the date six days before today |
| Ingest.DailyInsertsCoercedRows | bin/fetch_and_store.py:41-53 | any insert follows a 200 GET and carries the coerced records to `collisions`; an accepted POST whose 200 response coerces is followed by exactly that insert; the reply is the success text exactly when the insert reports no errors |
| Ingest.DailyRaises | bin/fetch_and_store.py:27-41 | after an accepted POST, a body that is not a list of records raises a decode error and a record that does not coerce raises its error, in both cases after the GET alone |
| Ingest.DailyFetchFailure | bin/fetch_and_store.py:24-26 | a non-200 status is answered with the "Error fetching data" text after exactly one call, and only then |
| Ingest.SharedCoercion | bin/fetch_and_store.py:41-49 | given the same JSON, the back-filler and the daily fetcher insert the same rows |
| Dashboard.Classify | app/app.py:76-81 | definition of the `person_injury` `CASE` under three-valued logic; its properties are stated by `ClassifyCases` |
| Dashboard.ClassifyCases | app/app.py:76-81 | the `person_injury` text is 'Injury', 'Injury+Death' or 'Death' exactly under its `when` condition, null counts fall to 'Unspecified', and for non-negative counts 'Unspecified' means both are zero |
| Dashboard.PeopleOnPositive | app/app.py:52 | `count(*)` for a day is positive exactly when some person row has that date |
| Dashboard.CrashIdsOnMembers | app/app.py:53 | the ids counted by `count(distinct collision_id)` are exactly the non-null ids of that day's person rows |
| Dashboard.CrashesAtMostPeople | app/app.py:52-53 | a day's distinct collision count never exceeds its person count |
| Dashboard.PredictionsOnMembers | app/app.py:58-62 | the predictions joined to a day are exactly the prediction rows whose `ds` is that day |
| Dashboard.KeyedAtMostOne | app/app.py:58-62 | with at most one prediction per `ds`, a day joins at most one prediction |
| Dashboard.JoinDayRows | app/app.py:43-62 | a left join keeps each day with at least one row, exactly one when it matches at most one prediction, each carrying the day's counts and either a matching prediction or zeros |
| Dashboard.JoinDaysRows | app/app.py:43-62 | every joined row belongs to one of the grouped days and is a correct row for its day |
| Dashboard.JoinDaysCover | app/app.py:58-62 | every grouped day appears in the joined output |
| Dashboard.ActiveDaysMembers | app/app.py:51-56 | the grouped days are exactly the days of the range with at least one person row |
| Dashboard.JoinDaysOrdered | app/app.py:63 | the joined rows are in non-decreasing date order |
| Dashboard.JoinDaysOnePerDay | app/app.py:58-62 | with one prediction per `ds`, the join has exactly one row per grouped day, in the same order |
| Dashboard.CollisionTs | app/app.py:39-66 | definition of the time-series query; its properties are stated by `CollisionTsRows`, `CollisionTsDates` and `CollisionTsOrdered` |
| Dashboard.CollisionTsRows | app/app.py:39-66 | every time-series row is a date in `[start, end]` with at least one person, crashes at most people, and the day's counts and prediction columns |
| Dashboard.CollisionTsDates | app/app.py:51-57 | a date appears in the series exactly when it is in `[start, end]` and some person row has it |
| Dashboard.CollisionTsOrdered | app/app.py:63 | the series is sorted by date, strictly when predictions are keyed by day |
| Dashboard.MappedCrashesMembers | app/app.py:83-90 | the map's crash rows are exactly that day's crashes with a non-null, non-zero latitude |
| Dashboard.BumpKeys | app/app.py:92-95 | counting one more person adds its collision id to the group keys |
| Dashboard.BumpCounts | app/app.py:92-95 | counting one more person keeps keys distinct and raises only its own group's count, by one |
| Dashboard.GroupByCollisionCounts | app/app.py:91-96 | the per-collision subquery has distinct keys and counts each id's person rows for the day |
| Dashboard.PartnersOfKey | app/app.py:97 | a crash joins at most one group, carrying that group's count; a null id joins none |
| Dashboard.PartnersAbsent | app/app.py:74 | a collision with no person rows joins nothing, and its `people_involved` is zero |
| Dashboard.JoinCrashExpected | app/app.py:91-97 | one crash joined with the grouped person rows gives exactly one row: its own columns, the count of person rows naming it (0 when there is none or the id is null), and its label |
| Dashboard.JoinCrashesOnePerCrash | app/app.py:91-97 | the left join yields exactly one map row per crash, with `ifnull(people_involved, 0)` and its injury label |
| Dashboard.CollisionData | app/app.py:68-100 | definition of the map query; its properties are stated by `JoinCrashExpected`, `JoinCrashesOnePerCrash` and `CollisionDataRows` |
| Dashboard.CollisionDataRows | app/app.py:68-100 | the map query returns one row per mapped crash, in order, each with a non-null, non-zero latitude |
| Dashboard.HasCrashOnExists | app/app.py:24-31 | the crash subquery has a row for the day exactly when some crash has that date |
| Dashboard.CrashTableIdsMembers | app/app.py:27-29 | the ids it counts are exactly the non-null collision ids of that day's crashes |
| Dashboard.MostRecentDay | app/app.py:19-36 | definition of the most-recent-day query; its properties are stated by `MostRecentDayRows` and `ShowDashboard` |
| Dashboard.MostRecentDayRows | app/app.py:19-36 | one row per prediction for the end day, at most one when keyed; crashes present exactly when the day has crashes, with its distinct count; delta present exactly when crashes and yhat are, equal to their difference |
| Dashboard.DefaultEnd | app/app.py:112 | the default end date exists exactly when today is at least 60 days after 0001-01-01, always from year 2 on, and lies 60 days before today |
| Dashboard.DefaultEndExact | app/app.py:112 | the default end date is the one date 60 days before today |
| Dashboard.ShowDashboard | app/app.py:118-131 | the page is the error text exactly when start is after end; otherwise the script aborts exactly when the end day has no forecast row (KeyError) or no crash row or a null forecast (`int()` raises ValueError); otherwise it shows the three query results for that range and the end day's distinct crash count as the "Actual" metric |
| Dashboard.OneDayRange | app/app.py:118 | a one-day range passes the guard and its series rows are all that day |
| Training.ModelPath | train/train_pipeline.py:24 | definition of the model path; its properties are stated by `ModelPathNamesDate`, `ModelPathInjective` and `PathsNeverCollide` |
| Training.ModelPathNamesDate | train/train_pipeline.py:24 | the training date can be read back out of the model path |
| Training.ModelPathInjective | train/train_pipeline.py:24 | different cutoff dates get different model paths |
| Training.PredictionsPath | train/train_pipeline.py:60-61 | definition of the predictions path; its properties are stated by `PathsNeverCollide` and `TrainThenWrite` |
| Training.PathsNeverCollide | train/train_pipeline.py:60-61 | a model path is never a predictions path |
| Training.RowsOnPositive | train/train_pipeline.py:28-33 | a day's `count(*)` is positive exactly when some crash row has that date |
| Training.TrainingFrame | train/train_pipeline.py:27-35 | definition of the training query; its properties are stated by `TrainingFrameRows` and `TrainingFrameDates` |
| Training.TrainingFrameRows | train/train_pipeline.py:27-35 | every training row is a valid date on or before the cutoff, with y its crash-row count and at least 1, and the dates strictly ascend |
| Training.TrainingFrameDates | train/train_pipeline.py:27-35 | a date appears in the training frame exactly when it is not after the cutoff and has a crash row |
| Training.PreprocessAndTrain | train/train_pipeline.py:14-48 | returns the base path and stores, under the model path of the cutoff, a model fitted on the training frame; every other file is unchanged |
| Training.LastPrediction | train/train_pipeline.py:75 | `tail(1)` of the forecast keeps its last row's date, yhat and bounds, and is empty for an empty forecast |
| Training.WritePredictions | train/train_pipeline.py:54-75 | a missing model raises FileNotFoundError; it succeeds exactly when a model is stored there, then writes the last forecast row to the predictions CSV and changes nothing else |
| Training.Cutoff | train/train_pipeline.py:82 | the pipeline's date exists exactly when today is at least 61 days after 0001-01-01, always from year 2 on, and lies 61 days before today |
| Training.CutoffExact | train/train_pipeline.py:82 | the cutoff is the one date 61 days before today |
| Training.CutoffBeforeDashboardEnd | train/train_pipeline.py:82 | whenever the cutoff date exists, the day after it is exactly the dashboard's default end date; this is the forecast day only when the cutoff day itself has crash rows |
| Training.TrainThenWrite | train/train_pipeline.py:83-84 | training then writing always succeeds, adding only the model and the predictions file, with the forecast made from the training frame |
| Training.Pipeline | train/train_pipeline.py:81-84 | definition of `mvc_pipeline`; its properties are stated by `PipelineAgreement` |
| Training.PipelineAgreement | train/train_pipeline.py:81-84 | the pipeline succeeds exactly when the cutoff date exists, and is the write step run on the training step's output |

## Left out

- Prophet's `fit`, `make_future_dataframe` and `predict` are not modelled. A stored model holds its training frame, and the forecast is a function parameter. Prophet's own error for fewer than two training rows is therefore not modelled.
- Training.CutoffBeforeDashboardEnd: the date of the forecast row is not tied to the cutoff, because the forecast is a function parameter. Prophet dates it one day after the last training day. That is the last day on or before the cutoff with crash rows, so when the crash table lags, the forecast falls before the dashboard's default end date, and the dashboard then aborts with KeyError.
- SQL `round(...)` on the predicted values is not modelled: yhat and delta are kept as reals. `ifnull(round(crashes), 0)` is modelled as the integer count, which round leaves unchanged.
- The network, BigQuery, the blob store's byte encoding and pickling, and credentials from `os.environ` are not modelled. GET and insert are function parameters, and the store is a map from path to blob.
- argparse's `choices` check on `--table` and the `--dryrun` branch are not modelled: `Backfill` takes any table name and raises KeyError for unknown ones, as `insert_data` does.
- The request JSON body of `fetch_and_store` is not modelled because it is read and never used.
- JSON decoding is not modelled. The model raises `DecodeError`, carrying the body, for every response body that is not a list of records. Python differs for some of these bodies:
  - a body that is not JSON raises a decoding error, as in the model;
  - an empty object `{}` or an empty string `""` makes the record loop run zero times, so Python goes on to the insert with no rows and raises nothing;
  - a non-empty object or string is iterated by key or character, and Python raises at `record.get`;
  - a list whose items are not objects also raises at `record.get`, except with an empty schema, where `record.get` is never called and Python inserts one empty row per item.
- `delete_existing_data` is not modelled, because its only call is commented out.
- Row order without `ORDER BY` is modelled as one fixed order. This covers the map query, the most-recent-day query and ties in the time series; BigQuery gives no such guarantee.
- The sidebar's default start date, 2025-01-01, is not modelled as a constant: `ShowDashboard` takes the start date as an input, whatever its source.
- Streamlit and Plotly rendering are not modelled.
- ShowDashboard: the "Predicted" metric `int(round(yhat))` and the "Delta %" text are not part of the page, because SQL rounding is not modelled. Only the "Actual" metric and the two ways the metric lines abort are modelled.
- ShowDashboard: a NULL `crashes` aborts with `ValueError`, as `int()` of a float NaN does. With a client library that returns pandas' nullable `Int64` column, `int(<NA>)` raises `TypeError` instead.
- `strptime` is not modelled for non-ASCII digits, which Python's `\d` accepts. `strftime('%Y')` for years below 1000 is not modelled; it is platform-dependent, and the model pads it to four digits.
- Network exceptions from `requests.get` are not modelled.
- BigQuery's comparison of a DATE column with a string literal is not modelled: query dates are `Date` values.
- The `simple-deploy-model` directory is not modelled, because it is not part of this core.
