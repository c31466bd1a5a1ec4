/** The training pipeline: `preprocess_and_train` builds the daily crash
    counts up to a cutoff date and stores the fitted model under a path
    keyed by that date; `write_predictions` loads the model from the same
    path and stores the last forecast row next to it. Object storage is a
    map from paths to files; Prophet's fit and forecast are left abstract. */
module Training {
  import opened Results
  import opened Calendar
  import opened DateText
  import opened Dashboard

  const ModelDir := "/trained_models/model_"
  const ModelSuffix := ".pickle"
  const PredictionsDir := "/predictions/"
  const PredictionsFile := "/predictions.csv"

  /** `f"{base_path}/trained_models/model_{dt}.pickle"`. */
  function ModelPath(base: string, dt: string): string {
    base + ModelDir + dt + ModelSuffix
  }

  /** `f"{base_path}/predictions/{dt}/predictions.csv"`. */
  function PredictionsPath(base: string, dt: string): string {
    base + PredictionsDir + dt + PredictionsFile
  }

  /** The date text inside a model path of base `base`. */
  function ModelPathDate(base: string, path: string): string
    requires |base + ModelDir| + |ModelSuffix| <= |path|
  {
    path[|base + ModelDir| .. |path| - |ModelSuffix|]
  }

  /** A model path names its date, so distinct dates are stored apart. */
  lemma ModelPathNamesDate(base: string, dt: string)
    ensures |base + ModelDir| + |ModelSuffix| <= |ModelPath(base, dt)|
    ensures ModelPathDate(base, ModelPath(base, dt)) == dt
  {
    assert ModelPath(base, dt) == (base + ModelDir) + dt + ModelSuffix;
  }

  lemma ModelPathInjective(base: string, d1: Date, d2: Date)
    requires Valid(d1) && Valid(d2)
    requires ModelPath(base, FormatDate(d1)) == ModelPath(base, FormatDate(d2))
    ensures d1 == d2
  {
    ModelPathNamesDate(base, FormatDate(d1));
    ModelPathNamesDate(base, FormatDate(d2));
    ValidateFormatted(d1);
    ValidateFormatted(d2);
  }

  /** A predictions file never overwrites a model, whatever the bases and
      dates: one path ends in `.csv`, the other in `.pickle`. */
  lemma PathsNeverCollide(base1: string, dt1: string, base2: string, dt2: string)
    ensures ModelPath(base1, dt1) != PredictionsPath(base2, dt2)
  {
    var m := ModelPath(base1, dt1);
    var p := PredictionsPath(base2, dt2);
    assert m[|m| - 1] == 'e';
    assert p[|p| - 1] == 'v';
  }

  /** A row of the training frame: a date and its number of crash rows. */
  datatype FrameRow = FrameRow(ds: Date, y: nat)

  /** `count(*)` of the crash rows of day `d`. */
  function RowsOn(crashes: seq<CrashRow>, d: Date): nat {
    if |crashes| == 0 then 0
    else (if crashes[0].crashDate == Some(d) then 1 else 0) + RowsOn(crashes[1..], d)
  }

  lemma {:induction false} RowsOnPositive(crashes: seq<CrashRow>, d: Date)
    ensures RowsOn(crashes, d) > 0 <==> exists j :: 0 <= j < |crashes| && crashes[j].crashDate == Some(d)
  {
    if |crashes| > 0 {
      RowsOnPositive(crashes[1..], d);
      if crashes[0].crashDate != Some(d) && exists j :: 0 <= j < |crashes| && crashes[j].crashDate == Some(d) {
        var j :| 0 <= j < |crashes| && crashes[j].crashDate == Some(d);
        assert crashes[1..][j - 1] == crashes[j];
      }
    }
  }

  /** The days up to `cutoff` that have a crash row. */
  function FrameDays(crashes: seq<CrashRow>, cutoff: Date): seq<Date>
    requires Valid(cutoff)
  {
    Select(DayRange(FirstDate, cutoff), d => RowsOn(crashes, d) > 0)
  }

  /** The query of `preprocess_and_train`: `crash_date as ds, count(*) as y
      ... where crash_date <= dt group by 1 order by 1 asc`. */
  function TrainingFrame(crashes: seq<CrashRow>, cutoff: Date): seq<FrameRow>
    requires Valid(cutoff)
  {
    var days := FrameDays(crashes, cutoff);
    seq(|days|, i requires 0 <= i < |days| => FrameRow(days[i], RowsOn(crashes, days[i])))
  }

  /** Each row of the frame is a day on or before the cutoff with its crash
      count, which is at least one; the days strictly ascend. */
  lemma TrainingFrameRows(crashes: seq<CrashRow>, cutoff: Date)
    requires Valid(cutoff)
    ensures forall k :: 0 <= k < |TrainingFrame(crashes, cutoff)| ==>
              Valid(TrainingFrame(crashes, cutoff)[k].ds) &&
              NotAfter(TrainingFrame(crashes, cutoff)[k].ds, cutoff) &&
              TrainingFrame(crashes, cutoff)[k].y == RowsOn(crashes, TrainingFrame(crashes, cutoff)[k].ds) &&
              TrainingFrame(crashes, cutoff)[k].y >= 1
    ensures forall i, j :: 0 <= i < j < |TrainingFrame(crashes, cutoff)| ==>
              Before(TrainingFrame(crashes, cutoff)[i].ds, TrainingFrame(crashes, cutoff)[j].ds)
  {
    var range := DayRange(FirstDate, cutoff);
    var keep := d => RowsOn(crashes, d) > 0;
    var days := FrameDays(crashes, cutoff);
    var frame := TrainingFrame(crashes, cutoff);
    forall k | 0 <= k < |frame|
      ensures Valid(frame[k].ds) && NotAfter(frame[k].ds, cutoff) && frame[k].y >= 1
    {
      SelectMembers(range, keep, days[k]);
      DayRangeMembership(FirstDate, cutoff, days[k]);
    }
    DayRangeAscending(FirstDate, cutoff);
    assert Ascending(range);
    SelectAscending(range, keep);
  }

  /** A day is in the frame exactly when it is on or before the cutoff and
      the crashes table has a row of it. */
  lemma TrainingFrameDates(crashes: seq<CrashRow>, cutoff: Date, d: Date)
    requires Valid(cutoff)
    ensures (exists k :: 0 <= k < |TrainingFrame(crashes, cutoff)| && TrainingFrame(crashes, cutoff)[k].ds == d) <==>
            Valid(d) && NotAfter(d, cutoff) && exists j :: 0 <= j < |crashes| && crashes[j].crashDate == Some(d)
  {
    var days := FrameDays(crashes, cutoff);
    var frame := TrainingFrame(crashes, cutoff);
    SelectMembers(DayRange(FirstDate, cutoff), d => RowsOn(crashes, d) > 0, d);
    DayRangeMembership(FirstDate, cutoff, d);
    RowsOnPositive(crashes, d);
    if d in days {
      var k :| 0 <= k < |days| && days[k] == d;
      assert frame[k].ds == d;
    }
    if exists k :: 0 <= k < |frame| && frame[k].ds == d {
      var k :| 0 <= k < |frame| && frame[k].ds == d;
      assert days[k] == d;
    }
  }

  /** A row of the forecast Prophet returns: the four persisted columns and
      the others (trend, seasonal terms, ...) by name. */
  datatype ForecastRow = ForecastRow(ds: Date, yhat: real, yhatLower: real, yhatUpper: real,
                                     others: map<string, real>)

  /** A persisted prediction: the four columns kept. */
  datatype Prediction = Prediction(ds: Date, yhat: real, yhatLower: real, yhatUpper: real)

  const PredictionColumns := ["ds", "yhat", "yhat_lower", "yhat_upper"]

  /** The files of the object store. */
  datatype Blob =
    | ModelFile(history: seq<FrameRow>)
    | CsvFile(header: seq<string>, rows: seq<Prediction>)
    | OtherFile(bytes: string)

  type Store = map<string, Blob>

  /** `preprocess_and_train(base_path, dt)`: fits on the frame and writes the
      model file; returns `base_path`. */
  function PreprocessAndTrain(base: string, dt: Date, crashes: seq<CrashRow>, store: Store): (r: (string, Store))
    requires Valid(dt)
    ensures r.0 == base
    ensures r.1.Keys == store.Keys + {ModelPath(base, FormatDate(dt))}
    ensures r.1[ModelPath(base, FormatDate(dt))] == ModelFile(TrainingFrame(crashes, dt))
    ensures forall path :: path in store && path != ModelPath(base, FormatDate(dt)) ==> r.1[path] == store[path]
  {
    (base, store[ModelPath(base, FormatDate(dt)) := ModelFile(TrainingFrame(crashes, dt))])
  }

  /** `forecast[['ds', 'yhat', 'yhat_lower', 'yhat_upper']].tail(1)`. */
  function LastPrediction(forecast: seq<ForecastRow>): (r: seq<Prediction>)
    ensures |r| == if |forecast| == 0 then 0 else 1
    ensures |r| == 1 ==>
              var last := forecast[|forecast| - 1];
              r[0] == Prediction(last.ds, last.yhat, last.yhatLower, last.yhatUpper)
  {
    if |forecast| == 0 then []
    else
      var last := forecast[|forecast| - 1];
      [Prediction(last.ds, last.yhat, last.yhatLower, last.yhatUpper)]
  }

  /** `write_predictions(base_path, dt)`: loads the model of `dt`, forecasts
      one period past its history (`predict`) and writes the last forecast
      row. A missing model file raises `FileNotFoundError`, a file that is
      not a model `UnpicklingError`. */
  function WritePredictions(base: string, dt: Date, store: Store,
                            predict: seq<FrameRow> -> seq<ForecastRow>): (r: Result<Store, PyError>)
    requires Valid(dt)
    ensures ModelPath(base, FormatDate(dt)) !in store ==>
              r == Err(FileNotFoundError(ModelPath(base, FormatDate(dt))))
    ensures r.Ok? <==> ModelPath(base, FormatDate(dt)) in store && store[ModelPath(base, FormatDate(dt))].ModelFile?
    ensures r.Ok? ==>
              var model := store[ModelPath(base, FormatDate(dt))];
              r.value == store[PredictionsPath(base, FormatDate(dt)) :=
                                 CsvFile(PredictionColumns, LastPrediction(predict(model.history)))]
  {
    var modelPath := ModelPath(base, FormatDate(dt));
    if modelPath !in store then Err(FileNotFoundError(modelPath))
    else
      match store[modelPath]
      case ModelFile(history) =>
        Ok(store[PredictionsPath(base, FormatDate(dt)) := CsvFile(PredictionColumns, LastPrediction(predict(history)))])
      case _ => Err(UnpicklingError(modelPath))
  }

  /** The pipeline's cutoff, 61 days before `today`; None where Python would
      overflow below year 1, which no date from year 2 on does. */
  function Cutoff(today: Date): (r: Option<Date>)
    requires Valid(today)
    ensures r.Some? <==> 61 <= Ordinal(today)
    ensures today.year > MinYear ==> r.Some?
    ensures r.Some? ==> Valid(r.value) && DaysAfter(r.value, 61) == Some(today)
  {
    DaysBefore(today, 61)
  }

  /** The cutoff is the one date 61 days before `today`. */
  lemma CutoffExact(today: Date, e: Date)
    requires Valid(today) && Valid(e)
    ensures DaysAfter(e, 61) == Some(today) ==> Cutoff(today) == Some(e)
  {
    if DaysAfter(e, 61) == Some(today) {
      DaysBeforeExact(today, 61, e);
    }
  }

  /** The model is trained up to the day before the dashboard's default end
      date, the last day the dashboard shows by default. */
  lemma CutoffBeforeDashboardEnd(today: Date)
    requires Valid(today)
    ensures Cutoff(today).Some? ==> DefaultEnd(today).Some? && Cutoff(today).value != LastDate
    ensures Cutoff(today).Some? ==> NextDay(Cutoff(today).value) == DefaultEnd(today).value
  {
  }

  /** `mvc_pipeline()`: both steps with the same `dt`, the second reading
      the base path the first returns. */
  function Pipeline(today: Date, base: string, crashes: seq<CrashRow>, store: Store,
                    predict: seq<FrameRow> -> seq<ForecastRow>): Result<Store, PyError>
    requires Valid(today)
  {
    match Cutoff(today)
    case None => Err(OverflowError)
    case Some(dt) =>
      var (trainedBase, trained) := PreprocessAndTrain(base, dt, crashes, store);
      WritePredictions(trainedBase, dt, trained, predict)
  }

  /** The two steps for one date: the second finds the model the first
      wrote, and the store ends with the model and the forecast under the
      two paths of that date and every other file as it was. */
  lemma TrainThenWrite(base: string, dt: Date, crashes: seq<CrashRow>, store: Store,
                       predict: seq<FrameRow> -> seq<ForecastRow>)
    requires Valid(dt)
    ensures var (b, trained) := PreprocessAndTrain(base, dt, crashes, store);
            var r := WritePredictions(b, dt, trained, predict);
            var modelPath := ModelPath(base, FormatDate(dt));
            var predictionsPath := PredictionsPath(base, FormatDate(dt));
            var frame := TrainingFrame(crashes, dt);
            r.Ok? &&
            r.value.Keys == store.Keys + {modelPath, predictionsPath} &&
            r.value[modelPath] == ModelFile(frame) &&
            r.value[predictionsPath] == CsvFile(PredictionColumns, LastPrediction(predict(frame))) &&
            forall path :: path in store && path != modelPath && path != predictionsPath ==>
              r.value[path] == store[path]
  {
    var text := FormatDate(dt);
    PathsNeverCollide(base, text, base, text);
  }

  /** Once the cutoff exists the pipeline succeeds, with the outcome of the
      two steps for that date. */
  lemma PipelineAgreement(today: Date, base: string, crashes: seq<CrashRow>, store: Store,
                          predict: seq<FrameRow> -> seq<ForecastRow>)
    requires Valid(today)
    ensures Pipeline(today, base, crashes, store, predict).Ok? <==> Cutoff(today).Some?
    ensures Cutoff(today).Some? ==>
              var dt := Cutoff(today).value;
              var (b, trained) := PreprocessAndTrain(base, dt, crashes, store);
              Pipeline(today, base, crashes, store, predict) == WritePredictions(b, dt, trained, predict)
  {
    if Cutoff(today).Some? {
      TrainThenWrite(base, Cutoff(today).value, crashes, store, predict);
    }
  }
}
