/** Text forms of dates: `strftime('%Y-%m-%d')`, and the two `strptime`
    formats the code parses, `%Y-%m-%d` (command-line dates) and
    `%Y-%m-%dT%H:%M:%S.%f` (timestamps from the open-data API).

    Python's `strptime` matches the format with a regular expression whose
    numeric fields are lenient: `%m`, `%d`, `%H`, `%M`, `%S` take one or two
    digits, `%d` also takes a space followed by a digit, `%f` takes one to
    six digits, and letters match case-insensitively. Because each field is
    followed by a literal separator (or ends the string), a field is
    exactly the text up to the next separator, and it is accepted when it
    is one of the field's spellings; the parsed values must then form a
    real date and time. */
module DateText {
  import opened Results
  import opened Calendar

  predicate IsDigit(c: char) {
    '0' <= c <= '9'
  }

  predicate AllDigits(s: string) {
    forall i :: 0 <= i < |s| ==> IsDigit(s[i])
  }

  function DigitValue(c: char): nat
    requires IsDigit(c)
  {
    c as int - '0' as int
  }

  function DigitChar(n: nat): (c: char)
    requires n < 10
    ensures IsDigit(c) && DigitValue(c) == n
  {
    (n + '0' as int) as char
  }

  /** The decimal value of a digit string, most significant digit first. */
  function NumeralValue(s: string): nat
    requires AllDigits(s)
  {
    if |s| == 0 then 0 else NumeralValue(s[..|s| - 1]) * 10 + DigitValue(s[|s| - 1])
  }

  function Pow10(n: nat): (p: nat)
    ensures p >= 1
  {
    if n == 0 then 1 else 10 * Pow10(n - 1)
  }

  lemma NumeralValueShort(t: string)
    requires AllDigits(t) && 1 <= |t| <= 2
    ensures |t| == 1 ==> NumeralValue(t) == DigitValue(t[0])
    ensures |t| == 2 ==> NumeralValue(t) == DigitValue(t[0]) * 10 + DigitValue(t[1])
  {
    var p := t[..|t| - 1];
    if |t| == 2 {
      assert p == [t[0]];
      assert p[..0] == [];
    } else {
      assert p == [];
    }
  }

  /** Appending a digit to `a * p + b` shifts both parts left. */
  lemma ShiftDigit(a: int, p: int, b: int, d: int)
    ensures (a * p + b) * 10 + d == a * (p * 10) + (b * 10 + d)
  {
  }

  lemma {:induction false} NumeralValueAppend(x: string, y: string)
    requires AllDigits(x) && AllDigits(y)
    ensures AllDigits(x + y)
    ensures NumeralValue(x + y) == NumeralValue(x) * Pow10(|y|) + NumeralValue(y)
    decreases |y|
  {
    if |y| > 0 {
      var y' := y[..|y| - 1];
      var xy := x + y;
      assert xy[..|xy| - 1] == x + y' && xy[|xy| - 1] == y[|y| - 1];
      NumeralValueAppend(x, y');
      var d := DigitValue(y[|y| - 1]);
      assert NumeralValue(xy) == NumeralValue(x + y') * 10 + d;
      ShiftDigit(NumeralValue(x), Pow10(|y'|), NumeralValue(y'), d);
    } else {
      assert x + y == x;
    }
  }

  lemma {:induction false} NumeralValueBound(s: string)
    requires AllDigits(s)
    ensures NumeralValue(s) < Pow10(|s|)
    decreases |s|
  {
    if |s| > 0 {
      NumeralValueBound(s[..|s| - 1]);
    }
  }

  /** Two digits, zero-padded (`%02d`). */
  function Pad2(n: nat): (s: string)
    requires n < 100
    ensures |s| == 2
  {
    [DigitChar(n / 10), DigitChar(n % 10)]
  }

  /** Four digits, zero-padded. */
  function Pad4(n: nat): (s: string)
    requires n < 10000
    ensures |s| == 4
  {
    Pad2(n / 100) + Pad2(n % 100)
  }

  /** The padded forms read back as the number they pad. */
  lemma Pad2Value(n: nat)
    requires n < 100
    ensures AllDigits(Pad2(n)) && NumeralValue(Pad2(n)) == n
  {
    NumeralValueShort(Pad2(n));
  }

  lemma Pad4Value(n: nat)
    requires n < 10000
    ensures AllDigits(Pad4(n)) && NumeralValue(Pad4(n)) == n
  {
    Pad2Value(n / 100);
    Pad2Value(n % 100);
    NumeralValueAppend(Pad2(n / 100), Pad2(n % 100));
  }

  /** Two digits are the zero-padded form of their value. */
  lemma TwoDigits(t: string)
    requires |t| == 2 && AllDigits(t)
    ensures NumeralValue(t) < 100 && t == Pad2(NumeralValue(t))
  {
    NumeralValueShort(t);
  }

  /** Four digits are the zero-padded form of their value. */
  lemma FourDigits(t: string)
    requires |t| == 4 && AllDigits(t)
    ensures NumeralValue(t) < 10000 && t == Pad4(NumeralValue(t))
  {
    var hi, lo := t[..2], t[2..];
    assert t == hi + lo;
    NumeralValueAppend(hi, lo);
    TwoDigits(hi);
    TwoDigits(lo);
    var v := NumeralValue(t);
    assert v == NumeralValue(hi) * 100 + NumeralValue(lo);
    assert v / 100 == NumeralValue(hi) && v % 100 == NumeralValue(lo);
  }

  /** `date.strftime('%Y-%m-%d')`. */
  function FormatDate(d: Date): (s: string)
    requires Valid(d)
    ensures |s| == 10 && s[4] == '-' && s[7] == '-'
  {
    Pad4(d.year) + "-" + Pad2(d.month) + "-" + Pad2(d.day)
  }

  /** Index of the first character of `s` in `seps`, or |s| when none is. */
  function IndexOfAny(s: string, seps: set<char>): (i: nat)
    ensures i <= |s|
    ensures i < |s| ==> s[i] in seps
  {
    if |s| == 0 then 0
    else if s[0] in seps then 0
    else 1 + IndexOfAny(s[1..], seps)
  }

  /** No character before the index is a separator. */
  lemma {:induction false} IndexOfAnyFirst(s: string, seps: set<char>)
    ensures Avoids(s[..IndexOfAny(s, seps)], seps)
  {
    if |s| > 0 && s[0] !in seps {
      IndexOfAnyFirst(s[1..], seps);
      var i := IndexOfAny(s, seps);
      assert s[..i] == [s[0]] + s[1..][..i - 1];
    }
  }

  /** Splits `s` at its first character in seps[0], the remainder at its
      first character in seps[1], and so on; None when a separator is
      missing. */
  function Fields(s: string, seps: seq<set<char>>): (r: Option<seq<string>>)
    ensures r.Some? ==> |r.value| == |seps| + 1
    decreases |seps|, 1
  {
    if |seps| == 0 then Some([s]) else SplitAt(s, seps, IndexOfAny(s, seps[0]))
  }

  /** Fields, once the first separator is known to be at `i` (or absent,
      when `i == |s|`). */
  function SplitAt(s: string, seps: seq<set<char>>, i: nat): (r: Option<seq<string>>)
    requires |seps| > 0 && i <= |s|
    ensures r.Some? ==> |r.value| == |seps| + 1
    decreases |seps|, 0
  {
    if i == |s| then None
    else
      match Fields(s[i + 1..], seps[1..])
      case None => None
      case Some(rest) => Some([s[..i]] + rest)
  }

  /** toks[0] + [chars[0]] + toks[1] + ... + toks[|toks| - 1]. */
  function Joined(toks: seq<string>, chars: seq<char>): string
    requires |toks| == |chars| + 1
    decreases |chars|
  {
    if |chars| == 0 then toks[0]
    else toks[0] + [chars[0]] + Joined(toks[1..], chars[1..])
  }

  predicate Avoids(s: string, seps: set<char>) {
    forall j :: 0 <= j < |s| ==> s[j] !in seps
  }

  /** The first separator of `a + [c] + b` is the `c` after `a`. */
  lemma IndexOfAnyJoin(a: string, c: char, b: string, seps: set<char>)
    requires Avoids(a, seps) && c in seps
    ensures IndexOfAny(a + [c] + b, seps) == |a|
  {
    var s := a + [c] + b;
    var i := IndexOfAny(s, seps);
    IndexOfAnyFirst(s, seps);
    assert s[|a|] == c;
  }

  /** One step of Fields on a string that does contain the separator. */
  lemma FieldsStep(a: string, c: char, b: string, seps: seq<set<char>>)
    requires |seps| > 0 && Avoids(a, seps[0]) && c in seps[0]
    ensures Fields(a + [c] + b, seps) ==
      (if Fields(b, seps[1..]).None? then None else Some([a] + Fields(b, seps[1..]).value))
  {
    var s := a + [c] + b;
    IndexOfAnyJoin(a, c, b, seps[0]);
    assert s[..|a|] == a && s[|a| + 1..] == b;
  }

  /** Splitting a joined string gives back its fields, when no field
      contains the separator that ends it. */
  lemma {:induction false} FieldsOfJoined(toks: seq<string>, chars: seq<char>, seps: seq<set<char>>)
    requires |toks| == |chars| + 1 && |seps| == |chars|
    requires forall k :: 0 <= k < |chars| ==> chars[k] in seps[k] && Avoids(toks[k], seps[k])
    ensures Fields(Joined(toks, chars), seps) == Some(toks)
    decreases |chars|
  {
    if |chars| > 0 {
      var tail := Joined(toks[1..], chars[1..]);
      assert Joined(toks, chars) == toks[0] + [chars[0]] + tail;
      assert chars[0] in seps[0] && Avoids(toks[0], seps[0]);
      FieldsOfJoined(toks[1..], chars[1..], seps[1..]);
      assert Fields(tail, seps[1..]) == Some(toks[1..]);
      FieldsStep(toks[0], chars[0], tail, seps);
      assert [toks[0]] + toks[1..] == toks;
    } else {
      assert toks == [toks[0]];
    }
  }

  /** Conversely, single-character separators are all a split removes. */
  lemma {:induction false} JoinedOfFields(s: string, chars: seq<char>, seps: seq<set<char>>)
    requires |seps| == |chars|
    requires forall k :: 0 <= k < |chars| ==> seps[k] == {chars[k]}
    requires Fields(s, seps).Some?
    ensures Joined(Fields(s, seps).value, chars) == s
    decreases |chars|
  {
    if |chars| > 0 {
      var i := IndexOfAny(s, seps[0]);
      JoinedOfFields(s[i + 1..], chars[1..], seps[1..]);
      var toks := Fields(s, seps).value;
      assert toks[1..] == Fields(s[i + 1..], seps[1..]).value;
      assert s == s[..i] + [chars[0]] + s[i + 1..];
    }
  }

  // ---- field spellings -------------------------------------------------

  /** `%Y`: exactly four digits. */
  predicate YearToken(t: string) {
    |t| == 4 && AllDigits(t)
  }

  /** `%m`, `%H`, `%M`, `%S`: one or two digits. */
  predicate ShortNumeral(t: string) {
    1 <= |t| <= 2 && AllDigits(t)
  }

  /** `%d`: one or two digits, or a space and a nonzero digit. */
  function DayTokenValue(t: string): Option<nat> {
    if |t| == 2 && t[0] == ' ' && '1' <= t[1] <= '9' then Some(DigitValue(t[1]))
    else if ShortNumeral(t) then Some(NumeralValue(t))
    else None
  }

  /** `%f`: one to six digits, read as a fraction of a second. */
  predicate FractionToken(t: string) {
    1 <= |t| <= 6 && AllDigits(t)
  }

  function Microseconds(t: string): nat
    requires FractionToken(t)
  {
    NumeralValue(t) * Pow10(6 - |t|)
  }

  /** The date named by the three fields of a `%Y-%m-%d` match. */
  function DateOfTokens(y: string, m: string, d: string): (r: Option<Date>)
    ensures r.Some? ==> Valid(r.value)
  {
    if YearToken(y) && ShortNumeral(m) && DayTokenValue(d).Some? then
      var date := Date(NumeralValue(y), NumeralValue(m), DayTokenValue(d).value);
      if Valid(date) then Some(date) else None
    else None
  }

  const Dash: set<char> := {'-'}

  const DateSeps: seq<set<char>> := [Dash, Dash]

  /** `datetime.strptime(s, '%Y-%m-%d')`, None where it raises ValueError. */
  function ParseDate(s: string): (r: Option<Date>)
    ensures r.Some? ==> Valid(r.value)
  {
    var f :- Fields(s, DateSeps);
    DateOfTokens(f[0], f[1], f[2])
  }

  /** `validate_date`, the argparse type of `--start_date` and `--end_date`. */
  function ValidateDate(s: string): (r: Result<Date, PyError>)
    ensures r.Ok? <==> ParseDate(s).Some?
    ensures r.Ok? ==> Valid(r.value) && r.value == ParseDate(s).value
    ensures r.Err? ==> r.error == ArgumentTypeError("Not a valid date: '" + s + "'.")
  {
    match ParseDate(s)
    case Some(d) => Ok(d)
    case None => Err(ArgumentTypeError("Not a valid date: '" + s + "'."))
  }

  // ---- which strings name a date --------------------------------------

  /** The spellings `%m` accepts for month `m`: `7` and `07`, or `11`. */
  function MonthSpellings(m: nat): set<string>
    requires m < 100
  {
    if m < 10 then {[DigitChar(m)], Pad2(m)} else {Pad2(m)}
  }

  /** The spellings `%d` accepts for day `d`: `7`, `07` and ` 7`, or `23`. */
  function DaySpellings(d: nat): set<string>
    requires 0 < d < 100
  {
    if d < 10 then {[DigitChar(d)], Pad2(d), [' ', DigitChar(d)]} else {Pad2(d)}
  }

  /** `s` is a spelling of `d` under `%Y-%m-%d`. */
  predicate Spells(s: string, d: Date)
    requires Valid(d)
  {
    exists m, t :: m in MonthSpellings(d.month) && t in DaySpellings(d.day) &&
      s == Pad4(d.year) + "-" + m + "-" + t
  }

  lemma ShortNumeralSpelling(t: string)
    requires ShortNumeral(t)
    ensures NumeralValue(t) < 100
    ensures t in MonthSpellings(NumeralValue(t))
    ensures NumeralValue(t) > 0 ==> t in DaySpellings(NumeralValue(t))
  {
    NumeralValueShort(t);
    if |t| == 1 {
      assert t == [DigitChar(NumeralValue(t))];
    } else {
      TwoDigits(t);
    }
  }

  lemma SpellingTokens(m: nat, t: string, d: nat)
    requires m < 100 && 0 < d < 100
    ensures t in MonthSpellings(m) ==> ShortNumeral(t) && NumeralValue(t) == m
    ensures t in DaySpellings(d) ==> DayTokenValue(t) == Some(d)
  {
    if t in MonthSpellings(m) {
      NumeralValueShort(t);
    }
    if t in DaySpellings(d) && t[0] != ' ' {
      NumeralValueShort(t);
    }
  }

  lemma DateOfTokensParts(y: string, m: string, t: string, d: Date)
    requires DateOfTokens(y, m, t) == Some(d)
    ensures YearToken(y) && ShortNumeral(m) && DayTokenValue(t) == Some(d.day)
    ensures Valid(d) && d.year == NumeralValue(y) && d.month == NumeralValue(m)
  {
  }

  /** What a successful `%Y-%m-%d` parse reads its fields from. */
  lemma ParsedFields(s: string, d: Date) returns (m: string, t: string)
    requires ParseDate(s) == Some(d)
    ensures m in MonthSpellings(d.month) && t in DaySpellings(d.day)
    ensures s == Pad4(d.year) + "-" + m + "-" + t
  {
    var f := Fields(s, DateSeps).value;
    DateOfTokensParts(f[0], f[1], f[2], d);
    JoinedOfFields(s, ['-', '-'], DateSeps);
    assert s == f[0] + ['-'] + (f[1] + ['-'] + f[2]);
    m, t := f[1], f[2];
    ShortNumeralSpelling(m);
    if |t| == 2 && t[0] == ' ' && '1' <= t[1] <= '9' {
      assert t == [' ', DigitChar(d.day)];
    } else {
      ShortNumeralSpelling(t);
    }
    FourDigits(f[0]);
  }

  /** Any spelling of a valid date parses back to it. */
  lemma ParseSpelling(d: Date, m: string, t: string)
    requires Valid(d) && m in MonthSpellings(d.month) && t in DaySpellings(d.day)
    ensures ParseDate(Pad4(d.year) + "-" + m + "-" + t) == Some(d)
  {
    SpellingTokens(d.month, m, d.day);
    SpellingTokens(d.month, t, d.day);
    Pad4Value(d.year);
    var toks := [Pad4(d.year), m, t];
    assert Avoids(toks[0], Dash) && Avoids(toks[1], Dash);
    assert Joined(toks, ['-', '-']) == Pad4(d.year) + "-" + m + "-" + t;
    FieldsOfJoined(toks, ['-', '-'], DateSeps);
  }

  /** `validate_date` accepts `s` exactly when `s` spells a real calendar
      date, and then returns that date. */
  lemma ParseDateSpells(s: string, d: Date)
    ensures ParseDate(s) == Some(d) <==> Valid(d) && Spells(s, d)
  {
    if ParseDate(s) == Some(d) {
      var m, t := ParsedFields(s, d);
    }
    if Valid(d) && Spells(s, d) {
      var m, t :| m in MonthSpellings(d.month) && t in DaySpellings(d.day) &&
        s == Pad4(d.year) + "-" + m + "-" + t;
      ParseSpelling(d, m, t);
    }
  }

  /** The canonical form round-trips: `validate_date(strftime(d)) == d`. */
  lemma ValidateFormatted(d: Date)
    requires Valid(d)
    ensures ValidateDate(FormatDate(d)) == Ok(d)
  {
    assert Pad2(d.month) in MonthSpellings(d.month);
    assert Pad2(d.day) in DaySpellings(d.day);
    assert Spells(FormatDate(d), d);
    ParseDateSpells(FormatDate(d), d);
  }

  /** A ten-character, space-free string `validate_date` accepts is the
      canonical form of the date it names. */
  lemma CanonicalRoundTrip(s: string)
    requires |s| == 10 && ' ' !in s && ParseDate(s).Some?
    ensures FormatDate(ParseDate(s).value) == s
  {
    var d := ParseDate(s).value;
    var m, t := ParsedFields(s, d);
    assert |m| + |t| == 4;
    assert t[0] in s;
  }

  /** Zero-padded fields naming no real day are rejected with the
      argparse message; `2025-02-30` is the instance (2025, 2, 30). */
  lemma RejectsImpossibleDay(y: nat, m: nat, day: nat)
    requires MinYear <= y <= MaxYear && 1 <= m <= 12 && day < 100
    requires !Valid(Date(y, m, day))
    ensures var s := Pad4(y) + "-" + Pad2(m) + "-" + Pad2(day);
      ValidateDate(s) == Err(ArgumentTypeError("Not a valid date: '" + s + "'."))
  {
    var toks := [Pad4(y), Pad2(m), Pad2(day)];
    assert Avoids(toks[0], Dash) && Avoids(toks[1], Dash);
    assert Joined(toks, ['-', '-']) == Pad4(y) + "-" + Pad2(m) + "-" + Pad2(day);
    FieldsOfJoined(toks, ['-', '-'], DateSeps);
    Pad4Value(y);
    Pad2Value(m);
    Pad2Value(day);
  }

  // ---- timestamps --------------------------------------------------------

  datatype DateTime = DateTime(date: Date, hour: nat, minute: nat, second: nat, microsecond: nat)

  /** The literal separators of `%Y-%m-%dT%H:%M:%S.%f`; `T` matches either
      case because `strptime` compiles its pattern case-insensitively. */
  const TimeMark: set<char> := {'T', 't'}

  const TimestampSeps: seq<set<char>> := [Dash, Dash, TimeMark, {':'}, {':'}, {'.'}]

  /** The time named by the `%H`, `%M`, `%S`, `%f` fields. `%S` matches up
      to 61, but the `datetime` constructor then rejects seconds above 59,
      so both limits are one check here. */
  function TimeOfTokens(h: string, mi: string, sec: string, frac: string): (r: Option<DateTime>)
    ensures r.Some? ==> r.value.hour < 24 && r.value.minute < 60 && r.value.second < 60
  {
    if ShortNumeral(h) && ShortNumeral(mi) && ShortNumeral(sec) && FractionToken(frac)
       && NumeralValue(h) <= 23 && NumeralValue(mi) <= 59 && NumeralValue(sec) <= 59
    then Some(DateTime(FirstDate, NumeralValue(h), NumeralValue(mi), NumeralValue(sec), Microseconds(frac)))
    else None
  }

  /** `datetime.strptime(s, '%Y-%m-%dT%H:%M:%S.%f')`, None where it raises
      ValueError. */
  function ParseTimestamp(s: string): (r: Option<DateTime>)
    ensures r.Some? ==> Valid(r.value.date)
    ensures r.Some? ==> r.value.hour < 24 && r.value.minute < 60 && r.value.second < 60
  {
    var f := Fields(s, TimestampSeps);
    if f.None? then None
    else
      var date := DateOfTokens(f.value[0], f.value[1], f.value[2]);
      var time := TimeOfTokens(f.value[3], f.value[4], f.value[5], f.value[6]);
      if date.Some? && time.Some? then Some(time.value.(date := date.value)) else None
  }

  /** The external API's form `YYYY-MM-DDTHH:MM:SS.ffffff`, with one to six
      fraction digits. */
  function FormatTimestamp(d: Date, h: nat, mi: nat, sec: nat, frac: string): string
    requires Valid(d) && h < 24 && mi < 60 && sec < 60
  {
    Joined([Pad4(d.year), Pad2(d.month), Pad2(d.day), Pad2(h), Pad2(mi), Pad2(sec), frac],
           ['-', '-', 'T', ':', ':', '.'])
  }

  /** That form splits into its seven zero-padded fields. */
  lemma CanonicalTimestampFields(d: Date, h: nat, mi: nat, sec: nat, frac: string)
    requires Valid(d) && h < 24 && mi < 60 && sec < 60 && FractionToken(frac)
    ensures Fields(FormatTimestamp(d, h, mi, sec, frac), TimestampSeps) ==
      Some([Pad4(d.year), Pad2(d.month), Pad2(d.day), Pad2(h), Pad2(mi), Pad2(sec), frac])
  {
    var toks := [Pad4(d.year), Pad2(d.month), Pad2(d.day), Pad2(h), Pad2(mi), Pad2(sec), frac];
    var chars := ['-', '-', 'T', ':', ':', '.'];
    forall k | 0 <= k < |chars|
      ensures chars[k] in TimestampSeps[k] && Avoids(toks[k], TimestampSeps[k])
    {
      assert AllDigits(toks[k]);
    }
    FieldsOfJoined(toks, chars, TimestampSeps);
  }

  /** That form parses to its own date and time. */
  lemma ParseCanonicalTimestamp(d: Date, h: nat, mi: nat, sec: nat, frac: string)
    requires Valid(d) && h < 24 && mi < 60 && sec < 60 && FractionToken(frac)
    ensures ParseTimestamp(FormatTimestamp(d, h, mi, sec, frac)) ==
              Some(DateTime(d, h, mi, sec, Microseconds(frac)))
  {
    CanonicalTimestampFields(d, h, mi, sec, frac);
    ParseOfPaddedFields(FormatTimestamp(d, h, mi, sec, frac), d, h, mi, sec, frac);
  }

  lemma DateOfPaddedFields(d: Date)
    requires Valid(d)
    ensures DateOfTokens(Pad4(d.year), Pad2(d.month), Pad2(d.day)) == Some(d)
  {
    Pad4Value(d.year);
    Pad2Value(d.month);
    Pad2Value(d.day);
    NumeralValueShort(Pad2(d.day));
  }

  lemma TimeOfPaddedFields(h: nat, mi: nat, sec: nat, frac: string)
    requires h < 24 && mi < 60 && sec < 60 && FractionToken(frac)
    ensures TimeOfTokens(Pad2(h), Pad2(mi), Pad2(sec), frac) ==
      Some(DateTime(FirstDate, h, mi, sec, Microseconds(frac)))
  {
    Pad2Value(h);
    Pad2Value(mi);
    Pad2Value(sec);
  }

  lemma ParseOfPaddedFields(s: string, d: Date, h: nat, mi: nat, sec: nat, frac: string)
    requires Valid(d) && h < 24 && mi < 60 && sec < 60 && FractionToken(frac)
    requires Fields(s, TimestampSeps) ==
      Some([Pad4(d.year), Pad2(d.month), Pad2(d.day), Pad2(h), Pad2(mi), Pad2(sec), frac])
    ensures ParseTimestamp(s) == Some(DateTime(d, h, mi, sec, Microseconds(frac)))
  {
    DateOfPaddedFields(d);
    TimeOfPaddedFields(h, mi, sec, frac);
  }

  /** Its first ten characters are the date's `%Y-%m-%d` form. */
  lemma CanonicalTimestampPrefix(d: Date, h: nat, mi: nat, sec: nat, frac: string)
    requires Valid(d) && h < 24 && mi < 60 && sec < 60
    ensures FormatTimestamp(d, h, mi, sec, frac)[..10] == FormatDate(d)
  {
    var toks := [Pad4(d.year), Pad2(d.month), Pad2(d.day), Pad2(h), Pad2(mi), Pad2(sec), frac];
    var chars := ['-', '-', 'T', ':', ':', '.'];
    var rest := Joined(toks[3..], chars[3..]);
    var s := Joined(toks, chars);
    assert s == toks[0] + ['-'] + Joined(toks[1..], chars[1..]);
    assert Joined(toks[1..], chars[1..]) == toks[1] + ['-'] + Joined(toks[2..], chars[2..]);
    assert Joined(toks[2..], chars[2..]) == toks[2] + ['T'] + rest;
    assert s == FormatDate(d) + (['T'] + rest);
  }

  /** A successful split leaves each field free of the separator after it. */
  lemma {:induction false} FieldsAvoid(s: string, seps: seq<set<char>>)
    requires Fields(s, seps).Some?
    ensures forall k :: 0 <= k < |seps| ==> Avoids(Fields(s, seps).value[k], seps[k])
    decreases |seps|
  {
    if |seps| > 0 {
      var i := IndexOfAny(s, seps[0]);
      IndexOfAnyFirst(s, seps[0]);
      FieldsAvoid(s[i + 1..], seps[1..]);
      var f := Fields(s, seps).value;
      assert f[1..] == Fields(s[i + 1..], seps[1..]).value;
      forall k | 0 <= k < |seps|
        ensures Avoids(f[k], seps[k])
      {
        if k > 0 {
          assert f[k] == f[1..][k - 1];
        }
      }
    }
  }

  lemma FieldsAtIndex(s: string, seps: seq<set<char>>)
    requires |seps| > 0
    ensures Fields(s, seps) == SplitAt(s, seps, IndexOfAny(s, seps[0]))
  {
  }

  lemma SplitAtUnfold(s: string, seps: seq<set<char>>, i: nat)
    requires |seps| > 0 && i <= |s| && SplitAt(s, seps, i).Some?
    ensures i < |s| && Fields(s[i + 1..], seps[1..]).Some?
    ensures SplitAt(s, seps, i).value == [s[..i]] + Fields(s[i + 1..], seps[1..]).value
  {
  }

  /** One field off the front of a successful split. */
  lemma FieldsUnfold(s: string, seps: seq<set<char>>)
    requires |seps| > 0 && Fields(s, seps).Some?
    ensures IndexOfAny(s, seps[0]) < |s|
    ensures Fields(s[IndexOfAny(s, seps[0]) + 1..], seps[1..]).Some?
    ensures Fields(s, seps).value ==
      [s[..IndexOfAny(s, seps[0])]] + Fields(s[IndexOfAny(s, seps[0]) + 1..], seps[1..]).value
  {
    var i := IndexOfAny(s, seps[0]);
    FieldsAtIndex(s, seps);
    SplitAtUnfold(s, seps, i);
  }

  /** The first field, its separator and the rest of a successful split. */
  lemma FieldsCons(s: string, seps: seq<set<char>>) returns (c: char, rest: string)
    requires |seps| > 0 && Fields(s, seps).Some?
    ensures c in seps[0] && Fields(rest, seps[1..]).Some?
    ensures Fields(s, seps).value[1..] == Fields(rest, seps[1..]).value
    ensures s == Fields(s, seps).value[0] + ([c] + rest)
  {
    FieldsUnfold(s, seps);
    var i := IndexOfAny(s, seps[0]);
    c, rest := s[i], s[i + 1..];
    assert s == s[..i] + ([c] + rest);
  }

  /** The date fields of a split timestamp come first, before the `T`. */
  lemma TimestampHead(s: string, f: seq<string>) returns (c: char, tail: string)
    requires Fields(s, TimestampSeps) == Some(f)
    ensures |f| == 7 && c in TimeMark
    ensures s == f[0] + (['-'] + (f[1] + (['-'] + (f[2] + ([c] + tail)))))
  {
    var seps1 := TimestampSeps[1..];
    var seps2 := seps1[1..];
    assert seps1[0] == Dash && seps2[0] == TimeMark;
    var c0, r1 := FieldsCons(s, TimestampSeps);
    var c1, r2 := FieldsCons(r1, seps1);
    c, tail := FieldsCons(r2, seps2);
    var g1 := Fields(r1, seps1).value;
    var g2 := Fields(r2, seps2).value;
    assert f[1..] == g1 && g1[1..] == g2;
    assert f[1] == g1[0] && f[2] == g2[0];
    assert c0 == '-' && c1 == '-';
    assert r2 == f[2] + ([c] + tail);
    assert r1 == f[1] + (['-'] + r2);
  }

  lemma DateFieldsAvoidT(y: string, m: string, t: string, d: Date)
    requires DateOfTokens(y, m, t) == Some(d)
    ensures Avoids(y + ['-'] + m + ['-'] + t, TimeMark)
  {
    DateOfTokensParts(y, m, t, d);
    var p := y + ['-'] + m + ['-'] + t;
    forall j | 0 <= j < |p|
      ensures p[j] !in TimeMark
    {
      if j < |y| {
        assert p[j] == y[j];
      } else if |y| < j < |y| + 1 + |m| {
        assert p[j] == m[j - |y| - 1];
      } else if j > |y| + 1 + |m| {
        assert p[j] == t[j - |y| - |m| - 2];
      }
    }
  }

  /** The first `T` of a timestamp ends its date fields. */
  lemma DatePrefixEnds(f: seq<string>, c: char, tail: string, d: Date)
    requires |f| >= 3 && c in TimeMark
    requires DateOfTokens(f[0], f[1], f[2]) == Some(d)
    ensures IndexOfAny(f[0] + ['-'] + f[1] + ['-'] + f[2] + [c] + tail, TimeMark)
            == |f[0] + ['-'] + f[1] + ['-'] + f[2]|
  {
    DateFieldsAvoidT(f[0], f[1], f[2], d);
    IndexOfAnyJoin(f[0] + ['-'] + f[1] + ['-'] + f[2], c, tail, TimeMark);
  }

  /** The date fields, rejoined, parse back to the date they denote. */
  lemma DatePrefixParses(y: string, m: string, t: string, d: Date)
    requires DateOfTokens(y, m, t) == Some(d)
    ensures ParseDate(y + ['-'] + m + ['-'] + t) == Some(d)
  {
    DateOfTokensParts(y, m, t, d);
    var toks := [y, m, t];
    assert Avoids(toks[0], Dash) && Avoids(toks[1], Dash);
    assert Joined(toks, ['-', '-']) == y + ['-'] + m + ['-'] + t;
    FieldsOfJoined(toks, ['-', '-'], DateSeps);
  }

  /** In a split timestamp the first `T` follows the three date fields. */
  lemma DateBeforeMark(s: string, f: seq<string>, c: char, tail: string, d: Date)
    requires |f| == 7 && c in TimeMark
    requires s == f[0] + (['-'] + (f[1] + (['-'] + (f[2] + ([c] + tail)))))
    requires DateOfTokens(f[0], f[1], f[2]) == Some(d)
    ensures IndexOfAny(s, TimeMark) == |f[0] + ['-'] + f[1] + ['-'] + f[2]|
  {
    assert s == f[0] + ['-'] + f[1] + ['-'] + f[2] + [c] + tail;
    DatePrefixEnds(f, c, tail, d);
  }

  lemma Reassociate(s: string, y: string, m: string, t: string, c: char, tail: string)
    requires s == y + (['-'] + (m + (['-'] + (t + ([c] + tail)))))
    ensures s == (y + ['-'] + m + ['-'] + t) + ([c] + tail)
  {
  }

  lemma ParsePrefix(s: string, prefix: string, c: char, tail: string, d: Date)
    requires s == prefix + ([c] + tail)
    requires IndexOfAny(s, TimeMark) == |prefix|
    requires ParseDate(prefix) == Some(d)
    ensures ParseDate(s[..IndexOfAny(s, TimeMark)]) == Some(d)
  {
    assert s[..|prefix|] == prefix;
  }

  /** The text before the first `T` of a split timestamp is its date. */
  lemma DateBeforeMarkParses(s: string, f: seq<string>, c: char, tail: string, d: Date)
    requires |f| == 7 && c in TimeMark
    requires s == f[0] + (['-'] + (f[1] + (['-'] + (f[2] + ([c] + tail)))))
    requires DateOfTokens(f[0], f[1], f[2]) == Some(d)
    ensures IndexOfAny(s, TimeMark) < |s|
    ensures ParseDate(s[..IndexOfAny(s, TimeMark)]) == Some(d)
  {
    DateBeforeMark(s, f, c, tail, d);
    DatePrefixParses(f[0], f[1], f[2], d);
    Reassociate(s, f[0], f[1], f[2], c, tail);
    ParsePrefix(s, f[0] + ['-'] + f[1] + ['-'] + f[2], c, tail, d);
  }

  /** The reparse of a timestamp reads its date exactly as `validate_date`
      reads the text before the `T`. */
  lemma TimestampDatePart(s: string)
    requires ParseTimestamp(s).Some?
    ensures IndexOfAny(s, TimeMark) < |s|
    ensures ParseDate(s[..IndexOfAny(s, TimeMark)]) == Some(ParseTimestamp(s).value.date)
  {
    var f := Fields(s, TimestampSeps).value;
    var date := ParseTimestamp(s).value.date;
    assert DateOfTokens(f[0], f[1], f[2]) == Some(date);
    var c, tail := TimestampHead(s, f);
    DateBeforeMarkParses(s, f, c, tail, date);
  }
}
