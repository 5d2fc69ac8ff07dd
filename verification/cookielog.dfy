/**
 * The entry point `cookielog.py`: check the target date and the log file,
 * collect the cookies of the rows dated on the target day, and print the ones
 * that occur most often.
 */
module CookieLog {
  import opened Seqs
  import opened Results
  import opened Text
  import opened Calendar
  import opened Timestamps
  import opened Frequency

  /** What `os.path.exists`, `os.path.isfile` and `open` find at the given path:
      nothing, something that is not a regular file, a regular file that `open`
      refuses with an `OSError`, or a regular file and its text. */
  datatype FsEntry = Missing | NotRegularFile | Unreadable | RegularFile(text: string)

  /** The only first line the file check accepts. */
  const Header: string := "cookie,timestamp\n"

  /** The list `validate_file` compares the split first line with. */
  const HeaderFields: seq<string> := ["cookie", "timestamp\n"]

  // ---------------------------------------------------------------- validate_date

  /** `validate_date`: the regex and the length decide the shape, then
      `strptime('%Y-%m-%d')` decides whether it names a real day; both failures
      are `ValueError`s. */
  function ValidateDate(date: string): (r: Result<()>)
    ensures r.Err? ==> r.error.ValueError?
    ensures |date| != 10 ==> r == Err(ValueError(DateFormat))
  {
    if !DateShape(date) || |date| != 10 then Err(ValueError(DateFormat))
    else if ParseIsoDate(date).None? then Err(ValueError(DateValue))
    else Ok(())
  }

  /** The dates `validate_date` lets through are exactly the ISO texts of days
      between 0001-01-01 and 9999-12-31. */
  lemma ValidateDateAcceptsExactlyIsoDates(date: string)
    ensures ValidateDate(date).Ok? <==> exists d :: IsValid(d) && FormatIsoDate(d) == date
  {
    if exists d :: IsValid(d) && FormatIsoDate(d) == date {
      var d :| IsValid(d) && FormatIsoDate(d) == date;
      ParseOfFormatDate(d);
    }
    if ValidateDate(date).Ok? {
      ParseIsoDateExactly(date);
    }
  }

  /** The dates of the test suite: one too short, one whose day is out of
      range, one real. */
  lemma TestSuiteDates(short: string, outOfRange: string, valid: string)
    requires short == "17-01-08" && outOfRange == "2017-01-80" && valid == "2017-01-01"
    ensures ValidateDate(short) == Err(ValueError(DateFormat))
    ensures ValidateDate(outOfRange) == Err(ValueError(DateValue))
    ensures ValidateDate(valid) == Ok(())
  {
    assert DateShape(outOfRange) && DateFields(outOfRange) == Date(2017, 1, 80);
    assert DateShape(valid) && DateFields(valid) == Date(2017, 1, 1);
  }

  // ---------------------------------------------------------------- validate_file

  /** The `k`-th call of `file.readline()` from the start: that line, or "" at
      the end of the file. */
  function ReadLine(lines: seq<string>, k: nat): string {
    if k < |lines| then lines[k] else ""
  }

  lemma JoinHeaderFields()
    ensures Join(HeaderFields, ',') == Header
  {
    assert HeaderFields[1..] == ["timestamp\n"];
  }

  /** Comparing the split first line with `['cookie', 'timestamp\n']` is
      comparing the line itself with `Header`. */
  lemma HeaderFieldsExact(line: string)
    ensures Split(line, ',') == HeaderFields <==> line == Header
  {
    JoinHeaderFields();
    if line == Header {
      assert ',' !in HeaderFields[0] && ',' !in HeaderFields[1];
      SplitOfJoin(HeaderFields, ',');
    }
  }

  /** The body of `validate_file` once the file is open: the header, then the
      timestamp field of the first data row. A second line without a comma
      (or no second line) makes `split(',')[1]` raise `IndexError`. */
  function ValidateLines(lines: seq<string>): (r: Result<()>)
    ensures r.Err? ==> r.error == RuntimeError(FileFormat) || r.error == IndexError
    ensures r.Ok? ==> |lines| >= 2 && Split(lines[0], ',') == HeaderFields
    ensures r == Err(IndexError) <==>
      |lines| >= 1 && Split(lines[0], ',') == HeaderFields && (|lines| == 1 || ',' !in lines[1])
  {
    var header := ReadLine(lines, 0);
    if Split(header, ',') != HeaderFields then Err(RuntimeError(FileFormat))
    else
      var fields := Split(ReadLine(lines, 1), ',');
      if |fields| < 2 then Err(IndexError)
      else
        var stamp := fields[1];
        if |stamp| != 26 || !PlusStampShape(stamp) then Err(RuntimeError(FileFormat))
        else Ok(())
  }

  /** `validate_file`: a missing path or anything but a regular file is a
      `RuntimeError`, a file `open` refuses raises its `OSError`; otherwise the
      checks of `ValidateLines` on its lines. */
  function ValidateFile(entry: FsEntry): (r: Result<()>)
    ensures r.Err? ==> r.error.RuntimeError? || r.error == IndexError || r.error == OSError
    ensures entry.Missing? || entry.NotRegularFile? ==> r == Err(RuntimeError(NoSuchFile))
    ensures entry.Unreadable? ==> r == Err(OSError)
    ensures r.Ok? ==> entry.RegularFile? && |entry.text| >= |Header| && entry.text[..|Header|] == Header
    ensures entry.RegularFile? && !(|entry.text| >= |Header| && entry.text[..|Header|] == Header) ==>
      r == Err(RuntimeError(FileFormat))
  {
    match entry
    case RegularFile(text) =>
      var lines := Lines(text);
      if |lines| == 0 then ValidateLines(lines)
      else
        HeaderFieldsExact(lines[0]);
        assert text == lines[0] + Concat(lines[1..]);
        ValidateLines(lines)
    case Unreadable => Err(OSError)
    case _ => Err(RuntimeError(NoSuchFile))
  }

  /** Past a first line whose fields are the expected ones, the file check
      looks at the second field of the second line only. */
  lemma ValidateLinesAfterHeader(header: string, row: string, rest: seq<string>)
    requires Split(header, ',') == HeaderFields && |Split(row, ',')| >= 2
    ensures var field := Split(row, ',')[1];
      ValidateLines([header, row] + rest)
        == if |field| == 26 && PlusStampShape(field) then Ok(()) else Err(RuntimeError(FileFormat))
  {
    ValidateTwoLines(header, row, rest);
  }

  /** The file check on a file of at least two lines, read off its first two. */
  lemma ValidateTwoLines(header: string, row: string, rest: seq<string>)
    ensures ValidateLines([header, row] + rest) ==
      if Split(header, ',') != HeaderFields then Err(RuntimeError(FileFormat))
      else if |Split(row, ',')| < 2 then Err(IndexError)
      else if |Split(row, ',')[1]| != 26 || !PlusStampShape(Split(row, ',')[1]) then Err(RuntimeError(FileFormat))
      else Ok(())
  {
    var lines := [header, row] + rest;
    assert ReadLine(lines, 0) == header && ReadLine(lines, 1) == row;
  }

  /** The file check on a first line `header` whose fields are the expected
      ones and a row `cookie,timestamp\n`. */
  lemma FirstRowAfter(header: string, cookie: string, stamp: string, rest: seq<string>)
    requires Split(header, ',') == HeaderFields
    requires ',' !in cookie && |stamp| == 25 && StampShape(stamp)
    ensures ValidateLines([header, cookie + [','] + (stamp + ['\n'])] + rest)
         == if stamp[19] == '+' then Ok(()) else Err(RuntimeError(FileFormat))
  {
    var field := stamp + ['\n'];
    var row := cookie + [','] + field;
    StampWithNewline(stamp);
    assert field == stamp + "\n";
    SplitPair(cookie, field, ',');
    ValidateLinesAfterHeader(header, row, rest);
  }

  /** A header followed by a row `cookie,timestamp\n` passes the file check
      exactly when the timestamp has the shape with a `+` offset; a `-` offset
      is refused. */
  lemma FirstRowCheck(cookie: string, stamp: string, rest: seq<string>)
    requires ',' !in cookie && |stamp| == 25 && StampShape(stamp)
    ensures ValidateLines([Header, cookie + [','] + (stamp + ['\n'])] + rest).Ok? <==> stamp[19] == '+'
    ensures stamp[19] == '-' ==> ValidateLines([Header, cookie + [','] + (stamp + ['\n'])] + rest) == Err(RuntimeError(FileFormat))
  {
    HeaderFieldsExact(Header);
    FirstRowAfter(Header, cookie, stamp, rest);
  }

  /** A first data row at the very end of the file without its '\n' is refused:
      its timestamp field is 25 characters, not 26. */
  lemma UnterminatedFirstRowRejected(cookie: string, stamp: string)
    requires ',' !in cookie && ',' !in stamp && |stamp| == 25
    ensures ValidateLines([Header, cookie + "," + stamp]) == Err(RuntimeError(FileFormat))
  {
    assert cookie + "," + stamp == Join([cookie, stamp], ',');
    SplitOfJoin([cookie, stamp], ',');
  }

  // ---------------------------------------------------------------- get_date_cookies

  /** One data row once unpacked and parsed. */
  datatype Row = Row(cookie: string, stamp: Timestamp)

  /** One step of the loop of `get_date_cookies`: `r_cookie, r_date =
      row.split(',')` raises unless there are exactly two fields, then
      `strptime(r_date.rstrip('\n'), ...)` raises unless the timestamp is valid. */
  function ParseRow(line: string): (r: Result<Row>)
    ensures r.Err? ==> r.error == ValueError(RowShape) || r.error == ValueError(TimestampValue)
    ensures r.Err? ==> (r.error == ValueError(RowShape) <==> |Split(line, ',')| != 2)
    ensures r.Ok? ==> ',' !in r.value.cookie && IsValidTimestamp(r.value.stamp)
  {
    var fields := Split(line, ',');
    if |fields| != 2 then Err(ValueError(RowShape))
    else match ParseTimestamp(RStripNewlines(fields[1]))
      case None => Err(ValueError(TimestampValue))
      case Some(t) => Ok(Row(fields[0], t))
  }

  /** The line a log writer puts down for a row. */
  function FormatRow(row: Row): string
    requires IsValidTimestamp(row.stamp)
  {
    row.cookie + [','] + FormatTimestamp(row.stamp) + ['\n']
  }

  /** Parsing the line written for a row gives that row back. */
  lemma ParseOfFormatRow(row: Row)
    requires ',' !in row.cookie && IsValidTimestamp(row.stamp)
    ensures ParseRow(FormatRow(row)) == Ok(row)
  {
    var stamp := FormatTimestamp(row.stamp);
    var field := stamp + "\n";
    StampHasNoComma(stamp);
    assert stamp[..25] == stamp;
    assert FormatRow(row) == row.cookie + [','] + field;
    SplitPair(row.cookie, field, ',');
    assert RStripNewlines(field) == stamp;
    ParseOfFormatTimestamp(row.stamp);
  }

  /** Every line that parses is the line written for what it parsed to,
      followed by nothing but newlines, or cut short of its own newline. */
  lemma FormatOfParseRow(line: string)
    requires ParseRow(line).Ok?
    ensures var row := ParseRow(line).value;
      var written := row.cookie + [','] + FormatTimestamp(row.stamp);
      |written| <= |line| && line[..|written|] == written
      && forall k :: |written| <= k < |line| ==> line[k] == '\n'
  {
    var fields := Split(line, ',');
    var stamp := RStripNewlines(fields[1]);
    FormatOfParseTimestamp(stamp);
    assert line == fields[0] + [','] + fields[1] by {
      assert line == Join(fields, ',');
      assert fields[1..] == [fields[1]];
    }
    NewlinesAfterField(line, fields[0], fields[1], stamp);
  }

  /** The text before a field's trailing newlines, in a line of two fields. */
  lemma NewlinesAfterField(line: string, cookie: string, field: string, stamp: string)
    requires line == cookie + [','] + field && stamp <= field
    requires forall k :: |stamp| <= k < |field| ==> field[k] == '\n'
    ensures var written := cookie + [','] + stamp;
      |written| <= |line| && line[..|written|] == written
      && forall k :: |written| <= k < |line| ==> line[k] == '\n'
  {
    var written := cookie + [','] + stamp;
    assert field == stamp + field[|stamp|..];
    assert line == written + field[|stamp|..];
  }

  /** The parse of each data row, in file order. */
  function ParseRows(lines: seq<string>): (parsed: seq<Result<Row>>)
    ensures |parsed| == |lines|
    ensures forall i :: 0 <= i < |lines| ==> parsed[i] == ParseRow(lines[i])
  {
    if |lines| == 0 then [] else [ParseRow(lines[0])] + ParseRows(lines[1..])
  }

  /** The loop of `get_date_cookies` over rows already parsed, taken in file
      order: the cookies of the rows dated `target`; the first row that raised
      aborts the whole pass with its exception. The day is the one written in
      the timestamp, whatever its UTC offset. */
  function Collect(parsed: seq<Result<Row>>, target: Date): (r: Result<seq<string>>)
    ensures r.Ok? ==> |r.value| <= |parsed|
    ensures r.Err? ==> Err(r.error) in parsed
  {
    if |parsed| == 0 then Ok([])
    else
      var cookies :- Collect(parsed[..|parsed| - 1], target);
      var row :- parsed[|parsed| - 1];
      Ok(if row.stamp.date == target then cookies + [row.cookie] else cookies)
  }

  /** The pass succeeds exactly when every row parsed. */
  lemma {:induction false} CollectSucceedsIffAllRowsParse(parsed: seq<Result<Row>>, target: Date)
    ensures Collect(parsed, target).Ok? <==> forall i :: 0 <= i < |parsed| ==> parsed[i].Ok?
  {
    if |parsed| > 0 {
      var init := parsed[..|parsed| - 1];
      CollectSucceedsIffAllRowsParse(init, target);
      assert forall i :: 0 <= i < |init| ==> init[i] == parsed[i];
    }
  }

  /** A failed pass reports the exception of the first row that did not parse. */
  lemma {:induction false} CollectFailsOnFirstBadRow(parsed: seq<Result<Row>>, target: Date)
    requires Collect(parsed, target).Err?
    ensures exists i :: (0 <= i < |parsed| && parsed[i].Err?
      && Collect(parsed, target).error == parsed[i].error
      && forall j :: 0 <= j < i ==> parsed[j].Ok?)
  {
    var init := parsed[..|parsed| - 1];
    assert forall j :: 0 <= j < |init| ==> init[j] == parsed[j];
    if Collect(init, target).Err? {
      CollectFailsOnFirstBadRow(init, target);
      var k :| 0 <= k < |init| && init[k].Err?
        && Collect(init, target).error == init[k].error
        && forall j :: 0 <= j < k ==> init[j].Ok?;
      assert parsed[k] == init[k];
    } else {
      CollectSucceedsIffAllRowsParse(init, target);
      assert parsed[|parsed| - 1].Err?;
    }
  }

  /** A row of the pass that carries cookie `c` and is dated `target`. */
  predicate CarriesOn(p: Result<Row>, target: Date, c: string) {
    p.Ok? && p.value.stamp.date == target && p.value.cookie == c
  }

  /** A successful pass returns the cookie of every row dated `target` and of
      no other row. */
  lemma {:induction false} CollectIsTheTargetDaysCookies(parsed: seq<Result<Row>>, target: Date, c: string)
    requires Collect(parsed, target).Ok?
    ensures c in Collect(parsed, target).value <==> exists i :: 0 <= i < |parsed| && CarriesOn(parsed[i], target, c)
  {
    if |parsed| > 0 {
      var init, last := parsed[..|parsed| - 1], parsed[|parsed| - 1];
      CollectIsTheTargetDaysCookies(init, target, c);
      if exists i :: 0 <= i < |parsed| && CarriesOn(parsed[i], target, c) {
        var i :| 0 <= i < |parsed| && CarriesOn(parsed[i], target, c);
        if i < |init| {
          assert init[i] == parsed[i];
        }
      }
      if exists i :: 0 <= i < |init| && CarriesOn(init[i], target, c) {
        var i :| 0 <= i < |init| && CarriesOn(init[i], target, c);
        assert parsed[i] == init[i];
      }
    }
  }

  /** One more row that parsed adds its cookie when it is dated `target`, and
      nothing otherwise. */
  lemma CollectSnoc(a: seq<Result<Row>>, p: Result<Row>, target: Date)
    requires Collect(a, target).Ok? && p.Ok?
    ensures p.value.stamp.date == target ==> Collect(a + [p], target) == Ok(Collect(a, target).value + [p.value.cookie])
    ensures p.value.stamp.date != target ==> Collect(a + [p], target) == Collect(a, target)
  {
    assert (a + [p])[..|a|] == a;
  }

  /** Once the pass has failed, the rows after do not change its outcome. */
  lemma {:induction false} CollectFailureSticks(a: seq<Result<Row>>, b: seq<Result<Row>>, target: Date)
    requires Collect(a, target).Err?
    ensures Collect(a + b, target) == Collect(a, target)
    decreases |b|
  {
    if |b| == 0 {
      assert a + b == a;
    } else {
      var init := b[..|b| - 1];
      CollectFailureSticks(a, init, target);
      assert (a + b)[..|a + b| - 1] == a + init;
    }
  }

  /** A row that raised, after a prefix that parsed, ends the pass with its
      exception whatever follows it. */
  lemma CollectStopsAt(a: seq<Result<Row>>, p: Result<Row>, b: seq<Result<Row>>, target: Date)
    requires Collect(a, target).Ok? && p.Err?
    ensures Collect(a + [p] + b, target) == Err(p.error)
  {
    assert (a + [p])[..|a|] == a;
    assert Collect(a + [p], target) == Err(p.error);
    CollectFailureSticks(a + [p], b, target);
  }

  /** One step of the pass, from the first `i` rows to the first `i + 1`. */
  lemma CollectStep(parsed: seq<Result<Row>>, i: nat, target: Date)
    requires i < |parsed| && Collect(parsed[..i], target).Ok? && parsed[i].Ok?
    ensures var cookies, row := Collect(parsed[..i], target).value, parsed[i].value;
      Collect(parsed[..i + 1], target) == Ok(if row.stamp.date == target then cookies + [row.cookie] else cookies)
  {
    assert parsed[..i + 1] == parsed[..i] + [parsed[i]];
    CollectSnoc(parsed[..i], parsed[i], target);
  }

  /** A row that did not parse after `i` good ones is the outcome of the whole pass. */
  lemma CollectStepFails(parsed: seq<Result<Row>>, i: nat, target: Date)
    requires i < |parsed| && Collect(parsed[..i], target).Ok? && parsed[i].Err?
    ensures Collect(parsed, target) == Err(parsed[i].error)
  {
    assert parsed == parsed[..i] + [parsed[i]] + parsed[i + 1..];
    CollectStopsAt(parsed[..i], parsed[i], parsed[i + 1..], target);
  }

  /** The pass over a single row: its cookie when it is dated `target`,
      nothing when it is not, its exception when it raised. */
  lemma CollectOfOne(p: Result<Row>, target: Date)
    ensures p.Err? ==> Collect([p], target) == Err(p.error)
    ensures p.Ok? ==> Collect([p], target) == Ok(if p.value.stamp.date == target then [p.value.cookie] else [])
  {
    assert [p][..0] == [];
    if p.Ok? {
      assert [] + [p.value.cookie] == [p.value.cookie];
    }
  }

  /** The pass over two runs of rows, one after the other: after a first run
      that parsed, the cookies of the second follow those of the first, or
      the second run's exception ends the pass. */
  lemma {:induction false} CollectAppend(a: seq<Result<Row>>, b: seq<Result<Row>>, target: Date)
    requires Collect(a, target).Ok?
    ensures Collect(b, target).Ok? ==>
      Collect(a + b, target) == Ok(Collect(a, target).value + Collect(b, target).value)
    ensures Collect(b, target).Err? ==> Collect(a + b, target) == Collect(b, target)
    decreases |b|
  {
    if |b| == 0 {
      assert a + b == a && Collect(a, target).value + [] == Collect(a, target).value;
    } else {
      var init, last := b[..|b| - 1], b[|b| - 1];
      CollectAppend(a, init, target);
      assert (a + b)[..|a + b| - 1] == a + init && (a + b)[|a + b| - 1] == last;
      if Collect(b, target).Ok? {
        var before, mid := Collect(a, target).value, Collect(init, target).value;
        var row := last.value;
        assert (before + mid) + [row.cookie] == before + (mid + [row.cookie]);
      }
    }
  }

  /** Some row before position `k` carries `c` and is dated `target`. */
  ghost predicate RowBefore(parsed: seq<Result<Row>>, target: Date, c: string, k: nat) {
    exists i :: 0 <= i < k && i < |parsed| && CarriesOn(parsed[i], target, c)
  }

  /** `printed` lists its cookies in the order of their first rows dated
      `target`: every such row of a listed cookie comes after such a row of
      each cookie listed before it. */
  ghost predicate InFirstRowOrder(printed: seq<string>, parsed: seq<Result<Row>>, target: Date) {
    forall i, j, k :: 0 <= i < j < |printed| && 0 <= k < |parsed| && CarriesOn(parsed[k], target, printed[j]) ==>
      RowBefore(parsed, target, printed[i], k)
  }

  /** Around row `k` of a successful pass: the cookies of the rows before it
      start the result, and a row dated `target` puts its cookie right after them. */
  lemma CollectAroundRow(parsed: seq<Result<Row>>, target: Date, k: nat)
    requires Collect(parsed, target).Ok? && k < |parsed|
    ensures parsed[k].Ok? && Collect(parsed[..k], target).Ok?
    ensures var cookies, before := Collect(parsed, target).value, Collect(parsed[..k], target).value;
      && before <= cookies
      && (parsed[k].value.stamp.date == target ==> |before| < |cookies| && cookies[|before|] == parsed[k].value.cookie)
  {
    var pre, rest := parsed[..k], parsed[k + 1..];
    assert parsed == pre + ([parsed[k]] + rest);
    CollectSucceedsIffAllRowsParse(parsed, target);
    CollectSucceedsIffAllRowsParse(pre, target);
    CollectSucceedsIffAllRowsParse(rest, target);
    assert forall i :: 0 <= i < |pre| ==> pre[i] == parsed[i];
    assert forall i :: 0 <= i < |rest| ==> rest[i] == parsed[k + 1 + i];
    CollectOfOne(parsed[k], target);
    CollectAppend([parsed[k]], rest, target);
    CollectAppend(pre, [parsed[k]] + rest, target);
  }

  /** In the cookies of a successful pass, a cookie whose first occurrence
      comes before that of `d` has a row dated `target` before every such row
      of `d`. */
  lemma EarlierCookieHasEarlierRow(parsed: seq<Result<Row>>, target: Date, c: string, d: string, k: nat)
    requires Collect(parsed, target).Ok?
    requires c in Collect(parsed, target).value && d in Collect(parsed, target).value
    requires IndexOf(Collect(parsed, target).value, c) < IndexOf(Collect(parsed, target).value, d)
    requires k < |parsed| && CarriesOn(parsed[k], target, d)
    ensures RowBefore(parsed, target, c, k)
  {
    var cookies := Collect(parsed, target).value;
    CollectAroundRow(parsed, target, k);
    var pre := parsed[..k];
    var before := Collect(pre, target).value;
    assert cookies[|before|] == d;
    var at := IndexOf(cookies, c);
    assert at < |before|;
    assert before[at] == c;
    CollectIsTheTargetDaysCookies(pre, target, c);
    var i :| 0 <= i < |pre| && CarriesOn(pre[i], target, c);
    assert pre[i] == parsed[i];
  }

  /** How many parsed rows dated `target` carry the cookie `c`. */
  function RowsWith(parsed: seq<Result<Row>>, target: Date, c: string): nat {
    if |parsed| == 0 then 0
    else RowsWith(parsed[..|parsed| - 1], target, c) + if CarriesOn(parsed[|parsed| - 1], target, c) then 1 else 0
  }

  /** Each cookie occurs in the collected list once per row of the target day
      that carries it. */
  lemma {:induction false} CountIsRowsWith(parsed: seq<Result<Row>>, target: Date, c: string)
    requires Collect(parsed, target).Ok?
    ensures Count(Collect(parsed, target).value, c) == RowsWith(parsed, target, c)
  {
    if |parsed| > 0 {
      var init := parsed[..|parsed| - 1];
      CountIsRowsWith(init, target, c);
      var cookies := Collect(init, target).value;
      var row := parsed[|parsed| - 1].value;
      if row.stamp.date == target {
        assert multiset(cookies + [row.cookie]) == multiset(cookies) + multiset{row.cookie};
      }
    }
  }

  /** `get_date_cookies` on the lines of the file: the first line, whatever it
      is, is skipped by `readline`. */
  function DateCookies(lines: seq<string>, target: Date): (r: Result<seq<string>>)
    ensures r.Err? ==> r.error == ValueError(RowShape) || r.error == ValueError(TimestampValue)
  {
    if |lines| == 0 then Ok([])
    else
      Collect(ParseRows(lines[1..]), target)
  }

  /** After the header, the extraction is the single pass over the parsed rows. */
  lemma DateCookiesOfRows(lines: seq<string>, target: Date)
    requires |lines| > 0
    ensures DateCookies(lines, target) == Collect(ParseRows(lines[1..]), target)
  {
  }

  /** What the extraction promises: it succeeds exactly when every line after
      the first parses as a row, and then returns the cookie of every such row
      dated `target` and of no other line; the header never contributes. */
  lemma DateCookiesSpec(lines: seq<string>, target: Date)
    ensures DateCookies(lines, target).Ok? <==> forall i :: 1 <= i < |lines| ==> ParseRow(lines[i]).Ok?
    ensures DateCookies(lines, target).Ok? ==> forall c :: c in DateCookies(lines, target).value <==>
      exists i :: 1 <= i < |lines| && CarriesOn(ParseRow(lines[i]), target, c)
  {
    if |lines| > 0 {
      var parsed := ParseRows(lines[1..]);
      DateCookiesOfRows(lines, target);
      CollectSucceedsIffAllRowsParse(parsed, target);
      assert forall i :: 1 <= i < |lines| ==> parsed[i - 1] == ParseRow(lines[i]);
      if Collect(parsed, target).Ok? {
        forall c | true
          ensures c in Collect(parsed, target).value <==> exists i :: 1 <= i < |lines| && CarriesOn(ParseRow(lines[i]), target, c)
        {
          CollectIsTheTargetDaysCookies(parsed, target, c);
          if exists i :: 0 <= i < |parsed| && CarriesOn(parsed[i], target, c) {
            var i :| 0 <= i < |parsed| && CarriesOn(parsed[i], target, c);
            assert parsed[i] == ParseRow(lines[i + 1]);
          }
        }
      }
    }
  }

  /** The parses of two runs of lines, one after the other. */
  lemma ParseRowsAppend(a: seq<string>, b: seq<string>)
    ensures ParseRows(a + b) == ParseRows(a) + ParseRows(b)
  {
    assert forall i :: 0 <= i < |a + b| ==> (a + b)[i] == if i < |a| then a[i] else b[i - |a|];
  }

  /** A successful pass over two runs of rows passes over the first run too,
      and the first run's cookies start the result. */
  lemma CollectPrefix(a: seq<Result<Row>>, b: seq<Result<Row>>, target: Date)
    requires Collect(a + b, target).Ok?
    ensures Collect(a, target).Ok? && Collect(a, target).value <= Collect(a + b, target).value
  {
    if Collect(a, target).Err? {
      CollectFailureSticks(a, b, target);
    }
    CollectAppend(a, b, target);
  }

  /** The extraction keeps file order: reading further into the file only adds
      cookies after those already collected, so the cookies of the first `k`
      lines are the start of the cookies of the whole file. */
  lemma DateCookiesInFileOrder(lines: seq<string>, k: nat, target: Date)
    requires 1 <= k <= |lines| && DateCookies(lines, target).Ok?
    ensures DateCookies(lines[..k], target).Ok?
    ensures DateCookies(lines[..k], target).value <= DateCookies(lines, target).value
  {
    DateCookiesOfPrefix(lines, k, target);
    DateCookiesOfSplit(lines, k, target);
    CollectPrefix(ParseRows(lines[1..k]), ParseRows(lines[k..]), target);
  }

  /** The first `k` lines are the header and the rows before line `k`. */
  lemma DateCookiesOfPrefix(lines: seq<string>, k: nat, target: Date)
    requires 1 <= k <= |lines|
    ensures DateCookies(lines[..k], target) == Collect(ParseRows(lines[1..k]), target)
  {
    assert lines[..k][1..] == lines[1..k];
    DateCookiesOfRows(lines[..k], target);
  }

  /** The rows of the file are those before line `k` followed by the rest. */
  lemma DateCookiesOfSplit(lines: seq<string>, k: nat, target: Date)
    requires 1 <= k <= |lines|
    ensures DateCookies(lines, target) == Collect(ParseRows(lines[1..k]) + ParseRows(lines[k..]), target)
  {
    assert lines[1..] == lines[1..k] + lines[k..];
    DateCookiesOfRows(lines, target);
    ParseRowsAppend(lines[1..k], lines[k..]);
  }

  /** `get_date_cookies` as the program runs it: `readline` past the header,
      then one pass over the remaining rows that parses each in turn and stops
      at the first that raises. */
  method GetDateCookies(lines: seq<string>, target: Date) returns (r: Result<seq<string>>)
    ensures r == DateCookies(lines, target)
  {
    if |lines| == 0 {
      return Ok([]);
    }
    var rows := lines[1..];
    ghost var parsed := ParseRows(rows);
    DateCookiesOfRows(lines, target);
    var cookies: seq<string> := [];
    var i := 0;
    while i < |rows|
      invariant 0 <= i <= |rows|
      invariant Collect(parsed[..i], target) == Ok(cookies)
    {
      var row := ParseRow(rows[i]);
      if row.Err? {
        CollectStepFails(parsed, i, target);
        return Err(row.error);
      }
      CollectStep(parsed, i, target);
      if row.value.stamp.date == target {
        cookies := cookies + [row.value.cookie];
      }
      i := i + 1;
    }
    assert parsed[..i] == parsed;
    r := Ok(cookies);
  }

  // ---------------------------------------------------------------- find_most_active_cookie

  /** The first loop of `find_most_active_cookie`: the dict `freq` as a map,
      and `order`, the insertion order that `freq.items()` follows. */
  method TallyCookies(cookies: seq<string>) returns (freq: map<string, nat>, order: seq<string>)
    ensures freq == Tally(cookies) && order == Distinct(cookies)
  {
    freq, order := map[], [];
    var i := 0;
    while i < |cookies|
      invariant 0 <= i <= |cookies|
      invariant freq == Tally(cookies[..i]) && order == Distinct(cookies[..i])
    {
      var cookie := cookies[i];
      ghost var seen := cookies[..i];
      assert cookies[..i + 1] == seen + [cookie];
      TallyStep(seen, cookie, freq, order);
      if cookie in freq {
        freq := freq[cookie := freq[cookie] + 1];
      } else {
        freq := freq[cookie := 1];
        order := order + [cookie];
      }
      i := i + 1;
    }
    assert cookies[..i] == cookies;
  }

  /** `max(freq.values())`. */
  method HighestCount(cookies: seq<string>, freq: map<string, nat>, order: seq<string>) returns (most: nat)
    requires freq == Tally(cookies) && order == Distinct(cookies)
    ensures most == Highest(cookies)
  {
    most := 0;
    var k := 0;
    while k < |order|
      invariant 0 <= k <= |order|
      invariant most == MaxCount(order[..k], cookies)
    {
      assert order[..k + 1][..k] == order[..k] && order[..k + 1][k] == order[k];
      KeyOrderInTally(cookies, k);
      if freq[order[k]] > most {
        most := freq[order[k]];
      }
      k := k + 1;
    }
    assert order[..k] == order;
  }

  /** The second loop: the cookies whose count is `most`, in insertion order. */
  method CookiesWithCount(cookies: seq<string>, freq: map<string, nat>, order: seq<string>, most: nat)
    returns (emitted: seq<string>)
    requires freq == Tally(cookies) && order == Distinct(cookies)
    ensures emitted == WithCount(Distinct(cookies), cookies, most)
  {
    emitted := [];
    var k := 0;
    while k < |order|
      invariant 0 <= k <= |order|
      invariant emitted == WithCount(order[..k], cookies, most)
    {
      assert order[..k + 1][..k] == order[..k];
      KeyOrderInTally(cookies, k);
      if freq[order[k]] == most {
        emitted := emitted + [order[k]];
      }
      k := k + 1;
    }
    assert order[..k] == order;
  }

  /** `find_most_active_cookie`: count, take the highest count, emit every
      cookie that has it. Nothing is emitted for an empty list. */
  method FindMostActiveCookie(cookies: seq<string>) returns (emitted: seq<string>)
    ensures emitted == MostActive(cookies)
    ensures |emitted| == 0 <==> |cookies| == 0
    ensures forall c :: c in emitted <==> IsMostFrequent(cookies, c)
    ensures NoDuplicates(emitted) && FirstOccurrenceOrder(emitted, cookies)
  {
    MostActiveIsArgmax(cookies);
    MostActiveInFirstOccurrenceOrder(cookies);
    emitted := [];
    if |cookies| == 0 {
      return;
    }
    var freq, order := TallyCookies(cookies);
    var most := HighestCount(cookies, freq, order);
    emitted := CookiesWithCount(cookies, freq, order, most);
  }

  // ---------------------------------------------------------------- cli

  /** The exceptions `cli` catches around the two checks. */
  predicate IsCaught(e: Exception) {
    e.RuntimeError? || e.ValueError?
  }

  /** The two checks in the order `cli` runs them: the file is not looked at
      when the date is refused. */
  function Validate(date: string, entry: FsEntry): Result<()> {
    var _ :- ValidateDate(date);
    ValidateFile(entry)
  }

  /** `cli`: a caught exception of the checks is reported on stderr (exit
      status 0); an uncaught one, or any exception after the checks, ends the
      program; otherwise the cookies of the target day go through
      `find_most_active_cookie`. */
  function Cli(date: string, entry: FsEntry): (o: Outcome)
    ensures o.Reported? ==> o.channel == Stderr && IsCaught(o.error) && Validate(date, entry) == Err(o.error)
    ensures ValidateDate(date).Err? ==> o == Reported(Stderr, ValidateDate(date).error)
    ensures o.Crashed? ==>
      || o.error == IndexError
      || o.error == OSError
      || o.error == ValueError(RowShape)
      || o.error == ValueError(TimestampValue)
    ensures o.Emitted? ==> ValidateDate(date).Ok? && ValidateFile(entry).Ok?
  {
    match Validate(date, entry)
    case Err(e) => if IsCaught(e) then Reported(Stderr, e) else Crashed(e)
    case Ok(_) =>
      var target := ParseIsoDate(date).value;
      match DateCookies(Lines(entry.text), target)
      case Err(e) => Crashed(e)
      case Ok(cookies) => Emitted(MostActive(cookies))
  }

  /** The rows of the target day in the file of a run. */
  function DayRows(entry: FsEntry): seq<Result<Row>>
    requires entry.RegularFile?
  {
    var lines := Lines(entry.text);
    if |lines| == 0 then [] else ParseRows(lines[1..])
  }

  /** `c` has at least one row dated `target`, and no cookie has more. */
  ghost predicate HasMostRows(parsed: seq<Result<Row>>, target: Date, c: string) {
    RowsWith(parsed, target, c) > 0 && forall d :: RowsWith(parsed, target, d) <= RowsWith(parsed, target, c)
  }

  /** The most frequent cookies of a successful pass are the cookies with the
      most rows dated `target`, each once. */
  lemma MostActiveOfCollect(parsed: seq<Result<Row>>, target: Date)
    requires Collect(parsed, target).Ok?
    ensures var printed := MostActive(Collect(parsed, target).value);
      && NoDuplicates(printed)
      && forall c :: c in printed <==>
           HasMostRows(parsed, target, c)
  {
    var cookies := Collect(parsed, target).value;
    MostActiveIsArgmax(cookies);
    MostActiveInFirstOccurrenceOrder(cookies);
    forall c
      ensures c in MostActive(cookies) <==>
        HasMostRows(parsed, target, c)
    {
      CountIsRowsWith(parsed, target, c);
      if c in MostActive(cookies) {
        forall d ensures RowsWith(parsed, target, d) <= RowsWith(parsed, target, c) {
          CountIsRowsWith(parsed, target, d);
        }
      }
      if HasMostRows(parsed, target, c) {
        forall d | d in cookies ensures Count(cookies, d) <= Count(cookies, c) {
          CountIsRowsWith(parsed, target, d);
        }
      }
    }
  }

  /** The most frequent cookies of a successful pass come in the order of
      their first rows dated `target`. */
  lemma MostActiveInFirstRowOrder(parsed: seq<Result<Row>>, target: Date)
    requires Collect(parsed, target).Ok?
    ensures InFirstRowOrder(MostActive(Collect(parsed, target).value), parsed, target)
  {
    var cookies := Collect(parsed, target).value;
    var printed := MostActive(cookies);
    MostActiveInFirstOccurrenceOrder(cookies);
    forall i, j, k | 0 <= i < j < |printed| && 0 <= k < |parsed| && CarriesOn(parsed[k], target, printed[j])
      ensures RowBefore(parsed, target, printed[i], k)
    {
      EarlierCookieHasEarlierRow(parsed, target, printed[i], printed[j], k);
    }
  }

  /** Past the checks, a run prints the most frequent cookies of the pass over
      its data rows, or ends with the pass's exception. */
  lemma CliAfterChecks(date: string, entry: FsEntry)
    requires Validate(date, entry).Ok?
    ensures entry.RegularFile? && |date| == 10 && DateShape(date) && ParseIsoDate(date).Some?
    ensures Cli(date, entry) == match Collect(DayRows(entry), ParseIsoDate(date).value)
      case Ok(cookies) => Emitted(MostActive(cookies))
      case Err(e) => Crashed(e)
  {
    var lines := Lines(entry.text);
    assert |lines| > 0;
  }

  /** What a run prints, end to end: it prints exactly when both checks pass and
      every data row parses, and then it prints, once each, every cookie whose
      number of rows on the target day is the highest and at least one, in the
      order of their first rows on that day. */
  lemma CliPrintsMostActiveCookies(date: string, entry: FsEntry)
    ensures Cli(date, entry).Emitted? <==>
      Validate(date, entry).Ok? && forall i :: 0 <= i < |DayRows(entry)| ==> DayRows(entry)[i].Ok?
    ensures Cli(date, entry).Emitted? ==>
      var target, parsed, printed := ParseIsoDate(date).value, DayRows(entry), Cli(date, entry).cookies;
      && NoDuplicates(printed)
      && (forall c :: c in printed <==> HasMostRows(parsed, target, c))
      && InFirstRowOrder(printed, parsed, target)
  {
    if Validate(date, entry).Ok? {
      CliAfterChecks(date, entry);
      var target, parsed := ParseIsoDate(date).value, DayRows(entry);
      CollectSucceedsIffAllRowsParse(parsed, target);
      if Collect(parsed, target).Ok? {
        MostActiveOfCollect(parsed, target);
        MostActiveInFirstRowOrder(parsed, target);
      }
    }
  }

  /** A run whose checks fail ends there: the exception is reported when it is
      caught and ends the program otherwise. */
  lemma CliOfRefusedRun(date: string, entry: FsEntry)
    requires Validate(date, entry).Err?
    ensures var e := Validate(date, entry).error;
      Cli(date, entry) == if IsCaught(e) then Reported(Stderr, e) else Crashed(e)
  {
  }

  /** A refused date is reported before the path is looked at: whatever is
      there, the run is the same. */
  lemma DateRefusalIgnoresFile(date: string, entry: FsEntry, other: FsEntry)
    requires ValidateDate(date).Err?
    ensures Cli(date, entry) == Cli(date, other)
  {
  }

  /** A regular file that `open` refuses raises an `OSError`, which `cli` does
      not catch: the run ends with exit status 1. */
  lemma UnreadableFileCrashes(date: string)
    requires ValidateDate(date).Ok?
    ensures Cli(date, Unreadable) == Crashed(OSError) && ExitStatus(Cli(date, Unreadable)) == 1
  {
  }

  /** A file that holds only the header passes the header check and then makes
      `split(',')[1]` on the missing second line raise `IndexError`, which
      `cli` does not catch: the run crashes instead of printing nothing. */
  lemma HeaderOnlyFileCrashes(date: string, text: string)
    requires ValidateDate(date).Ok? && text == Header
    ensures Cli(date, RegularFile(text)) == Crashed(IndexError)
  {
    HeaderOnlyRunRefused(date, text);
    IndexErrorCrashes(date, RegularFile(text));
  }

  /** The `IndexError` of the checks escapes `cli`. */
  lemma IndexErrorCrashes(date: string, entry: FsEntry)
    requires Validate(date, entry) == Err(IndexError)
    ensures Cli(date, entry) == Crashed(IndexError)
  {
  }

  /** With a date that passes, the checks of a header-only run end in `IndexError`. */
  lemma HeaderOnlyRunRefused(date: string, text: string)
    requires ValidateDate(date).Ok? && text == Header
    ensures Validate(date, RegularFile(text)) == Err(IndexError)
  {
    HeaderOnlyFileFailsCheck(text);
  }

  lemma HeaderIsLine()
    ensures IsLine(Header)
  {
    assert Header[..|Header| - 1] == "cookie,timestamp";
  }

  /** A file of one line is checked as that line alone. */
  lemma ValidateFileOfOneLine(text: string)
    requires IsLine(text)
    ensures ValidateFile(RegularFile(text)) == ValidateLines([text])
  {
    var lines := Lines(text);
    assert ValidateFile(RegularFile(text)) == ValidateLines(lines);
    LinesOfOneLine(text);
  }

  /** The file check on a file holding only the header raises `IndexError`. */
  lemma HeaderOnlyFileFailsCheck(text: string)
    requires text == Header
    ensures ValidateFile(RegularFile(text)) == Err(IndexError)
  {
    HeaderIsLine();
    HeaderFieldsExact(text);
    ValidateFileOfOneLine(text);
  }

  /** Every refusal by the checks but the uncaught `IndexError` and `OSError`
      is reported and ends with exit status 0. */
  lemma RefusedRunExitsWithZero(date: string, entry: FsEntry)
    requires Validate(date, entry).Err?
    requires Validate(date, entry).error != IndexError && Validate(date, entry).error != OSError
    ensures Cli(date, entry).Reported? && ExitStatus(Cli(date, entry)) == 0
  {
  }
}

