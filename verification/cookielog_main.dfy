/**
 * The entry point `cookielog/__main__.py`, a second copy of the program that
 * runs when that file is executed; the `cookielog` command that `setup.py`
 * installs runs `cookielog.py` instead. Its `validate_file`, `get_date_cookies` and
 * `find_most_active_cookie` are the same code as in `cookielog.py` (only
 * `print` in place of `sys.stdout.write`, which writes the same line), so they
 * are taken from `CookieLog`. What differs: the date check looks at the shape
 * only and raises `RuntimeError`, and `cli` catches `RuntimeError` alone and
 * reports it on stdout.
 */
module CookieLogMain {
  import opened Results
  import opened Text
  import opened Calendar
  import opened Timestamps
  import opened Frequency
  import CookieLog

  /** `validate_date` of this entry point: the regex and the length only; no
      `strptime`, so a well-shaped date that names no day passes. */
  function ValidateDate(date: string): (r: Result<()>)
    ensures r.Err? ==> r.error == RuntimeError(DateFormat)
    ensures |date| != 10 ==> r.Err?
  {
    if !DateShape(date) || |date| != 10 then Err(RuntimeError(DateFormat)) else Ok(())
  }

  /** This date check refuses exactly the dates the stricter one refuses for
      their shape; every date the stricter one accepts passes it. */
  lemma ValidateDateIsTheShapeCheck(date: string)
    ensures ValidateDate(date).Ok? <==> CookieLog.ValidateDate(date) != Err(ValueError(DateFormat))
    ensures CookieLog.ValidateDate(date).Ok? ==> ValidateDate(date).Ok?
  {
  }

  /** "2021-02-30" has the shape of a date but names no day: it passes this
      check and is refused by the stricter one. */
  lemma FebruaryThirtiethPassesShapeCheck(date: string)
    requires date == "2021-02-30"
    ensures ValidateDate(date).Ok?
    ensures CookieLog.ValidateDate(date) == Err(ValueError(DateValue))
  {
    assert DateShape(date);
    assert DateFields(date) == Date(2021, 2, 30);
  }

  /** The two checks in the order `cli` runs them. */
  function Validate(date: string, entry: CookieLog.FsEntry): Result<()> {
    var _ :- ValidateDate(date);
    CookieLog.ValidateFile(entry)
  }

  /** The exceptions this `cli` catches around the two checks. */
  predicate IsCaught(e: Exception) {
    e.RuntimeError?
  }

  /** `cli` of this entry point: a `RuntimeError` of the checks is printed on
      stdout (exit status 0); the `IndexError` of the file check escapes; after
      the checks, `strptime` on the target date raises an uncaught `ValueError`
      when the date names no day; otherwise as in `cookielog.py`. */
  function Cli(date: string, entry: CookieLog.FsEntry): (o: Outcome)
    ensures o.Reported? ==> o.channel == Stdout && o.error.RuntimeError? && Validate(date, entry) == Err(o.error)
    ensures o.Crashed? ==>
      || o.error == IndexError
      || o.error == OSError
      || o.error == ValueError(DateValue)
      || o.error == ValueError(RowShape)
      || o.error == ValueError(TimestampValue)
    ensures o.Emitted? ==> CookieLog.ValidateDate(date).Ok? && CookieLog.ValidateFile(entry).Ok?
  {
    match Validate(date, entry)
    case Err(e) => if IsCaught(e) then Reported(Stdout, e) else Crashed(e)
    case Ok(_) =>
      match ParseIsoDate(date)
      case None => Crashed(ValueError(DateValue))
      case Some(target) =>
        match CookieLog.DateCookies(Lines(entry.text), target)
        case Err(e) => Crashed(e)
        case Ok(cookies) => Emitted(MostActive(cookies))
  }

  /** An outcome with its report moved to stdout. */
  function OnStdout(o: Outcome): Outcome {
    if o.Reported? then Reported(Stdout, o.error) else o
  }

  /** On a date that names a day the two programs behave alike, except that
      this one prints its reports on stdout. */
  lemma CliAgreesOnRealDates(date: string, entry: CookieLog.FsEntry)
    requires CookieLog.ValidateDate(date).Ok?
    ensures Cli(date, entry) == OnStdout(CookieLog.Cli(date, entry))
  {
    ValidateDateIsTheShapeCheck(date);
    assert Validate(date, entry) == CookieLog.Validate(date, entry);
  }

  /** Whatever this program prints as its answer, the other prints too. */
  lemma EmittedCookiesAgree(date: string, entry: CookieLog.FsEntry)
    requires Cli(date, entry).Emitted?
    ensures CookieLog.Cli(date, entry) == Cli(date, entry)
  {
    CliAgreesOnRealDates(date, entry);
  }

  /** A well-shaped date that names no day, with a file that passes its check:
      `cookielog.py` reports a `ValueError` on stderr and exits with 0, while
      this program dies of the `ValueError` of `strptime` and exits with 1. */
  lemma ImpossibleDateCrashes(date: string, entry: CookieLog.FsEntry)
    requires ValidateDate(date).Ok? && CookieLog.ValidateDate(date).Err?
    requires CookieLog.ValidateFile(entry).Ok?
    ensures Cli(date, entry) == Crashed(ValueError(DateValue)) && ExitStatus(Cli(date, entry)) == 1
    ensures CookieLog.Cli(date, entry) == Reported(Stderr, ValueError(DateValue))
  {
    ValidateDateIsTheShapeCheck(date);
  }

  /** A refused date is reported before the path is looked at. */
  lemma DateRefusalIgnoresFile(date: string, entry: CookieLog.FsEntry, other: CookieLog.FsEntry)
    requires ValidateDate(date).Err?
    ensures Cli(date, entry) == Cli(date, other)
  {
  }

  /** The `OSError` of a file `open` refuses escapes this `cli` too. */
  lemma UnreadableFileCrashes(date: string)
    requires ValidateDate(date).Ok?
    ensures Cli(date, CookieLog.Unreadable) == Crashed(OSError)
  {
  }

  /** The `IndexError` of the file check escapes this `cli` as well. */
  lemma IndexErrorCrashes(date: string, entry: CookieLog.FsEntry)
    requires ValidateDate(date).Ok? && CookieLog.ValidateFile(entry) == Err(IndexError)
    ensures Cli(date, entry) == Crashed(IndexError)
  {
    assert Validate(date, entry) == Err(IndexError);
  }

  /** A file holding only the header crashes this program too. */
  lemma HeaderOnlyFileCrashes(date: string, text: string)
    requires ValidateDate(date).Ok? && text == CookieLog.Header
    ensures Cli(date, CookieLog.RegularFile(text)) == Crashed(IndexError)
  {
    CookieLog.HeaderOnlyFileFailsCheck(text);
    IndexErrorCrashes(date, CookieLog.RegularFile(text));
  }
}
