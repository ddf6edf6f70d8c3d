/**
 * The name of the backup file: the local time at which the file is saved, at minute
 * resolution, formatted with `strftime('%Y-%m-%d_%Hh%Mm')`, inside
 * brackets, followed by a fixed suffix, in the directory `backup`.
 * The time is given as fields; reading the clock is not modelled.
 */
module BackupName {
  import opened Wrappers
  import opened Decimal

  /** The fields of the local time, read when the file is saved, that the name uses. */
  datatype DateTime = DateTime(year: nat, month: nat, day: nat, hour: nat, minute: nat)

  /** The ranges a Python `datetime` keeps its fields in. */
  predicate ValidDateTime(t: DateTime) {
    && 1 <= t.year <= 9999
    && 1 <= t.month <= 12
    && 1 <= t.day <= 31
    && t.hour <= 23
    && t.minute <= 59
  }

  const DIRECTORY_NAME: string := "backup"
  const NAME_SUFFIX: string := "]Qiita-backup.csv"

  /** `%Y`: the year in four digits. */
  function YearText(year: nat): string {
    ZFill(DecimalString(year), 4)
  }

  /** `%m`, `%d`, `%H`, `%M`: a field in two digits. */
  function TwoDigits(n: nat): string {
    ZFill(DecimalString(n), 2)
  }

  /**
   * `'[{}]Qiita-backup.csv'.format(today)` where `today` is the time
   * formatted by `strftime('%Y-%m-%d_%Hh%Mm')`.
   */
  function FileName(t: DateTime): string {
    "[" + YearText(t.year) + "-" + TwoDigits(t.month) + "-" + TwoDigits(t.day)
      + "_" + TwoDigits(t.hour) + "h" + TwoDigits(t.minute) + "m" + NAME_SUFFIX
  }

  /** `os.path.join('backup', name)`, with the platform's separator `sep`. */
  function CsvPath(t: DateTime, sep: char): string {
    DIRECTORY_NAME + [sep] + FileName(t)
  }

  /** Reads the time back from a file name; `None` for anything not of the form `FileName` gives. */
  function ParseFileName(name: string): (r: Option<DateTime>)
    ensures r.Some? ==> ValidDateTime(r.value)
  {
    if |name| != 35 || name[0] != '[' || name[5] != '-' || name[8] != '-'
      || name[11] != '_' || name[14] != 'h' || name[17] != 'm' || name[18..] != NAME_SUFFIX
    then None
    else
      match (ParseNat(name[1..5]), ParseNat(name[6..8]), ParseNat(name[9..11]),
             ParseNat(name[12..14]), ParseNat(name[15..17]))
      case (Some(year), Some(month), Some(day), Some(hour), Some(minute)) =>
        var t := DateTime(year, month, day, hour, minute);
        if ValidDateTime(t) then Some(t) else None
      case _ => None
  }

  lemma FieldText(n: nat, width: nat)
    requires width >= 1 && n < Pow10(width)
    ensures |ZFill(DecimalString(n), width)| == width
    ensures ParseNat(ZFill(DecimalString(n), width)) == Some(n)
  {
    PaddedDecimal(n, width);
    NumDigitsBound(n, width);
  }

  /** Where each piece of the name lands, for pieces of the widths the format gives them. */
  lemma NameLayout(y: string, mo: string, d: string, h: string, mi: string)
    requires |y| == 4 && |mo| == 2 && |d| == 2 && |h| == 2 && |mi| == 2
    ensures var name := "[" + y + "-" + mo + "-" + d + "_" + h + "h" + mi + "m" + NAME_SUFFIX;
      && |name| == 35
      && name[0] == '[' && name[5] == '-' && name[8] == '-' && name[11] == '_'
      && name[14] == 'h' && name[17] == 'm' && name[18..] == NAME_SUFFIX
      && name[1..5] == y && name[6..8] == mo && name[9..11] == d
      && name[12..14] == h && name[15..17] == mi
  {
  }

  /**
   * The name is 35 characters: `[`, a four-digit year, `-`, two-digit month,
   * `-`, two-digit day, `_`, two-digit hour, `h`, two-digit minute, `m`, and the suffix.
   */
  lemma FileNameLayout(t: DateTime)
    requires ValidDateTime(t)
    ensures var name := FileName(t);
      && |name| == 35
      && name[0] == '[' && name[5] == '-' && name[8] == '-' && name[11] == '_'
      && name[14] == 'h' && name[17] == 'm' && name[18..] == NAME_SUFFIX
      && name[1..5] == YearText(t.year) && name[6..8] == TwoDigits(t.month)
      && name[9..11] == TwoDigits(t.day) && name[12..14] == TwoDigits(t.hour)
      && name[15..17] == TwoDigits(t.minute)
  {
    assert Pow10(2) == 100 && Pow10(4) == 10000;
    FieldText(t.year, 4);
    FieldText(t.month, 2);
    FieldText(t.day, 2);
    FieldText(t.hour, 2);
    FieldText(t.minute, 2);
    NameLayout(YearText(t.year), TwoDigits(t.month), TwoDigits(t.day), TwoDigits(t.hour), TwoDigits(t.minute));
  }

  /** The time can be read back from the name. */
  lemma FileNameRoundTrip(t: DateTime)
    requires ValidDateTime(t)
    ensures ParseFileName(FileName(t)) == Some(t)
  {
    FileNameLayout(t);
    assert Pow10(2) == 100 && Pow10(4) == 10000;
    FieldText(t.year, 4);
    FieldText(t.month, 2);
    FieldText(t.day, 2);
    FieldText(t.hour, 2);
    FieldText(t.minute, 2);
  }

  /**
   * Two runs get the same name exactly when `save_as_csv` reads the clock in
   * the same minute: the time passed in is the one read there, after all posts are scraped.
   */
  lemma FileNamesCollide(t1: DateTime, t2: DateTime)
    requires ValidDateTime(t1) && ValidDateTime(t2)
    ensures FileName(t1) == FileName(t2) <==> t1 == t2
  {
    FileNameRoundTrip(t1);
    FileNameRoundTrip(t2);
  }

  /** `c` occurs nowhere in `s`. */
  predicate Avoids(s: string, c: char) {
    forall i :: 0 <= i < |s| ==> s[i] != c
  }

  /** A character absent from both halves is absent from their concatenation. */
  lemma AvoidsConcat(a: string, b: string, c: char)
    requires Avoids(a, c) && Avoids(b, c)
    ensures Avoids(a + b, c)
  {
    forall i | 0 <= i < |a + b| ensures (a + b)[i] != c {
      if i >= |a| {
        assert (a + b)[i] == b[i - |a|];
      }
    }
  }

  /** A digit string contains no path separator. */
  lemma FieldAvoids(n: nat, width: nat, sep: char)
    requires sep == '/' || sep == '\\'
    ensures Avoids(ZFill(DecimalString(n), width), sep)
  {
    PaddedDecimal(n, width);
  }

  /**
   * The file sits directly in `backup`: the path is `backup`, the separator,
   * and a file name in which neither path separator occurs, so the last
   * separator of the path is the one after `backup`.
   */
  lemma CsvPathInDirectory(t: DateTime, sep: char)
    requires ValidDateTime(t)
    requires sep == '/' || sep == '\\'
    ensures CsvPath(t, sep)[..|DIRECTORY_NAME| + 1] == DIRECTORY_NAME + [sep]
    ensures CsvPath(t, sep)[|DIRECTORY_NAME| + 1..] == FileName(t)
    ensures forall i :: 0 <= i < |FileName(t)| ==> FileName(t)[i] != sep
  {
    var y, mo, d, h, mi := YearText(t.year), TwoDigits(t.month), TwoDigits(t.day), TwoDigits(t.hour), TwoDigits(t.minute);
    FieldAvoids(t.year, 4, sep);
    FieldAvoids(t.month, 2, sep);
    FieldAvoids(t.day, 2, sep);
    FieldAvoids(t.hour, 2, sep);
    FieldAvoids(t.minute, 2, sep);
    assert Avoids("[", sep) && Avoids("-", sep) && Avoids("_", sep) && Avoids("h", sep) && Avoids("m", sep);
    assert Avoids(NAME_SUFFIX, sep);
    var p := "[" + y;
    AvoidsConcat("[", y, sep);
    AvoidsConcat(p, "-", sep);
    p := p + "-";
    AvoidsConcat(p, mo, sep);
    p := p + mo;
    AvoidsConcat(p, "-", sep);
    p := p + "-";
    AvoidsConcat(p, d, sep);
    p := p + d;
    AvoidsConcat(p, "_", sep);
    p := p + "_";
    AvoidsConcat(p, h, sep);
    p := p + h;
    AvoidsConcat(p, "h", sep);
    p := p + "h";
    AvoidsConcat(p, mi, sep);
    p := p + mi;
    AvoidsConcat(p, "m", sep);
    p := p + "m";
    AvoidsConcat(p, NAME_SUFFIX, sep);
    assert p + NAME_SUFFIX == FileName(t);
  }
}
