# QiitaBackup numbering and backup table, in Dafny

QiitaBackup is a script that logs in to Qiita with a browser driver, reads the
list of the account's posts, opens each post's edit page to read its raw
markup, title and tags, and saves everything as a CSV file. Almost all of it
is browser and file plumbing. This project models the deterministic part that
remains once the browser's answers are treated as inputs:

- the collection loop of `main`: post `i` of a listing of `N` posts is scraped,
  numbered `N - i`, and the number is rendered as `str(no).zfill(4)`;
- the decimal rendering itself (`str` of a non-negative int, `str.zfill`),
  with a parser of ASCII digit strings as its inverse for stating properties
  (the script itself parses nothing);
- `save_as_csv`: the header row `no, title, url, tags, text`, then one row per
  record in list order, written row by row to a new file;
- the file name `backup/[YYYY-MM-DD_HHhMMm]Qiita-backup.csv`, from time fields
  passed in.

Modules, one per concern of `QiitaBackup.py`:

- `Decimal` (`decimal.dfy`): `DecimalString` (`str`), `ZFill` (`str.zfill`),
  `ParseNat` (reads ASCII digit strings; the inverse used in the properties), `StripLeadingZeros`.
- `PostNumbering` (`post_numbering.dfy`): the scraped and numbered record
  types, `PostNo`, the reference definition `Tagged`/`NumberedPosts` and the
  loop `CollectPostData`.
- `BackupName` (`backup_name.dfy`): `FileName`, `CsvPath` and the inverse
  `ParseFileName`.
- `CsvBackup` (`csv_backup.dfy`): `Table`, its inverse `RecordsOfTable`, the
  output file as a class `CsvFile`, and the writing loop `SaveAsCsv`.
- `QiitaBackup` (`qiita_backup.dfy`): `RunBackup` (collection, then saving) and
  the properties of the whole run.
- `Wrappers` (`wrappers.dfy`): `Option`.

The browser is a parameter `editPage: string -> EditFields` giving the text,
title and tags that the edit page reached from a post URL shows; the record's
`url` is the post URL itself, as in `get_post_content`. The clock is a
`DateTime` parameter. The path separator of `os.path.join` is a parameter `sep`.

The first-listed (newest) post gets the largest number `N` and the last one
gets `1` (`NumberedPostsAt`). The numbers handed out are the `zfill(4)`
renderings of 1..N (`NumbersAreOneToN`). They are four characters long only
while `N <= 9999`, and wider beyond that (`PostNoWidth`).

## Model

| member | source | states |
|---|---|---|
| Decimal.DecimalString | QiitaBackup.py:74 | `str(no)` is all digits, has `NumDigits(no)` characters and no leading `'0'` for `no >= 1` |
| Decimal.NumDigitsBound | QiitaBackup.py:74 | a number has at most `k` digits exactly when it is below `10^k` |
| Decimal.ParseDecimalString | QiitaBackup.py:74 | reading `str(n)` back gives `n` |
| Decimal.ZFill | QiitaBackup.py:74 | `str.zfill`, sign handling included; its properties are `ZFillShape`, `ZFillSigned` and `PaddedDecimal` |
| Decimal.ZFillShape | QiitaBackup.py:74 | for unsigned text, `zfill(width)` has length `max(width, |s|)` and is `s` behind `'0'`s |
| Decimal.ZFillSigned | QiitaBackup.py:74 | for signed text, `zfill` keeps the sign in front and puts the zeros after it |
| Decimal.ParseDigitsPadded | QiitaBackup.py:74 | leading zeros do not change the value read back |
| Decimal.StripZerosPadded | QiitaBackup.py:74 | stripping leading zeros removes exactly the padding in front of text that does not start with `'0'` |
| Decimal.PaddedDecimal | QiitaBackup.py:74 | `str(n).zfill(w)` has length `max(w, digits(n))`, is `str(n)` behind zeros, and reads back as `n` |
| PostNumbering.PostNo | QiitaBackup.py:74 | `str(no).zfill(4)`; its properties are `PostNoPadded`, `PostNoWidth`, `PostNoParses`, `PostNoStripped` and `PostNoInjective` |
| PostNumbering.PostNoPadded | QiitaBackup.py:74 | the rendered number has length `max(4, digits(no))`, is all digits and is `str(no)` behind zeros |
| PostNumbering.PostNoWidth | QiitaBackup.py:74 | the rendered number is exactly 4 characters if and only if `no <= 9999` |
| PostNumbering.PostNoParses | QiitaBackup.py:74 | parsing the rendered number gives `no` back |
| PostNumbering.PostNoStripped | QiitaBackup.py:74 | for `no >= 1`, stripping the leading zeros gives `str(no)` |
| PostNumbering.PostNoInjective | QiitaBackup.py:74 | two numbers have the same rendering if and only if they are equal |
| PostNumbering.GetPostContent | QiitaBackup.py:119-127 | the record of the edit page's text, title and tags, with `url` the post URL itself; stated by `Tagged` and `NumberedPostsAt` |
| PostNumbering.WithNo | QiitaBackup.py:75 | the scraped record with its `no` entry set; stated by `Tagged` and `NumberedPostsAt` |
| PostNumbering.Tagged | QiitaBackup.py:68-76 | the reference list has one record per URL, record `i` scraped from `postUrls[i]` and numbered `n - i` |
| PostNumbering.CollectPostData | QiitaBackup.py:60-77 | the loop's list equals the reference list `NumberedPosts` of the listing |
| PostNumbering.NumberedPostsAt | QiitaBackup.py:66-76 | as many records as URLs; record `i` has `url == postUrls[i]`, the edit page's text, title and tags, and a number reading back as `N - i` |
| PostNumbering.NumbersDecrease | QiitaBackup.py:68-69 | numbers strictly decrease along the list and no two records share a number |
| PostNumbering.NumbersAreOneToN | QiitaBackup.py:68-69 | the set of numbers handed out is exactly the renderings of `1..N` |
| PostNumbering.NumbersFourWide | QiitaBackup.py:68-74 | with at most 9999 posts every number has exactly 4 characters |
| BackupName.FileName | QiitaBackup.py:142-143 | `'[{}]Qiita-backup.csv'` around `strftime('%Y-%m-%d_%Hh%Mm')`; its properties are `FileNameLayout`, `FileNameRoundTrip` and `FileNamesCollide` |
| BackupName.CsvPath | QiitaBackup.py:143 | `os.path.join('backup', name)`; its property is `CsvPathInDirectory` |
| BackupName.NameLayout | QiitaBackup.py:142-143 | pieces of the format's widths land at fixed positions of a 35-character name |
| BackupName.FileNameLayout | QiitaBackup.py:142-143 | the name is `[`, `YYYY-MM-DD_HHhMMm` with 4- and 2-digit fields, then `]Qiita-backup.csv` |
| BackupName.FileNameRoundTrip | QiitaBackup.py:142-143 | the time can be read back from the name |
| BackupName.FileNamesCollide | QiitaBackup.py:142-143 | two runs get the same name if and only if `save_as_csv` reads the clock in the same minute (after all posts are scraped) |
| BackupName.CsvPathInDirectory | QiitaBackup.py:137-143 | for `/` or `\` as separator, the path is `backup`, the separator, then a file name containing no separator, so the file sits directly in `backup` |
| CsvBackup.Row | QiitaBackup.py:154 | `row_items`: the record's fields in header order; stated by `Rows`, `Table` and `RowsRoundTrip` |
| CsvBackup.Rows | QiitaBackup.py:153-155 | one data row per record, row `k` being record `k`'s fields in header order |
| CsvBackup.Table | QiitaBackup.py:146-155 | `N + 1` rows; row 0 is the header whatever the data; row `k + 1` is record `k`'s row |
| CsvBackup.RowsRoundTrip | QiitaBackup.py:153-155 | the records can be read back from the data rows |
| CsvBackup.TableRoundTrip | QiitaBackup.py:146-155 | reading the table back gives the record list: nothing dropped, duplicated or reordered |
| CsvBackup.CsvFile.Open | QiitaBackup.py:148 | opening for writing gives an empty file at the given path |
| CsvBackup.CsvFile.WriteRow | QiitaBackup.py:150-155 | a written row goes at the end of the file |
| CsvBackup.SaveAsCsv | QiitaBackup.py:132-157 | a new file at `backup/[...]Qiita-backup.csv` whose rows are exactly `Table` of the records |
| QiitaBackup.RunBackup | QiitaBackup.py:66-79 | the saved file holds `Table` of the numbered listing, at the path for the given time |
| QiitaBackup.BackupTable | QiitaBackup.py:66-79 | for `N` posts: `N + 1` rows, header first, row `k + 1` is `[PostNo(N - k), title, url, tags, text]` of post `k`; an empty listing gives only the header |
| QiitaBackup.SmallNumbers | QiitaBackup.py:74 | 1, 2 and 3 are rendered `0001`, `0002`, `0003` |
| QiitaBackup.TwoPostScenario | QiitaBackup.py:66-79 | listing `[a, b]`: row 1 is `a` numbered `0002`, row 2 is `b` numbered `0001` |
| QiitaBackup.ThreePostScenario | QiitaBackup.py:66-79 | three posts give the header and three rows numbered `0003`, `0002`, `0001` in listing order |

## Left out

- Logging in (`login_qiita`), page navigation, CSS-selector lookups and attribute or text reads: these are calls into the browser driver. Their results are the parameter `editPage`, and the listing is the input `postUrls`.
- Extraction of the post URLs from the profile page: the listing is an input; `num_posts` is its length, as `post_urls` has one entry per post element.
- The browser as changing state: `editPage` gives the same fields for the same URL, and a missing page element, which ends the real run with an exception, is not modelled.
- The in-place update `post_data['no'] = post_no` of a dictionary: modelled as building a new record value; each dictionary comes fresh from `get_post_content`, so no other reference sees the change.
- `time.sleep` delays, `sys.argv` parsing, logger setup and console `print` output: timing and environment plumbing.
- Filesystem effects: checking for and creating the `backup` directory, and the bytes of the file; the file is modelled by its path and its rows.
- Reading the clock with `datetime.now()`: the time is a parameter.
- CSV quoting and escaping and UTF-8 encoding done by `csv.writer` and `open`: rows are sequences of strings.
- The separator of `os.path.join` depends on the platform; it is a parameter.
- `%Y` for years below 1000: its padding depends on the platform's C library; the model pads to four digits.
- Days are checked only against 1..31, not against the length of the month; the name format does not depend on it.
