/**
 * The whole run once the browser work is done: the listing's posts are
 * collected and numbered, then saved as one table. Listing order is kept in
 * the rows, while the numbers count down from the number of posts.
 */
module QiitaBackup {
  import opened PostNumbering
  import opened BackupName
  import opened CsvBackup

  /**
   * `main` after the listing has been read: the collection loop, then
   * `save_as_csv` on the collected list.
   */
  method RunBackup(postUrls: seq<string>, editPage: string -> EditFields, now: DateTime, sep: char)
    returns (file: CsvFile)
    ensures fresh(file)
    ensures file.path == CsvPath(now, sep)
    ensures file.rows == Table(NumberedPosts(postUrls, editPage))
  {
    var postDataList := CollectPostData(postUrls, editPage);
    file := SaveAsCsv(postDataList, now, sep);
  }

  /**
   * The backup of a listing of N posts has N + 1 rows: the header, then for
   * the post at listing position k its number N - k, title, URL, tags and text.
   * An empty listing leaves only the header.
   */
  lemma BackupTable(postUrls: seq<string>, editPage: string -> EditFields)
    ensures var table := Table(NumberedPosts(postUrls, editPage));
      && |table| == |postUrls| + 1
      && table[0] == HEADER
      && (postUrls == [] ==> table == [HEADER])
      && forall k :: 0 <= k < |postUrls| ==>
           table[k + 1] == [PostNo(|postUrls| - k), editPage(postUrls[k]).title, postUrls[k],
                            editPage(postUrls[k]).tags, editPage(postUrls[k]).text]
  {
  }

  lemma SmallNumbers()
    ensures PostNo(1) == "0001" && PostNo(2) == "0002" && PostNo(3) == "0003"
  {
    assert Decimal.Zeros(3) == "000";
  }

  /** Two posts `[a, b]`: `a` is saved as `0002`, `b` as `0001`, in that order. */
  lemma TwoPostScenario(a: string, b: string, editPage: string -> EditFields)
    ensures var table := Table(NumberedPosts([a, b], editPage));
      && |table| == 3
      && table[1][0] == "0002" && table[1][2] == a
      && table[2][0] == "0001" && table[2][2] == b
  {
    BackupTable([a, b], editPage);
    SmallNumbers();
  }

  /** Three posts give four rows, numbered `0003`, `0002`, `0001` in listing order. */
  lemma ThreePostScenario(a: string, b: string, c: string, editPage: string -> EditFields)
    ensures var table := Table(NumberedPosts([a, b, c], editPage));
      && |table| == 4
      && table[0] == ["no", "title", "url", "tags", "text"]
      && table[1][0] == "0003" && table[1][2] == a
      && table[2][0] == "0002" && table[2][2] == b
      && table[3][0] == "0001" && table[3][2] == c
  {
    BackupTable([a, b, c], editPage);
    SmallNumbers();
  }
}
