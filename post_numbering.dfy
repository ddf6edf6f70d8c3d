/**
 * The collection loop of the backup script: every post URL of the listing is
 * scraped and the resulting record is tagged with a sequence number that
 * counts down from the number of posts, rendered with four-digit zero padding.
 */
module PostNumbering {
  import opened Wrappers
  import opened Decimal

  /** The three values read from a post's edit page: raw markup, title and tag string. */
  datatype EditFields = EditFields(text: string, title: string, tags: string)

  /** The record built for one post before it is numbered. */
  datatype PostContent = PostContent(text: string, title: string, tags: string, url: string)

  /** A numbered backup record: the post's content with its sequence number `no`. */
  datatype PostData = PostData(no: string, text: string, title: string, tags: string, url: string)

  /** Width of the zero-padded sequence number. */
  const NO_WIDTH: nat := 4

  /**
   * The record for one post: what the browser shows on the edit page reached
   * from `postUrl`, together with `postUrl` itself. The browser is the
   * function `editPage`.
   */
  function GetPostContent(editPage: string -> EditFields, postUrl: string): PostContent
  {
    var fields := editPage(postUrl);
    PostContent(fields.text, fields.title, fields.tags, postUrl)
  }

  /** Setting the `no` entry of a scraped record. */
  function WithNo(post: PostContent, no: string): PostData
  {
    PostData(no, post.text, post.title, post.tags, post.url)
  }

  /** `str(no).zfill(4)`. */
  function PostNo(no: nat): string
  {
    ZFill(DecimalString(no), NO_WIDTH)
  }

  /** The rendered number is `str(no)` behind enough zeros for four characters. */
  lemma PostNoPadded(no: nat)
    ensures |PostNo(no)| == if NumDigits(no) >= NO_WIDTH then NumDigits(no) else NO_WIDTH
    ensures AllDigits(PostNo(no))
    ensures PostNo(no) == Zeros(|PostNo(no)| - NumDigits(no)) + DecimalString(no)
  {
    PaddedDecimal(no, NO_WIDTH);
  }

  /** The rendered number has exactly four characters precisely when `no` is at most 9999. */
  lemma PostNoWidth(no: nat)
    ensures |PostNo(no)| == NO_WIDTH <==> no <= 9999
  {
    PostNoPadded(no);
    NumDigitsBound(no, NO_WIDTH);
    assert Pow10(NO_WIDTH) == 10000;
  }

  /** Reading the rendered number back as a digit string gives `no`. */
  lemma PostNoParses(no: nat)
    ensures ParseNat(PostNo(no)) == Some(no)
  {
    PaddedDecimal(no, NO_WIDTH);
  }

  /** Stripping the padding from a positive number's rendering gives `str(no)`. */
  lemma PostNoStripped(no: nat)
    requires no >= 1
    ensures StripLeadingZeros(PostNo(no)) == DecimalString(no)
  {
    PostNoPadded(no);
    StripZerosPadded(|PostNo(no)| - NumDigits(no), DecimalString(no));
  }

  /** Different numbers are rendered differently. */
  lemma PostNoInjective(a: nat, b: nat)
    ensures PostNo(a) == PostNo(b) <==> a == b
  {
    PostNoParses(a);
    PostNoParses(b);
  }

  /**
   * Reference definition of the collected list: the records of `postUrls`
   * in listing order, the first numbered `n` and each next one less.
   */
  function Tagged(postUrls: seq<string>, n: int, editPage: string -> EditFields): (r: seq<PostData>)
    requires n >= |postUrls|
    ensures |r| == |postUrls|
    ensures forall i :: 0 <= i < |postUrls| ==>
      r[i] == WithNo(GetPostContent(editPage, postUrls[i]), PostNo(n - i))
  {
    if postUrls == [] then []
    else [WithNo(GetPostContent(editPage, postUrls[0]), PostNo(n))] + Tagged(postUrls[1..], n - 1, editPage)
  }

  /** What the collection loop produces for a listing of `|postUrls|` posts. */
  function NumberedPosts(postUrls: seq<string>, editPage: string -> EditFields): seq<PostData>
  {
    Tagged(postUrls, |postUrls|, editPage)
  }

  /**
   * The loop of `main` over `range(num_posts)`: item `i` is scraped,
   * numbered `num_posts - i` and appended.
   */
  method CollectPostData(postUrls: seq<string>, editPage: string -> EditFields)
    returns (postDataList: seq<PostData>)
    ensures postDataList == NumberedPosts(postUrls, editPage)
  {
    var numPosts := |postUrls|;
    postDataList := [];
    for i := 0 to numPosts
      invariant |postDataList| == i
      invariant forall j :: 0 <= j < i ==>
        postDataList[j] == WithNo(GetPostContent(editPage, postUrls[j]), PostNo(numPosts - j))
    {
      var no := numPosts - i;
      var postUrl := postUrls[i];
      var postContent := GetPostContent(editPage, postUrl);
      var postNo := PostNo(no);
      var postData := WithNo(postContent, postNo);
      postDataList := postDataList + [postData];
    }
  }

  /**
   * Listing order is kept: record `i` is the one scraped from `postUrls[i]`
   * and carries its number `N - i`, so the newest post gets `N` and the last one 1.
   */
  lemma NumberedPostsAt(postUrls: seq<string>, editPage: string -> EditFields, i: nat)
    requires i < |postUrls|
    ensures |NumberedPosts(postUrls, editPage)| == |postUrls|
    ensures NumberedPosts(postUrls, editPage)[i].url == postUrls[i]
    ensures NumberedPosts(postUrls, editPage)[i].text == editPage(postUrls[i]).text
    ensures NumberedPosts(postUrls, editPage)[i].title == editPage(postUrls[i]).title
    ensures NumberedPosts(postUrls, editPage)[i].tags == editPage(postUrls[i]).tags
    ensures ParseNat(NumberedPosts(postUrls, editPage)[i].no) == Some(|postUrls| - i)
  {
    PostNoParses(|postUrls| - i);
  }

  /** Along the list the numbers strictly decrease, so no two records share one. */
  lemma NumbersDecrease(postUrls: seq<string>, editPage: string -> EditFields, i: nat, j: nat)
    requires i < j < |postUrls|
    ensures ParseNat(NumberedPosts(postUrls, editPage)[i].no).Some?
    ensures ParseNat(NumberedPosts(postUrls, editPage)[j].no).Some?
    ensures ParseNat(NumberedPosts(postUrls, editPage)[i].no).value
          > ParseNat(NumberedPosts(postUrls, editPage)[j].no).value
    ensures NumberedPosts(postUrls, editPage)[i].no != NumberedPosts(postUrls, editPage)[j].no
  {
    NumberedPostsAt(postUrls, editPage, i);
    NumberedPostsAt(postUrls, editPage, j);
  }

  /** The numbers handed out are exactly the renderings of 1 to N. */
  lemma NumbersAreOneToN(postUrls: seq<string>, editPage: string -> EditFields)
    ensures (set i | 0 <= i < |postUrls| :: NumberedPosts(postUrls, editPage)[i].no)
         == (set k | 1 <= k <= |postUrls| :: PostNo(k))
  {
    var r, n := NumberedPosts(postUrls, editPage), |postUrls|;
    forall k | 1 <= k <= n
      ensures PostNo(k) in set i | 0 <= i < n :: r[i].no
    {
      assert r[n - k].no == PostNo(k);
    }
  }

  /** With fewer than 10000 posts every number is exactly four characters long. */
  lemma NumbersFourWide(postUrls: seq<string>, editPage: string -> EditFields, i: nat)
    requires i < |postUrls| <= 9999
    ensures |NumberedPosts(postUrls, editPage)[i].no| == NO_WIDTH
  {
    PostNoWidth(|postUrls| - i);
  }
}
