/** The URLs the forum parser requests. The site base URL is an immutable
    parameter rather than a process-wide variable. */
module Urls {
  import opened PyStr

  const ThreadPath: string := "/viewtopic.php"

  /** `createThreadUrl`: the URL of a thread page starting at post offset
      `startPage`, or "" when no thread id is given. */
  function CreateThreadUrl(base: string, threadId: string, startPage: int): (r: string)
    ensures r == "" <==> threadId == ""
    ensures threadId != "" ==> |base| <= |r| && r[..|base|] == base
  {
    if threadId == "" then ""
    else base + ThreadPath + "?t=" + threadId + "&start=" + IntToString(startPage)
  }

  /** `createPostUrl` (also the URL `parsePost` requests): the thread page
      holding a post, anchored at that post, or "" when no post id is given. */
  function CreatePostUrl(base: string, postId: string): (r: string)
    ensures r == "" <==> postId == ""
    ensures postId != "" ==> |base| <= |r| && r[..|base|] == base
  {
    if postId == "" then ""
    else base + ThreadPath + "?p=" + postId + "#p" + postId
  }

  /** The recent-topics listing starting at offset `startPage`. */
  function LatestUrl(base: string, startPage: int): (r: string)
    ensures |base| <= |r| && r[..|base|] == base
  {
    base + "/index.php?recent_topics_start=" + IntToString(startPage)
  }

  /** A thread URL gives back its thread id between `?t=` and `&start=`,
      and its offset after `&start=`, whatever characters the id holds. */
  lemma ThreadUrlRoundTrip(base: string, threadId: string, startPage: nat)
    requires '?' !in base && threadId != ""
    ensures var url := CreateThreadUrl(base, threadId, startPage);
      && SliceBetween(url, "?t=", "&start=") == threadId
      && var tail := url[RFind(url, "&start=") + 7..];
      IsDigits(tail) && DigitsValue(tail) == startPage
  {
    var digits := IntToString(startPage);
    var url := CreateThreadUrl(base, threadId, startPage);
    assert url == (base + ThreadPath) + "?t=" + threadId + "&start=" + digits;
    assert '&' !in digits;
    SliceBetweenRecovers(base + ThreadPath, "?t=", threadId, "&start=", digits);
    assert url[RFind(url, "&start=") + 7..] == digits;
    DigitsRoundTrip(startPage);
  }

  /** A post URL gives back its post id between `?p=` and the `#p` anchor,
      and again after the anchor, when the id holds no `#`. */
  lemma PostUrlRoundTrip(base: string, postId: string)
    requires '?' !in base && '#' !in postId && postId != ""
    ensures var url := CreatePostUrl(base, postId);
      && SliceBetween(url, "?p=", "#p") == postId
      && url[RFind(url, "#p") + 2..] == postId
  {
    var url := CreatePostUrl(base, postId);
    assert url == (base + ThreadPath) + "?p=" + postId + "#p" + postId;
    SliceBetweenRecovers(base + ThreadPath, "?p=", postId, "#p", postId);
  }

  /** A listing URL gives back its offset after `recent_topics_start=`. */
  lemma LatestUrlRoundTrip(base: string, startPage: nat)
    ensures var url := LatestUrl(base, startPage);
      var tail := url[RFind(url, "recent_topics_start=") + 20..];
      IsDigits(tail) && DigitsValue(tail) == startPage
  {
    var digits := IntToString(startPage);
    var url := LatestUrl(base, startPage);
    var key := "recent_topics_start=";
    assert url == (base + "/index.php?") + key + digits;
    assert key[19] == '=' && key[20..] == [];
    assert '=' !in digits;
    RFindLast(base + "/index.php?", key, digits, 19);
    assert url[RFind(url, key) + 20..] == digits;
    DigitsRoundTrip(startPage);
  }
}
