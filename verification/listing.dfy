/** The recent-topics extractor (`parseLatest`): one sparse summary per
    topic entry, in document order, and the list of authors. */
module Listing {
  import opened Wrappers
  import opened PyStr
  import opened Sparse
  import opened Authors
  import opened Fragments

  /** The fixed label of the listing. */
  const ListingTitle: string := "aktuelle Themen"

  /** Width of the "Letzter Beitrag von" lead-in that precedes the author's
      name in the trimmed text of the responsive-show block. */
  const AuthorPrefixLength: nat := 19

  /** Separates the author's name from the date of the last post. */
  const DateSeparator: char := '«'

  /** Every key a listing summary can hold. */
  const ListingKeys: set<string> :=
    {"title", "threadId", "userName", "latestLine", "sourceLine", "views", "posts"}

  /** The thread id of a topic link: the text after the first `?t=` and before
      the last `&sid=`, with Python's slice rules when a marker is missing. */
  function ThreadIdOf(href: string): (r: string)
    ensures var i := Find(href, "?t="); var j := RFind(href, "&sid=");
      i != -1 && i + 3 <= j ==> r == href[i + 3..j]
    ensures |r| <= |href|
  {
    SliceBetween(href, "?t=", "&sid=")
  }

  /** A phpBB topic link yields exactly its thread id, whatever the id holds,
      when the path has no `?` and the session id has no `&`. */
  lemma ThreadIdOfTopicLink(path: string, id: string, sid: string)
    requires '?' !in path && '&' !in sid
    ensures ThreadIdOf(path + "?t=" + id + "&sid=" + sid) == id
  {
    SliceBetweenRecovers(path, "?t=", id, "&sid=", sid);
  }

  lemma ThreadIdExample()
    ensures ThreadIdOf("./viewtopic.php?t=69626&sid=0a1b") == "69626"
  {
    assert "./viewtopic.php?t=69626&sid=0a1b" == "./viewtopic.php" + "?t=" + "69626" + "&sid=" + "0a1b";
    ThreadIdOfTopicLink("./viewtopic.php", "69626", "0a1b");
  }

  /** Without a `&sid=` the slice stops one character before the end (Python
      reads the -1 of `rfind` as "the last index"): the id loses its last
      character. */
  lemma ThreadIdWithoutSid(href: string)
    requires Find(href, "?t=") != -1 && RFind(href, "&sid=") == -1
    requires Find(href, "?t=") + 3 <= |href| - 1
    ensures ThreadIdOf(href) == href[Find(href, "?t=") + 3..|href| - 1]
  {
  }

  /** The text after the lead-in, "" when the text is no longer than it. */
  function AfterLeadIn(trimmed: string): (r: string)
    ensures |trimmed| <= AuthorPrefixLength ==> r == ""
    ensures |trimmed| > AuthorPrefixLength ==> r == trimmed[AuthorPrefixLength..]
  {
    PySlice(trimmed, AuthorPrefixLength, |trimmed|)
  }

  /** The author's name: the text after the lead-in, up to the first `«`. */
  function UserNameOf(trimmed: string): (r: string)
    ensures |r| <= |AfterLeadIn(trimmed)|
  {
    var tail := AfterLeadIn(trimmed);
    PySlice(tail, 0, Find(tail, [DateSeparator]))
  }

  /** The name stops just before the first `«`; when there is none, Python's
      `[:-1]` (the -1 of `find` read as "the last index") drops the last
      character of the tail instead. */
  lemma UserNameOfSpec(trimmed: string)
    ensures var tail := AfterLeadIn(trimmed); var r := UserNameOf(trimmed);
      && (DateSeparator in tail ==>
            |r| < |tail| && r == tail[..|r|] && tail[|r|] == DateSeparator && DateSeparator !in r)
      && (DateSeparator !in tail && |tail| > 0 ==> r == tail[..|tail| - 1])
      && (tail == "" ==> r == "")
  {
    var tail := AfterLeadIn(trimmed);
    FindSpec(tail, [DateSeparator]);
    forall k
      ensures OccursAt(tail, [DateSeparator], k) <==> 0 <= k < |tail| && tail[k] == DateSeparator
    {
      OccursAtChar(tail, DateSeparator, k);
    }
  }

  lemma UserNameExample()
    ensures UserNameOf("Letzter Beitrag vonTestomat« 23 Okt") == "Testomat"
  {
    var tail := AfterLeadIn("Letzter Beitrag vonTestomat« 23 Okt");
    assert tail == "Testomat« 23 Okt";
    FindChar(tail, DateSeparator, 8);
  }

  /** The mandatory fragment an entry lacks; the original code raises an
      exception there (`topicTitle.get` and `respShow.get_text`). */
  function EntryFault(e: TopicEntry): (r: Option<string>)
    ensures r.None? <==> e.title.Some? && e.show.Some?
  {
    if e.title.None? then Some("a.topictitle")
    else if e.show.None? then Some("div.responsive-show")
    else None
  }

  /** The author name an entry contributes to the author list. */
  function EntryUser(e: TopicEntry): string
    requires EntryFault(e).None?
  {
    UserNameOf(e.show.value.trimmedText)
  }

  /** The setter calls for one topic entry, in the order the original makes
      them. */
  function EntryFields(e: TopicEntry): (fields: seq<Field>)
    requires EntryFault(e).None?
  {
    [ Field("title", Some(e.title.value.text), []),
      Field("threadId", Some(ThreadIdOf(e.title.value.href)), []),
      Field("userName", Some(EntryUser(e)), []),
      Field("latestLine", Some(e.show.value.text), ["\t", "\n"]),
      Field("sourceLine", e.hideLine, ["\t", "\n"]),
      Field("views", e.views, []),
      Field("posts", e.posts, []) ]
  }

  /** The sparse summary of one topic entry: a key is present exactly when its
      fragment yields text, and then holds that text cleaned. */
  function EntryRecord(e: TopicEntry): (r: Record)
    requires EntryFault(e).None?
    ensures r.Keys <= ListingKeys
    ensures var fields := EntryFields(e);
      forall i :: 0 <= i < |fields| ==>
        && (fields[i].key in r <==> Yields(fields[i].source))
        && (Yields(fields[i].source) ==> r[fields[i].key] == RemoveAll(fields[i].source.value, fields[i].removals))
  {
    var fields := EntryFields(e);
    assert DistinctKeys(fields);
    assert forall i :: 0 <= i < |fields| ==> fields[i].key in ListingKeys;
    BuildFields(fields);
    Build(fields)
  }

  /** Concretely: the thread id and author keys follow their slices, and the
      two lines keep every character but tabs and newlines, in order. */
  lemma EntryRecordFields(e: TopicEntry)
    requires EntryFault(e).None?
    ensures var r := EntryRecord(e);
      && ("threadId" in r <==> ThreadIdOf(e.title.value.href) != "")
      && ("threadId" in r ==> r["threadId"] == ThreadIdOf(e.title.value.href))
      && ("userName" in r <==> EntryUser(e) != "")
      && ("latestLine" in r <==> e.show.value.text != "")
      && ("latestLine" in r ==> r["latestLine"] == Erase(Erase(e.show.value.text, '\t'), '\n'))
      && ("sourceLine" in r <==> Yields(e.hideLine))
      && ("sourceLine" in r ==> r["sourceLine"] == Erase(Erase(e.hideLine.value, '\t'), '\n'))
  {
    var fields := EntryFields(e);
    assert fields[1].key == "threadId" && fields[2].key == "userName";
    assert fields[3].key == "latestLine" && fields[4].key == "sourceLine";
    RemoveTabsAndNewlines(e.show.value.text);
    if e.hideLine.Some? {
      RemoveTabsAndNewlines(e.hideLine.value);
    }
  }

  datatype ListingResult = ListingResult(
    threadTitle: string,
    currPost: int,
    threads: seq<Record>,
    users: seq<string>)

  /** The author names of entries that all have their mandatory fragments. */
  function EntryUsers(entries: seq<TopicEntry>): (r: seq<string>)
    requires forall i :: 0 <= i < |entries| ==> EntryFault(entries[i]).None?
    ensures |r| == |entries| && forall i :: 0 <= i < |entries| ==> r[i] == EntryUser(entries[i])
  {
    seq(|entries|, i requires 0 <= i < |entries| => EntryUser(entries[i]))
  }

  /** `parseLatest` on an already fetched and parsed page. The author list
      holds every extracted name once, the empty name included; the original
      returns it through a Python set, so its order is not promised. */
  function ParseLatest(page: ListingPage, startPage: int): (r: Outcome<ListingResult>)
    ensures page.topicList.None? ==> r == Fault("ul.topiclist")
    ensures r.Ok? <==>
      page.topicList.Some? && forall i :: 0 <= i < |page.topicList.value| ==> EntryFault(page.topicList.value[i]).None?
    ensures r.Fault? && page.topicList.Some? ==>
      exists i :: 0 <= i < |page.topicList.value| && EntryFault(page.topicList.value[i]) == Some(r.fragment)
        && forall j :: 0 <= j < i ==> EntryFault(page.topicList.value[j]).None?
    ensures !r.Error? && !r.NotFound?
    ensures r.Ok? ==>
      var entries := page.topicList.value;
      && r.value.threadTitle == ListingTitle
      && r.value.currPost == startPage
      && |r.value.threads| == |entries|
      && (forall i :: 0 <= i < |entries| ==>
            EntryFault(entries[i]).None? && r.value.threads[i] == EntryRecord(entries[i]))
      && NoDuplicates(r.value.users)
      && (forall u :: u in r.value.users <==> u in EntryUsers(entries))
  {
    if page.topicList.None? then Fault("ul.topiclist")
    else
      var entries := page.topicList.value;
      var fault := FirstFault(entries, EntryFault);
      if fault.Some? then Fault(fault.value)
      else
        var names := EntryUsers(entries);
        var threads := seq(|entries|, i requires 0 <= i < |entries| => EntryRecord(entries[i]));
        Ok(ListingResult(ListingTitle, startPage, threads, Dedup(names)))
  }
}
