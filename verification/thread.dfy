/** The thread extractor (`parseThread`): the thread title, the pagination,
    one sparse summary per post container and the list of authors. */
module Thread {
  import opened Wrappers
  import opened PyStr
  import opened Sparse
  import opened Authors
  import opened Fragments

  /** What the forum appends to every page title. */
  const SiteSuffix: string := " - openATV Forum"

  /** The word the title search looks for. */
  const PageWord: string := "Seite"

  /** How far before `PageWord` the title is cut: the width of " - ". */
  const TitleBacktrack: int := 3

  /** The page marker a paged title carries before its page number. */
  const PageMarker: string := " - Seite "

  /** How many characters of a post the thread summary keeps. */
  const PreviewLength: int := 300

  // ----- the thread title -----

  /** The title line: the page title with every site suffix removed. */
  function TitleLine(title: string): (r: string)
    ensures |r| <= |title|
  {
    ReplaceNoLonger(title, SiteSuffix, "");
    ReplaceAll(title, SiteSuffix, "")
  }

  /** A page title whose only site suffix is the one at its end loses exactly
      that suffix. */
  lemma TitleLineDropsSuffix(x: string)
    requires Find(x + SiteSuffix, SiteSuffix) == |x|
    ensures TitleLine(x + SiteSuffix) == x
  {
    ReplaceTrailing(x, SiteSuffix);
  }

  /** A title line cut as the original does: three characters before the
      last "Seite", wherever that word stands, and with Python's reading of a
      negative stop. */
  function TitleOfLineAsWritten(line: string): (r: string)
    ensures |r| <= |line|
  {
    var p := RFind(line, PageWord);
    if p != -1 then PySlice(line, 0, p - TitleBacktrack) else line
  }

  /** A title line with a trailing page marker and page number loses both;
      any other line is the title as it stands. */
  function TitleOfLine(line: string): (r: string)
    ensures |r| <= |line| && r == line[..|r|]
  {
    var p := RFind(line, PageMarker);
    if p != -1 && IsDigits(line[p + |PageMarker|..]) then line[..p] else line
  }

  /** The thread title as the original computes it. */
  function ThreadTitleAsWritten(title: string): (r: string)
    ensures |r| <= |title|
  {
    TitleOfLineAsWritten(TitleLine(title))
  }

  /** The corrected thread title: the page title without the site suffix and
      without a trailing page marker, and nothing else cut. */
  function ThreadTitle(title: string): (r: string)
    ensures |r| <= |title|
  {
    TitleOfLine(TitleLine(title))
  }

  /** On the paged titles the forum produces, the corrected cut gives the
      name of the thread, whatever the name holds. */
  lemma PagedLineTitle(x: string, n: nat)
    ensures TitleOfLine(x + PageMarker + NatToDigits(n)) == x
  {
    var digits := NatToDigits(n);
    var line := x + PageMarker + digits;
    assert PageMarker[1] == '-' && PageMarker[2..] == " Seite ";
    assert '-' !in digits by {
      forall i | 0 <= i < |digits| ensures digits[i] != '-' { }
    }
    RFindLast(x, PageMarker, digits, 1);
    assert line[|x| + |PageMarker|..] == digits;
    assert line[..|x|] == x;
  }

  /** On the same titles the original cut agrees. */
  lemma PagedLineTitleAsWritten(x: string, n: nat)
    ensures TitleOfLineAsWritten(x + PageMarker + NatToDigits(n)) == x
  {
    var digits := NatToDigits(n);
    assert 'S' !in " " + digits by {
      forall i | 0 <= i < |" " + digits| ensures (" " + digits)[i] != 'S' {
        if i > 0 {
          assert (" " + digits)[i] == digits[i - 1];
        }
      }
    }
    assert x + PageMarker + digits == x + " - " + PageWord + (" " + digits);
    CutBeforeLastWord(x, " " + digits);
  }

  /** The original cut on a line whose last "Seite" follows " - ". */
  lemma CutBeforeLastWord(x: string, tail: string)
    requires 'S' !in tail
    ensures TitleOfLineAsWritten(x + " - " + PageWord + tail) == x
  {
    var line := x + " - " + PageWord + tail;
    assert PageWord[0] == 'S' && PageWord[1..] == "eite";
    RFindLast(x + " - ", PageWord, tail, 0);
    assert line[..|x|] == x;
  }

  /** A line without "Seite" is kept whole by the original cut. */
  lemma TitleOfLineWithoutPageWord(line: string)
    requires forall k :: !OccursAt(line, PageWord, k)
    ensures TitleOfLineAsWritten(line) == line
  {
    RFindSpec(line, PageWord);
  }

  /** A line without any page marker is kept whole by the corrected cut. */
  lemma TitleOfLineUnpaged(line: string)
    requires forall k :: !OccursAt(line, PageMarker, k)
    ensures TitleOfLine(line) == line
  {
    RFindSpec(line, PageMarker);
  }

  /** Every page title the forum gives page `n` of a thread whose name does
      not itself run into the site suffix: both cuts recover the name. */
  lemma PagedTitle(x: string, n: nat)
    requires var line := x + PageMarker + NatToDigits(n); Find(line + SiteSuffix, SiteSuffix) == |line|
    ensures ThreadTitle(x + PageMarker + NatToDigits(n) + SiteSuffix) == x
    ensures ThreadTitleAsWritten(x + PageMarker + NatToDigits(n) + SiteSuffix) == x
  {
    TitleLineDropsSuffix(x + PageMarker + NatToDigits(n));
    PagedLineTitle(x, n);
    PagedLineTitleAsWritten(x, n);
  }

  /** A thread name without an "F" never runs into the site suffix. */
  lemma PagedTitleWithoutF(x: string, n: nat)
    requires 'F' !in x
    ensures var line := x + PageMarker + NatToDigits(n); Find(line + SiteSuffix, SiteSuffix) == |line|
  {
    var digits := NatToDigits(n);
    var line := x + PageMarker + digits;
    assert 'F' !in line by {
      assert forall i :: 0 <= i < |digits| ==> digits[i] != 'F';
      assert forall c :: c in line ==> c in x || c in PageMarker || c in digits;
    }
    SuffixAtEnd(line);
  }

  /** The page title the forum gives page 150 of a thread. */
  lemma PagedTitleExample()
    ensures ThreadTitle("LCD4linux" + PageMarker + "150" + SiteSuffix) == "LCD4linux"
    ensures ThreadTitleAsWritten("LCD4linux" + PageMarker + "150" + SiteSuffix) == "LCD4linux"
  {
    assert NatToDigits(150) == "150" by {
      assert NatToDigits(150) == NatToDigits(15) + "0";
      assert NatToDigits(15) == NatToDigits(1) + "5";
    }
    PagedTitleWithoutF("LCD4linux", 150);
    PagedTitle("LCD4linux", 150);
  }

  /** A thread name without an "F" loses exactly the site suffix: the
      suffix cannot start inside the name. */
  lemma NamedTitleLine(x: string)
    requires 'F' !in x
    ensures TitleLine(x + SiteSuffix) == x
  {
    SuffixAtEnd(x);
    TitleLineDropsSuffix(x);
  }

  /** The first site suffix of a text without an "F" followed by the suffix
      is the appended one: every occurrence holds the "F" of "Forum". */
  lemma SuffixAtEnd(x: string)
    requires 'F' !in x
    ensures Find(x + SiteSuffix, SiteSuffix) == |x|
  {
    assert SiteSuffix[11] == 'F' && 'F' !in SiteSuffix[..11];
    assert x + SiteSuffix + "" == x + SiteSuffix;
    FindFirst(x, SiteSuffix, "", 11);
  }

  /** A single-page thread whose name ends in "Seite": the original cuts the
      word and the three characters before it, whatever they are. */
  lemma SeiteTitleAsWritten(x: string)
    requires 'F' !in x && |x| >= TitleBacktrack
    ensures ThreadTitleAsWritten(x + PageWord + SiteSuffix) == x[..|x| - TitleBacktrack]
  {
    var line := x + PageWord;
    assert 'F' !in line by {
      assert forall c :: c in line ==> c in x || c in PageWord;
    }
    NamedTitleLine(line);
    assert PageWord[0] == 'S' && PageWord[1..] == "eite";
    assert line + "" == line;
    RFindLast(x, PageWord, "", 0);
    assert line[..|x| - TitleBacktrack] == x[..|x| - TitleBacktrack];
  }

  /** The corrected cut keeps such a name whole when it holds no dash. */
  lemma SeiteTitleCorrected(x: string)
    requires 'F' !in x && '-' !in x
    ensures ThreadTitle(x + PageWord + SiteSuffix) == x + PageWord
  {
    var line := x + PageWord;
    assert 'F' !in line && '-' !in line by {
      assert forall c :: c in line ==> c in x || c in PageWord;
    }
    NamedTitleLine(line);
    NoMarkerWithoutDash(line);
    TitleOfLineUnpaged(line);
  }

  /** The thread "Neue Seite": the original reports its title as "Ne". */
  lemma UnpagedTitleFinding()
    ensures ThreadTitleAsWritten("Neue " + PageWord + SiteSuffix) == "Ne"
  {
    SeiteTitleAsWritten("Neue ");
  }

  /** The corrected cut reports it as "Neue Seite". */
  lemma UnpagedTitleCorrected()
    ensures ThreadTitle("Neue " + PageWord + SiteSuffix) == "Neue Seite"
  {
    SeiteTitleCorrected("Neue ");
  }

  /** A line without a dash holds no page marker. */
  lemma NoMarkerWithoutDash(line: string)
    requires '-' !in line
    ensures forall k :: !OccursAt(line, PageMarker, k)
  {
    forall k
      ensures !OccursAt(line, PageMarker, k)
    {
      if 0 <= k && k + |PageMarker| <= |line| {
        assert line[k..k + |PageMarker|][1] == line[k + 1];
      }
    }
  }

  // ----- pagination -----

  /** `convert2int`: the decimal value of an ASCII digit string, otherwise
      the fallback. */
  function ConvertToInt(s: string, fallback: int): (r: int)
    ensures !IsDigits(s) ==> r == fallback
    ensures IsDigits(s) ==> r >= 0
  {
    if IsDigits(s) then DigitsValue(s) else fallback
  }

  /** `convert2int` reads back what `str` writes. */
  lemma ConvertRoundTrip(n: nat, fallback: int)
    ensures ConvertToInt(IntToString(n), fallback) == n
  {
    DigitsRoundTrip(n);
  }

  /** Leading zeros do not change what `convert2int` reads. */
  lemma ConvertLeadingZeros(z: string, s: string, fallback: int)
    requires forall k :: 0 <= k < |z| ==> z[k] == '0'
    requires IsDigits(s)
    ensures IsDigits(z + s) && ConvertToInt(z + s, fallback) == ConvertToInt(s, fallback)
  {
    LeadingZeros(z, s);
  }

  datatype Pagination = Pagination(currPage: int, maxPages: int)

  /** The current page and the page count: 1 and 1 without a pagination
      bar; otherwise the active item's number (1 when it is not a number) and
      the button's number (the current page when it is not a number). */
  function PaginationOf(active: Option<ActiveItem>, button: Option<string>): (r: Outcome<Pagination>)
    ensures active.None? ==> r == Ok(Pagination(1, 1))
    ensures active.Some? && active.value.span.None? ==> r == Fault("li.active span")
    ensures active.Some? && active.value.span.Some? && button.None? ==> r == Fault("a.button")
    ensures r.Ok? || r.Fault?
    ensures r.Ok? ==> r.value.currPage >= 0 && r.value.maxPages >= 0
  {
    if active.None? then Ok(Pagination(1, 1))
    else if active.value.span.None? then Fault("li.active span")
    else
      var currPage := ConvertToInt(active.value.span.value, 1);
      if button.None? then Fault("a.button")
      else Ok(Pagination(currPage, ConvertToInt(button.value, currPage)))
  }

  /** A pagination bar written from two page numbers reads back as those
      numbers. */
  lemma PaginationRoundTrip(curr: nat, max: nat)
    ensures PaginationOf(Some(ActiveItem(Some(IntToString(curr)))), Some(IntToString(max)))
      == Ok(Pagination(curr, max))
  {
    ConvertRoundTrip(curr, 1);
    ConvertRoundTrip(max, curr);
  }

  /** A button that is no number leaves the page count at the current page;
      an active item that is no number puts the current page at 1. */
  lemma PaginationFallbacks(span: string, button: string)
    ensures var r := PaginationOf(Some(ActiveItem(Some(span))), Some(button));
      && r.Ok?
      && (!IsDigits(span) ==> r.value.currPage == 1)
      && (!IsDigits(button) ==> r.value.maxPages == r.value.currPage)
  {
  }

  // ----- post summaries -----

  /** The post id of a container: its `id` attribute with the characters of
      "profile" stripped from both ends. */
  function PostIdOf(id: string): (r: string)
    ensures |r| <= |id|
  {
    Strip(id, "profile")
  }

  /** `strip("profile")` removes characters, not a prefix: any run of the
      letters p, r, o, f, i, l, e around a post number goes, whatever its
      order, and the number stays. */
  lemma PostIdOfNumber(pre: string, n: nat, post: string)
    requires forall k :: 0 <= k < |pre| ==> pre[k] in "profile"
    requires forall k :: 0 <= k < |post| ==> post[k] in "profile"
    ensures PostIdOf(pre + NatToDigits(n) + post) == NatToDigits(n)
  {
    var d := NatToDigits(n);
    assert pre + d + post == pre + (d + post);
    LStripSkips(pre, d + post, "profile");
    assert (d + post)[0] == d[0] && d[0] !in "profile";
    assert LStrip(d + post, "profile") == d + post;
    RStripSkips(d, post, "profile");
    assert d[|d| - 1] !in "profile";
    assert RStrip(d, "profile") == d;
  }

  /** The container ids the forum writes: "p123" gives "123". */
  lemma PostIdOfExample()
    ensures PostIdOf("p123") == "123"
  {
    assert NatToDigits(123) == NatToDigits(12) + "3";
    assert NatToDigits(12) == NatToDigits(1) + "2";
    assert "p123" == "p" + NatToDigits(123) + "";
    PostIdOfNumber("p", 123, "");
  }

  /** The address of a profile image: the base address without trailing
      slashes followed by the `src` attribute stripped of dots; nothing when
      the stripped `src` is empty. */
  function ImageUrl(base: string, img: Image): (r: Option<string>)
    ensures r.None? <==> Strip(img.src, ".") == ""
    ensures r.Some? ==> |r.value| >= |Strip(img.src, ".")|
  {
    var src := Strip(img.src, ".");
    if src == "" then None else Some(RStrip(base, "/") + src)
  }

  /** The image address is the base address with its trailing slashes cut
      off, followed by the `src` with its dots stripped from both ends. */
  lemma ImageUrlSpec(base: string, img: Image)
    ensures ImageUrl(base, img).Some? ==>
      var url := ImageUrl(base, img).value; var src := Strip(img.src, "."); var p := |url| - |src|;
      && 0 <= p <= |base|
      && url == base[..p] + src
      && (forall k :: p <= k < |base| ==> base[k] == '/')
      && (p > 0 ==> base[p - 1] != '/')
  {
    RStripSpec(base, "/");
  }

  /** The forum's relative image paths ("./images/a.png") become absolute:
      the dot goes, and so does a trailing slash of the base address. */
  lemma ImageUrlOfRelative(base: string, path: string, title: string)
    requires base == [] || base[|base| - 1] != '/'
    requires path != [] && path[0] != '.' && path[|path| - 1] != '.'
    ensures ImageUrl(base + "/", Image("." + path, title)) == Some(base + path)
  {
    assert (base + "/")[..|base|] == base;
    assert RStrip(base, "/") == base;
    RelativePathStrip(path);
  }

  /** Stripping dots from "." and a path without dots at its ends gives the path. */
  lemma RelativePathStrip(path: string)
    requires path != [] && path[0] != '.' && path[|path| - 1] != '.'
    ensures Strip("." + path, ".") == path
  {
    assert ("." + path)[1..] == path;
    assert LStrip(path, ".") == path;
    assert RStrip(path, ".") == path;
  }

  /** The `i`-th profile counter, "" when there are not that many. */
  function CounterAt(counters: seq<string>, i: nat): string {
    if i < |counters| then counters[i] else ""
  }

  /** The author name of a profile: the name link, or else the name span. */
  function ProfileUser(p: Profile): (r: Option<string>)
    ensures r.Some? <==> p.userLink.Some? || p.userSpan.Some?
    ensures p.userLink.Some? ==> r == p.userLink
    ensures p.userLink.None? ==> r == p.userSpan
  {
    if p.userLink.Some? then p.userLink else p.userSpan
  }

  /** The mandatory fragment a post container lacks, in the order the
      original reads them; the original raises an exception there. */
  function SummaryFault(c: PostContainer): (r: Option<string>)
    ensures r.None? <==>
      && (c.profile.Some? ==> ProfileUser(c.profile.value).Some?)
      && c.body.Some? && c.body.value.time.Some? && c.body.value.content.Some?
  {
    if c.profile.Some? && ProfileUser(c.profile.value).None? then Some("username")
    else if c.body.None? then Some("div.postbody")
    else if c.body.value.time.None? then Some("time")
    else if c.body.value.content.None? then Some("div.content")
    else None
  }

  /** The "online" flag: the word itself when the container has the class,
      "" (which is then not stored) otherwise. */
  function OnlineFlag(online: bool): (r: string)
    ensures r != "" <==> online
  {
    if online then "online" else ""
  }

  /** The setter calls for one post container, in the order the original
      makes them; a call the original does not make has no source. */
  function SummaryFields(base: string, c: PostContainer): (fields: seq<Field>)
    requires SummaryFault(c).None?
  {
    var p := c.profile;
    var b := c.body.value;
    [ Field("postId", Some(PostIdOf(c.id)), []),
      Field("userName", if p.Some? then ProfileUser(p.value) else None, []),
      Field("avatarUrl", if p.Some? && p.value.avatar.Some? then ImageUrl(base, p.value.avatar.value) else None, []),
      Field("postsCounter", if p.Some? then Some(CounterAt(p.value.counters, 0)) else None, []),
      Field("online", Some(OnlineFlag("online" in c.classes)), []),
      Field("postNumber", b.postNumber, ["\n"]),
      Field("postTime", b.time, []),
      Field("shortContent", Some(PySlice(b.content.value.spacedText, 0, PreviewLength)), []) ]
  }

  /** Every key a post summary can hold. */
  const SummaryKeys: set<string> :=
    {"postId", "userName", "avatarUrl", "postsCounter", "online", "postNumber", "postTime", "shortContent"}

  /** The sparse summary of one post: a key is present exactly when its
      fragment yields text, and then holds that text cleaned. */
  function PostSummary(base: string, c: PostContainer): (r: Record)
    requires SummaryFault(c).None?
    ensures r.Keys <= SummaryKeys
    ensures var fields := SummaryFields(base, c);
      forall i :: 0 <= i < |fields| ==>
        && (fields[i].key in r <==> Yields(fields[i].source))
        && (Yields(fields[i].source) ==> r[fields[i].key] == RemoveAll(fields[i].source.value, fields[i].removals))
  {
    var fields := SummaryFields(base, c);
    assert DistinctKeys(fields);
    assert forall i :: 0 <= i < |fields| ==> fields[i].key in SummaryKeys;
    BuildFields(fields);
    Build(fields)
  }

  /** Concretely: the preview is a prefix of the spaced text of at most 300
      characters, the online flag is present exactly for containers with the
      class, the author keys exist only with a profile, and the post number
      loses its newlines. */
  lemma PostSummaryFields(base: string, c: PostContainer)
    requires SummaryFault(c).None?
    ensures var r := PostSummary(base, c); var text := c.body.value.content.value.spacedText;
      && ("online" in r <==> "online" in c.classes)
      && ("online" in r ==> r["online"] == "online")
      && ("userName" in r ==> c.profile.Some?)
      && ("postsCounter" in r ==> c.profile.Some?)
      && ("avatarUrl" in r ==> c.profile.Some? && c.profile.value.avatar.Some?)
      && ("shortContent" in r <==> text != "")
      && ("shortContent" in r ==>
            |r["shortContent"]| <= PreviewLength && r["shortContent"] == text[..|r["shortContent"]|]
            && (|text| >= PreviewLength ==> |r["shortContent"]| == PreviewLength))
      && ("postNumber" in r ==> '\n' !in r["postNumber"])
      && ("postTime" in r <==> c.body.value.time.value != "")
  {
    var fields := SummaryFields(base, c);
    var text := c.body.value.content.value.spacedText;
    assert fields[1].key == "userName" && fields[2].key == "avatarUrl" && fields[3].key == "postsCounter";
    assert fields[4].key == "online" && fields[5].key == "postNumber";
    assert fields[6].key == "postTime" && fields[7].key == "shortContent";
    if |text| >= PreviewLength {
      assert PySlice(text, 0, PreviewLength) == text[..PreviewLength];
    } else {
      assert PySlice(text, 0, PreviewLength) == text;
    }
    if c.body.value.postNumber.Some? {
      RemoveNewlines(c.body.value.postNumber.value);
    }
  }

  /** The post counter comes from the first counter block: it is stored
      exactly when the container has a profile with such a block holding
      text, and then holds that text. */
  lemma PostSummaryCounter(base: string, c: PostContainer)
    requires SummaryFault(c).None?
    ensures var r := PostSummary(base, c);
      && (c.profile.None? ==> "postsCounter" !in r)
      && (c.profile.Some? ==>
            var counters := c.profile.value.counters;
            && ("postsCounter" in r <==> |counters| > 0 && counters[0] != "")
            && ("postsCounter" in r ==> r["postsCounter"] == counters[0]))
  {
    assert SummaryFields(base, c)[3].key == "postsCounter";
  }

  /** The author names of the containers that have a profile, in order. */
  function ProfileNames(posts: seq<PostContainer>): (r: seq<string>)
    ensures |r| <= |posts|
    ensures forall i, u ::
      (0 <= i < |posts| && posts[i].profile.Some? && ProfileUser(posts[i].profile.value) == Some(u)) ==> u in r
    ensures forall u :: u in r ==>
      exists i :: 0 <= i < |posts| && posts[i].profile.Some? && ProfileUser(posts[i].profile.value) == Some(u)
  {
    if |posts| == 0 then []
    else
      var rest := ProfileNames(posts[1..]);
      assert forall i :: 1 <= i < |posts| ==> posts[i] == posts[1..][i - 1];
      var p := posts[0].profile;
      if p.Some? && ProfileUser(p.value).Some? then [ProfileUser(p.value).value] + rest else rest
  }

  datatype ThreadResult = ThreadResult(
    threadTitle: string,
    currPage: int,
    maxPages: int,
    posts: seq<Record>,
    users: seq<string>)

  /** `parseThread` on an already fetched and parsed page, with the title
      cut as the original cuts it. The author list
      holds every author once; the original returns it through a Python set,
      so its order is not promised. */
  function ParseThread(threadUrl: string, base: string, page: ThreadPage): (r: Outcome<ThreadResult>)
    ensures threadUrl == "" <==> r == Error("No threadUrl given.")
    ensures !r.NotFound?
    ensures threadUrl != "" && page.title.None? ==> r == Fault("title")
    ensures r.Ok? <==>
      && threadUrl != "" && page.title.Some?
      && PaginationOf(page.active, page.button).Ok?
      && forall i :: 0 <= i < |page.posts| ==> SummaryFault(page.posts[i]).None?
    ensures r.Ok? ==>
      && r.value.threadTitle == ThreadTitleAsWritten(page.title.value)
      && Ok(Pagination(r.value.currPage, r.value.maxPages)) == PaginationOf(page.active, page.button)
      && |r.value.posts| == |page.posts|
      && (forall i :: 0 <= i < |page.posts| ==>
            SummaryFault(page.posts[i]).None? && r.value.posts[i] == PostSummary(base, page.posts[i]))
      && NoDuplicates(r.value.users)
      && (forall u :: u in r.value.users <==> u in ProfileNames(page.posts))
  {
    if threadUrl == "" then Error("No threadUrl given.")
    else if page.title.None? then Fault("title")
    else
      var pagination := PaginationOf(page.active, page.button);
      if pagination.Fault? then Fault(pagination.fragment)
      else
        var fault := FirstFault(page.posts, SummaryFault);
        if fault.Some? then Fault(fault.value)
        else
          var posts := seq(|page.posts|, i requires 0 <= i < |page.posts| => PostSummary(base, page.posts[i]));
          Ok(ThreadResult(ThreadTitleAsWritten(page.title.value), pagination.value.currPage,
                          pagination.value.maxPages, posts, Dedup(ProfileNames(page.posts))))
  }
}
