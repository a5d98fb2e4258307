# Forum parser extraction core, modelled in Dafny

This project models the text-extraction core of the openATV forum parser
(`FparserHelper` in `src/forumparser.py`). The core turns pages of a
phpBB-style forum into sparse records, and there are three extractors:

- `parseLatest`: the recent-topics listing. It yields one summary per topic
  entry plus the list of authors.
- `parseThread`: one thread page. It yields the thread title, the current page
  and the page count, one summary per post, and the list of authors.
- `parsePost`: the full detail of the one post whose container id matches the
  requested id.

All three build records with the same "extract-if-present" setter. A key is
written only when its fragment exists and its text is non-empty. The text is
cleaned by `str.replace` removals after that test. The project also models
the two URL builders and the Python string operations the extractors depend
on.

The parsed document is an input. Every BeautifulSoup lookup becomes an
`Option` field of a record in `Fragments`, holding the text the lookup would
yield. A missing attribute reads as `""`. Three outcomes replace the source's
error behaviour (`Wrappers.Outcome`):

- The source raises an exception when a mandatory fragment is missing. The
  model returns `Fault(name)`, naming the first missing fragment in the order
  the code reads them.
- The source returns an error message early on an empty thread URL or post id.
  The model returns `Error(message)` with the same message.
- When no container matches in `parsePost`, the model returns `NotFound`.

Modules:

| module | models |
|---|---|
| `Wrappers` | `Option`, `Outcome`, and the first-fault scan |
| `PyStr` | `find`, `rfind`, slices, `replace`, `strip`/`lstrip`/`rstrip`, `isdigit`, `int`, `str` |
| `Sparse` | the setter `setPostKey`/`setThreadKey`, and a record built by a sequence of setter calls |
| `Authors` | the duplicate-free author list |
| `Urls` | `createThreadUrl`, `createPostUrl`, the listing URL |
| `Fragments` | the document fragments each extractor reads |
| `Listing` | `parseLatest` |
| `Thread` | `parseThread`: title, `convert2int`, pagination, post summaries |
| `Post` | `parsePost`: the newline collapse, the detail record, the search for the post |

The site base URL is a parameter of every operation that uses it. The source
keeps it in a process-wide variable.

## Model

| member | source | states |
|---|---|---|
| `PyStr.FindSpec` | src/forumparser.py:80 | `find` gives -1 exactly when the pattern does not occur; otherwise it gives an occurrence with none before it |
| `PyStr.RFindSpec` | src/forumparser.py:80 | `rfind` gives -1 exactly when the pattern does not occur; otherwise it gives an occurrence with none after it |
| `PyStr.SliceBetweenRecovers` | src/forumparser.py:80 | the slice from the first opening marker to the last closing marker gives back the text between them, provided the first character of the opening marker is absent from the text before, and the first character of the closing marker is absent from the text after and from the rest of that marker |
| `PyStr.ReplaceCharIsErase` | src/forumparser.py:59 | `replace(c, "")` for one character deletes exactly the occurrences of `c` |
| `PyStr.ReplaceNoLonger` | src/forumparser.py:221 | replacing a pattern by a text no longer than it never lengthens the string |
| `PyStr.ReplaceShorter` | src/forumparser.py:221 | when the pattern occurs and the replacement is strictly shorter, the string gets strictly shorter, so the collapse loop ends |
| `PyStr.ReplaceAfter` | src/forumparser.py:221 | when the pattern does not start inside a prefix, `replace` keeps that prefix and replaces only in what follows it |
| `PyStr.StripSpec` | src/forumparser.py:133 | `strip(chars)` gives a contiguous slice of the input; its ends are not in `chars` and everything cut off is in `chars` |
| `PyStr.StripIdempotent` | src/forumparser.py:133 | stripping twice equals stripping once |
| `PyStr.DigitsRoundTrip` | src/forumparser.py:105-106 | `int` reads back the number `str` wrote, and that text passes `isdigit` |
| `PyStr.LeadingZeros` | src/forumparser.py:105-106 | `int` of a digit string is unchanged by leading zeros, and the longer text is still all digits |
| `Wrappers.FirstFault` | src/forumparser.py:75-88 | the scan reports no fault exactly when every element is complete; otherwise it reports the fault of the first incomplete element |
| `Sparse.SetKey` | src/forumparser.py:54-60 | the key is present afterwards iff it was present before or the source yields non-empty text; a written value is the text after the removals; a source yielding nothing leaves the record unchanged |
| `Sparse.SetKeyFrame` | src/forumparser.py:97-103 | the setter leaves every other key and its value untouched |
| `Sparse.RemoveTabsAndNewlines` | src/forumparser.py:85-86 | removing tabs and then newlines deletes exactly those two characters and keeps every other character in order |
| `Sparse.RemoveNewlines` | src/forumparser.py:149 | removing newlines deletes exactly the newlines |
| `Sparse.SetKeyCanStoreEmpty` | src/forumparser.py:56-60 | the emptiness test happens before the removals, so a value consisting only of newlines is stored as the empty text |
| `Sparse.Build` | src/forumparser.py:76-88 | a record built from setter calls holds no key outside those calls |
| `Sparse.BuildFields` | src/forumparser.py:76-88 | with distinct keys, each key is present iff its source yields text, and then holds that text after the removals |
| `Authors.AddUnique` | src/forumparser.py:89-90 | adding a name keeps the list duplicate-free, adds exactly that name, and keeps the old list as a prefix |
| `Authors.Dedup` | src/forumparser.py:89-94 | the author list holds each name of the input exactly once, and nothing else |
| `Urls.CreateThreadUrl` | src/forumparser.py:47-48 | the URL is empty iff the thread id is empty; otherwise it starts with the base |
| `Urls.ThreadUrlRoundTrip` | src/forumparser.py:47-48 | the thread id and the start offset can be read back from a thread URL, whatever characters the id contains |
| `Urls.CreatePostUrl` | src/forumparser.py:50-51 | the URL is empty iff the post id is empty; otherwise it starts with the base |
| `Urls.PostUrlRoundTrip` | src/forumparser.py:50-51 | the post id can be read back both before and after the `#p` anchor |
| `Urls.LatestUrl` | src/forumparser.py:63 | the listing URL starts with the base |
| `Urls.LatestUrlRoundTrip` | src/forumparser.py:63 | the digits after the last `recent_topics_start=` of a listing URL read back as its offset |
| `Listing.ThreadIdOf` | src/forumparser.py:79-80 | with both markers present in order, the id is the text between the first `?t=` and the last `&sid=`; it is never longer than the link |
| `Listing.ThreadIdOfTopicLink` | src/forumparser.py:79-80 | a topic link gives back its thread id, whatever the id contains |
| `Listing.ThreadIdWithoutSid` | src/forumparser.py:80 | without `&sid=`, the id loses the link's last character (Python reads a stop of -1 as the last index) |
| `Listing.AfterLeadIn` | src/forumparser.py:82 | the 19-character lead-in is dropped; shorter text yields "" |
| `Listing.UserNameOfSpec` | src/forumparser.py:82-83 | the author name is the text up to the first `«`; without a `«`, the text minus its last character |
| `Listing.EntryFault` | src/forumparser.py:77-82 | an entry is complete iff it has a topic link and a responsive-show block |
| `Listing.EntryRecord` | src/forumparser.py:76-88 | each listing key is present iff its fragment yields text, and then holds it cleaned |
| `Listing.EntryRecordFields` | src/forumparser.py:79-86 | the id and author keys follow their slices, and both lines lose exactly their tabs and newlines |
| `Listing.ParseLatest` | src/forumparser.py:53-94 | a missing topic list is a fault; an incomplete entry is a fault naming the first incomplete entry's missing fragment; otherwise there is one summary per entry in order, a fixed title, the start offset, and a duplicate-free list of the entries' authors |
| `Thread.TitleLine` | src/forumparser.py:119 | removing the site suffix never lengthens the title |
| `Thread.TitleLineDropsSuffix` | src/forumparser.py:119 | a title whose only site suffix is at its end loses exactly that suffix |
| `Thread.NamedTitleLine` | src/forumparser.py:119 | a thread name without an "F" loses exactly the appended site suffix |
| `Thread.PagedLineTitle` | src/forumparser.py:120-121 | the corrected cut gives back the name from "name - Seite n" for every name and page number |
| `Thread.PagedLineTitleAsWritten` | src/forumparser.py:120-121 | on the same lines, the original cut gives back the name too |
| `Thread.TitleOfLineWithoutPageWord` | src/forumparser.py:120-121 | a line without "Seite" is kept whole |
| `Thread.TitleOfLineUnpaged` | src/forumparser.py:120-121 | the corrected cut keeps a line without a page marker whole |
| `Thread.PagedTitle` | src/forumparser.py:119-121 | both title computations give back the name from a full paged page title, whenever the site suffix first occurs at the end of that title |
| `Thread.PagedTitleWithoutF` | src/forumparser.py:119 | a thread name without a capital "F" meets that condition for every page number |
| `Thread.PagedTitleExample` | src/forumparser.py:119-121 | the page title of page 150 of "LCD4linux" gives "LCD4linux" |
| `Thread.SeiteTitleAsWritten` | src/forumparser.py:119-121 | the original computation cuts a single-page name ending in "Seite" three characters before the word |
| `Thread.SeiteTitleCorrected` | src/forumparser.py:119-121 | the corrected computation keeps such a name whole |
| `Thread.UnpagedTitleFinding` | src/forumparser.py:119-121 | the thread "Neue Seite" is titled "Ne" by the original computation |
| `Thread.UnpagedTitleCorrected` | src/forumparser.py:119-121 | the corrected computation titles it "Neue Seite" |
| `Thread.ConvertToInt` | src/forumparser.py:105-106 | non-digit text gives the fallback; digit text gives a non-negative number |
| `Thread.ConvertRoundTrip` | src/forumparser.py:105-106 | `convert2int` reads back any number written by `str` |
| `Thread.ConvertLeadingZeros` | src/forumparser.py:105-106 | leading zeros before a digit string do not change the number `convert2int` reads |
| `Thread.PaginationOf` | src/forumparser.py:122-129 | with no active item, page 1 of 1; an active item without a span, or a missing button, is a fault; otherwise both numbers are non-negative |
| `Thread.PaginationRoundTrip` | src/forumparser.py:122-129 | a pagination bar showing two numbers reads back as those numbers |
| `Thread.PaginationFallbacks` | src/forumparser.py:125-127 | a non-numeric active item gives current page 1; a non-numeric button gives a page count equal to the current page |
| `Thread.PostIdOf` | src/forumparser.py:133 | the post id is never longer than the container id |
| `Thread.PostIdOfNumber` | src/forumparser.py:133 | any run of the letters of "profile" around a post number is removed, in any order, and the number is kept |
| `Thread.PostIdOfExample` | src/forumparser.py:133 | container id "p123" gives post id "123" |
| `Thread.ImageUrl` | src/forumparser.py:141-144 | there is no image URL exactly when the `src` stripped of dots is empty |
| `Thread.ImageUrlSpec` | src/forumparser.py:141-144 | the image URL is a prefix of the base followed by the dot-stripped `src`; only slashes of the base are cut, and the kept prefix does not end in a slash |
| `Thread.ImageUrlOfRelative` | src/forumparser.py:141-144 | a relative path "./x" under a base address becomes base + "/x", with no doubled slash |
| `Thread.PostSummaryCounter` | src/forumparser.py:145-146 | the post counter is stored iff the container has a profile whose first counter block exists and holds text, and then it is that text |
| `Thread.ProfileUser` | src/forumparser.py:136-137 | the author comes from the name link, or else from the name span; there is none iff both are missing |
| `Thread.OnlineFlag` | src/forumparser.py:147 | the flag text is non-empty iff the container is marked online |
| `Thread.SummaryFault` | src/forumparser.py:131-151 | a post container is complete iff a present profile has an author, and the body, its time and its content all exist |
| `Thread.PostSummary` | src/forumparser.py:131-152 | each summary key is present iff its fragment yields text, and then holds it cleaned |
| `Thread.PostSummaryFields` | src/forumparser.py:133-151 | the preview is a prefix of the spaced text of at most 300 characters, and exactly 300 when the text is that long; the online key is present iff the container has the class; author keys need a profile; the post number contains no newline |
| `Thread.ProfileNames` | src/forumparser.py:134-139 | the listed authors are exactly the authors of the containers that have a profile |
| `Thread.ParseThread` | src/forumparser.py:96-153 | an empty URL is an error; a missing title, pagination fragment or post fragment is a fault; otherwise: the title as the source cuts it, the pagination, one summary per container in order, and a duplicate-free author list |
| `Post.CollapseNewlines` | src/forumparser.py:219-221 | the result contains no three newlines in a row, is no longer than the input, is empty iff the input is empty, and equals the input when that already has no such run |
| `Post.ReplaceRun` | src/forumparser.py:221 | one round of replacement turns a maximal run of n newlines (after a text without newlines, before a rest that does not start with one) into 2·(n / 3) + n % 3 newlines and goes on with the round in the rest |
| `Post.CollapseRun` | src/forumparser.py:219-221 | the loop turns the first maximal run of newlines into exactly two when it has three or more, keeps it when shorter, and collapses the rest after it independently, so every run of three or more newlines anywhere ends as exactly two |
| `Post.ReplaceTripleKeepsText` | src/forumparser.py:221 | one round of replacement deletes only newlines |
| `Post.CollapseKeepsText` | src/forumparser.py:219-221 | the whole loop deletes only newlines: every other character stays, in order |
| `Post.CollapseIdempotent` | src/forumparser.py:219-221 | collapsing a collapsed text changes nothing |
| `Post.CollapseExample` | src/forumparser.py:219-221 | a run of four newlines becomes two after two rounds |
| `Post.DetailFault` | src/forumparser.py:188-219 | a matching container is complete iff a rank block has an image, a profile has a join date, and the body, its time and its content exist |
| `Post.DetailOf` | src/forumparser.py:186-225 | the detail holds only detail keys; receivers are stored iff the profile lists any, and then as listed |
| `Post.DetailOfFields` | src/forumparser.py:186-225 | each detail key is present iff its fragment yields text, and then holds it cleaned |
| `Post.DetailNameField` | src/forumparser.py:190 | the name key comes only from the name link |
| `Post.DetailRegisteredField` | src/forumparser.py:200 | the join date loses its last six characters and is stored iff it is longer than six |
| `Post.DetailCounterFields` | src/forumparser.py:210-213 | the three counters come from the first, second and third counter blocks, each stored iff that block exists and is non-empty |
| `Post.DetailBodyFields` | src/forumparser.py:214-225 | the content keeps every non-newline character and has no run of three newlines; the change line is stored trimmed at both ends; the online key follows the online marker |
| `Post.SearchPost` | src/forumparser.py:182-186 | not found iff no container matches; a fault iff some matching container is incomplete, naming the missing fragment of the first such container; otherwise the last matching container |
| `Post.ParsePost` | src/forumparser.py:160-226 | an empty id is an error; otherwise as the search decides (a fault names the first incomplete matching container's missing fragment), and on success the detail of the last matching container |
| `Post.DetailCarriesPostId` | src/forumparser.py:183-187 | the returned detail stores the requested id under "postId" |

## Left out

- The HTTP fetch `getHTMLdata` (src/forumparser.py:34-45) and its error
  messages are not modelled. Each extractor takes the already parsed page.
- `checkServerStatus` (src/forumparser.py:155-158) sets the global base URL
  and makes a request. The base URL is a parameter here instead.
- The command-line `main` (src/forumparser.py:232-285) is not modelled.
- HTML parsing and the BeautifulSoup lookups are not modelled. This includes
  class-name regular expressions, `find_all`, and `get_text` with its
  separator and `strip` arguments. Their results are fields of the input
  records.
- The `button` text read with `get_text("button")` (src/forumparser.py:126) is
  taken as a given string. Joining several text pieces with the word "button"
  is not modelled.
- When parsing fails (src/forumparser.py:69-71), the source prints a message
  and goes on with an unbound variable. That path is not modelled.
- `PyStr.IsDigits` accepts only the ASCII digits 0-9. Python's `isdigit`
  also accepts other Unicode digits.
- Listing.ParseLatest: the author list has the first-seen order. The source
  returns `list(set(...))` in an unspecified order, so the contract promises
  only that names are distinct and that membership matches.
- Thread.ParseThread: the author list has the same ordering caveat. The field
  is called `users` here; the source's dictionary key is `"user"`.
- Post.ParsePost: when no container matches, the source reaches its final
  return with the local variable still unbound and raises an exception
  (src/forumparser.py:226). The model returns `NotFound`.
- Listing.ParseLatest: an entry without a responsive-show block makes the
  code raise an exception (src/forumparser.py:82). The model returns a
  `Fault`.

## Findings

| source | as written | input that shows it | evidently intended | confidence | as-written member | corrected member |
|---|---|---|---|---|---|---|
| src/forumparser.py:120-121 | the title is cut three characters before the LAST "Seite" in the title line, wherever it appears | the page title "Neue Seite - openATV Forum" of a single-page thread gives the title "Ne" | remove only a trailing " - Seite <number>" page marker | not executed | `Thread.ThreadTitleAsWritten`, shown by `Thread.UnpagedTitleFinding` and `Thread.SeiteTitleAsWritten` | `Thread.ThreadTitle`, proved by `Thread.UnpagedTitleCorrected`, `Thread.SeiteTitleCorrected`, `Thread.PagedLineTitle` and `Thread.PagedTitle` |
