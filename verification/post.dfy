/** The single-post extractor (`parsePost`): the detail record of the post
    whose container id matches the requested post id. */
module Post {
  import opened Wrappers
  import opened PyStr
  import opened Sparse
  import opened Fragments
  import opened Thread

  const Triple: string := "\n\n\n"
  const Double: string := "\n\n"

  // ----- the newline collapse -----

  /** Replacing a run of newlines by a non-empty run keeps a non-empty text
      non-empty. */
  lemma ReplaceKeepsNonEmpty(s: string, pat: string, repl: string)
    requires |pat| > 0 && |repl| > 0 && s != []
    ensures ReplaceAll(s, pat, repl) != []
  {
    if Find(s, pat) == -1 {
      ReplaceMissing(s, pat, repl);
    } else {
      ReplaceFound(s, pat, repl);
    }
  }

  /** The content loop: while the text holds three newlines in a row, replace
      every (non-overlapping) three by two. The text shrinks at each round,
      so the loop ends; when it ends no three newlines remain. */
  function CollapseNewlines(s: string): (r: string)
    ensures !Contains(r, Triple)
    ensures |r| <= |s|
    ensures r == [] <==> s == []
    ensures !Contains(s, Triple) ==> r == s
    decreases |s|
  {
    if Contains(s, Triple) then
      ReplaceShorter(s, Triple, Double);
      ReplaceKeepsNonEmpty(s, Triple, Double);
      CollapseNewlines(ReplaceAll(s, Triple, Double))
    else s
  }

  /** One round of the loop deletes newlines only: every other character
      stays, in order. */
  lemma {:induction false} ReplaceTripleKeepsText(s: string)
    ensures Erase(ReplaceAll(s, Triple, Double), '\n') == Erase(s, '\n')
    decreases |s|
  {
    var k := Find(s, Triple);
    if k == -1 {
      ReplaceMissing(s, Triple, Double);
    } else {
      TripleStepKeepsText(s);
      ReplaceTripleKeepsText(s[k + 3..]);
    }
  }

  /** Both newline runs vanish when newlines are erased. */
  lemma RunsVanish()
    ensures Erase(Double, '\n') == [] && Erase(Triple, '\n') == []
  {
    assert Triple[1..] == Double && Double[1..] == "\n" && "\n"[1..] == [];
  }

  /** Erasing newlines from one step of the round sees the text before the
      run, then the rest of the round, on both sides. */
  lemma TripleStepKeepsText(s: string)
    requires Find(s, Triple) != -1
    ensures var k := Find(s, Triple);
      && Erase(ReplaceAll(s, Triple, Double), '\n')
           == Erase(s[..k], '\n') + Erase(ReplaceAll(s[k + 3..], Triple, Double), '\n')
      && Erase(s, '\n') == Erase(s[..k], '\n') + Erase(s[k + 3..], '\n')
  {
    var k := Find(s, Triple);
    var pre, rest := s[..k], s[k + 3..];
    RunsVanish();
    assert ReplaceAll(s, Triple, Double) == pre + Double + ReplaceAll(rest, Triple, Double) by {
      ReplaceFound(s, Triple, Double);
    }
    EraseBetween(pre, Double, ReplaceAll(rest, Triple, Double), '\n');
    assert s == pre + Triple + rest by {
      FindOccurs(s, Triple);
    }
    EraseBetween(pre, Triple, rest, '\n');
  }

  /** The whole loop deletes newlines only. */
  lemma {:induction false} CollapseKeepsText(s: string)
    ensures Erase(CollapseNewlines(s), '\n') == Erase(s, '\n')
    decreases |s|
  {
    if Contains(s, Triple) {
      ReplaceShorter(s, Triple, Double);
      ReplaceTripleKeepsText(s);
      CollapseKeepsText(ReplaceAll(s, Triple, Double));
    }
  }

  /** `n` newlines in a row. */
  function Newlines(n: nat): (r: string)
    ensures |r| == n && forall k :: 0 <= k < n ==> r[k] == '\n'
  {
    seq(n, _ => '\n')
  }

  /** The length a run of `n` newlines has after one round: every complete
      three becomes two, and the one or two left over stay. */
  function RoundLength(n: nat): nat {
    2 * (n / 3) + n % 3
  }

  /** Before a text that does not start with a newline, a run of fewer than
      three newlines after a text without newlines holds no three newlines
      in a row. */
  lemma ShortRunNoTripleBefore(x: string, n: nat, rest: string)
    requires '\n' !in x && n < 3 && (rest == [] || rest[0] != '\n')
    ensures forall k :: k < |x| + n ==> !OccursAt(x + Newlines(n) + rest, Triple, k)
  {
    var s := x + Newlines(n) + rest;
    forall k | k < |x| + n
      ensures !OccursAt(s, Triple, k)
    {
      if 0 <= k && k + 3 <= |s| {
        if k < |x| {
          assert s[k..k + 3][0] == s[k] == x[k];
        } else {
          assert s[k..k + 3][|x| + n - k] == s[|x| + n] == rest[0];
        }
      }
    }
  }

  /** A run of three or more newlines after a text without newlines is where
      the first three newlines in a row stand. */
  lemma LongRunFound(x: string, n: nat, y: string)
    requires '\n' !in x && n >= 3
    ensures x + Newlines(n) + y == x + Triple + (Newlines(n - 3) + y)
    ensures Find(x + Newlines(n) + y, Triple) == |x|
  {
    assert Newlines(n) == Triple + Newlines(n - 3);
    assert Triple[0] == '\n' && Triple[..0] == [];
    FindFirst(x, Triple, Newlines(n - 3) + y, 0);
  }

  /** One round of replacement on a run of newlines that follows a text
      without newlines and ends where the rest does not start with a newline:
      every three newlines of the run become two, and the round goes on in
      the rest. */
  lemma {:induction false} ReplaceRun(x: string, n: nat, rest: string)
    requires '\n' !in x && (rest == [] || rest[0] != '\n')
    ensures ReplaceAll(x + Newlines(n) + rest, Triple, Double)
      == x + Newlines(RoundLength(n)) + ReplaceAll(rest, Triple, Double)
    decreases n, 0
  {
    if n < 3 {
      ReplaceShortRun(x, n, rest);
    } else {
      ReplaceLeadingRun(n - 3, rest);
      ReplaceLongRun(x, n, rest);
    }
  }

  /** The round on a run with nothing before it. */
  lemma {:induction false} ReplaceLeadingRun(n: nat, rest: string)
    requires rest == [] || rest[0] != '\n'
    ensures ReplaceAll(Newlines(n) + rest, Triple, Double)
      == Newlines(RoundLength(n)) + ReplaceAll(rest, Triple, Double)
    decreases n, 1
  {
    ReplaceRun([], n, rest);
    assert [] + Newlines(n) == Newlines(n);
    assert [] + Newlines(RoundLength(n)) == Newlines(RoundLength(n));
  }

  /** A round leaves a run of fewer than three newlines alone. */
  lemma ReplaceShortRun(x: string, n: nat, rest: string)
    requires '\n' !in x && n < 3 && (rest == [] || rest[0] != '\n')
    ensures ReplaceAll(x + Newlines(n) + rest, Triple, Double)
      == x + Newlines(RoundLength(n)) + ReplaceAll(rest, Triple, Double)
  {
    ShortRunNoTripleBefore(x, n, rest);
    ReplaceAfter(x + Newlines(n), rest, Triple, Double);
    assert RoundLength(n) == n by {
      assert n / 3 == 0 && n % 3 == n;
    }
  }

  /** A round on a long run: two newlines, then the round on the run three
      shorter. */
  lemma ReplaceLongRun(x: string, n: nat, rest: string)
    requires '\n' !in x && n >= 3
    requires ReplaceAll(Newlines(n - 3) + rest, Triple, Double)
      == Newlines(RoundLength(n - 3)) + ReplaceAll(rest, Triple, Double)
    ensures ReplaceAll(x + Newlines(n) + rest, Triple, Double)
      == x + Newlines(RoundLength(n)) + ReplaceAll(rest, Triple, Double)
  {
    var tail := ReplaceAll(rest, Triple, Double);
    ReplaceRunStep(x, n, rest);
    RoundLengthStep(n);
    assert x + Double + (Newlines(RoundLength(n - 3)) + tail)
      == x + (Double + Newlines(RoundLength(n - 3))) + tail;
  }

  /** The first three newlines of a long run become two, and the round goes
      on after them. */
  lemma ReplaceRunStep(x: string, n: nat, y: string)
    requires '\n' !in x && n >= 3
    ensures ReplaceAll(x + Newlines(n) + y, Triple, Double)
      == x + Double + ReplaceAll(Newlines(n - 3) + y, Triple, Double)
  {
    var s := x + Newlines(n) + y;
    LongRunFound(x, n, y);
    ReplaceFound(s, Triple, Double);
    assert s[..|x|] == x;
    assert s[|x| + 3..] == Newlines(n - 3) + y;
  }

  /** Two newlines before what one round leaves of `n - 3` are what it
      leaves of `n`. */
  lemma RoundLengthStep(n: nat)
    requires n >= 3
    ensures Double + Newlines(RoundLength(n - 3)) == Newlines(RoundLength(n))
  {
    assert RoundLength(n) == 2 + RoundLength(n - 3);
  }

  /** A round shortens a run of three or more newlines to at least two, and
      keeps a shorter one. */
  lemma RoundLengthBounds(n: nat)
    ensures n >= 3 ==> 2 <= RoundLength(n) < n
    ensures n < 3 ==> RoundLength(n) == n
  {
  }

  /** Where three newlines in a row come from in a run and its rest. */
  lemma RunTripleSources(x: string, n: nat, rest: string)
    requires '\n' !in x
    ensures n >= 3 || Contains(rest, Triple) ==> Contains(x + Newlines(n) + rest, Triple)
  {
    if n >= 3 {
      LongRunFound(x, n, rest);
    } else if Contains(rest, Triple) {
      ContainsInSuffix(x + Newlines(n), rest, Triple);
    }
  }

  /** A round keeps the first character of a text that does not start with a
      newline. */
  lemma ReplaceKeepsHead(rest: string)
    requires rest == [] || rest[0] != '\n'
    ensures var r := ReplaceAll(rest, Triple, Double); r == [] || r[0] != '\n'
  {
    var k := Find(rest, Triple);
    if k == -1 {
      ReplaceMissing(rest, Triple, Double);
    } else {
      FindOccurs(rest, Triple);
      assert rest[k] == Triple[0];
      ReplaceFound(rest, Triple, Double);
      assert ReplaceAll(rest, Triple, Double)[0] == rest[..k][0];
    }
  }

  /** Collapsing after one round is collapsing. */
  lemma CollapseOfRound(s: string)
    ensures CollapseNewlines(ReplaceAll(s, Triple, Double)) == CollapseNewlines(s)
  {
    if !Contains(s, Triple) {
      ReplaceMissing(s, Triple, Double);
    }
  }

  /** The loop leaves a run of three or more newlines, after a text without
      newlines and before a rest that does not start with a newline, as
      exactly two newlines, keeps a shorter run, and goes on in the rest: so
      every run of three or more newlines in the text ends as two. */
  lemma {:induction false} CollapseRun(x: string, n: nat, rest: string)
    requires '\n' !in x && (rest == [] || rest[0] != '\n')
    ensures CollapseNewlines(x + Newlines(n) + rest)
      == x + Newlines(if n >= 3 then 2 else n) + CollapseNewlines(rest)
    decreases |x| + n + |rest|
  {
    var s := x + Newlines(n) + rest;
    RunTripleSources(x, n, rest);
    RoundLengthBounds(n);
    if Contains(s, Triple) {
      var next := ReplaceAll(rest, Triple, Double);
      ReplaceRun(x, n, rest);
      ReplaceShorter(s, Triple, Double);
      ReplaceKeepsHead(rest);
      CollapseRun(x, RoundLength(n), next);
      CollapseOfRound(rest);
    }
  }

  /** Collapsing an already collapsed text changes nothing. */
  lemma CollapseIdempotent(s: string)
    ensures CollapseNewlines(CollapseNewlines(s)) == CollapseNewlines(s)
  {
  }

  /** A blank run of four lines becomes a run of two, in two rounds. */
  lemma CollapseExample()
    ensures CollapseNewlines("a\n\n\n\nb") == "a\n\nb"
  {
    var s := "a\n\n\n\nb";
    assert s == "a" + Triple + "\nb";
    FindFirst("a", Triple, "\nb", 0);
    ReplaceFound(s, Triple, Double);
    ReplaceMissing("\nb", Triple, Double);
    var s1 := "a\n\n\nb";
    assert ReplaceAll(s, Triple, Double) == s1;
    assert s1 == "a" + Triple + "b";
    FindFirst("a", Triple, "b", 0);
    ReplaceFound(s1, Triple, Double);
    ReplaceMissing("b", Triple, Double);
    var s2 := "a\n\nb";
    assert ReplaceAll(s1, Triple, Double) == s2;
    FindSpec(s2, Triple);
    forall k
      ensures !OccursAt(s2, Triple, k)
    {
      if 0 <= k && k + 3 <= |s2| {
        assert s2[k..k + 3][2] == s2[k + 2];
        assert s2[k..k + 3][0] == s2[k];
      }
    }
  }

  // ----- the detail record -----

  /** The mandatory fragment a matching container lacks, in the order the
      original reads them; the original raises an exception there. */
  function DetailFault(c: PostContainer): (r: Option<string>)
    ensures r.None? <==>
      && (c.profile.Some? ==>
            (c.profile.value.rank.Some? ==> c.profile.value.rank.value.img.Some?)
            && c.profile.value.joined.Some?)
      && c.body.Some? && c.body.value.time.Some? && c.body.value.content.Some?
  {
    if c.profile.Some? && c.profile.value.rank.Some? && c.profile.value.rank.value.img.None? then
      Some("dd.profile-rank img")
    else if c.profile.Some? && c.profile.value.joined.None? then Some("dd.profile-joined")
    else if c.body.Some? && c.body.value.time.None? then Some("time")
    else if c.body.None? then Some("div.postbody")
    else if c.body.value.content.None? then Some("div.content")
    else None
  }

  /** The setter calls for the matching container, in the order the original
      makes them; a call the original does not make has no source. */
  function DetailFields(base: string, c: PostContainer): (fields: seq<Field>)
    requires DetailFault(c).None?
  {
    var p := c.profile;
    var b := c.body.value;
    var rank := if p.Some? && p.value.rank.Some? then p.value.rank.value.img else None;
    [ Field("postId", Some(PostIdOf(c.id)), []),
      Field("userName", if p.Some? then p.value.userLink else None, []),
      Field("avatarUrl", if p.Some? && p.value.avatar.Some? then ImageUrl(base, p.value.avatar.value) else None, []),
      Field("userTitle", if rank.Some? then Some(rank.value.title) else None, []),
      Field("userRank", if rank.Some? then ImageUrl(base, rank.value) else None, []),
      Field("registered", if p.Some? then Some(PySlice(p.value.joined.value, 0, -6)) else None, []),
      Field("residence", if p.Some? then p.value.location else None, []),
      Field("postsCounter", if p.Some? then Some(CounterAt(p.value.counters, 0)) else None, []),
      Field("thxGiven", if p.Some? then Some(CounterAt(p.value.counters, 1)) else None, []),
      Field("thxReceived", if p.Some? then Some(CounterAt(p.value.counters, 2)) else None, []),
      Field("postNumber", b.postNumber, ["\n"]),
      Field("online", Some(OnlineFlag(b.onlineMarker)), []),
      Field("postTime", b.time, []),
      Field("fullContent", Some(CollapseNewlines(b.content.value.text)), []),
      Field("changeLine", if b.notice.Some? then Some(StripWhitespace(b.notice.value)) else None, []) ]
  }

  /** The text keys of a post detail, in the order they are set. */
  const DetailKeyList: seq<string> :=
    ["postId", "userName", "avatarUrl", "userTitle", "userRank", "registered", "residence",
     "postsCounter", "thxGiven", "thxReceived", "postNumber", "online", "postTime",
     "fullContent", "changeLine"]

  /** Every text key a post detail can hold. */
  const DetailKeys: set<string> := set k | k in DetailKeyList

  lemma DetailKeyListDistinct()
    ensures forall i, j :: 0 <= i < j < |DetailKeyList| ==> DetailKeyList[i] != DetailKeyList[j]
  {
  }

  /** The detail of one post: its text fields, and the list of thanked
      receivers, stored whenever the profile lists any. */
  datatype PostDetail = PostDetail(fields: Record, receivers: Option<seq<string>>)

  /** The detail record of a container: its text fields and its receivers. */
  function DetailOf(base: string, c: PostContainer): (r: PostDetail)
    requires DetailFault(c).None?
    ensures r.fields.Keys <= DetailKeys
    ensures r.receivers.Some? <==> c.profile.Some? && c.profile.value.receivers != []
    ensures r.receivers.Some? ==> r.receivers.value == c.profile.value.receivers
  {
    var fields := DetailFields(base, c);
    assert HasKeys(fields, DetailKeyList);
    var receivers := if c.profile.Some? && c.profile.value.receivers != [] then Some(c.profile.value.receivers) else None;
    PostDetail(Build(fields), receivers)
  }

  /** A key of the detail is present exactly when its fragment yields text,
      and then holds that text cleaned. */
  lemma DetailOfFields(base: string, c: PostContainer)
    requires DetailFault(c).None?
    ensures var fields := DetailFields(base, c); var r := DetailOf(base, c).fields;
      forall i :: 0 <= i < |fields| ==>
        && (fields[i].key in r <==> Yields(fields[i].source))
        && (Yields(fields[i].source) ==> r[fields[i].key] == RemoveAll(fields[i].source.value, fields[i].removals))
  {
    var fields := DetailFields(base, c);
    assert HasKeys(fields, DetailKeyList);
    DetailKeyListDistinct();
    DistinctKeysOf(fields, DetailKeyList);
    BuildFields(fields);
  }

  /** The name key comes from the name link only; the name span that the
      thread summary falls back on is not read here. */
  lemma DetailNameField(base: string, c: PostContainer)
    requires DetailFault(c).None?
    ensures "userName" in DetailOf(base, c).fields <==> c.profile.Some? && Yields(c.profile.value.userLink)
  {
    DetailOfFields(base, c);
    assert DetailFields(base, c)[1].key == "userName";
  }

  /** The registration date loses its last six characters, and is stored
      only when something is left. */
  lemma DetailRegisteredField(base: string, c: PostContainer)
    requires DetailFault(c).None?
    ensures var r := DetailOf(base, c).fields;
      && (c.profile.None? ==> "registered" !in r)
      && (c.profile.Some? ==>
            var joined := c.profile.value.joined.value;
            && ("registered" in r <==> |joined| > 6)
            && ("registered" in r ==> r["registered"] == joined[..|joined| - 6]))
  {
    DetailOfFields(base, c);
    assert DetailFields(base, c)[5].key == "registered";
    if c.profile.Some? {
      var joined := c.profile.value.joined.value;
      if |joined| > 6 {
        assert PySlice(joined, 0, -6) == joined[..|joined| - 6];
      } else {
        assert PySlice(joined, 0, -6) == [];
      }
    }
  }

  /** The three counters come from the first, second and third counter
      blocks, each stored only when the profile has that block and it is not
      empty. */
  lemma DetailCounterFields(base: string, c: PostContainer)
    requires DetailFault(c).None?
    ensures var r := DetailOf(base, c).fields;
      && (c.profile.None? ==> "postsCounter" !in r && "thxGiven" !in r && "thxReceived" !in r)
      && (c.profile.Some? ==>
            var counters := c.profile.value.counters;
            && ("postsCounter" in r <==> |counters| > 0 && counters[0] != "")
            && ("thxGiven" in r <==> |counters| > 1 && counters[1] != "")
            && ("thxReceived" in r <==> |counters| > 2 && counters[2] != ""))
  {
    DetailOfFields(base, c);
    assert DetailFields(base, c)[7].key == "postsCounter";
    assert DetailFields(base, c)[8].key == "thxGiven" && DetailFields(base, c)[9].key == "thxReceived";
  }

  /** The body keys: the content keeps every character but surplus newlines
      and holds no three newlines in a row, the change line is trimmed, and
      the online flag follows the online marker. */
  lemma DetailBodyFields(base: string, c: PostContainer)
    requires DetailFault(c).None?
    ensures var r := DetailOf(base, c).fields; var b := c.body.value; var text := b.content.value.text;
      && ("fullContent" in r <==> text != "")
      && ("fullContent" in r ==>
            !Contains(r["fullContent"], Triple) && Erase(r["fullContent"], '\n') == Erase(text, '\n'))
      && ("online" in r <==> b.onlineMarker)
      && ("changeLine" in r <==> b.notice.Some? && StripWhitespace(b.notice.value) != "")
      && ("changeLine" in r ==>
            r["changeLine"][0] !in Whitespace && r["changeLine"][|r["changeLine"]| - 1] !in Whitespace)
  {
    var fields := DetailFields(base, c);
    DetailOfFields(base, c);
    assert fields[11].key == "online" && fields[13].key == "fullContent" && fields[14].key == "changeLine";
    CollapseKeepsText(c.body.value.content.value.text);
  }

  // ----- the search for the post -----

  /** The container carries the requested post. */
  predicate Matches(c: PostContainer, postId: string) {
    PostIdOf(c.id) == postId
  }

  /** The scan over the containers: every container is read, a matching one
      is extracted afresh (so the last match wins), and a matching container
      that lacks a mandatory fragment aborts the scan. The answer is the
      index of the match to extract. */
  method SearchPost(postId: string, containers: seq<PostContainer>) returns (r: Outcome<nat>)
    ensures !r.Error?
    ensures r == NotFound <==> forall i :: 0 <= i < |containers| ==> !Matches(containers[i], postId)
    ensures r.Fault? <==>
      exists i :: 0 <= i < |containers| && Matches(containers[i], postId) && DetailFault(containers[i]).Some?
    ensures r.Fault? ==>
      exists i :: 0 <= i < |containers| && Matches(containers[i], postId) && DetailFault(containers[i]) == Some(r.fragment)
        && forall j :: 0 <= j < i && Matches(containers[j], postId) ==> DetailFault(containers[j]).None?
    ensures r.Ok? ==>
      && r.value < |containers| && Matches(containers[r.value], postId)
      && DetailFault(containers[r.value]).None?
      && forall j :: r.value < j < |containers| ==> !Matches(containers[j], postId)
  {
    var last := -1;
    var i := 0;
    while i < |containers|
      invariant 0 <= i <= |containers|
      invariant forall j :: 0 <= j < i && Matches(containers[j], postId) ==> DetailFault(containers[j]).None?
      invariant -1 <= last < i
      invariant last != -1 ==> Matches(containers[last], postId)
      invariant forall j :: last < j < i ==> !Matches(containers[j], postId)
    {
      if Matches(containers[i], postId) {
        var fault := DetailFault(containers[i]);
        if fault.Some? {
          return Fault(fault.value);
        }
        last := i;
      }
      i := i + 1;
    }
    if last == -1 {
      return NotFound;
    }
    return Ok(last);
  }

  /** `parsePost` on an already fetched and parsed page: the detail of the
      last container whose id matches, unless a matching container lacks a
      mandatory fragment or none matches. */
  method ParsePost(postId: string, base: string, containers: seq<PostContainer>) returns (r: Outcome<PostDetail>)
    ensures postId == "" <==> r == Error("Neither threadId nor postId given.")
    ensures postId != "" ==>
      (r == NotFound <==> forall i :: 0 <= i < |containers| ==> !Matches(containers[i], postId))
    ensures postId != "" ==>
      (r.Fault? <==> exists i :: 0 <= i < |containers| && Matches(containers[i], postId) && DetailFault(containers[i]).Some?)
    ensures r.Fault? ==>
      exists i :: 0 <= i < |containers| && Matches(containers[i], postId) && DetailFault(containers[i]) == Some(r.fragment)
        && forall j :: 0 <= j < i && Matches(containers[j], postId) ==> DetailFault(containers[j]).None?
    ensures r.Ok? ==>
      exists i :: 0 <= i < |containers| && Matches(containers[i], postId)
        && (forall j :: i < j < |containers| ==> !Matches(containers[j], postId))
        && DetailFault(containers[i]).None? && r.value == DetailOf(base, containers[i])
  {
    if postId == "" {
      return Error("Neither threadId nor postId given.");
    }
    var found := SearchPost(postId, containers);
    match found {
      case Ok(i) => r := Ok(DetailOf(base, containers[i]));
      case Fault(fragment) => r := Fault(fragment);
      case NotFound => r := NotFound;
    }
  }

  /** The requested id is stored under "postId" in the detail it returns. */
  lemma DetailCarriesPostId(base: string, c: PostContainer, postId: string)
    requires DetailFault(c).None? && postId != "" && Matches(c, postId)
    ensures "postId" in DetailOf(base, c).fields && DetailOf(base, c).fields["postId"] == postId
  {
    DetailOfFields(base, c);
    assert DetailFields(base, c)[0].key == "postId";
  }
}
