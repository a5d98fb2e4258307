/** The document fragments the extractors read, as immutable records.
    Each field holds what the document lookup would give: `None` when the
    element is missing, otherwise its text (for attributes, the value with
    "" for a missing attribute, as `tag.get(name, "")` gives). The lookups
    themselves, and which elements match the class patterns, are decided
    before these records are built. */
module Fragments {
  import opened Wrappers

  // ----- recent-topics listing -----

  /** The `a.topictitle` anchor: its text and its `href` attribute. */
  datatype Anchor = Anchor(text: string, href: string)

  /** The `div.responsive-show` block: its text as written (`get_text()`)
      and with every text piece trimmed and joined (`get_text(strip=True)`). */
  datatype ShowBlock = ShowBlock(text: string, trimmedText: string)

  /** One `dl` entry of the topic list. */
  datatype TopicEntry = TopicEntry(
    title: Option<Anchor>,
    show: Option<ShowBlock>,
    hideLine: Option<string>,   // div.responsive-hide
    views: Option<string>,      // dd.views
    posts: Option<string>)      // dd.posts

  /** The listing page: the `ul.topiclist.topics.collapsible` entries, or
      `None` when that container is missing. */
  datatype ListingPage = ListingPage(topicList: Option<seq<TopicEntry>>)

  // ----- post containers (thread page and post page) -----

  /** An `img`: its `src` and `title` attributes. */
  datatype Image = Image(src: string, title: string)

  /** The `dd.profile-rank` block and the image inside it. */
  datatype RankBlock = RankBlock(img: Option<Image>)

  /** The `dl.postprofile` block. */
  datatype Profile = Profile(
    userLink: Option<string>,      // a.username*
    userSpan: Option<string>,      // span.username*
    avatar: Option<Image>,         // img.avatar
    rank: Option<RankBlock>,       // dd.profile-rank
    joined: Option<string>,        // dd.profile-joined
    location: Option<string>,      // dd.profile-phpbb_location
    receivers: seq<string>,        // every dd.profile-receiver_*, in document order
    counters: seq<string>)         // every dd.profile-posts, in document order

  /** The `div.content` block: plain text (`get_text()`) and the text with
      pieces trimmed and joined by spaces (`get_text(separator=" ", strip=True)`). */
  datatype Content = Content(text: string, spacedText: string)

  /** The `div.postbody` block. */
  datatype Body = Body(
    postNumber: Option<string>,    // p.author.post-number
    onlineMarker: bool,            // a div matching "post .*? online" exists
    time: Option<string>,          // time
    content: Option<Content>,      // div.content
    notice: Option<string>)        // div.notice

  /** One post container (`div.post.has-profile`): its `id` attribute, its
      class list, and its two blocks. */
  datatype PostContainer = PostContainer(
    id: string,
    classes: seq<string>,
    profile: Option<Profile>,
    body: Option<Body>)

  /** The `li.active` pagination item and the `span` inside it. */
  datatype ActiveItem = ActiveItem(span: Option<string>)

  /** A thread page: the `title` element's string, the pagination fragments
      (`button` is the text of `a.button[role=button]`) and the post
      containers in document order. */
  datatype ThreadPage = ThreadPage(
    title: Option<string>,
    active: Option<ActiveItem>,
    button: Option<string>,
    posts: seq<PostContainer>)
}
