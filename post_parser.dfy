/** The parts of tools/parser.py that work on one channel page or one post: reading the
    posts out of the extracted markup, turning a post into events, the `--ids` list and
    the scan for ids missing from the progress database. */
module PostParser {
  import opened Wrappers
  import opened Strings
  import Seqs
  import RuDates
  import opened TelegramText

  /** A link of a post: its href and its anchor text. */
  datatype Link = Link(href: String, anchor: String)

  /** `TelegramPost`. */
  datatype Post = Post(
    channel: String,
    postId: int,
    postUrl: String,
    publishedAt: Option<RuDates.DateTime>,
    text: String,
    links: seq<Link>)

  /** What the markup library gives for one `a[href]` of a message text: the attribute and
      the anchor's text. */
  datatype RawAnchor = RawAnchor(href: Option<String>, text: String)

  /** The `div.tgme_widget_message_text` of a message: its text, lines joined by "\n",
      and its anchors. */
  datatype TextDiv = TextDiv(text: String, anchors: seq<RawAnchor>)

  /** One `div.tgme_widget_message`: its `data-post` attribute, the already converted
      `time[datetime]` and its text block. */
  datatype RawMessage = RawMessage(
    dataPost: Option<String>,
    publishedAt: Option<RuDates.DateTime>,
    body: Option<TextDiv>)

  function Href(l: Link): String {
    l.href
  }

  function PostIdKey(p: Post): int {
    p.postId
  }

  // ---------------------------------------------------------------- post ids

  /** The first position of `c` in `s` from `i` on. */
  function IndexOf(s: String, c: char, i: nat): (r: Option<nat>)
    ensures r.Some? ==> i <= r.value < |s| && s[r.value] == c
    ensures r.Some? ==> forall j | i <= j < r.value :: s[j] != c
    ensures r.None? ==> forall j | i <= j < |s| :: s[j] != c
    decreases |s| - i
  {
    if i >= |s| then None else if s[i] == c then Some(i) else IndexOf(s, c, i + 1)
  }

  /** `ch, pid_s = data_post.split("/", 1); int(pid_s)`, or `None` where the message is
      skipped: no attribute, an empty one, no "/" or an id `int` rejects. */
  function PostIdOf(dataPost: Option<String>): (r: Option<int>)
    ensures r.Some? ==> dataPost.Some? && IndexOf(dataPost.value, '/', 0).Some?
  {
    match dataPost
    case None => None
    case Some(d) =>
      match IndexOf(d, '/', 0)
      case None => None
      case Some(k) => ParseInt(d[k + 1..])
  }

  /** The id written after the channel name is read back. */
  lemma PostIdOfChannelPost(channel: String, n: int)
    requires forall j | 0 <= j < |channel| :: channel[j] != '/'
    ensures PostIdOf(Some(channel + "/" + IntToString(n))) == Some(n)
  {
    var d := channel + "/" + IntToString(n);
    assert d[|channel|] == '/';
    assert forall j | 0 <= j < |channel| :: d[j] == channel[j];
    IndexOfFirst(d, '/', |channel|);
    assert d[|channel| + 1..] == IntToString(n);
    ParseIntOfString(n);
  }

  /** The search finds the first occurrence. */
  lemma IndexOfFirst(s: String, c: char, k: nat)
    requires k < |s| && s[k] == c && forall j | 0 <= j < k :: s[j] != c
    ensures IndexOf(s, c, 0) == Some(k)
  {
  }

  function PostUrl(dataPost: String): String {
    "https://t.me/" + dataPost
  }

  // ---------------------------------------------------------------- links

  /** One anchor as a link: the stripped href, skipped when empty, and the cleaned anchor
      text or else the href. */
  function AnchorLink(a: RawAnchor): (r: Option<Link>)
    ensures r.Some? ==> r.value.href != [] && Trimmed(r.value.href) && r.value.anchor != []
  {
    var h := Trim(if a.href.Some? then a.href.value else "");
    if h == [] then None
    else
      var t := CleanText(a.text);
      Some(Link(h, if t == [] then h else t))
  }

  /** The links loop before de-duplication. */
  function LinksOf(anchors: seq<RawAnchor>): seq<Link> {
    Seqs.FilterMap(anchors, AnchorLink)
  }

  /** Every link has a stripped, non-empty href and a non-empty anchor. */
  lemma LinksOfWellFormed(anchors: seq<RawAnchor>)
    ensures forall i | 0 <= i < |LinksOf(anchors)| ::
      LinksOf(anchors)[i].href != [] && Trimmed(LinksOf(anchors)[i].href) && LinksOf(anchors)[i].anchor != []
  {
    Seqs.FilterMapSatisfies(anchors, AnchorLink, (l: Link) => l.href != [] && Trimmed(l.href) && l.anchor != []);
  }

  function AnchorsOf(body: Option<TextDiv>): seq<RawAnchor> {
    if body.Some? then body.value.anchors else []
  }

  function TextOf(body: Option<TextDiv>): String {
    if body.Some? then body.value.text else ""
  }

  /** The links of one message: built in a loop, then de-duplicated by href with the
      `seen`-set loop. */
  method MessageLinks(body: Option<TextDiv>) returns (uniq: seq<Link>)
    ensures uniq == Seqs.DedupBy(LinksOf(AnchorsOf(body)), Href)
  {
    var links := Seqs.CollectFilterMap(AnchorsOf(body), AnchorLink);
    uniq := Dedup(links, Href);
  }

  /** The links keep the first link of each href, in order, and no href twice. */
  lemma MessageLinksFirstOccurrences(body: Option<TextDiv>)
    ensures Seqs.FirstOccurrences(LinksOf(AnchorsOf(body)), Seqs.DedupBy(LinksOf(AnchorsOf(body)), Href), Href)
    ensures Seqs.DistinctKeys(Seqs.DedupBy(LinksOf(AnchorsOf(body)), Href), Href)
  {
    Seqs.DedupByFirstOccurrence(LinksOf(AnchorsOf(body)), Href);
  }

  // ---------------------------------------------------------------- posts

  /** One message as a post, or `None` when it is skipped. */
  function PostOf(channel: String, m: RawMessage): (r: Option<Post>)
    ensures r.Some? <==> PostIdOf(m.dataPost).Some?
  {
    match PostIdOf(m.dataPost)
    case None => None
    case Some(id) =>
      Some(Post(channel, id, PostUrl(m.dataPost.value), m.publishedAt, CleanText(TextOf(m.body)),
                Seqs.DedupBy(LinksOf(AnchorsOf(m.body)), Href)))
  }

  function PostFrom(channel: String): RawMessage -> Option<Post> {
    (m: RawMessage) => PostOf(channel, m)
  }

  /** The posts in page order, before the final sort. */
  function PostsOf(channel: String, ms: seq<RawMessage>): seq<Post> {
    Seqs.FilterMap(ms, PostFrom(channel))
  }

  /** `parse_posts_from_html` on the extracted messages: the loop over the messages, then
      the sort by id, newest first. The sort is stable, like Python's. */
  method ParsePosts(channel: String, ms: seq<RawMessage>) returns (posts: seq<Post>)
    ensures posts == Seqs.Sort(PostsOf(channel, ms), Seqs.Descending(PostIdKey))
  {
    var found: seq<Post> := [];
    var i := 0;
    while i < |ms|
      invariant 0 <= i <= |ms|
      invariant found == PostsOf(channel, ms[..i])
    {
      var m := ms[i];
      Seqs.PrefixStep(ms, i);
      Seqs.FilterMapAppend(ms[..i], m, PostFrom(channel));
      var id := PostIdOf(m.dataPost);
      if id.Some? {
        var links := MessageLinks(m.body);
        var p := Post(channel, id.value, PostUrl(m.dataPost.value), m.publishedAt, CleanText(TextOf(m.body)), links);
        found := found + [p];
      }
      i := i + 1;
    }
    assert ms[..i] == ms;
    posts := Seqs.Sort(found, Seqs.Descending(PostIdKey));
  }

  /** A post is listed exactly when some message gives it: the messages with a readable
      id, each with its cleaned text and de-duplicated links. */
  lemma PostsOfMembers(channel: String, ms: seq<RawMessage>, p: Post)
    ensures p in PostsOf(channel, ms) <==> exists k | 0 <= k < |ms| :: PostOf(channel, ms[k]) == Some(p)
  {
    Seqs.FilterMapMembers(ms, PostFrom(channel));
  }

  /** The result is newest first and holds exactly the posts of the messages. */
  lemma ParsePostsOrder(channel: String, ms: seq<RawMessage>)
    ensures var r := Seqs.Sort(PostsOf(channel, ms), Seqs.Descending(PostIdKey));
      && multiset(r) == multiset(PostsOf(channel, ms))
      && forall i, j | 0 <= i < j < |r| :: r[i].postId >= r[j].postId
  {
    Seqs.SortDescendingByKey(PostsOf(channel, ms), PostIdKey);
  }

  // ---------------------------------------------------------------- events

  const DigestFallback: String := "Событие из дайджеста"

  /** A post whose date, when present, is a real one (what `fromisoformat` returns). */
  predicate WellFormed(p: Post) {
    p.publishedAt.Some? ==> RuDates.Valid(p.publishedAt.value)
  }

  predicate IsExternal(l: Link) {
    !IsTelegramLink(l.href)
  }

  function Hrefs(links: seq<Link>): (r: seq<String>)
    ensures |r| == |links| && forall i | 0 <= i < |links| :: r[i] == links[i].href
  {
    seq(|links|, i requires 0 <= i < |links| => links[i].href)
  }

  /** The title of a digest event: the anchor, unless it is empty, the href itself or
      starts with "http" in lower case; then "Событие из дайджеста". */
  function DigestTitle(l: Link): (t: String)
    ensures |t| <= TitleLimit && (l.anchor != [] ==> t != [])
  {
    var a := l.anchor;
    Take(if a == [] || a == l.href || IsPrefix("http", Lower(a)) then DigestFallback else a, TitleLimit)
  }

  function DigestEvent(post: Post, l: Link): Event {
    Event(post.channel, post.postId, post.postUrl, post.publishedAt, DigestTitle(l), None, None,
          Some(l.href), post.text)
  }

  /** One event per link that leaves Telegram, in link order. */
  function DigestEvents(post: Post): (r: seq<Event>)
    ensures |r| == |Seqs.Filter(post.links, IsExternal)|
  {
    var ext := Seqs.Filter(post.links, IsExternal);
    seq(|ext|, i requires 0 <= i < |ext| => DigestEvent(post, ext[i]))
  }

  function SingleEvent(post: Post, start: Option<RuDates.DateTime>): Event {
    Event(post.channel, post.postId, post.postUrl, post.publishedAt, PickTitle(post.text), start,
          PickLocation(post.text), ChooseRegistrationUrl(Hrefs(post.links)), post.text)
  }

  /** `extract_events_from_post`. `now` is the clock reading the date scanner falls back
      to for a post without a date; a date scanner failure (`ValueError` of `datetime`) is
      an `Err`. */
  function ExtractEvents(post: Post, now: RuDates.DateTime): (r: Result<seq<Event>, RuDates.DateError>)
    requires RuDates.Valid(now) && WellFormed(post)
    ensures IsDigest(post.text, |post.links|) ==> r.Ok? && |r.value| == |Seqs.Filter(post.links, IsExternal)|
    ensures !IsDigest(post.text, |post.links|) ==>
      (r.Ok? <==> RuDates.ParseRuDateTime(RuDates.Current, post.text, post.publishedAt, now).Ok?)
      && (r.Ok? ==> |r.value| == 1)
  {
    if IsDigest(post.text, |post.links|) then Ok(DigestEvents(post))
    else
      match RuDates.ParseRuDateTime(RuDates.Current, post.text, post.publishedAt, now)
      case Err(e) => Err(e)
      case Ok(start) => Ok([SingleEvent(post, start)])
  }

  /** Each digest event belongs to one outside link, in order: its registration link is
      that href, it has no start and no place, and its title follows the fallback rule and
      fits in 200 characters. */
  lemma DigestEventsShape(post: Post, i: nat)
    requires i < |DigestEvents(post)|
    ensures var ext := Seqs.Filter(post.links, IsExternal);
      var e := DigestEvents(post)[i];
      && ext[i] in post.links && !IsTelegramLink(ext[i].href)
      && e.registrationUrl == Some(ext[i].href)
      && e.startAt.None? && e.location.None?
      && e.title == DigestTitle(ext[i]) && |e.title| <= TitleLimit
      && e.sourcePostId == post.postId && e.rawText == post.text
  {
    var ext := Seqs.Filter(post.links, IsExternal);
    Seqs.FilterSatisfies(post.links, IsExternal);
    Seqs.FilterContains(post.links, IsExternal);
    assert IsExternal(ext[i]);
    assert ext[i] in ext;
  }

  /** The digest title is "Событие из дайджеста" when the anchor is empty, the href or
      starts with "http", and otherwise the anchor cut to 200 characters. */
  lemma DigestTitleRule(l: Link)
    ensures l.anchor == [] || l.anchor == l.href || IsPrefix("http", Lower(l.anchor)) ==>
      DigestTitle(l) == DigestFallback
    ensures !(l.anchor == [] || l.anchor == l.href || IsPrefix("http", Lower(l.anchor))) ==>
      DigestTitle(l) == Take(l.anchor, TitleLimit)
  {
    assert |DigestFallback| <= TitleLimit;
  }

  /** A post that is not a digest gives one event built from the title, place, date and
      registration rules. */
  lemma SingleEventShape(post: Post, now: RuDates.DateTime)
    requires RuDates.Valid(now) && WellFormed(post)
    requires !IsDigest(post.text, |post.links|)
    requires ExtractEvents(post, now).Ok?
    ensures var e := ExtractEvents(post, now).value[0];
      && e.title == PickTitle(post.text) && e.location == PickLocation(post.text)
      && e.registrationUrl == ChooseRegistrationUrl(Hrefs(post.links))
      && (e.registrationUrl.Some? ==> exists j | 0 <= j < |post.links| :: post.links[j].href == e.registrationUrl.value)
      && e.startAt == RuDates.ParseRuDateTime(RuDates.Current, post.text, post.publishedAt, now).value
  {
    var e := ExtractEvents(post, now).value[0];
    var hs := Hrefs(post.links);
    if e.registrationUrl.Some? {
      var j :| 0 <= j < |hs| && hs[j] == e.registrationUrl.value;
      assert post.links[j].href == e.registrationUrl.value;
    }
  }

  // ---------------------------------------------------------------- --ids

  /** One part of the `--ids` list: nothing for a blank part, the id `int` reads from the
      stripped text, or that text as the error when `int` rejects it. */
  function PartId(part: String): Result<Option<int>, String> {
    var t := Trim(part);
    if t == [] then Ok(None)
    else
      match ParseInt(t)
      case None => Err(t)
      case Some(n) => Ok(Some(n))
  }

  /** A part that is blank or that `int` accepts. */
  predicate GoodPart(part: String) {
    PartId(part).Ok?
  }

  predicate AllGood(parts: seq<String>) {
    forall k | 0 <= k < |parts| :: GoodPart(parts[k])
  }

  /** The ids of the non-blank parts, in order. */
  function IdsOf(parts: seq<String>): seq<int>
    requires AllGood(parts)
  {
    Seqs.CollectOk(parts, PartId);
    Seqs.Collect(parts, PartId).value
  }

  /** A part is good exactly when it is blank or `int` accepts its stripped text. */
  lemma GoodPartRule(part: String)
    ensures GoodPart(part) <==> Trim(part) == [] || ParseInt(Trim(part)).Some?
    ensures !GoodPart(part) ==> PartId(part).error == Trim(part)
  {
  }

  /** An id is listed exactly when some non-blank part reads as it. */
  lemma IdsOfMembers(parts: seq<String>, x: int)
    requires AllGood(parts)
    ensures x in IdsOf(parts) <==> exists k | 0 <= k < |parts| :: Trim(parts[k]) != [] && ParseInt(Trim(parts[k])) == Some(x)
  {
    Seqs.CollectOk(parts, PartId);
    Seqs.CollectMembers(parts, PartId, x);
    assert forall k | 0 <= k < |parts| :: PartId(parts[k]) == Ok(Some(x)) <==>
      Trim(parts[k]) != [] && ParseInt(Trim(parts[k])) == Some(x);
  }

  lemma AllGoodPrefix(parts: seq<String>, k: nat)
    requires k <= |parts| && forall j | 0 <= j < k :: PartId(parts[j]).Ok?
    ensures AllGood(parts[..k])
  {
    assert forall j | 0 <= j < k :: parts[..k][j] == parts[j];
  }

  /** A failure names the stripped text of the first part that is not good. */
  lemma CollectIdsErr(parts: seq<String>)
    requires Seqs.Collect(parts, PartId).Err?
    ensures exists k | 0 <= k < |parts| ::
      !GoodPart(parts[k]) && Seqs.Collect(parts, PartId).error == Trim(parts[k]) && AllGood(parts[..k])
  {
    Seqs.CollectErr(parts, PartId);
    var e := Seqs.Collect(parts, PartId).error;
    var k :| 0 <= k < |parts| && PartId(parts[k]) == Err(e) && forall j | 0 <= j < k :: PartId(parts[j]).Ok?;
    AllGoodPrefix(parts, k);
    GoodPartRule(parts[k]);
    assert !GoodPart(parts[k]) && e == Trim(parts[k]);
  }

  /** `parse_ids_list`: split at ",", strip, skip blank parts, `int()` each, then keep the
      first occurrence of each id. The first part `int` rejects is the error. */
  method ParseIdsList(s: String) returns (r: Result<seq<int>, String>)
    ensures var parts := Split(s, ',');
      && (r.Ok? <==> AllGood(parts))
      && (r.Ok? ==> r.value == Seqs.DedupBy(IdsOf(parts), Seqs.Id()))
      && (r.Err? ==> exists k | 0 <= k < |parts| ::
            !GoodPart(parts[k]) && r.error == Trim(parts[k]) && AllGood(parts[..k]))
  {
    var parts := Split(s, ',');
    Seqs.CollectOk(parts, PartId);
    var ids := Seqs.CollectUntilErr(parts, PartId);
    if ids.Err? {
      CollectIdsErr(parts);
      return Err(ids.error);
    }
    var uniq := Dedup(ids.value, Seqs.Id());
    return Ok(uniq);
  }

  /** The ids come out distinct, each listed id exactly once, each in the place of its
      first occurrence. */
  lemma ParseIdsListUnique(parts: seq<String>)
    requires AllGood(parts)
    ensures var d := Seqs.DedupBy(IdsOf(parts), Seqs.Id());
      && Seqs.Distinct(d)
      && (forall x :: x in d <==> x in IdsOf(parts))
      && Seqs.FirstOccurrences(IdsOf(parts), d, Seqs.Id())
  {
    Seqs.DedupIdSpec(IdsOf(parts));
    Seqs.DedupByFirstOccurrence(IdsOf(parts), Seqs.Id());
  }

  // ---------------------------------------------------------------- missing ids

  /** The ids of `[lo, hi]` in neither set, ascending. */
  function Gaps(lo: int, hi: int, existing: set<int>, notFound: set<int>): (r: seq<int>)
    decreases if hi < lo then 0 else hi - lo + 1
  {
    if hi < lo then []
    else Gaps(lo, hi - 1, existing, notFound) + (if hi in existing || hi in notFound then [] else [hi])
  }

  /** The gaps lie in the range. */
  lemma {:induction false} GapsInRange(lo: int, hi: int, existing: set<int>, notFound: set<int>)
    ensures forall i | 0 <= i < |Gaps(lo, hi, existing, notFound)| :: lo <= Gaps(lo, hi, existing, notFound)[i] <= hi
    decreases if hi < lo then 0 else hi - lo + 1
  {
    if lo <= hi {
      GapsInRange(lo, hi - 1, existing, notFound);
      var g, init := Gaps(lo, hi, existing, notFound), Gaps(lo, hi - 1, existing, notFound);
      forall i | 0 <= i < |g| ensures lo <= g[i] <= hi {
        if i < |init| {
          assert g[i] == init[i];
        }
      }
    }
  }

  /** The gaps are strictly ascending. */
  lemma {:induction false} GapsAscending(lo: int, hi: int, existing: set<int>, notFound: set<int>)
    ensures forall i, j | 0 <= i < j < |Gaps(lo, hi, existing, notFound)| ::
      Gaps(lo, hi, existing, notFound)[i] < Gaps(lo, hi, existing, notFound)[j]
    decreases if hi < lo then 0 else hi - lo + 1
  {
    if lo <= hi {
      GapsAscending(lo, hi - 1, existing, notFound);
      GapsInRange(lo, hi - 1, existing, notFound);
      var g, init := Gaps(lo, hi, existing, notFound), Gaps(lo, hi - 1, existing, notFound);
      forall i, j | 0 <= i < j < |g| ensures g[i] < g[j] {
        assert g[i] == init[i];
        if j < |init| {
          assert g[j] == init[j];
        }
      }
    }
  }

  /** An id is a gap exactly when it lies in the range and in neither set. */
  lemma {:induction false} GapsMembers(lo: int, hi: int, existing: set<int>, notFound: set<int>)
    ensures forall x :: x in Gaps(lo, hi, existing, notFound) <==> lo <= x <= hi && x !in existing && x !in notFound
    decreases if hi < lo then 0 else hi - lo + 1
  {
    if lo <= hi {
      GapsMembers(lo, hi - 1, existing, notFound);
    }
  }

  /** The gaps are ascending, lie in the range and avoid both sets, and every such id is
      one of them. */
  lemma GapsSpec(lo: int, hi: int, existing: set<int>, notFound: set<int>)
    ensures var g := Gaps(lo, hi, existing, notFound);
      && (forall i, j | 0 <= i < j < |g| :: g[i] < g[j])
      && (forall i | 0 <= i < |g| :: lo <= g[i] <= hi)
      && (forall x :: x in g <==> lo <= x <= hi && x !in existing && x !in notFound)
  {
    GapsInRange(lo, hi, existing, notFound);
    GapsAscending(lo, hi, existing, notFound);
    GapsMembers(lo, hi, existing, notFound);
  }

  lemma {:induction false} GapsPrefix(lo: int, k: int, hi: int, existing: set<int>, notFound: set<int>)
    requires k <= hi
    ensures IsPrefixOf(Gaps(lo, k, existing, notFound), Gaps(lo, hi, existing, notFound))
    decreases hi - k
  {
    if k < hi {
      GapsPrefix(lo, k, hi - 1, existing, notFound);
      if lo <= hi {
        var g := Gaps(lo, hi - 1, existing, notFound);
        assert Gaps(lo, hi, existing, notFound)[..|g|] == g;
      }
    }
  }

  function AtLeastOne(limit: int): nat {
    if limit < 1 then 1 else limit
  }

  /** The loop of `db_missing_ids_in_range` over the two id sets the database returned:
      the first ids of the range in neither set, as many as `limit` allows, and with a
      limit below one still one, because the limit is checked after appending. */
  method MissingIdsInRange(start: int, end: int, limit: int, existing: set<int>, notFound: set<int>)
    returns (missing: seq<int>)
    ensures missing == Take(Gaps(start, end, existing, notFound), AtLeastOne(limit))
  {
    missing := [];
    var pid := start;
    while pid <= end
      invariant pid == start || start < pid <= end + 1
      invariant missing == Gaps(start, pid - 1, existing, notFound)
      invariant |missing| < AtLeastOne(limit)
      decreases end - pid
    {
      if pid !in existing && pid !in notFound {
        missing := missing + [pid];
        if |missing| >= limit {
          assert missing == Gaps(start, pid, existing, notFound);
          assert |missing| == AtLeastOne(limit);
          GapsPrefix(start, pid, end, existing, notFound);
          return;
        }
      }
      pid := pid + 1;
    }
    assert missing == Gaps(start, end, existing, notFound);
  }

  /** What the missing-id scan returns: ascending ids of the range, in neither set, at most
      `max(limit, 1)` of them, and every id it skips over is taken or present in a set. */
  lemma MissingIdsShape(start: int, end: int, limit: int, existing: set<int>, notFound: set<int>)
    ensures var m := Take(Gaps(start, end, existing, notFound), AtLeastOne(limit));
      && |m| <= AtLeastOne(limit)
      && (forall i, j | 0 <= i < j < |m| :: m[i] < m[j])
      && (forall i | 0 <= i < |m| :: start <= m[i] <= end && m[i] !in existing && m[i] !in notFound)
      && (|m| < AtLeastOne(limit) ==> forall x | start <= x <= end && x !in existing && x !in notFound :: x in m)
  {
    var g := Gaps(start, end, existing, notFound);
    GapsSpec(start, end, existing, notFound);
    var m := Take(g, AtLeastOne(limit));
    assert forall i | 0 <= i < |m| :: m[i] == g[i];
    forall i | 0 <= i < |m| ensures m[i] !in existing && m[i] !in notFound {
      assert g[i] in g;
    }
  }
}
