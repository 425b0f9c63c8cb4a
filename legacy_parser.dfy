/** The older crawler OLD/parser.py: posts read from the `tgme_widget_message_wrap`
    blocks of a channel page, with the id taken from the post link and plain href lists;
    events with digest titles taken from the line that holds the link; and the crawl
    loop of `scrape_events` that pages backwards until enough new posts are read. */
module LegacyParser {
  import opened Wrappers
  import opened Strings
  import Seqs
  import RuDates
  import opened TelegramText

  /** `TelegramPost` of the older parser: links are bare hrefs. */
  datatype LegacyPost = LegacyPost(
    channel: String,
    postId: int,
    postUrl: String,
    publishedAt: Option<RuDates.DateTime>,
    text: String,
    links: seq<String>)

  /** The `div.tgme_widget_message_text` of a block: its text, lines joined by "\n", and
      the `href` of each of its `a[href]`. */
  datatype LegacyDiv = LegacyDiv(text: String, hrefs: seq<String>)

  /** One `div.tgme_widget_message_wrap`: the `href` of its `a.tgme_widget_message_date`
      (`None` when there is no such link or it has no `href`), the already converted
      `time[datetime]` and its text block. */
  datatype RawWrap = RawWrap(
    dateHref: Option<String>,
    publishedAt: Option<RuDates.DateTime>,
    body: Option<LegacyDiv>)

  function LegacyPostId(p: LegacyPost): int {
    p.postId
  }

  // ---------------------------------------------------------------- character stripping

  /** `s.lstrip(chars)`. */
  function StripLeading(s: String, cs: set<char>): (r: String)
    ensures |r| <= |s| && r == s[|s| - |r|..]
    ensures r == [] || r[0] !in cs
    ensures forall k | 0 <= k < |s| - |r| :: s[k] in cs
    decreases |s|
  {
    if s != [] && s[0] in cs then
      var r := StripLeading(s[1..], cs);
      assert s[1..][|s| - 1 - |r|..] == s[|s| - |r|..];
      assert forall k | 1 <= k < |s| - |r| :: s[k] == s[1..][k - 1];
      r
    else s
  }

  /** `s.rstrip(chars)`. */
  function StripTrailing(s: String, cs: set<char>): (r: String)
    ensures |r| <= |s| && r == s[..|r|]
    ensures r == [] || r[|r| - 1] !in cs
    ensures forall k | |r| <= k < |s| :: s[k] in cs
    decreases |s|
  {
    if s != [] && s[|s| - 1] in cs then
      var r := StripTrailing(s[..|s| - 1], cs);
      assert s[..|s| - 1][..|r|] == s[..|r|];
      assert forall k | |r| <= k < |s| - 1 :: s[k] == s[..|s| - 1][k];
      r
    else s
  }

  /** `s.strip(chars)`: a slice of `s` whose ends are not in `cs`, with only characters of
      `cs` cut on either side. */
  function StripChars(s: String, cs: set<char>): (r: String)
    ensures r == [] || (r[0] !in cs && r[|r| - 1] !in cs)
    ensures exists i, j | 0 <= i <= j <= |s| :: r == s[i..j] && OnlyCut(s, cs, i, j)
  {
    var a := StripLeading(s, cs);
    var r := StripTrailing(a, cs);
    CutBothEnds(s, cs, a, r);
    r
  }

  /** Cutting a prefix of characters of `cs` and then a suffix of them leaves a slice
      with only such characters cut on either side. */
  lemma CutBothEnds(s: String, cs: set<char>, a: String, r: String)
    requires |a| <= |s| && a == s[|s| - |a|..] && (forall k | 0 <= k < |s| - |a| :: s[k] in cs)
    requires |r| <= |a| && r == a[..|r|] && (forall k | |r| <= k < |a| :: a[k] in cs)
    ensures r == s[|s| - |a|..|s| - |a| + |r|]
    ensures OnlyCut(s, cs, |s| - |a|, |s| - |a| + |r|)
  {
    var i, j := |s| - |a|, |s| - |a| + |r|;
    forall k | 0 <= k < |r| ensures r[k] == s[i + k] {
      assert r[k] == a[k];
    }
    assert r == s[i..j];
    forall k | j <= k < |s| ensures s[k] in cs {
      assert s[k] == a[k - i];
    }
  }

  /** Every character of `s` before `i` and from `j` on is in `cs`. */
  predicate OnlyCut(s: String, cs: set<char>, i: int, j: int)
    requires 0 <= i <= j <= |s|
  {
    (forall k | 0 <= k < i :: s[k] in cs) && (forall k | j <= k < |s| :: s[k] in cs)
  }

  /** A string whose ends are outside `cs` is left alone, so stripping twice is stripping
      once. */
  lemma StripCharsFixes(s: String, cs: set<char>)
    requires s == [] || (s[0] !in cs && s[|s| - 1] !in cs)
    ensures StripChars(s, cs) == s
  {
  }

  lemma StripCharsIdempotent(s: String, cs: set<char>)
    ensures StripChars(StripChars(s, cs), cs) == StripChars(s, cs)
  {
    StripCharsFixes(StripChars(s, cs), cs);
  }

  // ---------------------------------------------------------------- post ids

  /** The part of `s` after its last `sep` (`s.split(sep)[-1]`). */
  function LastSegment(s: String, sep: char): String {
    var parts := Split(s, sep);
    parts[|parts| - 1]
  }

  /** `int(post_url.rstrip("/").split("/")[-1])`, or `None` where `int` raises. */
  function UrlPostId(url: String): Option<int> {
    ParseInt(LastSegment(StripTrailing(url, {'/'}), '/'))
  }

  /** The number after the last "/" of a link is read back, whatever comes before. */
  lemma UrlPostIdOfLink(prefix: String, n: int)
    ensures UrlPostId(prefix + "/" + IntToString(n)) == Some(n)
  {
    var digits := IntToString(n);
    var url := prefix + "/" + digits;
    DigitsFree(n);
    assert digits[|digits| - 1] != '/';
    assert url[|url| - 1] == digits[|digits| - 1];
    assert StripTrailing(url, {'/'}) == url;
    assert url == prefix + ['/'] + digits;
    SplitConcat(prefix, digits, '/');
    SplitFree(digits, '/');
    ParseIntOfString(n);
  }

  /** A written number holds no "/". */
  lemma DigitsFree(n: int)
    ensures IntToString(n) != [] && Free(IntToString(n), '/')
  {
    if n < 0 {
      var digits := IntToString(n);
      assert digits == "-" + NatToString(-n);
      assert forall i | 1 <= i < |digits| :: digits[i] == NatToString(-n)[i - 1];
    }
  }

  /** Trailing slashes of the post link do not change the id. */
  lemma UrlPostIdTrailingSlash(url: String)
    ensures UrlPostId(url + "/") == UrlPostId(url)
  {
    assert (url + "/")[..|url|] == url;
  }

  // ---------------------------------------------------------------- posts

  /** An href of the text block, stripped, or `None` when it is blank. */
  function HrefLink(h: String): Option<String> {
    var t := Trim(h);
    if t == [] then None else Some(t)
  }

  function HrefsOf(body: Option<LegacyDiv>): seq<String> {
    if body.Some? then body.value.hrefs else []
  }

  function BodyText(body: Option<LegacyDiv>): String {
    if body.Some? then body.value.text else ""
  }

  /** The links of a block: the stripped non-blank hrefs, first occurrence kept. */
  function LinksOf(body: Option<LegacyDiv>): seq<String> {
    Seqs.DedupBy(Seqs.FilterMap(HrefsOf(body), HrefLink), Seqs.Id())
  }

  /** One block as a post, or `None` when it is skipped: no date link, an empty `href`, or
      an id `int` rejects. */
  function WrapPost(channel: String, w: RawWrap): (r: Option<LegacyPost>)
    ensures r.Some? <==> w.dateHref.Some? && w.dateHref.value != [] && UrlPostId(Trim(w.dateHref.value)).Some?
    ensures r.Some? ==> r.value.postUrl == Trim(w.dateHref.value) && r.value.publishedAt == w.publishedAt
  {
    match w.dateHref
    case None => None
    case Some(h) =>
      if h == [] then None
      else
        var url := Trim(h);
        match UrlPostId(url)
        case None => None
        case Some(id) => Some(LegacyPost(channel, id, url, w.publishedAt, CleanText(BodyText(w.body)), LinksOf(w.body)))
  }

  function WrapFrom(channel: String): RawWrap -> Option<LegacyPost> {
    (w: RawWrap) => WrapPost(channel, w)
  }

  /** The posts in page order, before the sort. */
  function WrapsPosts(channel: String, ws: seq<RawWrap>): seq<LegacyPost> {
    Seqs.FilterMap(ws, WrapFrom(channel))
  }

  /** The links of one block: the href loop, then the `seen`-set loop. */
  method BlockLinks(body: Option<LegacyDiv>) returns (uniq: seq<String>)
    ensures uniq == LinksOf(body)
  {
    var links := Seqs.CollectFilterMap(HrefsOf(body), HrefLink);
    uniq := Dedup(links, Seqs.Id());
  }

  /** `parse_posts_from_html` of the older parser on the extracted blocks, sorted by id,
      newest first. */
  method ParsePosts(channel: String, ws: seq<RawWrap>) returns (posts: seq<LegacyPost>)
    ensures posts == Seqs.Sort(WrapsPosts(channel, ws), Seqs.Descending(LegacyPostId))
  {
    var found: seq<LegacyPost> := [];
    var i := 0;
    while i < |ws|
      invariant 0 <= i <= |ws|
      invariant found == WrapsPosts(channel, ws[..i])
    {
      var w := ws[i];
      Seqs.PrefixStep(ws, i);
      Seqs.FilterMapAppend(ws[..i], w, WrapFrom(channel));
      if w.dateHref.Some? && w.dateHref.value != [] {
        var url := Trim(w.dateHref.value);
        var id := UrlPostId(url);
        if id.Some? {
          var links := BlockLinks(w.body);
          found := found + [LegacyPost(channel, id.value, url, w.publishedAt, CleanText(BodyText(w.body)), links)];
        }
      }
      i := i + 1;
    }
    assert ws[..i] == ws;
    posts := Seqs.Sort(found, Seqs.Descending(LegacyPostId));
  }

  /** A post is listed exactly when some block gives it. */
  lemma WrapsPostsMembers(channel: String, ws: seq<RawWrap>, p: LegacyPost)
    ensures p in WrapsPosts(channel, ws) <==> exists k | 0 <= k < |ws| :: WrapPost(channel, ws[k]) == Some(p)
  {
    Seqs.FilterMapMembers(ws, WrapFrom(channel));
  }

  /** The links are stripped, non-blank and distinct, and every stripped non-blank href of
      the block is among them. */
  lemma LinksOfSpec(body: Option<LegacyDiv>)
    ensures forall i | 0 <= i < |LinksOf(body)| :: LinksOf(body)[i] != [] && Trimmed(LinksOf(body)[i])
    ensures Seqs.DistinctKeys(LinksOf(body), Seqs.Id())
    ensures forall k | 0 <= k < |HrefsOf(body)| :: Trim(HrefsOf(body)[k]) != [] ==> Trim(HrefsOf(body)[k]) in LinksOf(body)
  {
    var all := Seqs.FilterMap(HrefsOf(body), HrefLink);
    Seqs.DedupByFirstOccurrence(all, Seqs.Id());
    LinksOfTrimmed(body);
    LinksOfComplete(body);
  }

  lemma LinksOfTrimmed(body: Option<LegacyDiv>)
    ensures forall i | 0 <= i < |LinksOf(body)| :: LinksOf(body)[i] != [] && Trimmed(LinksOf(body)[i])
  {
    var hs := HrefsOf(body);
    var all := Seqs.FilterMap(hs, HrefLink);
    Seqs.FilterMapSatisfies(hs, HrefLink, (t: String) => t != [] && Trimmed(t));
    Seqs.DedupByFirstOccurrence(all, Seqs.Id());
    var d := LinksOf(body);
    forall i | 0 <= i < |d| ensures d[i] != [] && Trimmed(d[i]) {
      var j := Seqs.FirstIndex(all, Seqs.Id(), d[i]);
    }
  }

  lemma LinksOfComplete(body: Option<LegacyDiv>)
    ensures forall k | 0 <= k < |HrefsOf(body)| :: Trim(HrefsOf(body)[k]) != [] ==> Trim(HrefsOf(body)[k]) in LinksOf(body)
  {
    var hs := HrefsOf(body);
    var all := Seqs.FilterMap(hs, HrefLink);
    Seqs.FilterMapMembers(hs, HrefLink);
    Seqs.DedupIdSpec(all);
    forall k | 0 <= k < |hs| && Trim(hs[k]) != []
      ensures Trim(hs[k]) in LinksOf(body)
    {
      assert HrefLink(hs[k]) == Some(Trim(hs[k]));
    }
  }

  /** The result is newest first and holds exactly the posts of the blocks. */
  lemma ParsePostsOrder(channel: String, ws: seq<RawWrap>)
    ensures var r := Seqs.Sort(WrapsPosts(channel, ws), Seqs.Descending(LegacyPostId));
      && multiset(r) == multiset(WrapsPosts(channel, ws))
      && forall i, j | 0 <= i < j < |r| :: r[i].postId >= r[j].postId
  {
    Seqs.SortDescendingByKey(WrapsPosts(channel, ws), LegacyPostId);
  }

  // ---------------------------------------------------------------- events

  /** What `fromisoformat` returns for the page's `datetime` attributes: real dates. */
  predicate WellFormed(p: LegacyPost) {
    p.publishedAt.Some? ==> RuDates.Valid(p.publishedAt.value)
  }

  predicate AllWellFormed(ps: seq<LegacyPost>) {
    forall i | 0 <= i < |ps| :: WellFormed(ps[i])
  }

  predicate WrapWellFormed(w: RawWrap) {
    w.publishedAt.Some? ==> RuDates.Valid(w.publishedAt.value)
  }

  predicate WrapsWellFormed(ws: seq<RawWrap>) {
    forall k | 0 <= k < |ws| :: WrapWellFormed(ws[k])
  }

  /** Posts read from well-formed blocks are well formed, in any order. */
  lemma ParsedWellFormed(channel: String, ws: seq<RawWrap>)
    requires WrapsWellFormed(ws)
    ensures AllWellFormed(Seqs.Sort(WrapsPosts(channel, ws), Seqs.Descending(LegacyPostId)))
  {
    var ps := WrapsPosts(channel, ws);
    Seqs.FilterMapSatisfies(ws, WrapFrom(channel), WellFormed);
    var r := Seqs.Sort(ps, Seqs.Descending(LegacyPostId));
    forall i | 0 <= i < |r| ensures WellFormed(r[i]) {
      assert r[i] in multiset(ps);
      var j :| 0 <= j < |ps| && ps[j] == r[i];
    }
  }

  /** The characters `ln.strip("—–-• \t")` removes. */
  const DashChars: set<char> := {'—', '–', '-', '•', ' ', '\t'}

  /** The index of the first line from `k` on that contains `url`. */
  function LineWith(lines: seq<String>, url: String, k: nat): (r: Option<nat>)
    ensures r.Some? ==> k <= r.value < |lines| && Contains(lines[r.value], url)
    ensures r.Some? ==> forall j | k <= j < r.value :: !Contains(lines[j], url)
    ensures r.None? ==> forall j | k <= j < |lines| :: !Contains(lines[j], url)
    decreases |lines| - k
  {
    if k >= |lines| then None
    else if Contains(lines[k], url) then Some(k)
    else LineWith(lines, url, k + 1)
  }

  /** The candidate title of a digest link: the first line holding the link, with dashes,
      bullets, spaces and tabs stripped from its ends and then white space. */
  function LineTitle(text: String, url: String): (t: Option<String>)
    ensures t.Some? ==> Trimmed(t.value)
  {
    var lines := Lines(text);
    match LineWith(lines, url, 0)
    case None => None
    case Some(k) => Some(Trim(StripChars(lines[k], DashChars)))
  }

  /** The title of a digest event: the line title, unless there is none, it is empty or it
      is the link itself; then "Событие из дайджеста". Cut to 200 characters. */
  function LegacyDigestTitle(text: String, url: String): (t: String)
    ensures |t| <= TitleLimit && t != []
  {
    var line := LineTitle(text, url);
    var title := if line.None? || line.value == [] || line.value == url then DigestFallback else line.value;
    Take(title, TitleLimit)
  }

  const DigestFallback: String := "Событие из дайджеста"

  /** `t` is the title taken from line `k`: the first line that holds the link, stripped
      and cut, and not the link itself. */
  predicate TitleFromLine(lines: seq<String>, url: String, k: int, t: String) {
    && 0 <= k < |lines|
    && Contains(lines[k], url)
    && (forall j | 0 <= j < k :: !Contains(lines[j], url))
    && t == Take(Trim(StripChars(lines[k], DashChars)), TitleLimit)
    && Trim(StripChars(lines[k], DashChars)) != url
  }

  /** The digest title is either the fallback or drawn from the first line that holds the
      link; without such a line it is the fallback. */
  lemma LegacyDigestTitleRule(text: String, url: String)
    ensures LegacyDigestTitle(text, url) == DigestFallback
      || exists k :: TitleFromLine(Lines(text), url, k, LegacyDigestTitle(text, url))
    ensures (forall k | 0 <= k < |Lines(text)| :: !Contains(Lines(text)[k], url)) ==>
      LegacyDigestTitle(text, url) == DigestFallback
  {
    assert |DigestFallback| <= TitleLimit;
    var lines := Lines(text);
    var m := LineWith(lines, url, 0);
    if m.Some? {
      var k := m.value;
      var line := Trim(StripChars(lines[k], DashChars));
      assert LineTitle(text, url) == Some(line);
      if line != [] && line != url {
        assert TitleFromLine(lines, url, k, LegacyDigestTitle(text, url));
        assert exists k :: TitleFromLine(Lines(text), url, k, LegacyDigestTitle(text, url));
      } else {
        assert LegacyDigestTitle(text, url) == Take(DigestFallback, TitleLimit);
        assert LegacyDigestTitle(text, url) == DigestFallback;
      }
    } else {
      assert LineTitle(text, url) == None;
      assert LegacyDigestTitle(text, url) == Take(DigestFallback, TitleLimit);
      assert LegacyDigestTitle(text, url) == DigestFallback;
    }
  }

  predicate Outside(url: String) {
    !IsTelegramLink(url)
  }

  function LegacyDigestEvent(post: LegacyPost, url: String): Event {
    Event(post.channel, post.postId, post.postUrl, post.publishedAt, LegacyDigestTitle(post.text, url),
          None, None, Some(url), post.text)
  }

  /** One event per link that leaves Telegram, in link order. */
  function LegacyDigestEvents(post: LegacyPost): (r: seq<Event>)
    ensures |r| == |Seqs.Filter(post.links, Outside)|
  {
    var ext := Seqs.Filter(post.links, Outside);
    seq(|ext|, i requires 0 <= i < |ext| => LegacyDigestEvent(post, ext[i]))
  }

  function LegacySingleEvent(post: LegacyPost, start: Option<RuDates.DateTime>): Event {
    Event(post.channel, post.postId, post.postUrl, post.publishedAt, PickTitle(post.text), start,
          PickLocation(post.text), ChooseRegistrationUrl(post.links), post.text)
  }

  /** `extract_events_from_post` of the older parser. `now` is the clock reading the date
      scanner falls back to; its `ValueError` is the `Err`. */
  function LegacyExtractEvents(post: LegacyPost, now: RuDates.DateTime): (r: Result<seq<Event>, RuDates.DateError>)
    requires RuDates.Valid(now) && WellFormed(post)
    ensures IsDigest(post.text, |post.links|) ==> r.Ok? && |r.value| == |Seqs.Filter(post.links, Outside)|
    ensures !IsDigest(post.text, |post.links|) ==>
      (r.Ok? <==> RuDates.ParseRuDateTime(RuDates.Legacy, post.text, post.publishedAt, now).Ok?)
      && (r.Ok? ==> |r.value| == 1)
  {
    if IsDigest(post.text, |post.links|) then Ok(LegacyDigestEvents(post))
    else
      match RuDates.ParseRuDateTime(RuDates.Legacy, post.text, post.publishedAt, now)
      case Err(e) => Err(e)
      case Ok(start) => Ok([LegacySingleEvent(post, start)])
  }

  /** Each digest event belongs to one outside link, in order, with that link as its
      registration link, no start, no place and a title of at most 200 characters. */
  lemma LegacyDigestEventsShape(post: LegacyPost, i: nat)
    requires i < |LegacyDigestEvents(post)|
    ensures var ext := Seqs.Filter(post.links, Outside);
      var e := LegacyDigestEvents(post)[i];
      && ext[i] in post.links && !IsTelegramLink(ext[i])
      && e.registrationUrl == Some(ext[i])
      && e.startAt.None? && e.location.None?
      && e.title == LegacyDigestTitle(post.text, ext[i]) && |e.title| <= TitleLimit
      && e.sourcePostId == post.postId && e.rawText == post.text
  {
    var ext := Seqs.Filter(post.links, Outside);
    Seqs.FilterSatisfies(post.links, Outside);
    Seqs.FilterContains(post.links, Outside);
    assert Outside(ext[i]);
    assert ext[i] in ext;
  }

  /** A post that is not a digest gives one event from the title, place, date and link
      rules, the date read the older way. */
  lemma LegacySingleEventShape(post: LegacyPost, now: RuDates.DateTime)
    requires RuDates.Valid(now) && WellFormed(post)
    requires !IsDigest(post.text, |post.links|)
    requires LegacyExtractEvents(post, now).Ok?
    ensures var e := LegacyExtractEvents(post, now).value[0];
      && e.title == PickTitle(post.text) && e.location == PickLocation(post.text)
      && e.registrationUrl == ChooseRegistrationUrl(post.links)
      && e.startAt == RuDates.ParseRuDateTime(RuDates.Legacy, post.text, post.publishedAt, now).value
  {
  }

  // ---------------------------------------------------------------- scrape_events

  /** The events of one crawled post: those of `extract_events_from_post` for a post that
      looks like an event, none otherwise. Crawled posts are well formed; a post that is
      not would get none. */
  function PostEvents(now: RuDates.DateTime): LegacyPost -> Result<seq<Event>, RuDates.DateError> {
    (p: LegacyPost) =>
      if RuDates.Valid(now) && WellFormed(p) && IsEventish(p.text) then LegacyExtractEvents(p, now) else Ok([])
  }

  /** The events of a run of posts, in order, or the first date error. */
  function EventsOf(ps: seq<LegacyPost>, now: RuDates.DateTime): Result<seq<Event>, RuDates.DateError> {
    Seqs.Gather(ps, PostEvents(now))
  }

  /** Ids above the `--stop-at-post-id` bound, when there is one. */
  predicate Above(p: LegacyPost, stopAt: Option<int>) {
    stopAt.Some? ==> p.postId > stopAt.value
  }

  function Fresh(seen: set<int>, stopAt: Option<int>): LegacyPost -> bool {
    (p: LegacyPost) => p.postId !in seen && Above(p, stopAt)
  }

  /** The new posts of a page: those not seen before and above the bound, the first of
      each id. */
  function NewOf(ps: seq<LegacyPost>, seen: set<int>, stopAt: Option<int>): seq<LegacyPost> {
    Seqs.DedupBy(Seqs.Filter(ps, Fresh(seen, stopAt)), LegacyPostId)
  }

  /** The selection loop: skips a post whose id is already seen or not above the bound,
      and otherwise keeps it and marks its id seen. */
  method SelectNew(ps: seq<LegacyPost>, seen: set<int>, stopAt: Option<int>)
    returns (picked: seq<LegacyPost>, seen2: set<int>)
    ensures picked == NewOf(ps, seen, stopAt)
    ensures seen2 == seen + Seqs.KeysOf(picked, LegacyPostId)
  {
    picked := [];
    seen2 := seen;
    var i := 0;
    while i < |ps|
      invariant 0 <= i <= |ps|
      invariant picked == NewOf(ps[..i], seen, stopAt)
      invariant seen2 == seen + Seqs.KeysOf(picked, LegacyPostId)
    {
      var p := ps[i];
      Seqs.PrefixStep(ps, i);
      NewOfAppend(ps[..i], p, seen, stopAt);
      Seqs.KeysOfAppend(picked, p, LegacyPostId);
      if p.postId !in seen2 && Above(p, stopAt) {
        assert NewOf(ps[..i + 1], seen, stopAt) == picked + [p];
        picked := picked + [p];
        seen2 := seen2 + {p.postId};
      } else {
        assert NewOf(ps[..i + 1], seen, stopAt) == picked;
      }
      i := i + 1;
    }
    assert ps[..i] == ps;
  }

  /** One more post of the page is new exactly when it is above the bound and its id is
      neither seen nor among the new posts so far. */
  lemma NewOfAppend(ps: seq<LegacyPost>, p: LegacyPost, seen: set<int>, stopAt: Option<int>)
    ensures NewOf(ps + [p], seen, stopAt) ==
      if p.postId !in seen + Seqs.KeysOf(NewOf(ps, seen, stopAt), LegacyPostId) && Above(p, stopAt)
      then NewOf(ps, seen, stopAt) + [p] else NewOf(ps, seen, stopAt)
  {
    var f := Seqs.Filter(ps, Fresh(seen, stopAt));
    Seqs.FilterAppend(ps, p, Fresh(seen, stopAt));
    Seqs.DedupByFirstOccurrence(f, LegacyPostId);
    if Fresh(seen, stopAt)(p) {
      Seqs.DedupByAppend(f, p, LegacyPostId);
    }
  }

  /** The new posts of a page come from it, have distinct unseen ids above the bound, and
      every post of the page with an unseen id above the bound has its id among them. */
  lemma NewOfSpec(ps: seq<LegacyPost>, seen: set<int>, stopAt: Option<int>)
    ensures var n := NewOf(ps, seen, stopAt);
      && Seqs.DistinctKeys(n, LegacyPostId)
      && (forall i | 0 <= i < |n| :: n[i] in ps && n[i].postId !in seen && Above(n[i], stopAt))
      && (forall k | 0 <= k < |ps| && ps[k].postId !in seen && Above(ps[k], stopAt) ::
            ps[k].postId in Seqs.KeysOf(n, LegacyPostId))
  {
    var f := Seqs.Filter(ps, Fresh(seen, stopAt));
    var n := NewOf(ps, seen, stopAt);
    Seqs.FilterSatisfies(ps, Fresh(seen, stopAt));
    Seqs.FilterContains(ps, Fresh(seen, stopAt));
    Seqs.DedupByFirstOccurrence(f, LegacyPostId);
    forall i | 0 <= i < |n| ensures n[i] in ps && n[i].postId !in seen && Above(n[i], stopAt) {
      var j := Seqs.FirstIndex(f, LegacyPostId, n[i].postId);
      assert n[i] == f[j];
      assert f[j] in f;
    }
    forall k | 0 <= k < |ps| && ps[k].postId !in seen && Above(ps[k], stopAt)
      ensures ps[k].postId in Seqs.KeysOf(n, LegacyPostId)
    {
      assert Fresh(seen, stopAt)(ps[k]);
      assert ps[k] in f;
      var j :| 0 <= j < |f| && f[j] == ps[k];
      assert LegacyPostId(f[j]) in Seqs.KeysOf(f, LegacyPostId);
    }
  }

  /** The smallest id of a page. */
  function MinId(ps: seq<LegacyPost>): (m: int)
    requires ps != []
    ensures exists i | 0 <= i < |ps| :: ps[i].postId == m
    ensures forall i | 0 <= i < |ps| :: m <= ps[i].postId
  {
    if |ps| == 1 then ps[0].postId
    else
      var rest := MinId(ps[1..]);
      assert forall i | 1 <= i < |ps| :: ps[i] == ps[1..][i - 1];
      if ps[0].postId <= rest then ps[0].postId else rest
  }

  // ---------------------------------------------------------------- final order

  /** A date as the key part `x or ""`: no date sorts first, and dates compare field by
      field, as their ISO text does. */
  function DateKey(t: Option<RuDates.DateTime>): (k: seq<int>)
    ensures |k| == 7
  {
    match t
    case None => [0, 0, 0, 0, 0, 0, 0]
    case Some(d) => [1, d.year, d.month, d.day, d.hour, d.minute, d.second]
  }

  /** `_event_sort_key`: (start or "", published or "", source post id). */
  function EventKey(e: Event): (k: seq<int>)
    ensures |k| == 15
  {
    DateKey(e.startAt) + DateKey(e.publishedAt) + [e.sourcePostId]
  }

  predicate EventBefore(a: Event, b: Event) {
    Seqs.LexLe(EventKey(a), EventKey(b))
  }

  /** The event order compares every pair and is transitive, so sorting by it orders. */
  lemma EventBeforeIsPreorder()
    ensures Seqs.IsTotalPreorder(EventBefore)
  {
    forall a: Event, b: Event ensures EventBefore(a, b) || EventBefore(b, a) {
      Seqs.LexTotal(EventKey(a), EventKey(b));
    }
    forall a: Event, b: Event, c: Event | EventBefore(a, b) && EventBefore(b, c)
      ensures EventBefore(a, c)
    {
      Seqs.LexTransitive(EventKey(a), EventKey(b), EventKey(c));
    }
  }

  /** An event without a start comes before every event with one. */
  lemma UndatedFirst(a: Event, b: Event)
    requires a.startAt.None? && b.startAt.Some?
    ensures EventBefore(a, b) && !EventBefore(b, a)
  {
    var ka, kb := EventKey(a), EventKey(b);
    assert ka[0] == 0 && kb[0] == 1;
  }

  // ---------------------------------------------------------------- the crawl

  /** The posts `parse_posts_from_html` returns for the page fetched with `before`. */
  function PageOf(channel: String, page: Option<int> -> seq<RawWrap>, before: Option<int>): seq<LegacyPost> {
    Seqs.Sort(WrapsPosts(channel, page(before)), Seqs.Descending(LegacyPostId))
  }

  /** The room `maxPosts` leaves once the posts `all` are collected. */
  function Room(maxPosts: int, all: seq<LegacyPost>): nat {
    if |all| < maxPosts then maxPosts - |all| else 0
  }

  /** The posts a round takes from the page fetched with `before`: its new posts, up to
      the room left. */
  function Batch(channel: String, maxPosts: int, stopAt: Option<int>, page: Option<int> -> seq<RawWrap>,
                 all: seq<LegacyPost>, seen: set<int>, before: Option<int>): seq<LegacyPost> {
    Take(NewOf(PageOf(channel, page, before), seen, stopAt), Room(maxPosts, all))
  }

  /** The posts the crawl loop collects, in crawl order, starting from the posts `all`
      collected so far, the ids `seen` and the pagination id `before`. The loop reads no
      page once `maxPosts` posts are collected; it stops at a page with no posts or no new
      ones; otherwise it takes the page's new posts up to the room left, and stops after
      them when their events end in a date error or when the oldest id of the page is
      `before` again. Ids count as seen even when the room left cuts their posts off. */
  function Crawl(channel: String, maxPosts: int, stopAt: Option<int>, page: Option<int> -> seq<RawWrap>,
                 now: RuDates.DateTime, all: seq<LegacyPost>, seen: set<int>, before: Option<int>): seq<LegacyPost>
    decreases Room(maxPosts, all)
  {
    if |all| >= maxPosts then all
    else
      var ps := PageOf(channel, page, before);
      var picked := NewOf(ps, seen, stopAt);
      if ps == [] || picked == [] then all
      else
        var batch := Batch(channel, maxPosts, stopAt, page, all, seen, before);
        if Seqs.Gather(batch, PostEvents(now)).Err? || before == Some(MinId(ps)) then all + batch
        else Crawl(channel, maxPosts, stopAt, page, now, all + batch,
                   seen + Seqs.KeysOf(picked, LegacyPostId), Some(MinId(ps)))
  }

  /** What `scrape_events` returns for the crawl from the newest page: the collected
      posts newest first and their events sorted by the event key, or the first date
      error. */
  function Scraped(channel: String, maxPosts: int, stopAt: Option<int>, page: Option<int> -> seq<RawWrap>,
                   now: RuDates.DateTime): Result<(seq<LegacyPost>, seq<Event>), RuDates.DateError>
  {
    var crawl := Crawl(channel, maxPosts, stopAt, page, now, [], {}, None);
    match EventsOf(crawl, now)
    case Err(e) => Err(e)
    case Ok(evs) => Ok((Seqs.Sort(crawl, Seqs.Descending(LegacyPostId)), Seqs.Sort(evs, EventBefore)))
  }

  /** Every post is one of the posts of some page. */
  ghost predicate FromPages(channel: String, page: Option<int> -> seq<RawWrap>, ps: seq<LegacyPost>) {
    forall i | 0 <= i < |ps| :: exists b :: ps[i] in PageOf(channel, page, b)
  }

  /** `scrape_events`. `page(before)` is what `parse_posts_from_html` is given for the page
      fetched with that `before` parameter (`None`: the newest page); only posts that look
      like events are turned into events. */
  method ScrapeEvents(channel: String, maxPosts: int, stopAt: Option<int>,
                      page: Option<int> -> seq<RawWrap>, now: RuDates.DateTime)
    returns (r: Result<(seq<LegacyPost>, seq<Event>), RuDates.DateError>)
    ensures r == Scraped(channel, maxPosts, stopAt, page, now)
  {
    ghost var crawl := Crawl(channel, maxPosts, stopAt, page, now, [], {}, None);
    var all: seq<LegacyPost> := [];
    var events: seq<Event> := [];
    var seen: set<int> := {};
    var before: Option<int> := None;
    while |all| < maxPosts
      invariant Crawl(channel, maxPosts, stopAt, page, now, all, seen, before) == crawl
      invariant EventsOf(all, now) == Ok(events)
      decreases maxPosts - |all|
    {
      var ps := ParsePosts(channel, page(before));
      if ps == [] {
        break;
      }
      var picked, seen2 := SelectNew(ps, seen, stopAt);
      if picked == [] {
        break;
      }
      var space := maxPosts - |all|;
      var batch := Take(picked, space);
      assert batch == Batch(channel, maxPosts, stopAt, page, all, seen, before);
      var es := Seqs.GatherUntilErr(batch, PostEvents(now));
      Seqs.GatherConcat(all, batch, PostEvents(now));
      var oldest := MinId(ps);
      all := all + batch;
      seen := seen2;
      if es.Err? {
        return Err(es.error);
      }
      events := events + es.value;
      if before == Some(oldest) {
        break;
      }
      before := Some(oldest);
    }
    r := Ok((Seqs.Sort(all, Seqs.Descending(LegacyPostId)), Seqs.Sort(events, EventBefore)));
  }

  /** What the crawl may hold: at most `maxPosts` posts, with distinct ids above the
      bound, each a well-formed post of some page. */
  ghost predicate Collection(channel: String, maxPosts: int, stopAt: Option<int>,
                             page: Option<int> -> seq<RawWrap>, ps: seq<LegacyPost>) {
    && |ps| <= (if maxPosts < 0 then 0 else maxPosts)
    && Seqs.DistinctKeys(ps, LegacyPostId)
    && (forall i | 0 <= i < |ps| :: Above(ps[i], stopAt) && WellFormed(ps[i]))
    && FromPages(channel, page, ps)
  }

  /** The crawl from a loop state whose posts form a collection, all of whose ids are
      seen, is a collection that extends those posts. */
  lemma {:induction false} CrawlSpec(channel: String, maxPosts: int, stopAt: Option<int>,
                                     page: Option<int> -> seq<RawWrap>, now: RuDates.DateTime,
                                     all: seq<LegacyPost>, seen: set<int>, before: Option<int>)
    requires forall b :: WrapsWellFormed(page(b))
    requires Collection(channel, maxPosts, stopAt, page, all) && Seqs.KeysOf(all, LegacyPostId) <= seen
    ensures Collection(channel, maxPosts, stopAt, page, Crawl(channel, maxPosts, stopAt, page, now, all, seen, before))
    ensures IsPrefixOf(all, Crawl(channel, maxPosts, stopAt, page, now, all, seen, before))
    decreases Room(maxPosts, all)
  {
    if |all| < maxPosts {
      var ps := PageOf(channel, page, before);
      var picked := NewOf(ps, seen, stopAt);
      if ps != [] && picked != [] {
        var batch := Batch(channel, maxPosts, stopAt, page, all, seen, before);
        var ab := all + batch;
        var seen2 := seen + Seqs.KeysOf(picked, LegacyPostId);
        ParsedWellFormed(channel, page(before));
        StepKeepsCollection(channel, maxPosts, stopAt, page, all, seen, before);
        assert ab[..|all|] == all;
        if !(Seqs.Gather(batch, PostEvents(now)).Err? || before == Some(MinId(ps))) {
          CrawlSpec(channel, maxPosts, stopAt, page, now, ab, seen2, Some(MinId(ps)));
          PrefixTrans(all, ab, Crawl(channel, maxPosts, stopAt, page, now, ab, seen2, Some(MinId(ps))));
        }
      }
    }
  }

  lemma PrefixTrans<T>(a: seq<T>, b: seq<T>, c: seq<T>)
    requires IsPrefixOf(a, b) && IsPrefixOf(b, c)
    ensures IsPrefixOf(a, c)
  {
    assert c[..|a|] == c[..|b|][..|a|];
  }

  /** One round of the loop keeps the posts a collection whose ids are all seen. */
  lemma StepKeepsCollection(channel: String, maxPosts: int, stopAt: Option<int>,
                            page: Option<int> -> seq<RawWrap>,
                            all: seq<LegacyPost>, seen: set<int>, before: Option<int>)
    requires AllWellFormed(PageOf(channel, page, before))
    requires Collection(channel, maxPosts, stopAt, page, all) && Seqs.KeysOf(all, LegacyPostId) <= seen
    requires |all| < maxPosts && NewOf(PageOf(channel, page, before), seen, stopAt) != []
    ensures Collection(channel, maxPosts, stopAt, page, all + Batch(channel, maxPosts, stopAt, page, all, seen, before))
    ensures Seqs.KeysOf(all + Batch(channel, maxPosts, stopAt, page, all, seen, before), LegacyPostId)
              <= seen + Seqs.KeysOf(NewOf(PageOf(channel, page, before), seen, stopAt), LegacyPostId)
  {
    var ps := PageOf(channel, page, before);
    var space := Room(maxPosts, all);
    BatchSpec(ps, seen, stopAt, space, all);
    BatchFromPages(channel, page, before, all, seen, stopAt, space);
  }

  /** The posts a round takes come from the page it read. */
  lemma BatchFromPages(channel: String, page: Option<int> -> seq<RawWrap>, before: Option<int>,
                       all: seq<LegacyPost>, seen: set<int>, stopAt: Option<int>, space: nat)
    requires FromPages(channel, page, all)
    ensures FromPages(channel, page, all + Take(NewOf(PageOf(channel, page, before), seen, stopAt), space))
  {
    var picked := NewOf(PageOf(channel, page, before), seen, stopAt);
    var ab := all + Take(picked, space);
    NewOfSpec(PageOf(channel, page, before), seen, stopAt);
    forall i | 0 <= i < |ab| ensures exists b :: ab[i] in PageOf(channel, page, b) {
      if i < |all| {
        assert ab[i] == all[i];
      } else {
        assert ab[i] == picked[i - |all|];
        assert ab[i] in PageOf(channel, page, before);
      }
    }
  }

  /** With room for a post, the crawl goes on with the new posts of the page it reads
      next, up to the room left. */
  lemma CrawlTakesPage(channel: String, maxPosts: int, stopAt: Option<int>,
                       page: Option<int> -> seq<RawWrap>, now: RuDates.DateTime,
                       all: seq<LegacyPost>, seen: set<int>, before: Option<int>)
    requires forall b :: WrapsWellFormed(page(b))
    requires Collection(channel, maxPosts, stopAt, page, all) && Seqs.KeysOf(all, LegacyPostId) <= seen
    requires |all| < maxPosts
    ensures IsPrefixOf(all + Batch(channel, maxPosts, stopAt, page, all, seen, before),
                       Crawl(channel, maxPosts, stopAt, page, now, all, seen, before))
  {
    var ps := PageOf(channel, page, before);
    var picked := NewOf(ps, seen, stopAt);
    var batch := Batch(channel, maxPosts, stopAt, page, all, seen, before);
    var ab := all + batch;
    NewOfSpec(ps, seen, stopAt);
    assert picked != [] ==> picked[0] in ps;
    if picked == [] {
      assert ab == all;
    } else if !(Seqs.Gather(batch, PostEvents(now)).Err? || before == Some(MinId(ps))) {
      ParsedWellFormed(channel, page(before));
      StepKeepsCollection(channel, maxPosts, stopAt, page, all, seen, before);
      CrawlSpec(channel, maxPosts, stopAt, page, now, ab, seen + Seqs.KeysOf(picked, LegacyPostId), Some(MinId(ps)));
    }
  }

  /** With room for a post, the crawl starts with the new posts of the newest page, up to
      `maxPosts` of them. */
  lemma CrawlStartsWithFirstPage(channel: String, maxPosts: int, stopAt: Option<int>,
                                 page: Option<int> -> seq<RawWrap>, now: RuDates.DateTime)
    requires forall b :: WrapsWellFormed(page(b))
    requires maxPosts >= 1
    ensures IsPrefixOf(Take(NewOf(PageOf(channel, page, None), {}, stopAt), maxPosts),
                       Crawl(channel, maxPosts, stopAt, page, now, [], {}, None))
  {
    var batch := Batch(channel, maxPosts, stopAt, page, [], {}, None);
    assert Room(maxPosts, []) == maxPosts;
    assert Collection(channel, maxPosts, stopAt, page, []);
    CrawlTakesPage(channel, maxPosts, stopAt, page, now, [], {}, None);
    assert [] + batch == batch;
  }

  /** Everything `scrape_events` returns comes from the pages: the posts are a collection
      sorted newest first, and the events are those of the collected posts. */
  lemma ScrapedSpec(channel: String, maxPosts: int, stopAt: Option<int>,
                    page: Option<int> -> seq<RawWrap>, now: RuDates.DateTime)
    requires forall b :: WrapsWellFormed(page(b))
    ensures var crawl := Crawl(channel, maxPosts, stopAt, page, now, [], {}, None);
      && Collection(channel, maxPosts, stopAt, page, crawl)
      && (Scraped(channel, maxPosts, stopAt, page, now).Ok? ==>
            && multiset(Scraped(channel, maxPosts, stopAt, page, now).value.0) == multiset(crawl)
            && EventsOf(crawl, now).Ok?
            && multiset(Scraped(channel, maxPosts, stopAt, page, now).value.1) == multiset(EventsOf(crawl, now).value))
  {
    var crawl := Crawl(channel, maxPosts, stopAt, page, now, [], {}, None);
    CrawlSpec(channel, maxPosts, stopAt, page, now, [], {}, None);
    if EventsOf(crawl, now).Ok? {
      ScrapeOrder(crawl, EventsOf(crawl, now).value);
    }
  }

  /** What one page adds: at least one and at most `space` posts, newer than the bound,
      well formed, with distinct ids none of which was seen, so the collection keeps its
      invariants. */
  lemma BatchSpec(ps: seq<LegacyPost>, seen: set<int>, stopAt: Option<int>, space: nat, all: seq<LegacyPost>)
    requires space >= 1 && NewOf(ps, seen, stopAt) != [] && AllWellFormed(ps)
    requires Seqs.DistinctKeys(all, LegacyPostId) && Seqs.KeysOf(all, LegacyPostId) <= seen
    requires forall i | 0 <= i < |all| :: Above(all[i], stopAt) && WellFormed(all[i])
    ensures var batch := Take(NewOf(ps, seen, stopAt), space);
      && 1 <= |batch| <= space
      && Seqs.DistinctKeys(all + batch, LegacyPostId)
      && Seqs.KeysOf(all + batch, LegacyPostId) <= seen + Seqs.KeysOf(NewOf(ps, seen, stopAt), LegacyPostId)
      && (forall i | 0 <= i < |all + batch| :: Above((all + batch)[i], stopAt) && WellFormed((all + batch)[i]))
  {
    var n := NewOf(ps, seen, stopAt);
    NewOfSpec(ps, seen, stopAt);
    var batch := Take(n, space);
    var ab := all + batch;
    assert forall i | 0 <= i < |batch| :: batch[i] == n[i];
    forall i | 0 <= i < |batch| ensures WellFormed(batch[i]) {
      assert n[i] in ps;
    }
    forall i, j | 0 <= i < j < |ab| ensures ab[i].postId != ab[j].postId {
      if j < |all| {
        assert ab[i] == all[i] && ab[j] == all[j];
      } else if i >= |all| {
        assert ab[i] == n[i - |all|] && ab[j] == n[j - |all|];
      } else {
        assert ab[i] == all[i] && ab[j] == n[j - |all|];
        assert LegacyPostId(all[i]) in Seqs.KeysOf(all, LegacyPostId);
      }
    }
    forall k | k in Seqs.KeysOf(ab, LegacyPostId)
      ensures k in seen + Seqs.KeysOf(n, LegacyPostId)
    {
      var j :| 0 <= j < |ab| && LegacyPostId(ab[j]) == k;
      if j < |all| {
        assert ab[j] == all[j];
        assert k in Seqs.KeysOf(all, LegacyPostId);
      } else {
        assert ab[j] == n[j - |all|];
      }
    }
    forall i | 0 <= i < |ab| ensures Above(ab[i], stopAt) && WellFormed(ab[i]) {
      if i < |all| {
        assert ab[i] == all[i];
      } else {
        assert ab[i] == batch[i - |all|];
      }
    }
  }

  /** The crawl's results are ordered: posts newest first, events by start, then
      publication, then post id, each a permutation of what was collected, and events
      with equal keys keep their crawl order. */
  lemma ScrapeOrder(crawl: seq<LegacyPost>, events: seq<Event>)
    ensures var posts := Seqs.Sort(crawl, Seqs.Descending(LegacyPostId));
      && multiset(posts) == multiset(crawl)
      && (forall i, j | 0 <= i < j < |posts| :: posts[i].postId >= posts[j].postId)
    ensures var sorted := Seqs.Sort(events, EventBefore);
      && multiset(sorted) == multiset(events)
      && Seqs.Sorted(sorted, EventBefore)
      && forall e :: Seqs.TiesWith(sorted, e, EventBefore) == Seqs.TiesWith(events, e, EventBefore)
  {
    Seqs.SortDescendingByKey(crawl, LegacyPostId);
    EventBeforeIsPreorder();
    Seqs.SortSorted(events, EventBefore);
    forall e ensures Seqs.TiesWith(Seqs.Sort(events, EventBefore), e, EventBefore) == Seqs.TiesWith(events, e, EventBefore) {
      Seqs.SortStable(events, e, EventBefore);
    }
  }
}
