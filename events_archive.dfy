/** The events archive page: date derivation, status classification, filtering, the
    two-partition order, grouping by year, the year option list, the counts line and the
    page state that `load`, `rerender` and the reset button update. */
module EventsArchive {
  import opened Wrappers
  import opened Strings
  import Seqs

  /** One record of the `events` array of the payload; a field that is absent or `null`
      is `None`. */
  datatype Event = Event(
    title: Option<String>,
    location: Option<String>,
    rawText: Option<String>,
    startAt: Option<String>,
    publishedAt: Option<String>,
    registrationUrl: Option<String>,
    sourcePostUrl: Option<String>)

  /** The browser's date services, left abstract: `parse` is `new Date(s).getTime()`
      (`None` for an invalid date), `yearOf` is `getFullYear()` of an instant in the local
      zone, and the two formatters are the `ru-RU` date-time and date formats. */
  datatype Calendar = Calendar(
    parse: String -> Option<int>,
    yearOf: int -> int,
    formatDateTime: int -> String,
    formatDate: int -> String)

  /** `String(x || "")` for a string field. */
  function Text(x: Option<String>): String {
    match x
    case Some(s) => s
    case None => ""
  }

  /** `safeText`. */
  function SafeText(x: Option<String>): String {
    Trim(Text(x))
  }

  /** `normalizeText`. */
  function NormalizeText(x: Option<String>): String {
    Lower(SafeText(x))
  }

  /** A field counts as set when it is a non-empty string (JavaScript truthiness). */
  predicate IsSet(x: Option<String>) {
    x.Some? && x.value != ""
  }

  // ---------------------------------------------------------------- dates

  /** `parseIso`: nothing for a missing or empty value or an invalid date, otherwise the
      instant the calendar reads from it. */
  function ParseIso(cal: Calendar, iso: Option<String>): (t: Option<int>)
    ensures !IsSet(iso) ==> t == None
    ensures IsSet(iso) ==> t == cal.parse(iso.value)
  {
    if IsSet(iso) then cal.parse(iso.value) else None
  }

  /** `getPrimaryDate`. */
  function PrimaryDate(cal: Calendar, ev: Event): Option<int> {
    var start := ParseIso(cal, ev.startAt);
    if start.Some? then start else ParseIso(cal, ev.publishedAt)
  }

  /** `getYear`. */
  function Year(cal: Calendar, ev: Event): Option<int> {
    match PrimaryDate(cal, ev)
    case Some(t) => Some(cal.yearOf(t))
    case None => None
  }

  /** The primary date is the start when it parses, else the publication date; there is
      none exactly when neither parses, and then there is no year either. */
  lemma PrimaryDateChoice(cal: Calendar, ev: Event)
    ensures ParseIso(cal, ev.startAt).Some? ==> PrimaryDate(cal, ev) == ParseIso(cal, ev.startAt)
    ensures ParseIso(cal, ev.startAt).None? ==> PrimaryDate(cal, ev) == ParseIso(cal, ev.publishedAt)
    ensures PrimaryDate(cal, ev).None?
      <==> ParseIso(cal, ev.startAt).None? && ParseIso(cal, ev.publishedAt).None?
    ensures Year(cal, ev).None? <==> PrimaryDate(cal, ev).None?
    ensures Year(cal, ev).Some? ==> Year(cal, ev).value == cal.yearOf(PrimaryDate(cal, ev).value)
  {
  }

  datatype Status = Upcoming | Past | NoDate

  /** The value the status `<select>` uses for each status. */
  function StatusName(st: Status): String {
    match st
    case Upcoming => "upcoming"
    case Past => "past"
    case NoDate => "nodate"
  }

  /** `classifyStatus`: decided by the start alone; a start equal to `now` is upcoming. */
  function ClassifyStatus(cal: Calendar, ev: Event, now: int): (st: Status)
    ensures st == NoDate <==> ParseIso(cal, ev.startAt).None?
    ensures st == Upcoming <==> ParseIso(cal, ev.startAt).Some? && ParseIso(cal, ev.startAt).value >= now
    ensures st == Past <==> ParseIso(cal, ev.startAt).Some? && ParseIso(cal, ev.startAt).value < now
  {
    match ParseIso(cal, ev.startAt)
    case None => NoDate
    case Some(start) => if start >= now then Upcoming else Past
  }

  /** The publication date plays no part in the status, and an event without a start can
      still carry a year taken from its publication date. */
  lemma StatusIgnoresPublication(cal: Calendar, ev: Event, now: int, published: Option<String>)
    ensures ClassifyStatus(cal, ev.(publishedAt := published), now) == ClassifyStatus(cal, ev, now)
    ensures ClassifyStatus(cal, ev, now) == NoDate && ParseIso(cal, ev.publishedAt).Some?
      ==> Year(cal, ev) == Some(cal.yearOf(ParseIso(cal, ev.publishedAt).value))
  {
  }

  datatype When = When(caption: String, value: String)

  /** `formatWhen`: the start as date and time, else the publication date, else a
      placeholder. */
  function FormatWhen(cal: Calendar, ev: Event): (w: When)
    ensures w.caption == "Когда" <==> ParseIso(cal, ev.startAt).Some?
    ensures w.caption == "Опубликовано"
      <==> ParseIso(cal, ev.startAt).None? && ParseIso(cal, ev.publishedAt).Some?
    ensures w == When("Дата", "не указана") <==> PrimaryDate(cal, ev).None?
    ensures ParseIso(cal, ev.startAt).Some?
      ==> w.value == cal.formatDateTime(ParseIso(cal, ev.startAt).value)
    ensures ParseIso(cal, ev.startAt).None? && ParseIso(cal, ev.publishedAt).Some?
      ==> w.value == cal.formatDate(ParseIso(cal, ev.publishedAt).value)
  {
    match (ParseIso(cal, ev.startAt), ParseIso(cal, ev.publishedAt))
    case (Some(start), _) => When("Когда", cal.formatDateTime(start))
    case (None, Some(published)) => When("Опубликовано", cal.formatDate(published))
    case (None, None) => When("Дата", "не указана")
  }

  // ---------------------------------------------------------------- filtering

  /** The raw values of the search box and the year and status selects. */
  datatype Criteria = Criteria(search: String, year: String, status: String)

  const NoCriteria := Criteria("", "", "")

  function Query(c: Criteria): String {
    NormalizeText(Some(c.search))
  }

  /** The text the query is searched in. */
  function Haystack(ev: Event): String {
    NormalizeText(ev.title) + (" " + NormalizeText(ev.location) + " " + NormalizeText(ev.rawText))
  }

  /** A year of 0 is falsy in JavaScript and counts as no year. */
  predicate HasYear(cal: Calendar, ev: Event) {
    Year(cal, ev).Some? && Year(cal, ev).value != 0
  }

  predicate YearMatches(cal: Calendar, c: Criteria, ev: Event) {
    c.year == "" || (HasYear(cal, ev) && IntToString(Year(cal, ev).value) == c.year)
  }

  predicate StatusMatches(cal: Calendar, now: int, c: Criteria, ev: Event) {
    c.status == "" || StatusName(ClassifyStatus(cal, ev, now)) == c.status
  }

  predicate QueryMatches(c: Criteria, ev: Event) {
    Query(c) == "" || Contains(Haystack(ev), Query(c))
  }

  /** The filter callback of `applyFilters`. */
  predicate Keep(cal: Calendar, now: int, c: Criteria, ev: Event) {
    YearMatches(cal, c, ev) && StatusMatches(cal, now, c, ev) && QueryMatches(c, ev)
  }

  function KeepFn(cal: Calendar, now: int, c: Criteria): Event -> bool {
    (ev: Event) => Keep(cal, now, c, ev)
  }

  /** A year criterion selects exactly the events of that year, and drops every undated
      event. */
  lemma YearCriterion(cal: Calendar, c: Criteria, ev: Event, y: int)
    requires y != 0 && c.year == IntToString(y)
    ensures YearMatches(cal, c, ev) <==> Year(cal, ev) == Some(y)
    ensures PrimaryDate(cal, ev).None? ==> !YearMatches(cal, c, ev)
  {
    if YearMatches(cal, c, ev) {
      IntToStringInjective(Year(cal, ev).value, y);
    }
  }

  /** A status criterion naming one of the three statuses selects exactly that status. */
  lemma StatusCriterion(cal: Calendar, now: int, c: Criteria, ev: Event, st: Status)
    requires c.status == StatusName(st)
    ensures StatusMatches(cal, now, c, ev) <==> ClassifyStatus(cal, ev, now) == st
  {
  }

  /** Lower-casing or trimming the search text leaves the query unchanged. */
  lemma QueryNormalised(search: String)
    ensures NormalizeText(Some(Lower(search))) == NormalizeText(Some(search))
    ensures NormalizeText(Some(Trim(search))) == NormalizeText(Some(search))
  {
    var t := Trim(search);
    TrimOfTrimmed(t);
    calc {
      NormalizeText(Some(Lower(search)));
      Lower(Trim(Lower(search)));
      { TrimLower(search); }
      Lower(Lower(t));
      { LowerIdempotent(t); }
      Lower(t);
    }
  }

  /** The search ignores the case and the surrounding white space of the query. */
  lemma QueryCaseInsensitive(c: Criteria, ev: Event)
    ensures QueryMatches(c.(search := Lower(c.search)), ev) == QueryMatches(c, ev)
    ensures QueryMatches(c.(search := Trim(c.search)), ev) == QueryMatches(c, ev)
  {
    QueryNormalised(c.search);
    assert Query(c.(search := Lower(c.search))) == Query(c);
    assert Query(c.(search := Trim(c.search))) == Query(c);
  }

  /** A query found in the title (after trimming and lower-casing) keeps the event. */
  lemma QueryInTitle(c: Criteria, ev: Event)
    requires Contains(NormalizeText(ev.title), Query(c))
    ensures QueryMatches(c, ev)
  {
    ContainsInConcat(NormalizeText(ev.title), " " + NormalizeText(ev.location) + " " + NormalizeText(ev.rawText), Query(c));
  }

  /** The empty criteria keep every event. */
  lemma NoCriteriaKeepsAll(cal: Calendar, now: int, ev: Event)
    ensures Keep(cal, now, NoCriteria, ev)
  {
    assert QueryMatches(NoCriteria, ev);
  }

  // ---------------------------------------------------------------- ordering

  predicate IsUpcoming(cal: Calendar, now: int, ev: Event) {
    ClassifyStatus(cal, ev, now) == Upcoming
  }

  function UpcomingFn(cal: Calendar, now: int): Event -> bool {
    (ev: Event) => IsUpcoming(cal, now, ev)
  }

  function NotUpcomingFn(cal: Calendar, now: int): Event -> bool {
    (ev: Event) => !IsUpcoming(cal, now, ev)
  }

  /** The key of the upcoming comparison: the start instant. */
  function StartKey(cal: Calendar): Event -> int {
    (ev: Event) => ParseIso(cal, ev.startAt).GetOr(0)
  }

  /** The key of the comparison of the rest: the primary date, 0 when there is none. */
  function PrimaryKey(cal: Calendar): Event -> int {
    (ev: Event) => PrimaryDate(cal, ev).GetOr(0)
  }

  /** The list `applyFilters` returns: the kept events, upcoming ones first in ascending
      start order, then the others in descending primary date order. */
  function Visible(cal: Calendar, now: int, c: Criteria, events: seq<Event>): seq<Event> {
    var kept := Seqs.Filter(events, KeepFn(cal, now, c));
    Seqs.Sort(Seqs.Filter(kept, UpcomingFn(cal, now)), Seqs.Ascending(StartKey(cal)))
    + Seqs.Sort(Seqs.Filter(kept, NotUpcomingFn(cal, now)), Seqs.Descending(PrimaryKey(cal)))
  }

  /** The `filter` pass of `applyFilters`. */
  method KeepMatching(cal: Calendar, now: int, c: Criteria, events: seq<Event>)
    returns (filtered: seq<Event>)
    ensures filtered == Seqs.Filter(events, KeepFn(cal, now, c))
  {
    filtered := [];
    var i := 0;
    while i < |events|
      invariant 0 <= i <= |events|
      invariant filtered == Seqs.Filter(events[..i], KeepFn(cal, now, c))
    {
      assert events[..i + 1][..i] == events[..i];
      if Keep(cal, now, c, events[i]) {
        filtered := filtered + [events[i]];
      }
      i := i + 1;
    }
    assert events[..i] == events;
  }

  /** The loop of `applyFilters` that splits the kept events into upcoming ones and the
      rest, each in its original order. */
  method SplitUpcoming(cal: Calendar, now: int, filtered: seq<Event>)
    returns (upcoming: seq<Event>, rest: seq<Event>)
    ensures upcoming == Seqs.Filter(filtered, UpcomingFn(cal, now))
    ensures rest == Seqs.Filter(filtered, NotUpcomingFn(cal, now))
  {
    upcoming, rest := [], [];
    var j := 0;
    while j < |filtered|
      invariant 0 <= j <= |filtered|
      invariant upcoming == Seqs.Filter(filtered[..j], UpcomingFn(cal, now))
      invariant rest == Seqs.Filter(filtered[..j], NotUpcomingFn(cal, now))
    {
      assert filtered[..j + 1][..j] == filtered[..j];
      if ClassifyStatus(cal, filtered[j], now) == Upcoming {
        upcoming := upcoming + [filtered[j]];
      } else {
        rest := rest + [filtered[j]];
      }
      j := j + 1;
    }
    assert filtered[..j] == filtered;
  }

  /** `applyFilters`. */
  method ApplyFilters(cal: Calendar, now: int, c: Criteria, events: seq<Event>)
    returns (shown: seq<Event>)
    ensures shown == Visible(cal, now, c, events)
  {
    var filtered := KeepMatching(cal, now, c, events);
    var upcoming, rest := SplitUpcoming(cal, now, filtered);
    upcoming := Seqs.Sort(upcoming, Seqs.Ascending(StartKey(cal)));
    rest := Seqs.Sort(rest, Seqs.Descending(PrimaryKey(cal)));
    shown := upcoming + rest;
  }

  /** The number of upcoming events among the kept ones: the shown list is upcoming events
      up to this position and other events after it. */
  function UpcomingCount(cal: Calendar, now: int, c: Criteria, events: seq<Event>): nat {
    |Seqs.Filter(Seqs.Filter(events, KeepFn(cal, now, c)), UpcomingFn(cal, now))|
  }

  /** The shown events are the kept ones, each as often as in the input. */
  lemma VisibleIsKept(cal: Calendar, now: int, c: Criteria, events: seq<Event>)
    ensures multiset(Visible(cal, now, c, events)) == multiset(Seqs.Filter(events, KeepFn(cal, now, c)))
    ensures |Visible(cal, now, c, events)| <= |events|
  {
    var kept := Seqs.Filter(events, KeepFn(cal, now, c));
    var su := Seqs.Sort(Seqs.Filter(kept, UpcomingFn(cal, now)), Seqs.Ascending(StartKey(cal)));
    var sr := Seqs.Sort(Seqs.Filter(kept, NotUpcomingFn(cal, now)), Seqs.Descending(PrimaryKey(cal)));
    Seqs.FilterPartition(kept, UpcomingFn(cal, now), NotUpcomingFn(cal, now));
    assert multiset(su + sr) == multiset(su) + multiset(sr);
  }

  /** Nothing is shown that is not kept and nothing kept is lost. */
  lemma VisibleMembers(cal: Calendar, now: int, c: Criteria, events: seq<Event>)
    ensures forall ev :: ev in Visible(cal, now, c, events) <==> ev in events && Keep(cal, now, c, ev)
  {
    VisibleIsKept(cal, now, c, events);
    Seqs.PermutationElements(Seqs.Filter(events, KeepFn(cal, now, c)), Visible(cal, now, c, events));
    Seqs.FilterContains(events, KeepFn(cal, now, c));
  }

  /** Every upcoming event precedes every other one. */
  lemma VisiblePartition(cal: Calendar, now: int, c: Criteria, events: seq<Event>)
    ensures UpcomingCount(cal, now, c, events) <= |Visible(cal, now, c, events)|
    ensures forall i | 0 <= i < |Visible(cal, now, c, events)| ::
      IsUpcoming(cal, now, Visible(cal, now, c, events)[i]) <==> i < UpcomingCount(cal, now, c, events)
  {
    var kept := Seqs.Filter(events, KeepFn(cal, now, c));
    var su := Seqs.Sort(Seqs.Filter(kept, UpcomingFn(cal, now)), Seqs.Ascending(StartKey(cal)));
    var sr := Seqs.Sort(Seqs.Filter(kept, NotUpcomingFn(cal, now)), Seqs.Descending(PrimaryKey(cal)));
    Seqs.SortFilterSatisfies(kept, UpcomingFn(cal, now), Seqs.Ascending(StartKey(cal)));
    Seqs.SortFilterSatisfies(kept, NotUpcomingFn(cal, now), Seqs.Descending(PrimaryKey(cal)));
    Seqs.ConcatPartition(su, sr, UpcomingFn(cal, now));
  }

  /** The upcoming events come in ascending order of their start. */
  lemma VisibleUpcomingOrder(cal: Calendar, now: int, c: Criteria, events: seq<Event>)
    ensures UpcomingCount(cal, now, c, events) <= |Visible(cal, now, c, events)|
    ensures forall i, j | 0 <= i < j < UpcomingCount(cal, now, c, events) ::
      ParseIso(cal, Visible(cal, now, c, events)[i].startAt).GetOr(0)
      <= ParseIso(cal, Visible(cal, now, c, events)[j].startAt).GetOr(0)
  {
    var kept := Seqs.Filter(events, KeepFn(cal, now, c));
    var up := Seqs.Filter(kept, UpcomingFn(cal, now));
    var su := Seqs.Sort(up, Seqs.Ascending(StartKey(cal)));
    var sr := Seqs.Sort(Seqs.Filter(kept, NotUpcomingFn(cal, now)), Seqs.Descending(PrimaryKey(cal)));
    var v := su + sr;
    Seqs.SortAscendingByKey(up, StartKey(cal));
    forall i, j | 0 <= i < j < |su|
      ensures ParseIso(cal, v[i].startAt).GetOr(0) <= ParseIso(cal, v[j].startAt).GetOr(0)
    {
      assert v[i] == su[i] && v[j] == su[j];
      assert StartKey(cal)(su[i]) <= StartKey(cal)(su[j]);
    }
  }

  /** The other events come in descending order of their primary date, 0 standing for
      none. */
  lemma VisibleRestOrder(cal: Calendar, now: int, c: Criteria, events: seq<Event>)
    ensures UpcomingCount(cal, now, c, events) <= |Visible(cal, now, c, events)|
    ensures forall i, j | UpcomingCount(cal, now, c, events) <= i < j < |Visible(cal, now, c, events)| ::
      PrimaryDate(cal, Visible(cal, now, c, events)[i]).GetOr(0)
      >= PrimaryDate(cal, Visible(cal, now, c, events)[j]).GetOr(0)
  {
    var kept := Seqs.Filter(events, KeepFn(cal, now, c));
    var rest := Seqs.Filter(kept, NotUpcomingFn(cal, now));
    var su := Seqs.Sort(Seqs.Filter(kept, UpcomingFn(cal, now)), Seqs.Ascending(StartKey(cal)));
    var sr := Seqs.Sort(rest, Seqs.Descending(PrimaryKey(cal)));
    var v := su + sr;
    Seqs.SortDescendingByKey(rest, PrimaryKey(cal));
    Seqs.DescendingSuffix(su, sr, PrimaryKey(cal));
  }

  /** After a reset (empty search, year and status) every event is shown. */
  lemma ResetShowsAll(cal: Calendar, now: int, events: seq<Event>)
    ensures multiset(Visible(cal, now, NoCriteria, events)) == multiset(events)
    ensures |Visible(cal, now, NoCriteria, events)| == |events|
  {
    forall i | 0 <= i < |events| ensures KeepFn(cal, now, NoCriteria)(events[i]) {
      NoCriteriaKeepsAll(cal, now, events[i]);
    }
    Seqs.FilterAll(events, KeepFn(cal, now, NoCriteria));
    VisibleIsKept(cal, now, NoCriteria, events);
  }

  // ---------------------------------------------------------------- grouping

  /** The key of the group an event is shown in: its year, or "Без даты" when it has none
      (or year 0). */
  datatype GroupKey = YearGroup(year: int) | NoDateGroup

  function KeyOf(cal: Calendar, ev: Event): (k: GroupKey)
    ensures k.YearGroup? <==> HasYear(cal, ev)
  {
    if HasYear(cal, ev) then YearGroup(Year(cal, ev).value) else NoDateGroup
  }

  /** The text of a year divider: `String(year)`. */
  function HeadingText(k: GroupKey): String {
    match k
    case YearGroup(y) => IntToString(y)
    case NoDateGroup => NoDateText
  }

  const NoDateText: String := "Без даты"

  /** The rendering of a year never reads "Без даты", since it starts with a digit or a
      minus sign. */
  lemma YearTextIsNotNoDate(y: int)
    ensures IntToString(y) != NoDateText
  {
    assert NoDateText[0] == 'Б';
    if y < 0 {
      assert IntToString(y)[0] == '-';
    } else {
      assert IsDigit(NatToString(y)[0]);
    }
  }

  /** Different groups get different dividers. */
  lemma HeadingTextInjective(a: GroupKey, b: GroupKey)
    ensures HeadingText(a) == HeadingText(b) <==> a == b
  {
    match (a, b)
    case (YearGroup(x), YearGroup(y)) => IntToStringInjective(x, y);
    case (YearGroup(x), NoDateGroup) => YearTextIsNotNoDate(x);
    case (NoDateGroup, YearGroup(y)) => YearTextIsNotNoDate(y);
    case (NoDateGroup, NoDateGroup) =>
  }

  /** The comparator of the group keys: years descending, "Без даты" after every year. */
  function GroupLe(): (GroupKey, GroupKey) -> bool {
    (a: GroupKey, b: GroupKey) =>
      match (a, b)
      case (NoDateGroup, NoDateGroup) => true
      case (NoDateGroup, YearGroup(_)) => false
      case (YearGroup(_), NoDateGroup) => true
      case (YearGroup(x), YearGroup(y)) => x >= y
  }

  lemma GroupLeIsPreorder()
    ensures Seqs.IsTotalPreorder(GroupLe())
  {
  }

  /** The group key of every shown event, in order. */
  function KeysSeq(cal: Calendar, shown: seq<Event>): (ks: seq<GroupKey>)
    ensures |ks| == |shown| && forall i | 0 <= i < |shown| :: ks[i] == KeyOf(cal, shown[i])
  {
    seq(|shown|, i requires 0 <= i < |shown| => KeyOf(cal, shown[i]))
  }

  /** The keys of the `byYear` map in insertion order, then sorted. */
  function GroupKeys(cal: Calendar, shown: seq<Event>): seq<GroupKey> {
    Seqs.Sort(Seqs.DedupBy(KeysSeq(cal, shown), Seqs.Id()), GroupLe())
  }

  function InGroupFn(cal: Calendar, k: GroupKey): Event -> bool {
    (ev: Event) => KeyOf(cal, ev) == k
  }

  /** The events under one heading, in the order they were shown. */
  function Group(cal: Calendar, shown: seq<Event>, k: GroupKey): seq<Event> {
    Seqs.Filter(shown, InGroupFn(cal, k))
  }

  datatype Link = Link(href: String, text: String)

  /** The content of one card. */
  datatype CardView = CardView(
    title: String,
    line: String,
    badges: seq<String>,
    links: seq<Link>,
    details: String)

  /** The nodes `render` appends to the list: the "nothing found" panel, whose text is
      `EmptyText`; a year divider, whose text is `HeadingText(key)`; a card, which shows
      `CardOf` of its event. */
  datatype Node =
    | Placeholder
    | Heading(key: GroupKey)
    | Card(event: Event)

  const EmptyText: String := "Ничего не найдено по выбранным фильтрам."

  function StatusBadge(st: Status): String {
    match st
    case Upcoming => "Будущее"
    case Past => "Прошедшее"
    case NoDate => "Без даты"
  }

  /** The heading of a card: the title, or "Событие" when there is none. */
  function CardTitle(ev: Event): (t: String)
    ensures t != ""
    ensures SafeText(ev.title) != "" ==> t == SafeText(ev.title)
  {
    if SafeText(ev.title) != "" then SafeText(ev.title) else "Событие"
  }

  /** The date caption and value that open a card's date line. */
  function WhenHead(cal: Calendar, ev: Event): String {
    FormatWhen(cal, ev).caption + ": " + FormatWhen(cal, ev).value
  }

  /** The date line of a card: the date caption and value, then " • Место: " and the
      place when there is one. */
  function CardLine(cal: Calendar, ev: Event): (line: String)
    ensures IsPrefix(WhenHead(cal, ev), line)
    ensures SafeText(ev.location) == "" ==> line == WhenHead(cal, ev)
    ensures SafeText(ev.location) != "" ==>
      line[|WhenHead(cal, ev)|..] == " • Место: " + SafeText(ev.location)
  {
    var loc := SafeText(ev.location);
    var head := WhenHead(cal, ev);
    var line := head + (if loc != "" then " • Место: " + loc else "");
    assert line[..|head|] == head;
    line
  }

  /** The badges of a card: the status, then "Регистрация" when there is a registration
      link. */
  function CardBadges(cal: Calendar, now: int, ev: Event): (b: seq<String>)
    ensures |b| == (if IsSet(ev.registrationUrl) then 2 else 1)
    ensures b[0] == StatusBadge(ClassifyStatus(cal, ev, now))
    ensures |b| == 2 ==> b[1] == "Регистрация"
  {
    [StatusBadge(ClassifyStatus(cal, ev, now))] + (if IsSet(ev.registrationUrl) then ["Регистрация"] else [])
  }

  const RegistrationText: String := "Ссылка / регистрация"
  const PostText: String := "Пост в Telegram"

  /** The links of a card: registration first, then the Telegram post, each when set. */
  function CardLinks(ev: Event): (links: seq<Link>)
    ensures |links| == (if IsSet(ev.registrationUrl) then 1 else 0) + (if IsSet(ev.sourcePostUrl) then 1 else 0)
    ensures IsSet(ev.registrationUrl) ==> links[0] == Link(ev.registrationUrl.value, RegistrationText)
    ensures IsSet(ev.sourcePostUrl) ==> links[|links| - 1] == Link(ev.sourcePostUrl.value, PostText)
  {
    (if IsSet(ev.registrationUrl) then [Link(ev.registrationUrl.value, RegistrationText)] else [])
    + (if IsSet(ev.sourcePostUrl) then [Link(ev.sourcePostUrl.value, PostText)] else [])
  }

  /** The card `render` builds for one event: its title, date line, badges and links as
      above, and the announcement text, or "—" when it is blank. */
  function CardOf(cal: Calendar, now: int, ev: Event): (v: CardView)
    ensures v.title == CardTitle(ev) && v.line == CardLine(cal, ev)
    ensures v.badges == CardBadges(cal, now, ev) && v.links == CardLinks(ev)
    ensures v.details != ""
    ensures SafeText(ev.rawText) != "" ==> v.details == SafeText(ev.rawText)
    ensures SafeText(ev.rawText) == "" ==> v.details == "—"
  {
    var details := if SafeText(ev.rawText) != "" then SafeText(ev.rawText) else "—";
    CardView(CardTitle(ev), CardLine(cal, ev), CardBadges(cal, now, ev), CardLinks(ev), details)
  }

  function CardsOf(evs: seq<Event>): (r: seq<Node>)
    ensures |r| == |evs| && forall i | 0 <= i < |evs| :: r[i] == Card(evs[i])
  {
    seq(|evs|, i requires 0 <= i < |evs| => Card(evs[i]))
  }

  /** One group: its heading and its cards. */
  function Section(cal: Calendar, shown: seq<Event>, k: GroupKey): seq<Node> {
    [Heading(k)] + CardsOf(Group(cal, shown, k))
  }

  function Sections(cal: Calendar, shown: seq<Event>, keys: seq<GroupKey>): seq<Node> {
    if keys == [] then []
    else Sections(cal, shown, keys[..|keys| - 1]) + Section(cal, shown, keys[|keys| - 1])
  }

  /** What `render` puts into the list. */
  function Rendered(cal: Calendar, shown: seq<Event>): seq<Node> {
    if shown == [] then [Placeholder]
    else Sections(cal, shown, GroupKeys(cal, shown))
  }

  /** Appending an event extends its own group and no other. */
  lemma GroupAppend(cal: Calendar, s: seq<Event>, ev: Event, k: GroupKey)
    ensures Group(cal, s + [ev], k) == Group(cal, s, k) + (if KeyOf(cal, ev) == k then [ev] else [])
  {
    Seqs.FilterAppend(s, ev, InGroupFn(cal, k));
  }

  /** A key that no event has has an empty group. */
  lemma GroupOfAbsentKey(cal: Calendar, s: seq<Event>, k: GroupKey)
    requires k !in Seqs.KeysOf(KeysSeq(cal, s), Seqs.Id())
    ensures Group(cal, s, k) == []
  {
    forall j | 0 <= j < |s| ensures !InGroupFn(cal, k)(s[j]) {
      assert Seqs.Id<GroupKey>()(KeysSeq(cal, s)[j]) in Seqs.KeysOf(KeysSeq(cal, s), Seqs.Id());
    }
    Seqs.FilterNone(s, InGroupFn(cal, k));
  }

  /** What one more event does to the keys seen so far. */
  lemma GroupByKeyStep(cal: Calendar, shown: seq<Event>, i: nat)
    requires i < |shown|
    ensures KeysSeq(cal, shown[..i + 1]) == KeysSeq(cal, shown[..i]) + [KeyOf(cal, shown[i])]
    ensures Seqs.KeysOf(KeysSeq(cal, shown[..i + 1]), Seqs.Id())
         == Seqs.KeysOf(KeysSeq(cal, shown[..i]), Seqs.Id()) + {KeyOf(cal, shown[i])}
    ensures Seqs.DedupBy(KeysSeq(cal, shown[..i + 1]), Seqs.Id())
         == if KeyOf(cal, shown[i]) in Seqs.KeysOf(KeysSeq(cal, shown[..i]), Seqs.Id())
            then Seqs.DedupBy(KeysSeq(cal, shown[..i]), Seqs.Id())
            else Seqs.DedupBy(KeysSeq(cal, shown[..i]), Seqs.Id()) + [KeyOf(cal, shown[i])]
  {
    var ev, y := shown[i], KeyOf(cal, shown[i]);
    var ks := KeysSeq(cal, shown[..i]);
    assert shown[..i + 1] == shown[..i] + [ev];
    assert KeysSeq(cal, shown[..i + 1]) == ks + [y];
    assert (ks + [y])[..|ks|] == ks;
    Seqs.KeysOfAppend(ks, y, Seqs.Id());
  }

  /** What one more event does to the group of a key. */
  lemma GroupStep(cal: Calendar, shown: seq<Event>, i: nat, k: GroupKey)
    requires i < |shown|
    ensures Group(cal, shown[..i + 1], k)
         == Group(cal, shown[..i], k) + (if KeyOf(cal, shown[i]) == k then [shown[i]] else [])
  {
    assert shown[..i + 1] == shown[..i] + [shown[i]];
    GroupAppend(cal, shown[..i], shown[i], k);
  }

  /** `keys` and `byYear` are what the first loop of `render` has built from `seen`. */
  predicate Grouped(cal: Calendar, seen: seq<Event>, keys: seq<GroupKey>, byYear: map<GroupKey, seq<Event>>) {
    && keys == Seqs.DedupBy(KeysSeq(cal, seen), Seqs.Id())
    && byYear.Keys == Seqs.KeysOf(KeysSeq(cal, seen), Seqs.Id())
    && forall k | k in byYear :: byYear[k] == Group(cal, seen, k)
  }

  /** One turn of the first loop of `render`, for an event whose key is already in the map. */
  lemma GroupedStepOld(cal: Calendar, shown: seq<Event>, i: nat, keys: seq<GroupKey>, byYear: map<GroupKey, seq<Event>>)
    requires i < |shown| && Grouped(cal, shown[..i], keys, byYear)
    requires KeyOf(cal, shown[i]) in byYear
    ensures Grouped(cal, shown[..i + 1], keys,
      byYear[KeyOf(cal, shown[i]) := byYear[KeyOf(cal, shown[i])] + [shown[i]]])
  {
    var y := KeyOf(cal, shown[i]);
    var m := byYear[y := byYear[y] + [shown[i]]];
    assert keys == Seqs.DedupBy(KeysSeq(cal, shown[..i + 1]), Seqs.Id())
        && m.Keys == Seqs.KeysOf(KeysSeq(cal, shown[..i + 1]), Seqs.Id()) by {
      GroupByKeyStep(cal, shown, i);
    }
    forall k | k in m ensures m[k] == Group(cal, shown[..i + 1], k) {
      GroupStep(cal, shown, i, k);
      if k != y {
        assert m[k] == byYear[k];
      }
    }
  }

  /** One turn of the first loop of `render`, for an event with a key not seen before. */
  lemma GroupedStepNew(cal: Calendar, shown: seq<Event>, i: nat, keys: seq<GroupKey>, byYear: map<GroupKey, seq<Event>>)
    requires i < |shown| && Grouped(cal, shown[..i], keys, byYear)
    requires KeyOf(cal, shown[i]) !in byYear
    ensures Grouped(cal, shown[..i + 1], keys + [KeyOf(cal, shown[i])],
      byYear[KeyOf(cal, shown[i]) := [shown[i]]])
  {
    var y := KeyOf(cal, shown[i]);
    var m := byYear[y := [shown[i]]];
    assert keys + [y] == Seqs.DedupBy(KeysSeq(cal, shown[..i + 1]), Seqs.Id())
        && m.Keys == Seqs.KeysOf(KeysSeq(cal, shown[..i + 1]), Seqs.Id()) by {
      GroupByKeyStep(cal, shown, i);
    }
    forall k | k in m ensures m[k] == Group(cal, shown[..i + 1], k) {
      GroupStep(cal, shown, i, k);
      if k == y {
        GroupOfAbsentKey(cal, shown[..i], y);
      } else {
        assert m[k] == byYear[k];
      }
    }
  }

  /** The first loop of `render`: the `byYear` map and the order in which its keys were
      inserted. */
  method GroupByKey(cal: Calendar, shown: seq<Event>)
    returns (keys: seq<GroupKey>, byYear: map<GroupKey, seq<Event>>)
    ensures keys == Seqs.DedupBy(KeysSeq(cal, shown), Seqs.Id())
    ensures byYear.Keys == Seqs.KeysOf(KeysSeq(cal, shown), Seqs.Id())
    ensures forall k | k in byYear :: byYear[k] == Group(cal, shown, k)
  {
    keys, byYear := [], map[];
    var i := 0;
    while i < |shown|
      invariant 0 <= i <= |shown|
      invariant Grouped(cal, shown[..i], keys, byYear)
    {
      var ev := shown[i];
      var y := KeyOf(cal, ev);
      if y in byYear {
        GroupedStepOld(cal, shown, i, keys, byYear);
        byYear := byYear[y := byYear[y] + [ev]];
      } else {
        GroupedStepNew(cal, shown, i, keys, byYear);
        keys := keys + [y];
        byYear := byYear[y := [ev]];
      }
      i := i + 1;
    }
    assert shown[..i] == shown;
  }

  /** The second loop of `render`: a heading and the cards of each key, in the given key
      order. */
  method EmitSections(cal: Calendar, shown: seq<Event>, sorted: seq<GroupKey>, byYear: map<GroupKey, seq<Event>>)
    returns (nodes: seq<Node>)
    requires forall k | k in sorted :: k in byYear && byYear[k] == Group(cal, shown, k)
    ensures nodes == Sections(cal, shown, sorted)
  {
    nodes := [];
    var g := 0;
    while g < |sorted|
      invariant 0 <= g <= |sorted|
      invariant nodes == Sections(cal, shown, sorted[..g])
    {
      var k := sorted[g];
      assert k in sorted;
      var cards := EmitCards(byYear[k]);
      SectionsSnoc(cal, shown, sorted, g);
      nodes := nodes + ([Heading(k)] + cards);
      g := g + 1;
    }
    assert sorted[..g] == sorted;
  }

  lemma SectionsSnoc(cal: Calendar, shown: seq<Event>, keys: seq<GroupKey>, g: nat)
    requires g < |keys|
    ensures Sections(cal, shown, keys[..g + 1]) == Sections(cal, shown, keys[..g]) + Section(cal, shown, keys[g])
  {
    assert keys[..g + 1][..g] == keys[..g];
  }

  /** The inner loop of `render`: one card per event of a group. */
  method EmitCards(group: seq<Event>) returns (cards: seq<Node>)
    ensures cards == CardsOf(group)
  {
    cards := [];
    var m := 0;
    while m < |group|
      invariant 0 <= m <= |group|
      invariant cards == CardsOf(group[..m])
    {
      cards := cards + [Card(group[m])];
      m := m + 1;
    }
    assert group[..m] == group;
  }

  /** `render`. */
  method Render(cal: Calendar, shown: seq<Event>) returns (nodes: seq<Node>)
    ensures nodes == Rendered(cal, shown)
  {
    if |shown| == 0 {
      return [Placeholder];
    }
    var keys, byYear := GroupByKey(cal, shown);
    var sorted := Seqs.Sort(keys, GroupLe());
    forall k | k in sorted ensures k in byYear {
      assert k in multiset(keys);
      var j :| 0 <= j < |keys| && keys[j] == k;
      DedupKeyIn(KeysSeq(cal, shown), j);
    }
    nodes := EmitSections(cal, shown, sorted, byYear);
  }

  lemma DedupKeyIn(ks: seq<GroupKey>, j: int)
    requires 0 <= j < |Seqs.DedupBy(ks, Seqs.Id())|
    ensures Seqs.DedupBy(ks, Seqs.Id())[j] in Seqs.KeysOf(ks, Seqs.Id())
  {
    Seqs.DedupByFirstOccurrence(ks, Seqs.Id());
    var d := Seqs.DedupBy(ks, Seqs.Id());
    assert Seqs.Id<GroupKey>()(d[j]) == d[j];
  }

  /** An empty list renders exactly the placeholder; a non-empty one renders no
      placeholder and starts with a heading. */
  lemma RenderedPlaceholder(cal: Calendar, shown: seq<Event>)
    ensures shown == [] ==> Rendered(cal, shown) == [Placeholder]
    ensures shown != [] ==> forall i | 0 <= i < |Rendered(cal, shown)| ::
      !Rendered(cal, shown)[i].Placeholder?
    ensures shown != [] ==> |Rendered(cal, shown)| > 0 && Rendered(cal, shown)[0].Heading?
  {
    if shown != [] {
      var keys := GroupKeys(cal, shown);
      NoPlaceholderInSections(cal, shown, keys);
      var d := Seqs.DedupBy(KeysSeq(cal, shown), Seqs.Id());
      Seqs.DedupIdSpec(KeysSeq(cal, shown));
      assert KeysSeq(cal, shown)[0] in d;
      assert |keys| == |d|;
      SectionsStart(cal, shown, keys);
    }
  }

  lemma {:induction false} NoPlaceholderInSections(cal: Calendar, shown: seq<Event>, keys: seq<GroupKey>)
    ensures forall i | 0 <= i < |Sections(cal, shown, keys)| :: !Sections(cal, shown, keys)[i].Placeholder?
    decreases |keys|
  {
    if keys != [] {
      NoPlaceholderInSections(cal, shown, keys[..|keys| - 1]);
    }
  }

  lemma {:induction false} SectionsStart(cal: Calendar, shown: seq<Event>, keys: seq<GroupKey>)
    requires keys != []
    ensures |Sections(cal, shown, keys)| > 0 && Sections(cal, shown, keys)[0] == Heading(keys[0])
    decreases |keys|
  {
    if |keys| > 1 {
      SectionsStart(cal, shown, keys[..|keys| - 1]);
    } else {
      assert keys[..0] == [];
    }
  }

  /** Heading `a` comes strictly before heading `b`: `a` is a year, and a later one than
      `b` if `b` is a year too. */
  predicate StrictlyBefore(a: GroupKey, b: GroupKey) {
    a.YearGroup? && (b.YearGroup? ==> a.year > b.year)
  }

  /** The group keys are pairwise different and cover exactly the keys of the shown
      events; years come in strictly descending order and "Без даты", when present, comes
      last. */
  lemma GroupKeysOrder(cal: Calendar, shown: seq<Event>)
    ensures forall k :: k in GroupKeys(cal, shown) <==> exists i | 0 <= i < |shown| :: KeyOf(cal, shown[i]) == k
    ensures forall i, j | 0 <= i < j < |GroupKeys(cal, shown)| :: StrictlyBefore(GroupKeys(cal, shown)[i], GroupKeys(cal, shown)[j])
  {
    var ks := KeysSeq(cal, shown);
    var d := Seqs.DedupBy(ks, Seqs.Id());
    var keys := GroupKeys(cal, shown);
    Seqs.DedupIdSpec(ks);
    Seqs.PermutationElements(d, keys);
    Seqs.DistinctPermutation(d, keys);
    GroupLeIsPreorder();
    Seqs.SortSorted(d, GroupLe());
    forall k ensures k in keys <==> exists i | 0 <= i < |shown| :: KeyOf(cal, shown[i]) == k {
      if k in ks {
        var i :| 0 <= i < |ks| && ks[i] == k;
        assert KeyOf(cal, shown[i]) == k;
      }
      if exists i | 0 <= i < |shown| :: KeyOf(cal, shown[i]) == k {
        var i :| 0 <= i < |shown| && KeyOf(cal, shown[i]) == k;
        assert ks[i] == k;
      }
    }
    forall i, j | 0 <= i < j < |keys| ensures StrictlyBefore(keys[i], keys[j]) {
      assert GroupLe()(keys[i], keys[j]);
      assert keys[i] != keys[j];
    }
  }

  /** The events of the card nodes, in order. */
  function CardEvents(nodes: seq<Node>): seq<Event> {
    if nodes == [] then []
    else
      var last := nodes[|nodes| - 1];
      CardEvents(nodes[..|nodes| - 1]) + (if last.Card? then [last.event] else [])
  }

  lemma {:induction false} CardEventsConcat(a: seq<Node>, b: seq<Node>)
    ensures CardEvents(a + b) == CardEvents(a) + CardEvents(b)
    decreases |b|
  {
    if b != [] {
      assert (a + b)[..|a + b| - 1] == a + b[..|b| - 1];
      CardEventsConcat(a, b[..|b| - 1]);
    } else {
      assert a + b == a;
    }
  }

  lemma {:induction false} CardEventsOfCards(evs: seq<Event>)
    ensures CardEvents(CardsOf(evs)) == evs
    decreases |evs|
  {
    if evs != [] {
      assert CardsOf(evs)[..|evs| - 1] == CardsOf(evs[..|evs| - 1]);
      CardEventsOfCards(evs[..|evs| - 1]);
      assert evs == evs[..|evs| - 1] + [evs[|evs| - 1]];
    }
  }

  /** The cards of one section show the events of its group. */
  lemma SectionCardEvents(cal: Calendar, shown: seq<Event>, k: GroupKey)
    ensures CardEvents(Section(cal, shown, k)) == Group(cal, shown, k)
  {
    var h := [Heading(k)];
    CardEventsConcat(h, CardsOf(Group(cal, shown, k)));
    assert CardEvents(h) == [] by {
      assert h[..0] == [];
    }
    CardEventsOfCards(Group(cal, shown, k));
  }

  /** The cards of the sections of `init + [k]` are those of `init` followed by the group of
      `k`. */
  lemma SectionsCardEventsSnoc(cal: Calendar, shown: seq<Event>, keys: seq<GroupKey>)
    requires keys != []
    ensures CardEvents(Sections(cal, shown, keys))
         == CardEvents(Sections(cal, shown, keys[..|keys| - 1])) + Group(cal, shown, keys[|keys| - 1])
  {
    var init, k := keys[..|keys| - 1], keys[|keys| - 1];
    CardEventsConcat(Sections(cal, shown, init), Section(cal, shown, k));
    SectionCardEvents(cal, shown, k);
  }

  /** How often an event occurs in the cards of a list of sections. */
  lemma {:induction false} SectionsCount(cal: Calendar, shown: seq<Event>, keys: seq<GroupKey>, ev: Event)
    requires forall i, j | 0 <= i < j < |keys| :: keys[i] != keys[j]
    ensures multiset(CardEvents(Sections(cal, shown, keys)))[ev]
         == if KeyOf(cal, ev) in keys then multiset(shown)[ev] else 0
    decreases |keys|
  {
    if keys != [] {
      var init, k := keys[..|keys| - 1], keys[|keys| - 1];
      assert keys == init + [k];
      SectionsCount(cal, shown, init, ev);
      SectionsCardEventsSnoc(cal, shown, keys);
      var a, b := CardEvents(Sections(cal, shown, init)), Group(cal, shown, k);
      assert multiset(a + b) == multiset(a) + multiset(b);
      Seqs.FilterMultiset(shown, InGroupFn(cal, k), ev);
      forall j | 0 <= j < |init| ensures init[j] != k {
        assert init[j] == keys[j];
      }
    }
  }

  /** Each shown event lands in exactly one group: the cards hold the shown events, each
      as often as it is shown. */
  lemma RenderedCardsAreShown(cal: Calendar, shown: seq<Event>)
    ensures multiset(CardEvents(Rendered(cal, shown))) == multiset(shown)
  {
    if shown == [] {
      assert CardEvents([Placeholder]) == [] by {
        assert [Placeholder][..0] == [];
      }
    } else {
      var keys := GroupKeys(cal, shown);
      GroupKeysOrder(cal, shown);
      forall ev ensures multiset(CardEvents(Rendered(cal, shown)))[ev] == multiset(shown)[ev] {
        SectionsCount(cal, shown, keys, ev);
        if ev in multiset(shown) {
          var i :| 0 <= i < |shown| && shown[i] == ev;
          assert KeyOf(cal, ev) in keys;
        }
      }
    }
  }

  // ---------------------------------------------------------------- year options

  /** The truthy years of the events, in order, with repetitions. */
  /** Some event has the truthy year `y`. */
  predicate YearOccurs(cal: Calendar, events: seq<Event>, y: int) {
    exists i | 0 <= i < |events| :: HasYear(cal, events[i]) && Year(cal, events[i]).value == y
  }

  function TruthyYears(cal: Calendar, events: seq<Event>): (ys: seq<int>)
    ensures forall y :: y in ys <==> YearOccurs(cal, events, y)
  {
    if events == [] then []
    else
      var init := TruthyYears(cal, events[..|events| - 1]);
      var ev := events[|events| - 1];
      assert forall i | 0 <= i < |events| - 1 :: events[..|events| - 1][i] == events[i];
      if HasYear(cal, ev) then init + [Year(cal, ev).value] else init
  }

  /** The years of the option list: the distinct truthy years, descending. */
  function OptionYears(cal: Calendar, events: seq<Event>): seq<int> {
    Seqs.Sort(Seqs.DedupBy(TruthyYears(cal, events), Seqs.Id()), Seqs.Descending(Seqs.Id()))
  }

  function YearLabels(ys: seq<int>): (r: seq<String>)
    ensures |r| == |ys| && forall i | 0 <= i < |ys| :: r[i] == IntToString(ys[i])
  {
    seq(|ys|, i requires 0 <= i < |ys| => IntToString(ys[i]))
  }

  /** The values of the year `<select>` after `buildYearOptions`: the kept "all years"
      option, if there was one, then one option per year. */
  function YearOptionValues(cal: Calendar, events: seq<Event>, hasAllOption: bool): seq<String> {
    (if hasAllOption then [""] else []) + YearLabels(OptionYears(cal, events))
  }

  /** The first loop of `buildYearOptions`: the distinct truthy years in the order they
      first appear, kept in a list and a `Set`. */
  method CollectYears(cal: Calendar, events: seq<Event>) returns (years: seq<int>)
    ensures years == Seqs.DedupBy(TruthyYears(cal, events), Seqs.Id())
  {
    years := [];
    var seen: set<int> := {};
    var i := 0;
    while i < |events|
      invariant 0 <= i <= |events|
      invariant years == Seqs.DedupBy(TruthyYears(cal, events[..i]), Seqs.Id())
      invariant seen == Seqs.KeysOf(TruthyYears(cal, events[..i]), Seqs.Id())
    {
      TruthyYearsStep(cal, events, i);
      var y := Year(cal, events[i]);
      if y.Some? && y.value != 0 && y.value !in seen {
        years := years + [y.value];
        seen := seen + {y.value};
      }
      i := i + 1;
    }
    assert events[..i] == events;
  }

  lemma TruthyYearsStep(cal: Calendar, events: seq<Event>, i: nat)
    requires i < |events|
    ensures var all, ev := TruthyYears(cal, events[..i]), events[i];
      && (HasYear(cal, ev) ==>
           && TruthyYears(cal, events[..i + 1]) == all + [Year(cal, ev).value]
           && Seqs.KeysOf(all + [Year(cal, ev).value], Seqs.Id()) == Seqs.KeysOf(all, Seqs.Id()) + {Year(cal, ev).value}
           && (all + [Year(cal, ev).value])[..|all|] == all)
      && (!HasYear(cal, ev) ==> TruthyYears(cal, events[..i + 1]) == all)
  {
    var all, ev := TruthyYears(cal, events[..i]), events[i];
    assert events[..i + 1][..i] == events[..i];
    if HasYear(cal, ev) {
      Seqs.KeysOfAppend(all, Year(cal, ev).value, Seqs.Id());
      assert (all + [Year(cal, ev).value])[..|all|] == all;
    }
  }

  /** `buildYearOptions`. */
  method BuildYearOptions(cal: Calendar, events: seq<Event>, hasAllOption: bool)
    returns (options: seq<String>)
    ensures options == YearOptionValues(cal, events, hasAllOption)
  {
    var years := CollectYears(cal, events);
    var sorted := Seqs.Sort(years, Seqs.Descending(Seqs.Id()));
    var labels := LabelYears(sorted);
    options := (if hasAllOption then [""] else []) + labels;
  }

  /** The `forEach` of `buildYearOptions` that appends one option per year. */
  method LabelYears(ys: seq<int>) returns (labels: seq<String>)
    ensures labels == YearLabels(ys)
  {
    labels := [];
    var j := 0;
    while j < |ys|
      invariant 0 <= j <= |ys|
      invariant labels == YearLabels(ys[..j])
    {
      labels := labels + [IntToString(ys[j])];
      j := j + 1;
    }
    assert ys[..j] == ys;
  }

  /** The option years are strictly descending and are exactly the truthy years of the
      events. */
  lemma OptionYearsSpec(cal: Calendar, events: seq<Event>)
    ensures forall i, j | 0 <= i < j < |OptionYears(cal, events)| :: OptionYears(cal, events)[i] > OptionYears(cal, events)[j]
    ensures forall y :: y in OptionYears(cal, events) <==> YearOccurs(cal, events, y)
  {
    var all := TruthyYears(cal, events);
    var d := Seqs.DedupBy(all, Seqs.Id());
    var r := Seqs.Sort(d, Seqs.Descending(Seqs.Id()));
    Seqs.DedupIdSpec(all);
    Seqs.PermutationElements(d, r);
    Seqs.DistinctPermutation(d, r);
    Seqs.SortDescendingByKey(d, Seqs.Id());
    forall i, j | 0 <= i < j < |r| ensures r[i] > r[j] {
      assert Seqs.Id<int>()(r[i]) >= Seqs.Id<int>()(r[j]);
      assert r[i] != r[j];
    }
  }

  /** The option list depends only on which years occur, not on the order, the
      repetitions or the other fields of the events, so it is the same for any collection
      with the same years. */
  lemma YearOptionsDependOnYearsOnly(cal: Calendar, a: seq<Event>, b: seq<Event>, hasAllOption: bool)
    requires forall y :: YearOccurs(cal, a, y) <==> YearOccurs(cal, b, y)
    ensures YearOptionValues(cal, a, hasAllOption) == YearOptionValues(cal, b, hasAllOption)
  {
    OptionYearsSpec(cal, a);
    OptionYearsSpec(cal, b);
    Seqs.StrictlyDescendingUnique(OptionYears(cal, a), OptionYears(cal, b));
  }

  /** The value of a single-choice `<select>` whose options were all replaced: no new
      option carries the selection, so the first one takes it, and a select without
      options has the empty value. */
  function FirstOptionValue(options: seq<String>): String {
    if options == [] then "" else options[0]
  }

  /** The year filter after `buildYearOptions`: "all years" when that option is kept,
      otherwise the greatest year that occurs, or the empty value when none does. */
  lemma RebuiltYearSelection(cal: Calendar, events: seq<Event>, hasAllOption: bool)
    ensures hasAllOption ==> FirstOptionValue(YearOptionValues(cal, events, hasAllOption)) == ""
    ensures !hasAllOption && (forall y :: !YearOccurs(cal, events, y)) ==>
      FirstOptionValue(YearOptionValues(cal, events, hasAllOption)) == ""
    ensures !hasAllOption && OptionYears(cal, events) != [] ==>
      && YearOccurs(cal, events, OptionYears(cal, events)[0])
      && FirstOptionValue(YearOptionValues(cal, events, hasAllOption)) == IntToString(OptionYears(cal, events)[0])
      && forall y | YearOccurs(cal, events, y) :: y <= OptionYears(cal, events)[0]
  {
    OptionYearsSpec(cal, events);
    var ys := OptionYears(cal, events);
    if !hasAllOption && ys != [] {
      forall y | YearOccurs(cal, events, y) ensures y <= ys[0] {
        assert y in ys;
        var k :| 0 <= k < |ys| && ys[k] == y;
        if k > 0 {
          assert ys[0] > ys[k];
        }
      }
    }
    assert ys != [] ==> YearOccurs(cal, events, ys[0]);
  }

  // ---------------------------------------------------------------- counts line

  /** What the counts line reports: the size of the collection, the number shown, and
      the generation instant when `generated_at` parses. */
  datatype Counts = Counts(total: nat, shown: nat, updated: Option<int>)

  /** The arguments `rerender` passes to `updateMeta`, with the generation time parsed as
      `updateMeta` does. */
  function CountsOf(cal: Calendar, allCount: nat, shownCount: nat, generatedAt: Option<String>): (m: Counts)
    ensures m.total == allCount && m.shown == shownCount
    ensures m.updated.Some? <==> IsSet(generatedAt) && cal.parse(generatedAt.value).Some?
  {
    Counts(allCount, shownCount, ParseIso(cal, generatedAt))
  }

  /** The text `updateMeta` writes for `m`. */
  function MetaLine(cal: Calendar, m: Counts): (r: String)
    ensures IsPrefix("Событий в базе: " + NatToString(m.total) + " • показано: " + NatToString(m.shown), r)
    ensures m.updated.None?
      ==> r == "Событий в базе: " + NatToString(m.total) + " • показано: " + NatToString(m.shown)
    ensures m.updated.Some?
      ==> IsSuffix(" • обновлено: " + cal.formatDateTime(m.updated.value), r)
  {
    var counts := "Событий в базе: " + NatToString(m.total) + " • показано: " + NatToString(m.shown);
    var genText := match m.updated
      case Some(t) => " • обновлено: " + cal.formatDateTime(t)
      case None => "";
    assert (counts + genText)[..|counts|] == counts;
    assert (counts + genText)[|counts + genText| - |genText|..] == genText;
    counts + genText
  }

  /** Lines without a generation time tell the counts apart. */
  lemma MetaLineInjective(cal: Calendar, a: Counts, b: Counts)
    requires a.updated.None? && b.updated.None?
    ensures MetaLine(cal, a) == MetaLine(cal, b) <==> a == b
  {
    var p := "Событий в базе: ";
    var q := " • показано: ";
    if MetaLine(cal, a) == MetaLine(cal, b) {
      var ta, tb := NatToString(a.total), NatToString(b.total);
      var sa, sb := NatToString(a.shown), NatToString(b.shown);
      assert MetaLine(cal, a) == p + ta + q + sa && MetaLine(cal, b) == p + tb + q + sb;
      assert p + ta + q + sa == p + ta + (q + sa) && p + tb + q + sb == p + tb + (q + sb);
      DigitRunsAgree(p, ta, tb, q + sa, q + sb);
      NatToStringInjective(a.total, b.total);
      assert sa == (q + sa)[|q|..] && sb == (q + sb)[|q|..];
      NatToStringInjective(a.shown, b.shown);
    }
  }

  // ---------------------------------------------------------------- page state

  /** The parts of the fetched JSON the page reads: `events` when it is an array, and
      `generated_at`. */
  datatype Payload = Payload(events: Option<seq<Event>>, generatedAt: Option<String>)

  const LoadErrorText: String :=
    "Не удалось загрузить базу мероприятий. Проверьте, что сайт открыт через локальный сервер (а не file://), и что файл assets/data/events.json доступен."

  /** The list and the counts line show `events` under the criteria `c`. */
  predicate Shows(cal: Calendar, now: int, c: Criteria, events: seq<Event>, generatedAt: Option<String>,
                  list: seq<Node>, meta: Option<Counts>) {
    && list == Rendered(cal, Visible(cal, now, c, events))
    && meta == Some(CountsOf(cal, |events|, |Visible(cal, now, c, events)|, generatedAt))
  }

  /** The work of `rerender` apart from writing the DOM: the filtered list rendered, and
      the counts line. */
  method Present(cal: Calendar, now: int, c: Criteria, events: seq<Event>, generatedAt: Option<String>)
    returns (nodes: seq<Node>, counts: Counts)
    ensures nodes == Rendered(cal, Visible(cal, now, c, events))
    ensures counts == CountsOf(cal, |events|, |Visible(cal, now, c, events)|, generatedAt)
  {
    var filtered := ApplyFilters(cal, now, c, events);
    nodes := Render(cal, filtered);
    counts := CountsOf(cal, |events|, |filtered|, generatedAt);
  }

  /** The module-level state of the page and the parts of the DOM it writes. */
  class EventsPage {
    const cal: Calendar
    /** Whether the year `<select>` has the "all years" option (`value=''`). */
    const hasAllOption: bool
    var allEvents: seq<Event>
    var generatedAt: Option<String>
    var search: String
    var year: String
    var status: String
    var yearOptions: seq<String>
    var list: seq<Node>
    /** What the counts line reports, `None` before it is first written; its text is
        `MetaLine(cal, meta.value)`. */
    var meta: Option<Counts>
    var error: String

    constructor(cal: Calendar, hasAllOption: bool)
      ensures this.cal == cal && this.hasAllOption == hasAllOption
      ensures allEvents == [] && generatedAt == None
      ensures search == "" && year == "" && status == ""
      ensures yearOptions == (if hasAllOption then [""] else [])
      ensures list == [] && meta == None && error == ""
    {
      this.cal := cal;
      this.hasAllOption := hasAllOption;
      allEvents := [];
      generatedAt := None;
      search := "";
      year := "";
      status := "";
      yearOptions := if hasAllOption then [""] else [];
      list := [];
      meta := None;
      error := "";
    }

    /** The list and the counts line show the collection under the current controls. */
    predicate Displayed(now: int)
      reads this`allEvents, this`generatedAt, this`search, this`year, this`status, this`list, this`meta
    {
      Shows(cal, now, Criteria(search, year, status), allEvents, generatedAt, list, meta)
    }

    /** The year options are those of the collection. */
    predicate OptionsBuilt()
      reads this`allEvents, this`yearOptions
    {
      yearOptions == YearOptionValues(cal, allEvents, hasAllOption)
    }

    /** `rerender`: the list and the counts line follow the current controls. */
    method Rerender(now: int)
      modifies this`list, this`meta
      ensures Displayed(now)
    {
      var c := Criteria(search, year, status);
      var nodes, counts := Present(cal, now, c, allEvents, generatedAt);
      assert Shows(cal, now, c, allEvents, generatedAt, nodes, Some(counts));
      list, meta := nodes, Some(counts);
      assert c == Criteria(search, year, status);
    }

    /** A successful `load`: the collection and the generation time are replaced, the year
      options rebuilt from the whole collection, which moves the year filter to the first
      option, and the list re-rendered as `rerender` does. */
    method Load(payload: Payload, now: int)
      modifies this`allEvents, this`generatedAt, this`yearOptions, this`year, this`error, this`list, this`meta
      ensures allEvents == (if payload.events.Some? then payload.events.value else [])
      ensures generatedAt == (if IsSet(payload.generatedAt) then payload.generatedAt else None)
      ensures OptionsBuilt() && year == FirstOptionValue(yearOptions) && Displayed(now)
      ensures search == old(search) && status == old(status)
      ensures error == ""
    {
      Store(payload);
      Rerender(now);
    }

    /** The part of `load` before `rerender`. */
    method Store(payload: Payload)
      modifies this`allEvents, this`generatedAt, this`yearOptions, this`year, this`error
      ensures allEvents == (if payload.events.Some? then payload.events.value else [])
      ensures generatedAt == (if IsSet(payload.generatedAt) then payload.generatedAt else None)
      ensures OptionsBuilt() && year == FirstOptionValue(yearOptions)
      ensures error == ""
    {
      error := "";
      allEvents := if payload.events.Some? then payload.events.value else [];
      generatedAt := if IsSet(payload.generatedAt) then payload.generatedAt else None;
      yearOptions := BuildYearOptions(cal, allEvents, hasAllOption);
      year := FirstOptionValue(yearOptions);
    }

    /** A failed `load` (network error, bad status, bad JSON): only the error text shows. */
    method LoadFailed()
      modifies this
      ensures error == LoadErrorText
      ensures allEvents == old(allEvents) && list == old(list) && yearOptions == old(yearOptions)
      ensures meta == old(meta) && generatedAt == old(generatedAt)
      ensures search == old(search) && year == old(year) && status == old(status)
    {
      error := LoadErrorText;
    }

    /** A change of the search box or of a select, followed by the re-render. */
    method SetControls(newSearch: String, newYear: String, newStatus: String, now: int)
      modifies this`search, this`year, this`status, this`list, this`meta
      ensures search == newSearch && year == newYear && status == newStatus
      ensures allEvents == old(allEvents) && yearOptions == old(yearOptions)
      ensures generatedAt == old(generatedAt) && error == old(error)
      ensures Displayed(now)
    {
      search, year, status := newSearch, newYear, newStatus;
      Rerender(now);
    }

    /** The reset button: the controls are cleared and every event is shown again. */
    method Reset(now: int)
      modifies this`search, this`year, this`status, this`list, this`meta
      ensures search == "" && year == "" && status == ""
      ensures allEvents == old(allEvents) && yearOptions == old(yearOptions)
      ensures generatedAt == old(generatedAt) && error == old(error)
      ensures list == Rendered(cal, Visible(cal, now, NoCriteria, allEvents))
      ensures multiset(CardEvents(list)) == multiset(allEvents)
      ensures meta == Some(CountsOf(cal, |allEvents|, |allEvents|, generatedAt))
    {
      search, year, status := "", "", "";
      Rerender(now);
      ResetShowsAll(cal, now, allEvents);
      RenderedCardsAreShown(cal, Visible(cal, now, NoCriteria, allEvents));
    }
  }
}
