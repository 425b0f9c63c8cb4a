# MSU Business Club site: a Dafny model of its logic

The site is a static web site for the Business Club of Moscow State University. It
has a set of page scripts and a Python crawler that turns posts from the club's
Telegram channel into a JSON archive of events. This project models the parts of it
that are plain logic rather than page wiring, and proves properties of them:

- **Events archive** (`EventsArchive`, assets/js/events-page.js). It covers:
  - each event's primary date and year;
  - its status ("upcoming", "past" or "nodate") against an explicit `now`;
  - the year, status and text filters;
  - the two-partition order: upcoming events first, ascending, then the rest, newest first;
  - grouping by year, with the "Без даты" group last;
  - the list of year options and the counts line;
  - the page object whose `load`, `rerender` and reset update it.
- **Forum statistics** (`ForumStats`, public/assets/js/forums-page.js). It covers:
  - normalisation of the payload's `years` rows, and the error path when no row survives;
  - the latest-year pick;
  - the year tabs, sorted descending, and their selection;
  - the metric buttons and the series they plot;
  - the counts line.
- **Telegram crawler** (`TelegramText`, `RuDates`, `PostParser`, `LegacyParser`; tools/parser.py and its older copy OLD/parser.py). It covers:
  - whitespace clean-up of a post;
  - the title, place and registration-link picks;
  - the Russian date scanner, with its year rollover;
  - digest versus single-announcement extraction;
  - the post-id and link handling of a channel page;
  - the `--ids` list parser;
  - the scan for ids missing from the progress store;
  - the older crawler's page-by-page post selection and final sorts.
- **Page state machines**. Each is a class whose methods change its fields:
  - the shared shell (`SiteShell`): home detection, navigation scope, the active link, the mobile menu, the two mutually exclusive dialogs with their body lock, the scroll-spy and the language cookie;
  - its two variants (`PublicMain`, with the scroll-animation stagger and the contacts typewriter; `AssetsMain`, with the bullet-list stagger reveal);
  - the Q&A tabs and accordion, and the photo cycling (`HomePage`);
  - the accelerator timeline (`AcceleratorPage`);
  - the closed-club format switcher (`ClosedClubPage`);
  - the team process panels (`TeamPage`);
  - the landing page's menu, bottom sheet and focus trap (`LandingMain`).

What the model takes as givens:

- **Browser and engine services** are parameters:
  - a `Calendar` for `new Date(…)`, `getFullYear` and the `ru-RU` formatters;
  - a `Runtime` for string-to-number conversion and number printing;
  - a `decode` function for `decodeURIComponent`.
- **Outside inputs** also arrive as parameters:
  - the time `now`;
  - the fetched payload;
  - the extracted page markup;
  - the section offsets;
  - the observer entries.
- **JavaScript numbers** are the `JsValues.Number` datatype. Finite values are exact reals, alongside `NaN` and the two infinities.
- **Python date-times** are `(y, mo, d, hh, mm, ss)` tuples. Field validation and a day number drive the "base minus seven days" comparison.
- **Regular expressions** are written out as scanners that try one position at a time.
- **Sorts** (JavaScript `Array.prototype.sort` and Python `list.sort`, both stable) are one stable insertion-sort function, `Seqs.Sort`.

The model follows the code where the repository's own description says otherwise:

- **Events archive, "rest" partition.** An event with no primary date sorts as timestamp 0. It is not always last: an event dated before 1970 sorts after it (`EventsArchive.VisibleRestOrder`).
- **Forum years.** The years of the forum rows are not assumed distinct. The tabs and `selectYear` are modelled for repeated years too.
- **Q&A tab keys.** `key in FAQ` also accepts the names JavaScript objects inherit, such as `toString`. The model treats the table as a map from its own keys and leaves inherited names out (see below).

## Model

| member | source | states |
|---|---|---|
| EventsArchive.ParseIso | assets/js/events-page.js:43-47 | a missing or empty ISO string gives no date; otherwise the date is whatever the calendar's parser yields, `None` standing for an invalid `Date` |
| EventsArchive.PrimaryDateChoice | assets/js/events-page.js:49-56 | the primary date is the start when it parses, else the publication date; it is absent exactly when neither parses, and the year is absent exactly when the primary date is, being the calendar year of that date otherwise |
| EventsArchive.ClassifyStatus | assets/js/events-page.js:58-62 | "nodate" exactly when the start does not parse; "upcoming" exactly when it does and is at or after `now`; "past" exactly when it is before `now` |
| EventsArchive.StatusIgnoresPublication | assets/js/events-page.js:49-62 | changing the publication date never changes the status, and a "nodate" event with a publication date still has that date's year |
| EventsArchive.FormatWhen | assets/js/events-page.js:64-86 | the caption is "Когда" exactly when the start parses (value: the date-time format of the start), "Опубликовано" exactly when only the publication date parses (value: its date format), and the pair "Дата"/"не указана" exactly when there is no primary date |
| EventsArchive.YearCriterion | assets/js/events-page.js:246-249 | with a year criterion naming a non-zero year, an event passes exactly when its year is that year; an undated event never passes |
| EventsArchive.StatusCriterion | assets/js/events-page.js:251-254 | with a status criterion naming a status, an event passes exactly when it has that status |
| EventsArchive.QueryNormalised | assets/js/events-page.js:35-41 | the normalised query is unchanged by first lower-casing or trimming the raw search text |
| EventsArchive.QueryCaseInsensitive | assets/js/events-page.js:239-264 | whether an event matches the query does not depend on the case or the surrounding blanks of the search text |
| EventsArchive.QueryInTitle | assets/js/events-page.js:256-264 | an event whose normalised title contains the normalised query matches it |
| EventsArchive.NoCriteriaKeepsAll | assets/js/events-page.js:245-267 | with empty query, year and status every event is kept |
| EventsArchive.KeepMatching | assets/js/events-page.js:245-267 | the filter loop keeps exactly the events meeting all active criteria, in input order |
| EventsArchive.SplitUpcoming | assets/js/events-page.js:270-277 | the partition loop puts the upcoming events, in order, in one list and all the others, in order, in the other |
| EventsArchive.ApplyFilters | assets/js/events-page.js:238-290 | the result is the matching upcoming events sorted stably by ascending start followed by the other matching events sorted stably by descending primary date |
| EventsArchive.VisibleIsKept | assets/js/events-page.js:245-290 | the shown events are a permutation of the filtered events, so never more than the input |
| EventsArchive.VisibleMembers | assets/js/events-page.js:245-290 | an event is shown exactly when it is in the input and meets every active criterion |
| EventsArchive.VisiblePartition | assets/js/events-page.js:269-289 | the shown list starts with exactly the upcoming events: position i holds an upcoming event exactly when i is below their count |
| EventsArchive.VisibleUpcomingOrder | assets/js/events-page.js:279-281 | the upcoming block is in non-decreasing start time |
| EventsArchive.VisibleRestOrder | assets/js/events-page.js:283-287 | the remaining block is in non-increasing primary date, a missing date counting as timestamp 0 |
| EventsArchive.ResetShowsAll | assets/js/events-page.js:245-290 | with no criteria the shown list is a permutation of all events, of the same length |
| EventsArchive.KeyOf | assets/js/events-page.js:110 | an event goes under a year heading exactly when it has a non-zero year, otherwise under "Без даты" |
| EventsArchive.HeadingTextInjective | assets/js/events-page.js:110-124 | two group headings read the same exactly when they are the same group, so no year heading reads "Без даты" |
| EventsArchive.GroupLeIsPreorder | assets/js/events-page.js:115-119 | the heading comparator is a total preorder, so the sort of the group keys is well defined |
| EventsArchive.KeysSeq | assets/js/events-page.js:109-113 | one group key per shown event, in order |
| EventsArchive.GroupByKey | assets/js/events-page.js:108-113 | the `Map` loop keeps the keys in first-seen order, has exactly the keys that occur, and holds for each key the events of that group in input order |
| EventsArchive.EmitSections | assets/js/events-page.js:121-128 | the outer `forEach` appends, for each sorted key, its heading followed by its group's cards |
| EventsArchive.EmitCards | assets/js/events-page.js:128-209 | the inner `forEach` appends one card per event of the group, in order |
| EventsArchive.Render | assets/js/events-page.js:95-211 | the nodes written are one placeholder for an empty list, else the headings in sorted key order each followed by its group's cards |
| EventsArchive.RenderedPlaceholder | assets/js/events-page.js:98-105 | an empty list renders exactly the single placeholder; a non-empty list renders no placeholder and starts with a heading |
| EventsArchive.GroupKeysOrder | assets/js/events-page.js:108-119 | the headings are exactly the keys of the shown events, each once, year headings in strictly descending order and "Без даты" after all of them |
| EventsArchive.RenderedCardsAreShown | assets/js/events-page.js:108-128 | every shown event appears in exactly one card, so the cards are a permutation of the shown list |
| EventsArchive.CardTitle | assets/js/events-page.js:140 | the card title is never empty and is the trimmed title whenever that is non-empty |
| EventsArchive.CardLine | assets/js/events-page.js:142-148 | the card line is the date caption, ": " and the date value, followed by " • Место: " and the place exactly when the trimmed place is non-empty |
| EventsArchive.CardBadges | assets/js/events-page.js:156-162 | the first badge names the event's status; a second badge, "Регистрация", is there exactly when a registration URL is set |
| EventsArchive.CardLinks | assets/js/events-page.js:167-186 | a link per set URL, no other: the registration URL first, captioned "Ссылка / регистрация", and the source post URL last, captioned "Пост в Telegram" |
| EventsArchive.CardOf | assets/js/events-page.js:129-208 | a card has the card title, date line, badges and links above, and shows the trimmed announcement text, or "—" when it is blank |
| EventsArchive.CardsOf | assets/js/events-page.js:128-129 | one card node per event, in order |
| EventsArchive.TruthyYears | assets/js/events-page.js:216-219 | a year is collected exactly when some event has it as a non-zero year |
| EventsArchive.CollectYears | assets/js/events-page.js:215-219 | the `Set` loop yields the collected years, each once, in first-seen order |
| EventsArchive.BuildYearOptions | assets/js/events-page.js:213-236 | the options are the kept "all years" entry, if present, followed by the distinct years in descending order |
| EventsArchive.LabelYears | assets/js/events-page.js:230-235 | one option label per year, its decimal text, in order |
| EventsArchive.YearLabels | assets/js/events-page.js:232-233 | each option carries the decimal text of its year |
| EventsArchive.OptionYearsSpec | assets/js/events-page.js:215-223 | the option years are strictly descending and are exactly the non-zero years that occur |
| EventsArchive.YearOptionsDependOnYearsOnly | assets/js/events-page.js:213-236 | two collections with the same years give the same options, so the options do not depend on the filters |
| EventsArchive.RebuiltYearSelection | assets/js/events-page.js:226-235 | after the rebuild the year filter is "all years" when that option is kept; without it, the greatest year that occurs, or the empty value when no event has a year |
| EventsArchive.CountsOf | assets/js/events-page.js:292-295 | the counts line records the total and the shown count, and an update time exactly when the generation time is set and parses |
| EventsArchive.MetaLine | assets/js/events-page.js:296-297 | the line starts "Событий в базе: N • показано: M", with " • обновлено: " and the formatted time appended exactly when there is one |
| EventsArchive.MetaLineInjective | assets/js/events-page.js:296-297 | without an update time, two counts lines read the same exactly when their counts are equal |
| EventsArchive.Present | assets/js/events-page.js:315-319 | the list and the counts are those of the filtered view of all events |
| EventsArchive.EventsPage.constructor | assets/js/events-page.js:311-313 | no events, no generation time, empty controls, only the kept "all years" option, nothing drawn and no error |
| EventsArchive.EventsPage.Rerender | assets/js/events-page.js:315-319 | the list and the counts line show the filtered view of all events under the current controls |
| EventsArchive.EventsPage.Load | assets/js/events-page.js:326-340 | the stored events are the payload's events (none when missing), the time is kept only when set, the year options are rebuilt, the year filter moves to the first rebuilt option, the page is redrawn for it and the error is cleared; the search and status controls are untouched |
| EventsArchive.EventsPage.Store | assets/js/events-page.js:334-339 | stores the payload's events and generation time, rebuilds the year options and leaves the year filter on the first of them |
| EventsArchive.EventsPage.LoadFailed | assets/js/events-page.js:341-348 | a failed fetch shows the error text and changes nothing else |
| EventsArchive.EventsPage.SetControls | assets/js/events-page.js:354-362 | a change of the search, year or status control redraws the list and the counts line for the new values; the collection, the year options, the generation time and the error text are kept |
| EventsArchive.EventsPage.Reset | assets/js/events-page.js:363-369 | reset clears the three controls and shows every event once with the counts line "N of N"; the collection, the year options, the generation time and the error text are kept |
| ForumStats.Metric | public/assets/js/forums-page.js:383-387 | a metric is never `NaN`, and a metric the row leaves undefined is 0 |
| ForumStats.NormalizeRow | public/assets/js/forums-page.js:380-389 | the row's year is `Number(r.year)` unchanged, its notes are trimmed and none of its metrics is `NaN` |
| ForumStats.MapRows | public/assets/js/forums-page.js:379-390 | the mapping throws exactly when some element is `null` or `undefined`; otherwise it gives one row per element, each with set metrics and trimmed notes |
| ForumStats.YearOrdersArePreorders | public/assets/js/forums-page.js:128-130 | both year comparators are total preorders, so the sorts are well defined |
| ForumStats.YearItems | public/assets/js/forums-page.js:377 | reading `payload.years` fails exactly for a `null` or `undefined` payload; a non-array gives no rows |
| ForumStats.Normalize | public/assets/js/forums-page.js:379-398 | a successful normalisation never yields an empty list |
| ForumStats.NormalizeSpec | public/assets/js/forums-page.js:379-396 | the normalised rows are a permutation of the mapped rows with a finite positive year, every one of them valid, sorted by ascending year, rows of one year in their original order |
| ForumStats.NormalizeFails | public/assets/js/forums-page.js:377-419 | `load` fails before rendering exactly when the payload or an element is `null`, or no row has a finite positive year |
| ForumStats.MissingMetricsAreZero | public/assets/js/forums-page.js:383-388 | a metric the raw row does not define becomes 0 |
| ForumStats.PickLatest | public/assets/js/forums-page.js:77-82 | the reduce yields nothing exactly for an empty list |
| ForumStats.PickLatestSpec | public/assets/js/forums-page.js:77-82 | over finite years the pick is the earliest row whose year is at least every row's year |
| ForumStats.FindYear | public/assets/js/forums-page.js:153-157 | the find returns a row whose year is strictly equal to the target, and returns nothing exactly when no row has that year |
| ForumStats.FindYearFirst | public/assets/js/forums-page.js:154-156 | the find returns the first row carrying the year |
| ForumStats.Selected | public/assets/js/forums-page.js:159-164 | after a successful select exactly the buttons of that year are active, `aria-pressed` agrees, and the buttons keep their years |
| ForumStats.YearTabs | public/assets/js/forums-page.js:126-136 | one tab per row, carrying the years in descending sorted order |
| ForumStats.TabsFor | public/assets/js/forums-page.js:131-148 | a fresh inactive button per sorted row, only the first made active, and only when its year is found |
| ForumStats.ToggleTabs | public/assets/js/forums-page.js:160-164 | the `forEach` loop over the buttons computes the selected tabs |
| ForumStats.SelectIn | public/assets/js/forums-page.js:152-167 | a year that no row has changes nothing; otherwise the tabs become the selected tabs and the detail shows the found row |
| ForumStats.SelectFirst | public/assets/js/forums-page.js:145-148 | selecting right after the first button is appended activates that button exactly when its year is found |
| ForumStats.BuildYearTabs | public/assets/js/forums-page.js:121-150 | the loop leaves the descending year tabs and the detail of the first, greatest, year |
| ForumStats.AppendTabs | public/assets/js/forums-page.js:131-149 | the loop body appends one button per sorted row and runs the selection after the first |
| ForumStats.SortedDescending | public/assets/js/forums-page.js:126-130 | the descending sort of valid rows is sorted and holds exactly the input rows |
| ForumStats.YearTabsDescending | public/assets/js/forums-page.js:126-136 | over valid rows the tab years are finite and in non-increasing order |
| ForumStats.YearTabsActive | public/assets/js/forums-page.js:145-164 | over valid rows exactly the first tab is active, with `aria-pressed` agreeing |
| ForumStats.TabsFromRows | public/assets/js/forums-page.js:126-136 | every tab carries the year of some row |
| ForumStats.RowsHaveTabs | public/assets/js/forums-page.js:126-136 | every row's year has a tab |
| ForumStats.HeadHasGreatestYear | public/assets/js/forums-page.js:126-148 | the first sorted row is a valid row of the input whose year is at least every row's year |
| ForumStats.FindGreatest | public/assets/js/forums-page.js:154-156 | looking up the greatest year finds the earliest row with that year |
| ForumStats.DefaultDetailIsLatest | public/assets/js/forums-page.js:77-82 | over valid rows the detail the tabs open on is the row `pickLatestYear` picks |
| ForumStats.MetricFor | public/assets/js/forums-page.js:233 | the participants key always picks the participants metric; unknown keys fall back to it too |
| ForumStats.RowField | public/assets/js/forums-page.js:381-389 | a key that is not a property of a normalised row reads as `undefined` |
| ForumStats.ChartValues | public/assets/js/forums-page.js:248-251 | one plotted value per row |
| ForumStats.ChartSeries | public/assets/js/forums-page.js:233-251 | a known key plots that metric of every row; an unknown key plots zeros under the participants caption |
| ForumStats.Activated | public/assets/js/forums-page.js:338-342 | exactly the buttons whose metric equals the key are active, `aria-pressed` agrees and the buttons keep their metrics |
| ForumStats.ToggleMetrics | public/assets/js/forums-page.js:338-342 | the `forEach` loop over the buttons computes the activated buttons |
| ForumStats.ClickedKey | public/assets/js/forums-page.js:352 | a click passes a non-empty key: the button's metric, or participants when it has none |
| ForumStats.YearClause | public/assets/js/forums-page.js:361-364 | without a latest row there is no year clause |
| ForumStats.MetaText | public/assets/js/forums-page.js:358-366 | the counts line always ends with the data-source notice, starts with the demo warning for a demo payload and otherwise with the year clause |
| ForumStats.LeadingLetters | public/assets/js/forums-page.js:363-365 | the demo warning, the year clause and the source notice start with different letters, and a valid latest row gives a non-empty year clause |
| ForumStats.MetaTextCases | public/assets/js/forums-page.js:358-366 | the line starts with the demo warning exactly for a demo payload, is the source notice alone without demo or latest row, and contains the year clause whenever there is a valid latest row |
| ForumStats.Outcome | public/assets/js/forums-page.js:372-398 | a failed request gives no rows; otherwise the rows are the normalised payload |
| ForumStats.Render | public/assets/js/forums-page.js:400-412 | the counters, tabs, detail, metric buttons, chart key and counts line drawn after a successful load |
| ForumStats.ForumPage.constructor | public/assets/js/forums-page.js:6-24 | nothing drawn yet, no rows and no error, with the page's metric buttons |
| ForumStats.ForumPage.Load | public/assets/js/forums-page.js:368-423 | on failure only the error text changes; on success the error is cleared, the handlers hold the normalised rows and the page shows what they draw |
| ForumStats.ForumPage.Show | public/assets/js/forums-page.js:400-412 | the rows are stored and the page shows what they draw |
| ForumStats.ForumPage.SetActiveMetric | public/assets/js/forums-page.js:337-345 | the metric buttons are activated for the key and the chart is drawn for it |
| ForumStats.ForumPage.SelectYear | public/assets/js/forums-page.js:152-167 | a year no row has changes nothing; otherwise the tabs are the selected tabs and the detail the found row |
| ForumStats.ForumPage.ClickTab | public/assets/js/forums-page.js:139-141 | a click on a tab selects that tab's year |
| ForumStats.ForumPage.ClickMetric | public/assets/js/forums-page.js:347-355 | before a successful load a click does nothing; after it, the clicked key is activated and charted |
| ForumStats.LoadedDetailIsLatest | public/assets/js/forums-page.js:400-410 | after a successful load the detail shows the row `pickLatestYear` picks, and exactly the first tab is active |
| TelegramText.ReplaceNbsp | tools/parser.py:69 | every no-break space becomes a plain space and nothing else changes |
| TelegramText.CollapseBlanks | tools/parser.py:70 | each run of spaces and tabs becomes one space: the result has no tab and no two consecutive spaces, and is empty exactly when the input is |
| TelegramText.CollapseNewlines | tools/parser.py:71 | each run of three or more newlines becomes two: the result has no three consecutive newlines and starts like the input |
| TelegramText.CleanTextIsClean | tools/parser.py:68-72 | the cleaned text has no no-break space, no tab, no two consecutive spaces, no three consecutive newlines, and no leading or trailing white space |
| TelegramText.CleanTextFixes | tools/parser.py:68-72 | text that is already clean is returned unchanged |
| TelegramText.CleanTextIdempotent | tools/parser.py:68-72 | cleaning twice gives the same text as cleaning once |
| TelegramText.Lines | tools/parser.py:94 | splitting at line breaks always gives at least one line |
| TelegramText.PickTitle | tools/parser.py:93-95 | the title is never empty and never longer than 200 characters |
| TelegramText.PickTitleFirstLine | tools/parser.py:93-95 | when line k is the first non-blank line, the title is that line stripped and cut to 200 characters |
| TelegramText.PickTitleDefault | tools/parser.py:93-95 | when every line is blank the title is "Событие" |
| TelegramText.CaptureAt | tools/parser.py:99 | a match of the place pattern at a position captures a start after the word and its separator, inside the line |
| TelegramText.CaptureFrom | tools/parser.py:99 | the leftmost-match search returns a capture inside the line |
| TelegramText.LocationInLine | tools/parser.py:99-101 | a place taken from a stripped line is non-empty and stripped |
| TelegramText.LocationInLineLeftmost | tools/parser.py:99-101 | the place is the stripped rest of the line after the leftmost match |
| TelegramText.LocationInLineNone | tools/parser.py:99-101 | a line names no place exactly when the pattern matches nowhere in it |
| TelegramText.LocationFromLine | tools/parser.py:98-102 | a place found by the loop is non-empty and stripped |
| TelegramText.PickLocation | tools/parser.py:97-102 | a picked place is non-empty and stripped |
| TelegramText.PickLocationFirstLine | tools/parser.py:97-102 | the place is the one named by the first line that names one |
| TelegramText.PickLocationNone | tools/parser.py:97-102 | there is no place exactly when no line names one |
| TelegramText.ChooseRegistrationUrl | tools/parser.py:104-110 | there is no link exactly for an empty list, and a chosen link is one of the input links |
| TelegramText.ChooseRegistrationUrlExternal | tools/parser.py:106-109 | the first link that leaves Telegram wins over every Telegram link before it |
| TelegramText.ChooseRegistrationUrlFallback | tools/parser.py:110 | with only Telegram links the first link is chosen |
| TelegramText.TestsIgnoreCase | tools/parser.py:85-91 | the event-post test and the digest test do not depend on letter case |
| TelegramText.DigestIsEventish | tools/parser.py:85-91 | every digest post is also an event post, since it carries the "#дайджест" hashtag |
| TelegramText.ParseSigned | tools/parser.py:241 | a parsed number comes from a non-empty text |
| TelegramText.ParseInt | tools/parser.py:775 | `int()` succeeds only on a text that is not blank |
| TelegramText.ParseSignedOfString | tools/parser.py:241 | the decimal text of a number, sign included, parses back to it |
| TelegramText.ParseIntOfString | tools/parser.py:775 | `int(str(n)) == n` |
| TelegramText.Dedup | tools/parser.py:267-274 | the `seen`-set loop keeps, in order, each element whose key was not seen before |
| RuDates.YearLength | tools/parser.py:146 | consecutive years are as far apart as the first one has days, so the day count behind the date comparison is consistent |
| RuDates.EarlierThanNextYear | tools/parser.py:146-147 | any valid time of the next year is later than any valid time of this one |
| RuDates.MakeDate | tools/parser.py:134 | `datetime(y, mo, d, hh, mm)` succeeds exactly when the fields form a valid time, and then is that time with zero seconds |
| RuDates.Digits12 | tools/parser.py:125 | `\d{1,2}` takes two digits when there are two, else one, and its value is below 100 |
| RuDates.FullAt | tools/parser.py:125 | a dd.mm.yyyy match has a year and ends inside the text |
| RuDates.ShortAt | tools/parser.py:137 | a dd.mm match has no year and ends inside the text |
| RuDates.MonthAt | tools/parser.py:150-152 | a recognised month name gives a month from 1 to 12 and a position after the name |
| RuDates.NamedAt | tools/parser.py:151-154 | a month-name match has a month from 1 to 12 and ends inside the text |
| RuDates.TimeAfter | tools/parser.py:131-133 | the time is 00:00 when the window holds no `hh:mm`; otherwise it is the leftmost `hh:mm` of the window, as `re.search` finds it |
| RuDates.Rolled | tools/parser.py:140-148 | a year-less date lands in the base year or the next, never more than a week before the base, and in the next year exactly when the base-year date is more than a week before the base |
| RuDates.FromFull | tools/parser.py:125-134 | the dd.mm.yyyy branch yields a valid time with zero seconds or fails |
| RuDates.FromShort | tools/parser.py:136-148 | the dd.mm branch yields a valid time with zero seconds or fails |
| RuDates.FromNamed | tools/parser.py:150-166 | the month-name branch yields a valid time with zero seconds or fails |
| RuDates.Found | tools/parser.py:134 | a branch's time is returned as found, and its error is passed on |
| RuDates.ParseRuDateTime | tools/parser.py:112-168 | a found time is valid with zero seconds, and nothing is found exactly when none of the three formats occurs in the lower-cased text |
| RuDates.FullDateAsWritten | tools/parser.py:124-134 | a dd.mm.yyyy date keeps its day, month and year (20xx below 100) and does not depend on the base time |
| RuDates.NamedYearAsWritten | tools/parser.py:155-166 | a month-name date with a year keeps its day, month and year and does not depend on the base time |
| RuDates.YearlessNotStale | tools/parser.py:136-166 | a date read without a year is never more than a week before the base and lies in the base year or the next |
| RuDates.MonthZero | OLD/parser.py:218-219 | in the dd.mm form the older parser reads month 0 as January, while the current one fails on it |
| RuDates.LeapDayRollover | tools/parser.py:145-147 | the roll-over itself can fail: 29 February seen from 20 March 2024 moves to 2025, which has no such day |
| PostParser.IndexOf | tools/parser.py:237-240 | the position found holds the separator and no earlier position from the start does; no position is found only when the separator does not occur |
| PostParser.PostIdOf | tools/parser.py:236-243 | a post id is read only from a present `data-post` attribute that contains a "/" |
| PostParser.PostIdOfChannelPost | tools/parser.py:240-241 | for a channel name without "/", the id written after "channel/" is read back exactly |
| PostParser.IndexOfFirst | tools/parser.py:240 | the split happens at the first "/" |
| PostParser.AnchorLink | tools/parser.py:260-265 | an anchor becomes a link only with a non-empty stripped href, and its anchor text is never empty |
| PostParser.LinksOfWellFormed | tools/parser.py:258-265 | every collected link has a stripped, non-empty href and a non-empty anchor |
| PostParser.MessageLinks | tools/parser.py:258-274 | the `seen`-set loop returns the links de-duplicated by href, keeping the first of each |
| PostParser.MessageLinksFirstOccurrences | tools/parser.py:267-274 | the de-duplicated links are exactly the first link of each href, in order, and no href occurs twice |
| PostParser.PostOf | tools/parser.py:235-285 | a message gives a post exactly when its post id can be read |
| PostParser.ParsePosts | tools/parser.py:230-288 | the posts are those of the readable messages, stably sorted by id, newest first |
| PostParser.PostsOfMembers | tools/parser.py:235-285 | a post is listed exactly when some message yields it |
| PostParser.DigestTitle | tools/parser.py:305-316 | a digest title is at most 200 characters and is never empty when the anchor is not |
| PostParser.DigestEvents | tools/parser.py:302-321 | a digest gives one event per link that is not a Telegram link |
| PostParser.ExtractEvents | tools/parser.py:293-342 | a digest yields one event per external link; any other post yields exactly one event, and fails only when its date is an impossible calendar date |
| PostParser.DigestEventsShape | tools/parser.py:302-321 | each digest event comes from a non-Telegram link of the post, in order, with that link as registration URL, no start or location, and the post's id and text |
| PostParser.DigestTitleRule | tools/parser.py:305-316 | an empty anchor, one equal to the href, or one starting with "http" in any case gives the fixed title; otherwise the anchor cut to 200 characters |
| PostParser.SingleEventShape | tools/parser.py:324-342 | a single announcement takes its title, location and start from the text and its registration URL from one of the post's links |
| PostParser.GoodPartRule | tools/parser.py:771-775 | a part of the list is accepted exactly when it is blank after stripping or an integer; otherwise the error names the stripped part |
| PostParser.IdsOfMembers | tools/parser.py:770-775 | an id is in the list exactly when some non-blank part reads as it |
| PostParser.CollectIdsErr | tools/parser.py:770-775 | a failing list fails at a bad part all of whose predecessors are good, and reports that part |
| PostParser.ParseIdsList | tools/parser.py:769-784 | the list succeeds exactly when every part is blank or an integer; then it is the ids in order without repeats, otherwise it fails at the first bad part |
| PostParser.ParseIdsListUnique | tools/parser.py:776-784 | the result has no duplicates, the same members as the parsed ids, and keeps each id's first position |
| PostParser.GapsInRange | tools/parser.py:494-497 | every gap id lies within the range |
| PostParser.GapsAscending | tools/parser.py:494 | the gap ids are strictly ascending |
| PostParser.GapsMembers | tools/parser.py:494-497 | an id is a gap exactly when it is in the range and neither stored nor marked not found |
| PostParser.GapsSpec | tools/parser.py:475-501 | the gaps are ascending, in range, and exactly the ids neither stored nor marked not found |
| PostParser.GapsPrefix | tools/parser.py:494-501 | the gaps of a shorter range are a prefix of those of a longer one, so stopping early keeps the first gaps |
| PostParser.MissingIdsInRange | tools/parser.py:494-501 | the loop returns the first gaps of the range, stopping after max(limit, 1) of them |
| PostParser.MissingIdsShape | tools/parser.py:475-501 | the result has at most max(limit, 1) ascending ids, each in range and in neither set, and holds every such id when it is shorter than that bound |
| PostParser.ParsePostsOrder | tools/parser.py:287 | the sorted posts are a permutation of the parsed ones with ids non-increasing |
| LegacyParser.StripTrailing | OLD/parser.py:100 | `rstrip`: the result is a prefix of the input ending in no stripped character, and only stripped characters were removed |
| LegacyParser.StripChars | OLD/parser.py:270 | `strip(chars)`: the result is a slice of the input that neither starts nor ends with a stripped character, and only stripped characters are cut before and after it |
| LegacyParser.StripCharsFixes | OLD/parser.py:270 | a text with no stripped character at either end is unchanged |
| LegacyParser.StripCharsIdempotent | OLD/parser.py:270 | stripping twice is stripping once |
| LegacyParser.UrlPostIdOfLink | OLD/parser.py:98-100 | the id written as the last path segment of a post link is read back exactly |
| LegacyParser.UrlPostIdTrailingSlash | OLD/parser.py:100 | a trailing "/" on the post link does not change the id read |
| LegacyParser.WrapPost | OLD/parser.py:93-102 | a message wrap gives a post exactly when its date link has a non-empty href whose last segment is an integer; the post keeps the stripped link and the publication time |
| LegacyParser.BlockLinks | OLD/parser.py:120-132 | the links loop and the `seen`-set loop return the stripped non-empty hrefs without repeats |
| LegacyParser.ParsePosts | OLD/parser.py:88-147 | the posts are those of the readable wraps, stably sorted by id, newest first |
| LegacyParser.WrapsPostsMembers | OLD/parser.py:93-144 | a post is listed exactly when some wrap yields it |
| LegacyParser.LinksOfSpec | OLD/parser.py:120-132 | every link is stripped and non-empty, no link occurs twice, and every non-blank href of the block is among them |
| LegacyParser.ParsePostsOrder | OLD/parser.py:146 | the sorted posts are a permutation of the parsed ones with ids non-increasing |
| LegacyParser.ParsedWellFormed | OLD/parser.py:104-112 | every parsed post carries a valid publication time or none |
| LegacyParser.LineWith | OLD/parser.py:268-271 | the line found is the first one containing the URL; none is found only when no line contains it |
| LegacyParser.LineTitle | OLD/parser.py:268-271 | a title taken from a line has no white space at either end |
| LegacyParser.LegacyDigestTitle | OLD/parser.py:266-281 | a digest title is never empty and at most 200 characters |
| LegacyParser.LegacyDigestTitleRule | OLD/parser.py:266-281 | the title is the fixed fallback, or the first line containing the URL stripped of dashes, bullets and blanks and cut to 200 characters when that is not the URL itself; with no such line it is the fallback |
| LegacyParser.LegacyDigestEvents | OLD/parser.py:262-291 | a digest gives one event per link that is not a Telegram link |
| LegacyParser.LegacyExtractEvents | OLD/parser.py:247-309 | a digest yields one event per external link; any other post yields exactly one event, and fails only when its date is an impossible calendar date |
| LegacyParser.LegacyDigestEventsShape | OLD/parser.py:262-291 | each digest event comes from a non-Telegram link of the post, in order, with that link as registration URL, no start or location, and the post's id and text |
| LegacyParser.LegacySingleEventShape | OLD/parser.py:293-309 | a single announcement takes its title, location, start and registration URL from the post's text and links |
| LegacyParser.SelectNew | OLD/parser.py:340-347 | the filtering loop keeps, in page order, the first post of each id not seen before and above the stop id, and adds exactly their ids to the seen set |
| LegacyParser.NewOfAppend | OLD/parser.py:341-347 | one more page post is kept exactly when its id is neither seen nor already kept and it lies above the stop id |
| LegacyParser.NewOfSpec | OLD/parser.py:340-347 | the kept posts have distinct ids, come from the page, are unseen and above the stop id, and every such page post's id is kept |
| LegacyParser.MinId | OLD/parser.py:364 | the pagination id is the smallest id on the page |
| LegacyParser.DateKey | OLD/parser.py:375-380 | an optional time becomes a fixed-width key, so comparing keys compares the ISO texts |
| LegacyParser.EventKey | OLD/parser.py:375-380 | the sort key is start time, publication time and post id, in that order |
| LegacyParser.EventBeforeIsPreorder | OLD/parser.py:375-382 | the event order is total and transitive, so the sort is well defined |
| LegacyParser.UndatedFirst | OLD/parser.py:377 | an event without a start sorts strictly before one with a start |
| LegacyParser.ScrapeEvents | OLD/parser.py:312-383 | the loop returns what the crawl specification gives: the posts the page-by-page crawl collects, newest first, and the events of its event-like posts sorted by the event key, or the first date error |
| LegacyParser.CrawlSpec | OLD/parser.py:332-368 | the crawl only extends what it holds: never more than max_posts posts, no id twice, only ids above the stop id, each a post of some fetched page |
| LegacyParser.StepKeepsCollection | OLD/parser.py:341-357 | one round keeps the collected posts within max_posts, with distinct unseen ids above the stop id, and records their ids as seen |
| LegacyParser.BatchFromPages | OLD/parser.py:341-357 | the posts a round adds are posts of the page it read |
| LegacyParser.CrawlTakesPage | OLD/parser.py:332-357 | while there is room, the crawl continues with the new posts of the page it reads, up to the room left |
| LegacyParser.CrawlStartsWithFirstPage | OLD/parser.py:332-357 | with max_posts at least one, the crawl starts with the new posts of the newest page, up to max_posts of them |
| LegacyParser.ScrapedSpec | OLD/parser.py:332-383 | the returned posts are a permutation of the crawl, which holds distinct ids above the stop id taken from the pages; the returned events are a permutation of the crawled posts' events |
| LegacyParser.BatchSpec | OLD/parser.py:349-356 | each page adds between one and `space` new posts, keeps the ids distinct and above the stop id, and records them as seen |
| LegacyParser.ScrapeOrder | OLD/parser.py:373-382 | the final posts are a permutation of the crawl, newest first; the events are a sorted permutation in which events with equal keys keep their order |
| SiteShell.IsHomePage | public/assets/js/main.js:11-14 | a page is the home page exactly when its path ends with "/" or with "index.html" (the "/index.html" test adds nothing) |
| SiteShell.HomePageExamples | public/assets/js/main.js:11-14 | "/", "/club/index.html" and "/myindex.html" count as home; "/team.html", "/INDEX.HTML" and the empty path do not |
| SiteShell.ApplyNavScope | public/assets/js/main.js:21-32 | home-only nodes are hidden exactly off the home page, subpage-only nodes exactly on it (a node with both flags ends up as subpage-only), other nodes keep their state; so the two kinds are never shown together |
| SiteShell.CurrentFile | public/assets/js/main.js:35 | the current file name is never empty |
| SiteShell.LinkTarget | public/assets/js/main.js:38-43 | a link is skipped exactly when its stripped href is empty, starts with "#" or is an http(s) URL in any case; otherwise its target has no "#" |
| SiteShell.CurrentFileOfPath | public/assets/js/main.js:35 | the current file is the last path segment in lower case, and "index.html" when the path ends with "/" |
| SiteShell.LinkToFile | public/assets/js/main.js:39-43 | a plain relative file link targets that file in lower case |
| SiteShell.LinkToFileSection | public/assets/js/main.js:43 | a link to a section of a file targets the file, whatever the fragment |
| SiteShell.ExternalThroughHash | public/assets/js/main.js:41-43 | an href that is external with its fragment is external without it |
| SiteShell.PrefixThroughHash | public/assets/js/main.js:40-43 | a prefix free of "#" seen on an href with a fragment is already on the part before it |
| SiteShell.SetActiveLinkByPath | public/assets/js/main.js:34-46 | skipped links keep their state; every other link is active exactly when its target is the current file |
| SiteShell.NextOpen | public/assets/js/main.js:56-59 | a forced state wins; without one the menu flips |
| SiteShell.NextOpenLaws | public/assets/js/main.js:54-75 | two plain toggles restore the menu; forcing is idempotent and ignores the previous state |
| SiteShell.LastReached | public/assets/js/main.js:96-108 | the section picked is the last one in order whose top is at or above the trigger line; none is picked exactly when no section is reached |
| SiteShell.LastReachedMonotone | public/assets/js/main.js:96-108 | scrolling further down never moves the picked section back up the list |
| SiteShell.RefreshActive | public/assets/js/main.js:96-109 | the loop returns the last reached section, or the first section when none is reached |
| SiteShell.MarkSection | public/assets/js/main.js:86-94 | exactly the links whose href is "#" plus the section are active |
| SiteShell.HashTarget | public/assets/js/main.js:112-116 | an href gives a section exactly when it starts with "#", and "#" plus that section is the href |
| SiteShell.RunLength | public/assets/js/main.js:368 | the cookie value runs up to the next ";" or the end |
| SiteShell.FirstMatch | public/assets/js/main.js:368 | the match found is the first "googtrans=/ru/" followed by a non-";" character; none is found exactly when there is no such place |
| SiteShell.NoMarkerMeansRussian | public/assets/js/main.js:367-370 | a cookie without the marker means Russian |
| SiteShell.ReadsBackWritten | public/assets/js/main.js:367-370 | a cookie starting with the marker and a language reads back that language, decoded |
| SiteShell.SwitchLanguage | public/assets/js/main.js:378-405 | Russian resets the cookie; another language goes through the translate box when it exists, and otherwise writes the cookie |
| SiteShell.SwitchThenDetect | public/assets/js/main.js:367-405 | the cookie written for a language reads back as that language |
| SiteShell.SetActiveLanguageButton | public/assets/js/main.js:372-376 | exactly the buttons of that language are active |
| SiteShell.ClickedLanguage | public/assets/js/main.js:409 | a click picks the button's language, or Russian when it has none |
| SiteShell.ClickMarksClicked | public/assets/js/main.js:407-413 | a clicked button with a language is among those its click activates |
| SiteShell.Shell.constructor | public/assets/js/main.js:226-234 | the shell starts with the menu and both dialogs closed and the body unlocked |
| SiteShell.Shell.ToggleMobileMenu | public/assets/js/main.js:54-63 | with the menu present the nav, the button's `aria-expanded` and the body class take the next state; without it nothing changes |
| SiteShell.Shell.SyncModalLock | public/assets/js/main.js:236-240 | the body is locked exactly while a dialog is open |
| SiteShell.Shell.CloseApplicationSheet | public/assets/js/main.js:254-265 | the sheet is closed and the lock follows; a missing sheet changes nothing |
| SiteShell.Shell.CloseFeedbackModal | public/assets/js/main.js:279-290 | the modal is closed and the lock follows; a missing modal changes nothing |
| SiteShell.Shell.OpenApplicationSheet | public/assets/js/main.js:242-252 | the sheet opens, the feedback modal closes and the body is locked; a missing sheet changes nothing |
| SiteShell.Shell.OpenFeedbackModal | public/assets/js/main.js:267-277 | the modal opens, the sheet closes and the body is locked; a missing modal changes nothing |
| SiteShell.Shell.Escape | public/assets/js/main.js:316-322 | Escape closes the menu and both dialogs and unlocks the body |
| PublicMain.MappedSection | public/assets/js/main.js:87 | "numbers" is shown as "about"; every other section as itself, so "numbers" is never highlighted |
| PublicMain.SetActiveMenuItem | public/assets/js/main.js:86-94 | exactly the links pointing at the mapped section are active |
| PublicMain.RefreshActiveMenuItem | public/assets/js/main.js:96-109 | exactly the links pointing at the mapped section of the last reached home section (the first when none is reached) are active |
| PublicMain.SpyHighlights | public/assets/js/main.js:84-109 | the scroll-spy never highlights "#numbers", and highlights "about" when no section is reached |
| PublicMain.ClickMenuLink | public/assets/js/main.js:86-118 | a click on an in-page link other than "#numbers" activates exactly the links with that href, a click on "#numbers" exactly the "#about" links; a click elsewhere changes nothing |
| PublicMain.StaggerStep | public/assets/js/main.js:481-515 | the step is the container's number when that is truthy, and 90 ms when it is NaN or zero |
| PublicMain.Scale | public/assets/js/main.js:521 | the position times the step: zero for the first item of a finite step, NaN for the first of an infinite one, the infinite step for later ones |
| PublicMain.DelaysGrow | public/assets/js/main.js:521 | with a positive finite step, later items wait strictly longer |
| PublicMain.DelayText | public/assets/js/main.js:521 | a delay is a non-empty text ending in "ms" |
| PublicMain.Staggered | public/assets/js/main.js:514-525 | an item with its own delay keeps it; every other item gets its position times the step; no item is left without a delay |
| PublicMain.StaggerIdempotent | public/assets/js/main.js:519-522 | staggering a container twice is staggering it once |
| PublicMain.ApplyStagger | public/assets/js/main.js:507-526 | every container's items get their staggered delays and nothing else changes |
| PublicMain.Bind | public/assets/js/main.js:528-559 | with reduced motion or no observer every element is shown; otherwise unbound elements are bound and observed once, so an element is never observed twice |
| PublicMain.Phrases | public/assets/js/main.js:883-886 | the phrases are non-empty and stripped |
| PublicMain.NextPhrase | public/assets/js/main.js:933 | after a phrase comes the next one, and after the last the first |
| PublicMain.Step | public/assets/js/main.js:905-941 | one tick keeps the typewriter in a consistent state: the text is always the current phrase cut at the character index |
| PublicMain.StepsAdd | public/assets/js/main.js:905-941 | running a + b ticks is running a ticks, then b |
| PublicMain.TypesToEnd | public/assets/js/main.js:908-919 | typing reaches the whole phrase and holds after one tick per remaining character |
| PublicMain.ErasesToNext | public/assets/js/main.js:929-940 | erasing two characters per tick empties the text and starts typing the next phrase |
| PublicMain.FullRound | public/assets/js/main.js:905-941 | a phrase of length L is typed, held and erased in L + 1 + (L + 1) / 2 ticks, after which the next phrase starts from nothing |
| PublicMain.StartReady | public/assets/js/main.js:900-903 | the typewriter starts in a consistent state at the first phrase |
| PublicMain.Typewriter.constructor | public/assets/js/main.js:873-903 | the typewriter runs exactly on the home page with the node, some phrase and no reduced motion; with reduced motion it shows the first phrase |
| PublicMain.Typewriter.Tick | public/assets/js/main.js:905-941 | a tick moves the state by one step of the machine |
| PublicMain.Typewriter.Shown | public/assets/js/main.js:947-957 | coming back to the tab restarts the phrase from nothing, in typing mode |
| AssetsMain.SpyPick | assets/js/main.js:108-129 | the section picked is one of the five home sections, and "about" when none is reached |
| AssetsMain.RefreshActiveMenuItem | assets/js/main.js:110-132 | exactly the links pointing at the picked section, under its own name, are active |
| AssetsMain.ClickMenuLink | assets/js/main.js:134-141 | a click on an in-page link activates exactly the links with that href; any other click changes nothing |
| AssetsMain.ItemDelay | assets/js/main.js:163 | an item's delay is a number followed by "ms" |
| AssetsMain.ItemDelayInjective | assets/js/main.js:162-164 | different positions get different delays |
| AssetsMain.InitStaggerReveal | assets/js/main.js:156-181 | every list item's delay is 80 ms times its position, every group is observed, and visibility is untouched |
| AssetsMain.OnEntry | assets/js/main.js:167-177 | an intersecting entry on a watched group shows it and stops watching it; anything else leaves it unchanged |
| AssetsMain.VisibleStays | assets/js/main.js:170-173 | a shown group never hides again, whatever entries follow |
| AssetsMain.SeenOnce | assets/js/main.js:167-177 | a watched group that intersects at some point ends shown and unwatched |
| AssetsMain.Unwatched | assets/js/main.js:172 | an unwatched group receives nothing more |
| HomePage.TrimEach | public/assets/js/home-page.js:150-153 | each bullet is shown stripped, one per entry |
| HomePage.AnswerOf | public/assets/js/home-page.js:146-158 | an entry with HTML shows it; otherwise one with bullets shows them stripped; otherwise a dash |
| HomePage.TitleOf | public/assets/js/home-page.js:131 | a question's title is its stripped text, or "Вопрос" when that is empty |
| HomePage.AnimationAt | public/assets/js/home-page.js:122 | the item animations cycle fade-up, scale-in, blur-in by position |
| HomePage.NodesFor | public/assets/js/home-page.js:194-210 | a tab without entries shows the single placeholder; otherwise one item per entry, in order, built from that entry and its position |
| HomePage.RenderFaq | public/assets/js/home-page.js:194-216 | the list is rebuilt as the nodes of that tab |
| HomePage.Normalize | public/assets/js/home-page.js:219 | a known tab key is kept; any other becomes "open" |
| HomePage.NormalizeIdempotent | public/assets/js/home-page.js:219 | normalising twice is normalising once, and the result is a known key |
| HomePage.TabsFor | public/assets/js/home-page.js:186-192 | exactly the tabs of the key are active and pressed |
| HomePage.SetTabsActive | public/assets/js/home-page.js:186-192 | the loop marks the tabs of the key as active and pressed, and the others not |
| HomePage.ClickedKey | public/assets/js/home-page.js:231 | a click uses the tab's key, or "open" when it has none |
| HomePage.InitialKey | public/assets/js/home-page.js:268-271 | the first tab starts from the first active tab, or the first tab when none is active |
| HomePage.TabFocusTarget | public/assets/js/home-page.js:235-250 | only the four navigation keys move focus: left and right by one, clamped to the ends, Home to the first and End to the last tab |
| HomePage.Faq.SwitchTab | public/assets/js/home-page.js:218-226 | the tabs are marked for the normalised key, the list is rebuilt for it and every item is closed |
| HomePage.Faq.constructor | public/assets/js/home-page.js:267-273 | the block starts on the normalised initial tab with every item closed |
| HomePage.Faq.ClickTab | public/assets/js/home-page.js:229-232 | a click on a tab shows the list of its normalised key |
| HomePage.Faq.TabKeyDown | public/assets/js/home-page.js:235-250 | a navigation key focuses its target tab; any other key leaves focus alone |
| HomePage.Faq.Toggled | public/assets/js/home-page.js:162-170 | after a toggle every other item is closed and the toggled one flips |
| HomePage.Faq.Toggle | public/assets/js/home-page.js:162-177 | the loop closes the other open items and flips the toggled one, so at most one item is ever open |
| HomePage.Faq.ToggleOutcome | public/assets/js/home-page.js:162-170 | toggling an open item leaves none open; toggling a closed one leaves only it open |
| HomePage.ParseSources | public/assets/js/home-page.js:288-295 | the picture sources are non-empty and stripped |
| HomePage.GetDir | public/assets/js/home-page.js:297-300 | the direction is right exactly when the attribute reads "right" in any case |
| HomePage.NextIndex | public/assets/js/home-page.js:346 | a swap moves to the next picture, and from the last back to the first |
| HomePage.IndexAfter | public/assets/js/home-page.js:346 | after any number of swaps the index is a valid picture |
| HomePage.IndexAfterInOrder | public/assets/js/home-page.js:346 | the first swaps show the pictures in their order |
| HomePage.IndexAfterPeriodic | public/assets/js/home-page.js:346 | every n swaps the cycle is back where it was |
| HomePage.MediaCycle.constructor | public/assets/js/home-page.js:396-413 | a frame starts on the first source, the second preloaded, not busy |
| HomePage.MediaCycle.SwapOne | public/assets/js/home-page.js:327-374 | a busy frame ignores the tick; otherwise it becomes busy and loads the next source into the other image, which becomes active too, while the image that was active keeps its picture and is the one to leave |
| HomePage.MediaCycle.SwapDone | public/assets/js/home-page.js:376-392 | exactly the outgoing image loses "is-active", the other keeps its state, and the frame is idle on the new picture with index and sources kept |
| HomePage.Ticker.constructor | public/assets/js/home-page.js:416 | no interval runs at first |
| HomePage.Ticker.Start | public/assets/js/home-page.js:426-429 | starting keeps an existing interval and otherwise runs the new one; exactly one interval ever runs |
| HomePage.Ticker.Stop | public/assets/js/home-page.js:431-435 | stopping leaves no interval running |
| HomePage.Ticker.FirstDelayFires | public/assets/js/home-page.js:437-440 | the first timeout swaps the photos exactly when the tab is visible, and starts the interval either way, exactly one interval then running |
| HomePage.Ticker.VisibilityChange | public/assets/js/home-page.js:443-446 | hiding the tab stops the cycling and showing it runs exactly one interval |
| AcceleratorPage.ActiveIndex | public/assets/js/accelerator-page.js:94-97 | the index is the first active step, or 0 when none is active |
| AcceleratorPage.DetailOf | public/assets/js/accelerator-page.js:122-135 | the card shows the row at the index, or the first row when the index is outside the table |
| AcceleratorPage.KeyTarget | public/assets/js/accelerator-page.js:191-209 | right and down ask for the next week, left and up for the previous one, Home for the first and End for the last; other keys ask for nothing |
| AcceleratorPage.KeysStayInRange | public/assets/js/accelerator-page.js:139-209 | after any key the current week is still in the table, each key moving as requested and clamped at the ends |
| AcceleratorPage.RightThenLeft | public/assets/js/accelerator-page.js:191-200 | away from the last week, right then left returns to the same week |
| AcceleratorPage.BuildItems | public/assets/js/accelerator-page.js:129-134 | the list items are the row's bullets, in order |
| AcceleratorPage.RenderDetail | public/assets/js/accelerator-page.js:122-135 | the card is drawn from the row the index selects |
| AcceleratorPage.Timeline.constructor | public/assets/js/accelerator-page.js:177-184 | the current week starts as the active step clamped into the table, marked alone, with its card drawn |
| AcceleratorPage.Timeline.SetActive | public/assets/js/accelerator-page.js:139-175 | asking for the current week changes nothing; otherwise the clamped week becomes current, is the only marked step, is focused when asked, and its card is drawn at once under reduced motion or by a pending redraw |
| AcceleratorPage.Timeline.RedrawFires | public/assets/js/accelerator-page.js:166-174 | a redraw timer draws the current week's card and ends the swap |
| AcceleratorPage.Timeline.Click | public/assets/js/accelerator-page.js:186-189 | a click on the current week changes nothing; any other click makes the clicked week the only marked one, focuses its step and draws its card at once (reduced motion) or by a pending redraw |
| AcceleratorPage.Timeline.KeyDown | public/assets/js/accelerator-page.js:191-209 | a handled key moves the current week as the key table says; when that changes the week, exactly the new step is marked and focused and its card is drawn now (reduced motion) or a redraw is scheduled; any other key, or one landing on the current week, changes nothing |
| ClosedClubPage.ClampIndex | public/assets/js/closed-club-page.js:63-67 | an index inside the tabs is kept, below them becomes 0 and past them the last tab |
| ClosedClubPage.KeyByIndex | public/assets/js/closed-club-page.js:69-72 | a tab with a format names it; a missing tab or an empty format names "mastermind" |
| ClosedClubPage.RowFor | public/assets/js/closed-club-page.js:75 | a known format picks its row; any other key the "mastermind" row |
| ClosedClubPage.StageFor | public/assets/js/closed-club-page.js:74-91 | the stage shows the row's title, text, image and tags |
| ClosedClubPage.UnknownKeyShowsMastermind | public/assets/js/closed-club-page.js:75 | an unknown key shows exactly the "mastermind" stage |
| ClosedClubPage.InitialIndex | public/assets/js/closed-club-page.js:93-96 | the switcher starts on the first active tab, or the first tab when none is active |
| ClosedClubPage.KeyTarget | public/assets/js/closed-club-page.js:151-169 | down and right ask for the next tab, up and left for the previous one, Home for the first and End for the last; other keys ask for nothing |
| ClosedClubPage.Marked | public/assets/js/closed-club-page.js:105-109 | exactly the tab at the index is active and pressed |
| ClosedClubPage.MarkedExactlyOne | public/assets/js/closed-club-page.js:105-109 | after marking, the marked tab is the only active one, so it is the one a reload would start on |
| ClosedClubPage.MarkTabs | public/assets/js/closed-club-page.js:105-109 | the loop marks exactly the tab at the index |
| ClosedClubPage.Render | public/assets/js/closed-club-page.js:74-91 | the stage is drawn from the row the key selects |
| ClosedClubPage.FormatSwitcher.constructor | public/assets/js/closed-club-page.js:136-144 | the switcher starts on its initial tab, marked alone, with its stage drawn |
| ClosedClubPage.FormatSwitcher.SetActiveByIndex | public/assets/js/closed-club-page.js:98-134 | asking for the current tab changes nothing; otherwise the clamped tab becomes current, is the only marked tab, is focused when asked, and its stage is drawn at once under reduced motion or by a pending render of its key |
| ClosedClubPage.FormatSwitcher.RenderFires | public/assets/js/closed-club-page.js:126-133 | a render timer draws the stage of the key it was set for and ends the swap |
| ClosedClubPage.FormatSwitcher.Click | public/assets/js/closed-club-page.js:146-149 | a click on the current tab changes nothing; any other click makes the clicked tab the only active one, focuses it and draws its format at once (reduced motion) or by a pending render of its key |
| ClosedClubPage.FormatSwitcher.KeyDown | public/assets/js/closed-club-page.js:151-169 | a handled key moves the current tab as the key table says, clamped; when that changes the tab, exactly the new tab is marked and focused and its format is drawn now (reduced motion) or its key is queued for the swap timer; any other key, or one landing on the current tab, changes nothing |
| TeamPage.SafeText | public/assets/js/team-page.js:17-19 | a node's text is stripped, and a missing node gives the empty text |
| TeamPage.PadTwo | public/assets/js/team-page.js:22 | `padStart(2, "0")`: a text of two or more characters is kept; a shorter one is left-padded with "0" to two |
| TeamPage.StepOf | public/assets/js/team-page.js:22 | a panel's step is its stripped `data-step`, or else its position plus one padded to two digits; never empty |
| TeamPage.PanelDataOf | public/assets/js/team-page.js:21-28 | a panel's data: its step, its heading or "Этап", its paragraph and its stripped image |
| TeamPage.FallbackStepIsPadded | public/assets/js/team-page.js:22 | the first nine panels without a step are numbered "01" to "09" |
| TeamPage.StageOf | public/assets/js/team-page.js:30-69 | the stage has an image exactly when the panel has one and a paragraph exactly when its copy is non-empty, under the eyebrow "Этап " plus the step and the title |
| TeamPage.PanelMarks | public/assets/js/team-page.js:74-79 | exactly the panel at the index is active, pressed and in the tab order |
| TeamPage.TabMarks | public/assets/js/team-page.js:81-88 | exactly the mobile tab at the index is active and pressed, and the captions are kept |
| TeamPage.ActivePanel | public/assets/js/team-page.js:150-153 | the index is the first active panel, or -1 when none is active |
| TeamPage.PanelMarksExactlyOne | public/assets/js/team-page.js:74-79 | after marking, the marked panel is the only active one and the only one in the tab order |
| TeamPage.KeyTarget | public/assets/js/team-page.js:129-145 | only the four navigation keys move: left by one and right by one, clamped, counting from the first panel when none is active; Home to the first and End to the last |
| TeamPage.SelectedIndex | public/assets/js/team-page.js:72 | an index inside the panels is kept; a negative one becomes 0 |
| TeamPage.NoActivePanelStartsAtFirst | public/assets/js/team-page.js:150-156 | with no active panel the start index is -1 and the first panel is selected |
| TeamPage.BuildMobileTabs | public/assets/js/team-page.js:101-121 | one unpressed tab per panel, captioned with its step |
| TeamPage.MarkPanels | public/assets/js/team-page.js:74-79 | the loop marks exactly the panel at the index |
| TeamPage.MarkTabs | public/assets/js/team-page.js:81-88 | the loop marks exactly the mobile tab at the index |
| TeamPage.Process.SetActive | public/assets/js/team-page.js:71-99 | the clamped panel becomes the only selected panel and mobile tab, the stage shows it, and it takes focus when asked |
| TeamPage.Process.constructor | public/assets/js/team-page.js:149-156 | the mobile tabs are built and the first active panel, or the first panel, is selected |
| TeamPage.Process.Click | public/assets/js/team-page.js:124-127 | a click selects that panel without moving focus |
| TeamPage.Process.KeyDown | public/assets/js/team-page.js:129-146 | a navigation key selects and focuses its target; any other key changes nothing |
| LandingMain.SetActiveLink | js/main.js:83-85 | exactly the links whose href is the given id are active |
| LandingMain.MostVisible | js/main.js:91-93 | the entry picked intersects and has the largest ratio among the intersecting ones, the earliest on a tie (a stable sort); none is picked exactly when no entry intersects |
| LandingMain.FirstMostUnique | js/main.js:91-93 | at most one entry is the first of the intersecting entries with the largest ratio |
| LandingMain.HighlightTarget | js/main.js:89-95 | when an entry intersects, exactly one is the first intersecting entry with the largest ratio, and the highlighted link is "#" plus its id, nothing when it has no id; nothing when no entry intersects |
| LandingMain.Focusables | js/main.js:157-158 | an element is in the focus list exactly when some candidate with it is enabled with a tab index other than -1; the list starts with the first such candidate and ends with the last |
| LandingMain.TrapMove | js/main.js:153-173 | Tab moves focus only while the modal is open with a focusable element: Shift-Tab on the first goes to the last, Tab on the last goes to the first, and nothing else moves |
| LandingMain.TrapWraps | js/main.js:162-172 | a trapped move stays among the focusables, and the opposite key moves straight back |
| LandingMain.Landing.constructor | js/main.js:107-110 | the page starts with the menu and the modal closed and no remembered focus |
| LandingMain.Landing.SetNavOpen | js/main.js:33-42 | with the nav present the menu and `aria-expanded` take the given state and opening focuses the panel's first link or button; without it nothing changes |
| LandingMain.Landing.ToggleClick | js/main.js:44-47 | the toggle flips the menu, and opening it focuses the panel's first link or button |
| LandingMain.Landing.PanelClick | js/main.js:50-56 | a click on a link or button in the panel closes the menu; any other click leaves it |
| LandingMain.Landing.DocumentClick | js/main.js:59-67 | a click outside the nav and the toggle closes an open menu; the menu stays open only for clicks inside them |
| LandingMain.Landing.Resize | js/main.js:70-74 | at 861 px or wider the menu closes |
| LandingMain.Landing.OpenModal | js/main.js:117-127 | the modal opens, the page locks, the focus is remembered and moves to the first form control; without the modal nothing changes |
| LandingMain.Landing.CloseModal | js/main.js:129-138 | the modal closes, the page unlocks, and focus returns to the remembered element |
| LandingMain.Landing.OpenThenClose | js/main.js:117-138 | opening and then closing the modal gives the focus back where it was |
| LandingMain.Landing.SheetClick | js/main.js:142-146 | only a click on an element marked `data-close="true"` closes the modal; it unlocks the page and hands the focus back to the remembered element |
| LandingMain.Landing.Escape | js/main.js:148-150 | Escape leaves the modal closed; closing an open one unlocks the page and hands the focus back to the remembered element, and a closed one keeps the focus |
| LandingMain.Landing.TabKey | js/main.js:153-173 | Tab is prevented exactly when the trap moves focus, and the focus becomes the trap's target |
| LandingMain.Landing.NavLinkClick | js/main.js:236-240 | a click on a nav link closes the menu |
| UiCommon.Clamp | public/assets/js/accelerator-page.js:90-92 | `Math.max(lo, Math.min(hi, n))`: the result is within the bounds when they are ordered, the input when it is inside them, and the nearer bound otherwise |
| UiCommon.FindFirst | public/assets/js/accelerator-page.js:95 | `findIndex`: the first position satisfying the test, or -1 exactly when none does |
| UiCommon.OnlyAt | public/assets/js/accelerator-page.js:145-149 | exactly the button at the index is active, and each button is pressed exactly when active |
| UiCommon.OnlyAtExactlyOne | public/assets/js/accelerator-page.js:145-149 | for an index inside the row exactly that button is active, so it is the one `getActiveIndex` finds |
| UiCommon.OnlyAtOutside | public/assets/js/accelerator-page.js:145-149 | for an index outside the row no button is active |
| UiCommon.MarkOnly | public/assets/js/accelerator-page.js:177-182 | the loop marks exactly the button at the index |
| JsValues.ToNumber | public/assets/js/forums-page.js:153 | `Number(v)`: undefined is NaN, null is 0, a number is itself and a string is parsed |
| JsValues.ToText | public/assets/js/forums-page.js:135 | `String(v)`: a string is itself and a number is printed |
| JsValues.OrZero | public/assets/js/forums-page.js:91 | `n \|\| 0`: NaN and zero become 0, and any other number is kept |
| JsValues.NumberOrZero | public/assets/js/forums-page.js:249 | `Number(v) \|\| 0` is never NaN: undefined, objects and unparsable strings give 0, and a number other than NaN is kept |
| JsValues.SafeText | public/assets/js/forums-page.js:63-65 | `String(s \|\| "").trim()` is stripped, empty for a falsy value, and the stripped string for a string |
| JsValues.Get | public/assets/js/forums-page.js:249 | reading a field of undefined or null throws; of an object it gives the field or undefined |
| JsValues.FiniteComparisons | public/assets/js/forums-page.js:155 | on finite numbers `>` and `===` are the comparisons of their values |
| JsValues.ComparisonLaws | public/assets/js/forums-page.js:78-82 | `>` is irreflexive and asymmetric, `===` is symmetric and excludes `>`, and NaN is not equal to itself |
| Seqs.Sort | tools/parser.py:287 | `list.sort` as insertion sort: the result is a permutation of the input |
| Seqs.SortSorted | tools/parser.py:287 | under a total preorder the result is ordered |
| Seqs.SortOfSorted | tools/parser.py:287 | an already ordered sequence is returned unchanged |
| Seqs.SortStable | tools/parser.py:287 | the sort is stable: elements that compare equal keep their relative order |
| Seqs.DedupByAppend | tools/parser.py:267-274 | one more element is kept exactly when its key has not been seen before |
| Seqs.DedupByFirstOccurrence | tools/parser.py:267-274 | de-duplication keeps exactly the first element of every key, in order |
| Strings.Trim | tools/parser.py:72 | `str.strip()`: the result has no white space at either end, and is empty exactly when the input is blank |
| Strings.TrimIsSlice | tools/parser.py:72 | the stripped text is a slice of the input, and only white space is cut before and after it |
| Strings.TrimOfTrimmed | tools/parser.py:72 | stripping a stripped text changes nothing |
| Strings.Lower | tools/parser.py:295 | lower-casing works character by character and keeps the length |
| Strings.LowerIdempotent | tools/parser.py:295 | lower-casing twice is lower-casing once |
| Strings.SplitJoin | tools/parser.py:770 | joining the parts of a split with the separator gives back the text |
| Strings.JoinSplit | tools/parser.py:770 | splitting a join of separator-free parts gives back the parts |
| Strings.IntToStringInjective | tools/parser.py:240-241 | different integers are written differently |

## Left out

- Network, files and storage: `fetch` in both page loaders, `get_with_retries` with its jitter and sleeps, the feed and single-post downloads, the JSON and JSONL writers, every SQLite statement, and the argument parsing in `main`. The loaders take their payload, and the gap scan takes its id sets, as parameters.
- Crawl orchestration: `run_update_mode`, `run_fetch_ids_mode` and `run_repair_missing_mode` interleave HTTP, SQLite and sleeps. The older `scrape_events` is modelled, with the page fetch as a parameter and without its `time.sleep`.
- BeautifulSoup: the CSS-selector traversal is taken as already done. The messages come in as records of their `data-post`, date link, text and anchors.
- `datetime.fromisoformat`, `zoneinfo` and time zones: publication times arrive as already converted tuples, all in Moscow time. Offsets are not modelled.
- `sha1` in `event_key`, and the SQL `ORDER BY` of the export: not part of this model.
- Unicode: lower-casing maps only Latin and basic Cyrillic letters (`Strings.Lower`). Other characters are left as they are. A digit is an ASCII digit. White space is a fixed set: ASCII white space, the no-break space and a few Unicode spaces. Python and JavaScript differ slightly here, and that difference is not modelled. A word character for the `\b` of the place pattern (`TelegramText.IsWordChar`) is an ASCII letter, digit or underscore or a character from U+0400 to U+04FF. Python's `\w` also takes every other Unicode letter and digit, so "éместо: зал" names a place in the model and not in the crawler. Text lengths and slices count Unicode characters. JavaScript's `length` and `slice` in the typewriter count UTF-16 code units, so for characters outside the Basic Multilingual Plane the typewriter's tick counts (`PublicMain.FullRound`) differ from the page's.
- Floating point: finite numbers are exact reals with no rounding, and +0 and −0 are one value. The scroll-spy trigger `scrollY + innerHeight * 0.34` arrives as an integer.
- The SVG chart geometry, the eased counter, the marquee, the hero fade, the parallax and the events strip scroll: these are animation and geometry. Only the chart's series and caption are modelled.
- Timers and frames: `setTimeout`, `setInterval` and `requestAnimationFrame` have no time in the model. The redraw timers of the accelerator and closed-club pages are pending events that a method fires, and the typewriter's timers are not stored. The 240 ms overlay hide, the focus delays of the landing modal and the toast are left out; focus moves at once.
- IntersectionObserver and MutationObserver: their callbacks are methods that receive the entries as inputs.
- Forms and toasts: the demo submissions with their status texts and the toast are cosmetic, and are left out.
- The Google Translate banner fix, page reloads and cookie writes: these are side effects. `SiteShell.SwitchLanguage` returns the action (reset, combo change or cookie text) instead of performing it.
- `decodeURIComponent` throwing on a malformed escape: `decode` is a total function.
- Inherited property names: `key in FAQ`, `DATA[key] || DATA.mastermind` and `r[metricKey]` also see the names every object inherits (`toString`, `constructor` and the like). The model looks keys up only among a table's own entries.
- `getAttribute` returning `null`: it is read as the empty text. The `instanceof` checks of the landing page are taken as passing.
- The content tables (Q&A entries, accelerator weeks, closed-club formats): they are parameters rather than the literal texts. The Q&A answer HTML is carried as an opaque string.
- Stagger containers nested in one another, and those whose elements are only partly present: each container is modelled on its own. The same goes for dialogs with only some of their elements.
- `next.config.mjs`: a three-entry rewrite table with no logic.
- EventsArchive.EventsPage: the model assumes every control of the page exists. The script also runs without the year select (`buildYearOptions` returns at once and the year criterion is empty), without the search field (the query is empty), without the meta line (`updateMeta` returns at once) and without the reset button (no click handler is bound); those cases are not modelled.
- EventsArchive.EventsPage.Load: an element of `payload.events` that is `null` or `undefined` is not representable, since the events are records. In the page it makes `buildYearOptions` throw after the collection and the generation time are already replaced, so the error text then shows over the new collection with the old list, counts line and year options. `LoadFailed` models only failures before that assignment: the request, the status check, the JSON parse and a `null` payload.
- Sorting in place: both languages sort arrays in place. The model sorts values with `Seqs.Sort`, so aliasing of the sorted arrays is not modelled.
- LegacyParser.PostEvents: a post that is not well formed, or a run whose `now` is not a valid date-time, yields no events instead of an error; the crawler never produces either.
- HomePage.Faq.ClickTab: the contract states the list shown after the click. The tab marks are stated by `HomePage.Faq.SwitchTab`, which the click runs.
- LandingMain.Landing.TabKey: it states the focus move and the prevented default. The focusables are found from a list of candidate controls given as input, not from the DOM.
