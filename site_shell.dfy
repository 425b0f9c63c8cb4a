/** The page shell shared by the two copies of the site script (public/assets/js/main.js
    and assets/js/main.js): home-page detection from the path, the home-only and
    subpage-only navigation nodes, the active link on subpages, the mobile menu, the two
    modal dialogs with their body lock, the scroll-spy over the home sections and the
    Google Translate language switch driven by the `googtrans` cookie. */
module SiteShell {
  import opened Wrappers
  import opened Strings
  import opened Seqs

  // ---------------------------------------------------------------- home page

  /** `detectHome()`: the path ends with "/", "/index.html" or "index.html". The middle
      test is implied by the last one. */
  function IsHomePage(path: String): (r: bool)
    ensures r <==> IsSuffix("/", path) || IsSuffix("index.html", path)
  {
    if IsSuffix("/index.html", path) then
      assert path[|path| - 10..] == path[|path| - 11..][1..];
      true
    else IsSuffix("/", path) || IsSuffix("index.html", path)
  }

  /** A few paths the detection sorts as the script does; the test is case-sensitive. */
  lemma HomePageExamples()
    ensures IsHomePage("/") && IsHomePage("/club/index.html") && IsHomePage("/myindex.html")
    ensures !IsHomePage("/team.html") && !IsHomePage("/INDEX.HTML") && !IsHomePage("")
  {
    assert "/club/index.html"[6..] == "index.html";
    assert "/myindex.html"[3..] == "index.html";
    assert "/team.html"[|"/team.html"| - 1..] == "l";
    assert "/INDEX.HTML"[1] != "index.html"[0];
  }

  // ---------------------------------------------------------------- navigation scope

  /** A node carrying `data-home-only` and/or `data-subpage-only`, and its `hidden`. */
  datatype ScopedNode = ScopedNode(homeOnly: bool, subpageOnly: bool, hidden: bool)

  /** `applyNavScope()`: first every home-only node gets `hidden = !isHomePage`, then every
      subpage-only node gets `hidden = isHomePage`, so a node carrying both attributes
      ends up with the second value; other nodes are left alone. */
  method ApplyNavScope(nodes: seq<ScopedNode>, home: bool) returns (r: seq<ScopedNode>)
    ensures |r| == |nodes|
    ensures forall i | 0 <= i < |r| ::
      r[i].homeOnly == nodes[i].homeOnly && r[i].subpageOnly == nodes[i].subpageOnly
    ensures forall i | 0 <= i < |r| :: nodes[i].subpageOnly ==> r[i].hidden == home
    ensures forall i | 0 <= i < |r| :: nodes[i].homeOnly && !nodes[i].subpageOnly ==> r[i].hidden == !home
    ensures forall i | 0 <= i < |r| :: !nodes[i].homeOnly && !nodes[i].subpageOnly ==> r[i].hidden == nodes[i].hidden
    ensures forall i, j | 0 <= i < |r| && 0 <= j < |r| ::
      nodes[i].homeOnly && !nodes[i].subpageOnly && nodes[j].subpageOnly ==> r[i].hidden != r[j].hidden
  {
    r := nodes;
    var i := 0;
    while i < |r|
      invariant 0 <= i <= |r| == |nodes|
      invariant forall k | 0 <= k < |r| ::
        r[k].homeOnly == nodes[k].homeOnly && r[k].subpageOnly == nodes[k].subpageOnly
      invariant forall k | 0 <= k < i :: r[k].hidden == if nodes[k].homeOnly then !home else nodes[k].hidden
      invariant forall k | i <= k < |r| :: r[k] == nodes[k]
    {
      if r[i].homeOnly {
        r := r[i := r[i].(hidden := !home)];
      }
      i := i + 1;
    }
    i := 0;
    while i < |r|
      invariant 0 <= i <= |r| == |nodes|
      invariant forall k | 0 <= k < |r| ::
        r[k].homeOnly == nodes[k].homeOnly && r[k].subpageOnly == nodes[k].subpageOnly
      invariant forall k | 0 <= k < i :: nodes[k].subpageOnly ==> r[k].hidden == home
      invariant forall k | 0 <= k < |r| :: !nodes[k].subpageOnly || k >= i ==>
        r[k].hidden == if nodes[k].homeOnly then !home else nodes[k].hidden
    {
      if r[i].subpageOnly {
        r := r[i := r[i].(hidden := home)];
      }
      i := i + 1;
    }
  }

  // ---------------------------------------------------------------- active link by path

  /** A navigation link: its `href` ("" when absent) and its "is-active" class. */
  datatype NavLink = NavLink(href: String, active: bool)

  /** `(pathname.split("/").pop() || "index.html").toLowerCase()`. */
  function CurrentFile(path: String): (r: String)
    ensures r != []
  {
    var parts := Split(path, '/');
    var last := parts[|parts| - 1];
    if last == [] then "index.html" else Lower(last)
  }

  /** `/^https?:\/\//i`: the text starts with "http://" or "https://" in any case. */
  predicate IsExternal(h: String) {
    IsPrefix("http://", Lower(h)) || IsPrefix("https://", Lower(h))
  }

  /** What a link of `setActiveLinkByPath` is compared with: nothing for an empty,
      in-page or absolute http(s) `href`, otherwise the lower-cased part of the trimmed
      `href` before the first "#". */
  function LinkTarget(href: String): (r: Option<String>)
    ensures var h := Trim(href); r.None? <==> h == [] || h[0] == '#' || IsExternal(h)
    ensures r.Some? ==> Free(r.value, '#')
  {
    var h := Trim(href);
    if h == [] || h[0] == '#' || IsExternal(h) then None
    else
      var part := Split(h, '#')[0];
      SplitPartsFree(h, '#');
      LowerFree(part, '#');
      Some(Lower(part))
  }

  /** Lower-casing adds no separator that was not there. */
  lemma LowerFree(s: String, c: char)
    requires Free(s, c) && !('A' <= c <= 'Z') && !('\U{0400}' <= c <= '\U{045F}') && !('a' <= c <= 'z')
    ensures Free(Lower(s), c)
  {
  }

  /** The last path segment, lower-cased, is the current file; a path ending in "/" is
      the index page. */
  lemma CurrentFileOfPath(dir: String, file: String)
    requires file != [] && Free(file, '/')
    ensures CurrentFile(dir + "/" + file) == Lower(file)
    ensures CurrentFile(dir + "/") == "index.html"
  {
    SplitConcat(dir, file, '/');
    SplitFree(file, '/');
    SplitConcat(dir, [], '/');
    assert dir + "/" + [] == dir + "/";
  }

  /** A plain link to `file`, in any case, names that file. */
  lemma LinkToFile(file: String)
    requires file != [] && Free(file, '#') && Trimmed(file) && file[0] != '#' && !IsExternal(file)
    ensures LinkTarget(file) == Some(Lower(file))
  {
    TrimOfTrimmed(file);
    SplitFree(file, '#');
  }

  /** A link to a section of `file` names the file too. */
  lemma LinkToFileSection(file: String, fragment: String)
    requires file != [] && Free(file, '#') && file[0] != '#' && !IsExternal(file)
    requires Trimmed(file + "#" + fragment)
    ensures LinkTarget(file + "#" + fragment) == Some(Lower(file))
  {
    var h := file + "#" + fragment;
    TrimOfTrimmed(h);
    SplitConcat(file, fragment, '#');
    SplitFree(file, '#');
    assert h[0] == file[0];
    ExternalThroughHash(file, fragment);
  }

  /** A link is absolute only if the part before its "#" is. */
  lemma ExternalThroughHash(file: String, fragment: String)
    ensures IsExternal(file + "#" + fragment) ==> IsExternal(file)
  {
    PrefixThroughHash(file, fragment, "http://");
    PrefixThroughHash(file, fragment, "https://");
  }

  /** A "#"-free prefix of a lower-cased link is a prefix of the part before its "#". */
  lemma PrefixThroughHash(file: String, fragment: String, p: String)
    requires Free(p, '#')
    ensures IsPrefix(p, Lower(file + "#" + fragment)) ==> IsPrefix(p, Lower(file))
  {
    var l := Lower(file + "#" + fragment);
    assert l[..|file|] == Lower(file) && l[|file|] == '#';
    if IsPrefix(p, l) {
      assert forall i | 0 <= i < |p| :: p[i] == l[i];
      assert Lower(file)[..|p|] == l[..|p|];
    }
  }

  /** One link after the comparison with the current file. */
  function Relinked(l: NavLink, current: String): NavLink {
    var target := LinkTarget(l.href);
    if target.Some? then l.(active := target.value == current) else l
  }

  /** `setActiveLinkByPath()`: every link with a target is active exactly when its target
      is the current file; the other links keep their class. */
  method SetActiveLinkByPath(links: seq<NavLink>, path: String) returns (r: seq<NavLink>)
    ensures |r| == |links|
    ensures forall i | 0 <= i < |r| :: r[i].href == links[i].href
    ensures forall i | 0 <= i < |r| :: LinkTarget(links[i].href).None? ==> r[i].active == links[i].active
    ensures forall i | 0 <= i < |r| :: LinkTarget(links[i].href).Some? ==>
      (r[i].active <==> LinkTarget(links[i].href).value == CurrentFile(path))
  {
    var current := CurrentFile(path);
    r := MapIndexed(links, (l: NavLink, i: nat) => Relinked(l, current));
  }

  // ---------------------------------------------------------------- mobile menu

  /** `shouldOpen` of `toggleMobileMenu(forceState)`: a boolean argument wins, anything
      else flips the current state. */
  function NextOpen(force: Option<bool>, open: bool): (r: bool)
    ensures force.Some? ==> r == force.value
    ensures force.None? ==> r == !open
  {
    match force
    case Some(b) => b
    case None => !open
  }

  /** Two plain toggles come back; forcing is idempotent and forgets the earlier state. */
  lemma NextOpenLaws(force: bool, open: bool)
    ensures NextOpen(None, NextOpen(None, open)) == open
    ensures NextOpen(Some(force), NextOpen(Some(force), open)) == NextOpen(Some(force), open)
    ensures NextOpen(Some(force), open) == NextOpen(Some(force), !open)
  {
  }

  // ---------------------------------------------------------------- scroll-spy

  /** The section `id` exists and its top is at or above the trigger line. The line is
      `scrollY + innerHeight * 0.34`; since `offsetTop` is an integer, comparing with it
      is comparing with its floor, which is what `trigger` stands for. */
  predicate Reached(top: String -> Option<int>, trigger: int, id: String) {
    top(id).Some? && top(id).value <= trigger
  }

  /** The last id, in list order, whose section is reached. */
  function LastReached(ids: seq<String>, top: String -> Option<int>, trigger: int): (r: Option<nat>)
    ensures r.Some? ==> r.value < |ids| && Reached(top, trigger, ids[r.value])
    ensures r.Some? ==> forall j | r.value < j < |ids| :: !Reached(top, trigger, ids[j])
    ensures r.None? <==> forall j | 0 <= j < |ids| :: !Reached(top, trigger, ids[j])
  {
    if ids == [] then None
    else if Reached(top, trigger, ids[|ids| - 1]) then Some(|ids| - 1)
    else
      var r := LastReached(ids[..|ids| - 1], top, trigger);
      assert forall j | 0 <= j < |ids| - 1 :: ids[..|ids| - 1][j] == ids[j];
      r
  }

  /** The position of a pick, -1 for none. */
  function PickPosition(r: Option<nat>): int {
    if r.Some? then r.value else -1
  }

  /** Scrolling further down never moves the pick back up the list. */
  lemma {:induction false} LastReachedMonotone(ids: seq<String>, top: String -> Option<int>, t1: int, t2: int)
    requires t1 <= t2
    ensures PickPosition(LastReached(ids, top, t1)) <= PickPosition(LastReached(ids, top, t2))
  {
    if ids != [] && !Reached(top, t2, ids[|ids| - 1]) {
      LastReachedMonotone(ids[..|ids| - 1], top, t1, t2);
    }
  }

  /** `refreshActiveMenuItem()`'s loop: the first id unless a later reached one takes
      over; the result is the last reached id, or the first id when none is reached. */
  method RefreshActive(ids: seq<String>, top: String -> Option<int>, trigger: int) returns (activeId: String)
    requires |ids| > 0
    ensures var k := LastReached(ids, top, trigger);
      activeId == if k.Some? then ids[k.value] else ids[0]
  {
    activeId := ids[0];
    var i := 0;
    while i < |ids|
      invariant 0 <= i <= |ids|
      invariant var k := LastReached(ids[..i], top, trigger);
        activeId == if k.Some? then ids[k.value] else ids[0]
    {
      PrefixStep(ids, i);
      assert ids[..i + 1][..i] == ids[..i];
      if Reached(top, trigger, ids[i]) {
        activeId := ids[i];
      }
      i := i + 1;
    }
    assert ids[..|ids|] == ids;
  }

  /** `setActiveMenuItem(id)`'s loop: a link is active exactly when its `href` is "#"
      followed by the id. */
  method MarkSection(links: seq<NavLink>, id: String) returns (r: seq<NavLink>)
    ensures |r| == |links|
    ensures forall i | 0 <= i < |r| :: r[i].href == links[i].href && (r[i].active <==> links[i].href == "#" + id)
  {
    r := links;
    var i := 0;
    while i < |r|
      invariant 0 <= i <= |r| == |links|
      invariant forall k | 0 <= k < |r| :: r[k].href == links[k].href
      invariant forall k | 0 <= k < i :: r[k].active == (links[k].href == "#" + id)
    {
      r := r[i := r[i].(active := r[i].href == "#" + id)];
      i := i + 1;
    }
  }

  /** The id a clicked in-page link asks for: `href.replace("#", "")` drops the leading
      "#"; links whose `href` does not start with "#" ask for nothing. */
  function HashTarget(href: String): (r: Option<String>)
    ensures r.Some? <==> href != [] && href[0] == '#'
    ensures r.Some? ==> "#" + r.value == href
  {
    if href != [] && href[0] == '#' then Some(href[1..]) else None
  }

  // ---------------------------------------------------------------- language switch

  /** The cookie text Google Translate keys on, followed by the language. */
  const Marker: String := "googtrans=/ru/"

  /** `/googtrans=\/ru\/([^;]+)/` can match at `p`: the marker is there and at least one
      character other than ";" follows it. */
  predicate MatchAt(cookie: String, p: nat) {
    p + |Marker| < |cookie| && cookie[p..p + |Marker|] == Marker && cookie[p + |Marker|] != ';'
  }

  /** The length of the run of characters other than ";" from `i` on. */
  function RunLength(s: String, i: nat): (n: nat)
    requires i <= |s|
    ensures i + n <= |s| && forall k | i <= k < i + n :: s[k] != ';'
    ensures i + n < |s| ==> s[i + n] == ';'
    decreases |s| - i
  {
    if i == |s| || s[i] == ';' then 0 else 1 + RunLength(s, i + 1)
  }

  /** The leftmost position at or after `p` where the pattern matches. */
  function FirstMatch(cookie: String, p: nat): (r: Option<nat>)
    ensures r.Some? ==> p <= r.value && MatchAt(cookie, r.value)
    ensures r.Some? ==> forall q | p <= q < r.value :: !MatchAt(cookie, q)
    ensures r.None? ==> forall q | p <= q :: !MatchAt(cookie, q)
    decreases |cookie| - p
  {
    if p + |Marker| >= |cookie| then None
    else if MatchAt(cookie, p) then Some(p)
    else FirstMatch(cookie, p + 1)
  }

  /** `detectCurrentLanguage()`: the decoded capture of the leftmost match, or "ru".
      `decode` stands for `decodeURIComponent`. */
  function DetectLanguage(cookie: String, decode: String -> String): String {
    match FirstMatch(cookie, 0)
    case None => "ru"
    case Some(p) =>
      var start := p + |Marker|;
      decode(cookie[start..start + RunLength(cookie, start)])
  }

  /** Without the marker in the cookie the page is taken to be in Russian. */
  lemma NoMarkerMeansRussian(cookie: String, decode: String -> String)
    requires !Contains(cookie, Marker)
    ensures DetectLanguage(cookie, decode) == "ru"
  {
    var m := FirstMatch(cookie, 0);
    if m.Some? {
      ContainsAt(cookie, Marker, m.value);
    }
  }

  /** The run stops exactly at the end of a ";"-free word followed by ";" or nothing. */
  lemma {:induction false} RunOfWord(s: String, i: nat, n: nat)
    requires i + n <= |s| && (forall k | i <= k < i + n :: s[k] != ';') && (i + n == |s| || s[i + n] == ';')
    ensures RunLength(s, i) == n
    decreases n
  {
    if n > 0 {
      RunOfWord(s, i + 1, n - 1);
    }
  }

  /** A cookie that starts with the marker, a language and then ";" or nothing reads back
      as that language. */
  lemma ReadsBackWritten(lang: String, rest: String, decode: String -> String)
    requires lang != [] && Free(lang, ';') && (rest == [] || rest[0] == ';')
    ensures DetectLanguage(Marker + lang + rest, decode) == decode(lang)
  {
    var c := Marker + lang + rest;
    var start := |Marker|;
    assert c[..start] == Marker && c[start] == lang[0];
    assert MatchAt(c, 0);
    assert forall k | start <= k < start + |lang| :: c[k] == lang[k - start];
    assert start + |lang| < |c| ==> c[start + |lang|] == rest[0];
    RunOfWord(c, start, |lang|);
  }

  /** What `switchLanguage(lang)` does: "ru" clears the cookie and reloads, another
      language goes through the translate combo box when the widget has drawn it, and
      otherwise is written into the cookie before a reload. */
  datatype LangAction = ResetToRussian | ComboChange(lang: String) | SetCookie(cookie: String)

  function SwitchLanguage(lang: String, comboPresent: bool): (a: LangAction)
    ensures a.ResetToRussian? <==> lang == "ru"
    ensures a.ComboChange? ==> a.lang == lang && comboPresent
    ensures a.SetCookie? <==> lang != "ru" && !comboPresent
  {
    if lang == "ru" then ResetToRussian
    else if comboPresent then ComboChange(lang)
    else SetCookie(Marker + lang + "; path=/")
  }

  lemma MarkerFree()
    ensures Free(Marker, ';')
  {
  }

  /** The cookie written for a language reads back as it: its name=value pair (the text
      before the first ";", which is what `document.cookie` shows) is detected as `lang`. */
  lemma SwitchThenDetect(lang: String, decode: String -> String)
    requires lang != "ru" && lang != [] && Free(lang, ';')
    ensures SwitchLanguage(lang, false).SetCookie?
    ensures DetectLanguage(Split(SwitchLanguage(lang, false).cookie, ';')[0], decode) == decode(lang)
  {
    var pair := Marker + lang;
    assert SwitchLanguage(lang, false).cookie == pair + [';'] + " path=/";
    SplitConcat(pair, " path=/", ';');
    MarkerFree();
    assert Free(pair, ';') by {
      assert forall i | 0 <= i < |pair| :: pair[i] == if i < |Marker| then Marker[i] else lang[i - |Marker|];
    }
    SplitFree(pair, ';');
    ReadsBackWritten(lang, [], decode);
    assert pair + [] == pair;
  }

  /** A `.lang-btn` with its `data-lang` (absent as `None`) and its "is-active" class. */
  datatype LangButton = LangButton(lang: Option<String>, active: bool)

  /** `setActiveLanguageButton(lang)`: a button is active exactly when its `data-lang` is
      `lang`. */
  method SetActiveLanguageButton(buttons: seq<LangButton>, lang: String) returns (r: seq<LangButton>)
    ensures |r| == |buttons|
    ensures forall i | 0 <= i < |r| :: r[i].lang == buttons[i].lang && (r[i].active <==> buttons[i].lang == Some(lang))
  {
    r := buttons;
    var i := 0;
    while i < |r|
      invariant 0 <= i <= |r| == |buttons|
      invariant forall k | 0 <= k < |r| :: r[k].lang == buttons[k].lang
      invariant forall k | 0 <= k < i :: r[k].active == (buttons[k].lang == Some(lang))
    {
      r := r[i := r[i].(active := r[i].lang == Some(lang))];
      i := i + 1;
    }
  }

  /** The language a click on a button asks for: `button.dataset.lang || "ru"`. */
  function ClickedLanguage(b: LangButton): (lang: String)
    ensures lang != []
    ensures b.lang.Some? && b.lang.value != [] ==> lang == b.lang.value
    ensures b.lang.None? || b.lang.value == [] ==> lang == "ru"
  {
    if b.lang.Some? && b.lang.value != [] then b.lang.value else "ru"
  }

  /** After a click the clicked button is the active one. */
  lemma ClickMarksClicked(buttons: seq<LangButton>, i: nat)
    requires i < |buttons| && buttons[i].lang.Some? && buttons[i].lang.value != []
    ensures buttons[i].lang == Some(ClickedLanguage(buttons[i]))
  {
  }

  // ---------------------------------------------------------------- shell state

  /** The mobile menu and the two modals of a page. `menuPresent` says both the menu
      button and the mobile nav exist, `sheetPresent` both the application sheet and its
      overlay, `feedbackPresent` both the feedback modal and its overlay; the handlers
      return at once when their pair is missing. */
  class Shell {
    const menuPresent: bool
    const sheetPresent: bool
    const feedbackPresent: bool
    /** The mobile nav's "is-open", the button's `aria-expanded`, body "menu-open". */
    var navOpen: bool
    var ariaExpanded: bool
    var menuOpenClass: bool
    /** The application sheet's "is-open" and `aria-hidden`. */
    var sheetOpen: bool
    var sheetHidden: bool
    /** The feedback modal's "is-open" and `aria-hidden`. */
    var feedbackOpen: bool
    var feedbackHidden: bool
    /** Body "modal-open". */
    var modalLock: bool

    /** The button and the body class mirror the nav; `aria-hidden` is the negation of
        "is-open"; at most one dialog is open and the body is locked exactly while one
        is; nothing opens when its elements are missing. */
    predicate Valid()
      reads this
    {
      && ariaExpanded == navOpen && menuOpenClass == navOpen
      && (!menuPresent ==> !navOpen)
      && sheetHidden == !sheetOpen && (!sheetPresent ==> !sheetOpen)
      && feedbackHidden == !feedbackOpen && (!feedbackPresent ==> !feedbackOpen)
      && !(sheetOpen && feedbackOpen)
      && modalLock == (sheetOpen || feedbackOpen)
    }

    /** The page as its markup leaves it: menu and dialogs closed. */
    constructor (menu: bool, sheet: bool, feedback: bool)
      ensures Valid()
      ensures menuPresent == menu && sheetPresent == sheet && feedbackPresent == feedback
      ensures !navOpen && !sheetOpen && !feedbackOpen && !modalLock
    {
      menuPresent, sheetPresent, feedbackPresent := menu, sheet, feedback;
      navOpen, ariaExpanded, menuOpenClass := false, false, false;
      sheetOpen, sheetHidden := false, true;
      feedbackOpen, feedbackHidden := false, true;
      modalLock := false;
    }

    /** `toggleMobileMenu(force)`: with the menu present the nav, the button and the body
        class all take `NextOpen(force, navOpen)`; otherwise nothing changes. */
    method ToggleMobileMenu(force: Option<bool>)
      requires Valid()
      modifies this`navOpen, this`ariaExpanded, this`menuOpenClass
      ensures Valid()
      ensures navOpen == if menuPresent then NextOpen(force, old(navOpen)) else old(navOpen)
    {
      if !menuPresent {
        return;
      }
      var open := NextOpen(force, navOpen);
      navOpen, ariaExpanded, menuOpenClass := open, open, open;
    }

    /** `syncModalLock()`. */
    method SyncModalLock()
      modifies this`modalLock
      ensures modalLock == (sheetOpen || feedbackOpen)
    {
      modalLock := sheetOpen || feedbackOpen;
    }

    /** `closeApplicationSheet()`. */
    method CloseApplicationSheet()
      requires Valid()
      modifies this`sheetOpen, this`sheetHidden, this`modalLock
      ensures Valid()
      ensures sheetPresent ==> !sheetOpen
      ensures !sheetPresent ==> sheetOpen == old(sheetOpen) && modalLock == old(modalLock)
    {
      if !sheetPresent {
        return;
      }
      sheetOpen, sheetHidden := false, true;
      SyncModalLock();
    }

    /** `closeFeedbackModal()`. */
    method CloseFeedbackModal()
      requires Valid()
      modifies this`feedbackOpen, this`feedbackHidden, this`modalLock
      ensures Valid()
      ensures feedbackPresent ==> !feedbackOpen
      ensures !feedbackPresent ==> feedbackOpen == old(feedbackOpen) && modalLock == old(modalLock)
    {
      if !feedbackPresent {
        return;
      }
      feedbackOpen, feedbackHidden := false, true;
      SyncModalLock();
    }

    /** `openApplicationSheet()`: closes the feedback modal, opens the sheet and locks the
        body. */
    method OpenApplicationSheet()
      requires Valid()
      modifies this`sheetOpen, this`sheetHidden, this`feedbackOpen, this`feedbackHidden, this`modalLock
      ensures Valid()
      ensures sheetPresent ==> sheetOpen && !feedbackOpen && modalLock
      ensures !sheetPresent ==>
        sheetOpen == old(sheetOpen) && feedbackOpen == old(feedbackOpen) && modalLock == old(modalLock)
    {
      if !sheetPresent {
        return;
      }
      CloseFeedbackModal();
      sheetOpen, sheetHidden := true, false;
      SyncModalLock();
    }

    /** `openFeedbackModal()`: closes the sheet, opens the feedback modal and locks the
        body. */
    method OpenFeedbackModal()
      requires Valid()
      modifies this`sheetOpen, this`sheetHidden, this`feedbackOpen, this`feedbackHidden, this`modalLock
      ensures Valid()
      ensures feedbackPresent ==> feedbackOpen && !sheetOpen && modalLock
      ensures !feedbackPresent ==>
        sheetOpen == old(sheetOpen) && feedbackOpen == old(feedbackOpen) && modalLock == old(modalLock)
    {
      if !feedbackPresent {
        return;
      }
      CloseApplicationSheet();
      feedbackOpen, feedbackHidden := true, false;
      SyncModalLock();
    }

    /** The Escape handler: closes the menu and both dialogs and unlocks the body. */
    method Escape()
      requires Valid()
      modifies this`navOpen, this`ariaExpanded, this`menuOpenClass
      modifies this`sheetOpen, this`sheetHidden, this`feedbackOpen, this`feedbackHidden, this`modalLock
      ensures Valid()
      ensures !navOpen && !sheetOpen && !feedbackOpen && !modalLock
    {
      ToggleMobileMenu(Some(false));
      CloseApplicationSheet();
      CloseFeedbackModal();
    }
  }
}
