/** The home page's own script (public/assets/js/home-page.js): the Q&A block, with
    tabs choosing a list of questions and an accordion in which at most one answer is
    open, and the "About" photo cycling, in which each picture frame flips between two
    images in turn while one interval timer drives them. */
module HomePage {
  import opened Wrappers
  import opened Strings
  import opened UiCommon
  import opened Seqs

  // ---------------------------------------------------------------- Q&A content

  /** One entry of the `FAQ` table: the question, `aHtml` ("" when absent) and the
      `bullets` array if there is one. */
  datatype Entry = Entry(q: String, aHtml: String, bullets: Option<seq<String>>)

  /** The answer block of a question. */
  datatype Answer = Html(html: String) | Bullets(items: seq<String>) | Dash

  /** `data-animate` of an item, by its position modulo 3. */
  datatype Animation = FadeUp | ScaleIn | BlurIn

  /** A child of the list: the "no questions" placeholder or a question item. */
  datatype FaqNode = Placeholder | Question(title: String, answer: Answer, animate: Animation)

  const DefaultTitle: String := "Вопрос"
  const DefaultTab: String := "open"

  /** The bullets of an answer, each through `safeText`. */
  function TrimEach(items: seq<String>): (r: seq<String>)
    ensures |r| == |items|
    ensures forall k | 0 <= k < |r| :: r[k] == Trim(items[k])
  {
    seq(|items|, k requires 0 <= k < |items| => Trim(items[k]))
  }

  /** The answer `createFaqItem` builds: the HTML when `aHtml` is non-empty, else the
      bullet list when `bullets` is an array, else a dash. */
  function AnswerOf(e: Entry): (a: Answer)
    ensures a.Html? <==> e.aHtml != ""
    ensures a.Html? ==> a.html == e.aHtml
    ensures a.Bullets? <==> e.aHtml == "" && e.bullets.Some?
    ensures a.Bullets? ==> a.items == TrimEach(e.bullets.value)
    ensures a == Dash <==> e.aHtml == "" && e.bullets.None?
  {
    if e.aHtml != "" then Html(e.aHtml)
    else if e.bullets.Some? then Bullets(TrimEach(e.bullets.value))
    else Dash
  }

  /** The heading text: `safeText(it.q) || "Вопрос"`. */
  function TitleOf(e: Entry): (t: String)
    ensures t != ""
    ensures Trim(e.q) != "" ==> t == Trim(e.q)
    ensures Trim(e.q) == "" ==> t == DefaultTitle
  {
    if Trim(e.q) != "" then Trim(e.q) else DefaultTitle
  }

  function AnimationAt(idx: nat): (a: Animation)
    ensures idx % 3 == 0 <==> a == FadeUp
    ensures idx % 3 == 1 <==> a == ScaleIn
  {
    if idx % 3 == 0 then FadeUp else if idx % 3 == 1 then ScaleIn else BlurIn
  }

  /** `createFaqItem(it, idx)`. */
  function ItemOf(e: Entry, idx: nat): FaqNode {
    Question(TitleOf(e), AnswerOf(e), AnimationAt(idx))
  }

  /** The entries `renderFaq(key)` lists: `FAQ[key]` when it is there, else none. */
  function EntriesFor(faq: map<String, seq<Entry>>, key: String): seq<Entry> {
    if key in faq then faq[key] else []
  }

  /** The list `renderFaq(key)` leaves: exactly one item per entry, in order, or a single
      placeholder when there are none. */
  function NodesFor(faq: map<String, seq<Entry>>, key: String): (r: seq<FaqNode>)
    ensures EntriesFor(faq, key) == [] ==> r == [Placeholder]
    ensures EntriesFor(faq, key) != [] ==>
      |r| == |EntriesFor(faq, key)| && forall i | 0 <= i < |r| :: r[i] == ItemOf(EntriesFor(faq, key)[i], i)
  {
    var items := EntriesFor(faq, key);
    if items == [] then [Placeholder]
    else seq(|items|, i requires 0 <= i < |items| => ItemOf(items[i], i))
  }

  /** `renderFaq(key)`: clear the list, then append the placeholder or one item per entry. */
  method RenderFaq(faq: map<String, seq<Entry>>, key: String) returns (nodes: seq<FaqNode>)
    ensures nodes == NodesFor(faq, key)
  {
    var items := if key in faq then faq[key] else [];
    if |items| == 0 {
      return [Placeholder];
    }
    nodes := MapIndexed(items, ItemOf);
    assert forall j | 0 <= j < |items| :: nodes[j] == NodesFor(faq, key)[j];
  }

  // ---------------------------------------------------------------- Q&A tabs

  /** A tab button: its `data-faq-tab` and marks. */
  datatype FaqTab = FaqTab(key: String, mark: Toggle)

  /** `switchTab`'s normalisation: a key the table has is kept, any other becomes "open". */
  function Normalize(faq: map<String, seq<Entry>>, key: String): (k: String)
    ensures key in faq ==> k == key
    ensures key !in faq ==> k == DefaultTab
  {
    if key in faq then key else DefaultTab
  }

  /** Normalising twice is normalising once, when the table has "open". */
  lemma NormalizeIdempotent(faq: map<String, seq<Entry>>, key: String)
    requires DefaultTab in faq
    ensures Normalize(faq, Normalize(faq, key)) == Normalize(faq, key)
    ensures Normalize(faq, key) in faq
  {
  }

  /** The tabs after `setTabsActive(key)`: exactly those whose `data-faq-tab` is `key`. */
  function TabsFor(tabs: seq<FaqTab>, key: String): (r: seq<FaqTab>)
    ensures |r| == |tabs|
    ensures forall i | 0 <= i < |r| :: r[i].key == tabs[i].key && r[i].mark == Toggle(tabs[i].key == key, tabs[i].key == key)
  {
    seq(|tabs|, i requires 0 <= i < |tabs| => tabs[i].(mark := Toggle(tabs[i].key == key, tabs[i].key == key)))
  }

  /** `setTabsActive(key)`. */
  method SetTabsActive(tabs: seq<FaqTab>, key: String) returns (r: seq<FaqTab>)
    ensures r == TabsFor(tabs, key)
  {
    r := tabs;
    var i := 0;
    while i < |r|
      invariant 0 <= i <= |r| == |tabs|
      invariant forall j | 0 <= j < i :: r[j] == tabs[j].(mark := Toggle(tabs[j].key == key, tabs[j].key == key))
      invariant forall j | i <= j < |r| :: r[j] == tabs[j]
    {
      var hit := r[i].key == key;
      r := r[i := r[i].(mark := Toggle(hit, hit))];
      i := i + 1;
    }
  }

  /** The key a click on a tab passes: `btn.dataset.faqTab || "open"`. */
  function ClickedKey(t: FaqTab): (k: String)
    ensures k != ""
    ensures t.key != "" ==> k == t.key
  {
    if t.key != "" then t.key else DefaultTab
  }

  /** The key of the init: the first tab marked active, else the first tab, through the
      same `|| "open"`. */
  function InitialKey(tabs: seq<FaqTab>): (k: String)
    requires |tabs| > 0
    ensures var i := FindFirst(tabs, (t: FaqTab) => t.mark.active);
      k == ClickedKey(if i >= 0 then tabs[i] else tabs[0])
  {
    var i := FindFirst(tabs, (t: FaqTab) => t.mark.active);
    ClickedKey(if i >= 0 then tabs[i] else tabs[0])
  }

  /** The tab the keyboard handler focuses from tab `current`; `None` for other keys. */
  function TabFocusTarget(key: Key, current: nat, n: nat): (r: Option<nat>)
    requires current < n
    ensures r.None? <==> key !in {ArrowLeft, ArrowRight, Home, End}
    ensures r.Some? ==> r.value < n
    ensures key == ArrowLeft ==> r == Some(if current == 0 then 0 else current - 1)
    ensures key == ArrowRight ==> r == Some(if current == n - 1 then current else current + 1)
    ensures key == Home ==> r == Some(0)
    ensures key == End ==> r == Some(n - 1)
  {
    match key
    case ArrowLeft => Some(Clamp(current - 1, 0, n - 1))
    case ArrowRight => Some(Clamp(current + 1, 0, n - 1))
    case Home => Some(0)
    case End => Some(n - 1)
    case _ => None
  }

  // ---------------------------------------------------------------- accordion

  /** The Q&A block: the table, the tabs, the list's children and, per child, its
      "is-open" class and `aria-expanded`. */
  class Faq {
    const faq: map<String, seq<Entry>>
    var tabs: seq<FaqTab>
    var nodes: seq<FaqNode>
    var open: seq<bool>
    var expanded: seq<bool>
    var focusedTab: Option<nat>

    /** `is-open` and `aria-expanded` agree on every child; at most one child is open,
        and only question items (never the placeholder) are. */
    predicate Valid()
      reads this
    {
      && |tabs| > 0
      && |open| == |nodes| && expanded == open
      && (forall i | 0 <= i < |open| :: open[i] ==> nodes[i].Question?)
      && (forall i, j | 0 <= i < |open| && 0 <= j < |open| && open[i] && open[j] :: i == j)
    }

    /** `switchTab(key)`: normalise the key, mark its tabs, close the open items and
        rebuild the list, all closed. */
    method SwitchTab(key: String)
      requires Valid()
      modifies this`tabs, this`nodes, this`open, this`expanded
      ensures Valid()
      ensures tabs == TabsFor(old(tabs), Normalize(faq, key))
      ensures nodes == NodesFor(faq, Normalize(faq, key))
      ensures forall i | 0 <= i < |open| :: !open[i]
    {
      var k := Normalize(faq, key);
      var t := SetTabsActive(tabs, k);
      var n := RenderFaq(faq, k);
      var closed := seq(|n|, i => false);
      tabs, nodes, open, expanded := t, n, closed, closed;
    }

    /** The init: `switchTab(initialKey)` over the tabs as the markup has them. */
    constructor (table: map<String, seq<Entry>>, initial: seq<FaqTab>)
      requires |initial| > 0
      ensures Valid()
      ensures faq == table && focusedTab == None
      ensures tabs == TabsFor(initial, Normalize(table, InitialKey(initial)))
      ensures nodes == NodesFor(table, Normalize(table, InitialKey(initial)))
      ensures forall i | 0 <= i < |open| :: !open[i]
    {
      var k := Normalize(table, InitialKey(initial));
      var t := SetTabsActive(initial, k);
      var n := RenderFaq(table, k);
      var closed := seq(|n|, i => false);
      faq := table;
      tabs, nodes, open, expanded, focusedTab := t, n, closed, closed, None;
    }

    /** A click on tab `i`. */
    method ClickTab(i: nat)
      requires Valid() && i < |tabs|
      modifies this`tabs, this`nodes, this`open, this`expanded
      ensures Valid()
      ensures nodes == NodesFor(faq, Normalize(faq, ClickedKey(old(tabs[i]))))
    {
      SwitchTab(ClickedKey(tabs[i]));
    }

    /** The keydown handler of tab `i`: it only moves the focus. */
    method TabKeyDown(i: nat, key: Key)
      requires Valid() && i < |tabs|
      modifies this`focusedTab
      ensures TabFocusTarget(key, i, |tabs|).None? ==> focusedTab == old(focusedTab)
      ensures TabFocusTarget(key, i, |tabs|).Some? ==> focusedTab == TabFocusTarget(key, i, |tabs|)
    {
      var t := TabFocusTarget(key, i, |tabs|);
      if t.Some? {
        focusedTab := t;
      }
    }

    /** The open marks after `toggle` on item `i`: every other item is closed and item
        `i` flips. */
    static function Toggled(open: seq<bool>, i: nat): (r: seq<bool>)
      requires i < |open|
      ensures |r| == |open|
      ensures r[i] == !open[i]
      ensures forall j | 0 <= j < |r| && j != i :: !r[j]
    {
      seq(|open|, j requires 0 <= j < |open| => if j == i then !open[i] else false)
    }

    /** `toggle()` of item `i` (a click, Enter or Space on it): close every other open
        item, then close it if it was open and open it otherwise. */
    method Toggle(i: nat)
      requires Valid() && i < |nodes| && nodes[i].Question?
      modifies this`open, this`expanded
      ensures Valid()
      ensures open == Toggled(old(open), i)
    {
      var wasOpen := open[i];
      var o := open;
      var j := 0;
      while j < |o|
        invariant 0 <= j <= |o| == |open|
        invariant forall k | 0 <= k < j :: o[k] == (open[k] && k == i)
        invariant forall k | j <= k < |o| :: o[k] == open[k]
      {
        if o[j] && j != i {
          o := o[j := false];
        }
        j := j + 1;
      }
      o := o[i := !wasOpen];
      open, expanded := o, o;
    }

    /** Toggling an open item leaves none open; toggling a closed one leaves only it open. */
    static lemma ToggleOutcome(o: seq<bool>, i: nat)
      requires i < |o|
      ensures o[i] ==> forall j | 0 <= j < |o| :: !Toggled(o, i)[j]
      ensures !o[i] ==> forall j | 0 <= j < |o| :: Toggled(o, i)[j] <==> j == i
    {
    }
  }

  // ---------------------------------------------------------------- photo cycling

  datatype Direction = Left | Right

  /** `parseSources(node)`: the `|`-separated list, trimmed, blank entries dropped. */
  function ParseSources(attr: String): (r: seq<String>)
    ensures forall k | 0 <= k < |r| :: r[k] != "" && Trimmed(r[k])
  {
    SplitTrimNonEmpty(attr, '|')
  }

  /** `getDir(node)`: right only for a `data-cycle-dir` that lower-cases to "right". */
  function GetDir(attr: Option<String>): (d: Direction)
    ensures d == Right <==> attr.Some? && Lower(attr.value) == "right"
  {
    var v := if attr.Some? && attr.value != "" then attr.value else "left";
    if Lower(v) == "right" then Right else Left
  }

  /** The index after one swap: `(index + 1) % n`, which is the next picture, or the
      first one after the last. */
  function NextIndex(index: nat, n: nat): (r: nat)
    requires n > 0
    ensures r < n
    ensures index < n - 1 ==> r == index + 1
    ensures index == n - 1 ==> r == 0
  {
    (index + 1) % n
  }

  /** The index after `k` swaps from the first picture. */
  function IndexAfter(k: nat, n: nat): (r: nat)
    requires n > 0
    ensures r < n
  {
    if k == 0 then 0 else NextIndex(IndexAfter(k - 1, n), n)
  }

  /** The first `n` swaps show the pictures in their order. */
  lemma {:induction false} IndexAfterInOrder(k: nat, n: nat)
    requires 0 < n && k < n
    ensures IndexAfter(k, n) == k
  {
    if k > 0 {
      IndexAfterInOrder(k - 1, n);
    }
  }

  /** The cycle is round-robin: every `n` swaps it is back where it was, so no picture is
      skipped and none is shown twice in a row of `n`. */
  lemma {:induction false} IndexAfterPeriodic(k: nat, n: nat)
    requires n > 0
    ensures IndexAfter(k + n, n) == IndexAfter(k, n)
  {
    if k == 0 {
      IndexAfterInOrder(n - 1, n);
      assert IndexAfter(n, n) == NextIndex(n - 1, n);
    } else {
      IndexAfterPeriodic(k - 1, n);
      assert IndexAfter(k + n, n) == NextIndex(IndexAfter(k - 1 + n, n), n);
    }
  }

  /** One picture frame and its `__cycleState`: the sources, the direction, the index of
      the picture shown, the busy flag, and the two images' `src` and "is-active". */
  class MediaCycle {
    const sources: seq<String>
    const dir: Direction
    var index: nat
    var busy: bool
    var src: seq<String>
    var active: seq<bool>
    /** The image that leaves when the running swap finishes. */
    var outgoing: nat

    /** Idle, exactly one image is active and it shows the current source; during a
        swap both are active and the incoming one shows the current source. */
    predicate Valid()
      reads this
    {
      && |sources| >= 2 && index < |sources|
      && |src| == 2 && |active| == 2 && outgoing < 2
      && (!busy ==> active[0] != active[1] && src[if active[0] then 0 else 1] == sources[index])
      && (busy ==> active[0] && active[1] && src[1 - outgoing] == sources[index])
    }

    /** The init for a frame with at least two sources: first image active with the
        first source, the second preloaded with the second, index 0, not busy. */
    constructor (attr: String, dirAttr: Option<String>)
      requires |ParseSources(attr)| >= 2
      ensures Valid()
      ensures sources == ParseSources(attr) && dir == GetDir(dirAttr)
      ensures index == 0 && !busy
      ensures src == [sources[0], sources[1]] && active == [true, false]
    {
      var s := ParseSources(attr);
      sources, dir := s, GetDir(dirAttr);
      index, busy := 0, false;
      src, active, outgoing := [s[0], s[1]], [true, false], 0;
    }

    /** `swapOne(node)`: nothing while busy; otherwise become busy, advance the index
        modulo the number of sources and load it into the other image, which joins the
        active one; the active image, which keeps its picture, is the one to leave. */
    method SwapOne()
      requires Valid()
      modifies this`index, this`busy, this`src, this`active, this`outgoing
      ensures Valid()
      ensures old(busy) ==> index == old(index) && busy && src == old(src) && active == old(active)
      ensures !old(busy) ==> busy && index == NextIndex(old(index), |sources|)
      ensures !old(busy) ==>
        && outgoing == (if old(active[0]) then 0 else 1)
        && old(active)[outgoing]
        && src[outgoing] == old(src)[outgoing] && src[1 - outgoing] == sources[index]
        && active == [true, true]
    {
      if busy {
        return;
      }
      var cur := if active[0] then 0 else if active[1] then 1 else 0;
      var other := 1 - cur;
      busy := true;
      index := (index + 1) % |sources|;
      src := src[other := sources[index]];
      active := active[other := true];
      outgoing := cur;
    }

    /** The 260 ms timer of a swap: the outgoing image loses "is-active" and the frame is
        idle again, showing the new picture. */
    method SwapDone()
      requires Valid() && busy
      modifies this`busy, this`active
      ensures Valid()
      ensures !busy && index == old(index) && src == old(src)
      ensures active == old(active)[outgoing := false]
    {
      active := active[outgoing := false];
      busy := false;
    }
  }

  /** The interval timer of the cycling: `timer` (0 for none) and the intervals the window
      is running. */
  class Ticker {
    var timer: int
    var running: seq<int>

    /** The id kept in `timer` is the one running interval, if any. */
    predicate Valid()
      reads this
    {
      && timer >= 0
      && (timer == 0 <==> running == [])
      && (timer != 0 ==> running == [timer])
    }

    constructor ()
      ensures Valid() && timer == 0
    {
      timer, running := 0, [];
    }

    /** `start()`: nothing when a timer is set; else `setInterval`, which returns the
        positive id `id`. */
    method Start(id: int)
      requires Valid() && id > 0
      modifies this
      ensures Valid() && |running| == 1
      ensures old(timer) != 0 ==> timer == old(timer) && running == old(running)
      ensures old(timer) == 0 ==> timer == id
    {
      if timer != 0 {
        return;
      }
      timer := id;
      running := running + [id];
    }

    /** `stop()`: nothing when no timer is set; else clear it and forget the id. */
    method Stop()
      requires Valid()
      modifies this
      ensures Valid() && timer == 0 && running == []
    {
      if timer == 0 {
        return;
      }
      running := [];
      timer := 0;
    }

    /** The first timeout, one interval after the start: the photos swap once unless the
        tab is hidden (`ticked`), and the interval starts either way. */
    method FirstDelayFires(hidden: bool, id: int) returns (ticked: bool)
      requires Valid() && id > 0
      modifies this
      ensures Valid() && |running| == 1
      ensures ticked == !hidden
      ensures old(timer) != 0 ==> timer == old(timer) && running == old(running)
      ensures old(timer) == 0 ==> timer == id
    {
      ticked := !hidden;
      Start(id);
    }

    /** The `visibilitychange` handler. */
    method VisibilityChange(hidden: bool, id: int)
      requires Valid() && id > 0
      modifies this
      ensures Valid()
      ensures hidden ==> running == []
      ensures !hidden ==> |running| == 1
    {
      if hidden {
        Stop();
      } else {
        Start(id);
      }
    }
  }
}
