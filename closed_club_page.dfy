/** The closed-club format switcher (public/assets/js/closed-club-page.js): a row of
    format tabs, the index `currentIdx` of the shown one, and a stage with the format's
    title, text, image and tag pills, looked up by the tab's `data-format` key. */
module ClosedClubPage {
  import opened Wrappers
  import opened Strings
  import opened UiCommon

  /** One entry of the format table `DATA`. */
  datatype Format = Format(title: String, text: String, imgSrc: String, imgAlt: String, tags: seq<String>)

  /** The stage: texts, image attributes and the pills, in order. */
  datatype Stage = Stage(title: String, text: String, imgSrc: String, imgAlt: String, pills: seq<String>)

  /** A format tab: its `data-format` ("" when absent) and its marks. */
  datatype Tab = Tab(format: String, mark: Toggle)

  const DefaultKey: String := "mastermind"

  /** The table holds the fallback row the script reads as `DATA.mastermind`. */
  predicate HasDefault(data: map<String, Format>) {
    DefaultKey in data
  }

  /** `clampIndex(n)` for a list of `count` tabs. */
  function ClampIndex(n: int, count: nat): (r: int)
    ensures count > 0 ==> 0 <= r < count
    ensures 0 <= n < count ==> r == n
    ensures n < 0 ==> r == 0
    ensures 0 <= n && count <= n ==> r == count - 1
  {
    if n < 0 then 0
    else if n >= count then count - 1
    else n
  }

  /** `getKeyByIndex(idx)`: the tab's `data-format`, or "mastermind" for a missing tab or
      an empty attribute. */
  function KeyByIndex(tabs: seq<Tab>, idx: int): (key: String)
    ensures key != ""
    ensures 0 <= idx < |tabs| && tabs[idx].format != "" ==> key == tabs[idx].format
    ensures !(0 <= idx < |tabs|) || tabs[idx].format == "" ==> key == DefaultKey
  {
    if 0 <= idx < |tabs| && tabs[idx].format != "" then tabs[idx].format else DefaultKey
  }

  /** The row `render(key)` uses: `DATA[key] || DATA.mastermind`. */
  function RowFor(data: map<String, Format>, key: String): (row: Format)
    requires HasDefault(data)
    ensures key in data ==> row == data[key]
    ensures key !in data ==> row == data[DefaultKey]
  {
    if key in data then data[key] else data[DefaultKey]
  }

  /** What `render(key)` leaves on the stage: exactly the row's texts and image, and one
      pill per tag, in order, replacing the earlier ones. */
  function StageFor(data: map<String, Format>, key: String): (s: Stage)
    requires HasDefault(data)
    ensures var row := RowFor(data, key);
      s.title == row.title && s.text == row.text && s.imgSrc == row.imgSrc && s.imgAlt == row.imgAlt
      && s.pills == row.tags
  {
    var row := RowFor(data, key);
    Stage(row.title, row.text, row.imgSrc, row.imgAlt, row.tags)
  }

  /** A key of the table is drawn as itself, anything else as the mastermind row. */
  lemma UnknownKeyShowsMastermind(data: map<String, Format>, key: String)
    requires HasDefault(data) && key !in data
    ensures StageFor(data, key) == StageFor(data, DefaultKey)
  {
  }

  /** The initial `currentIdx = Math.max(0, findIndex(is-active))`. */
  function InitialIndex(tabs: seq<Tab>): (r: nat)
    ensures |tabs| > 0 ==> r < |tabs|
    ensures (forall i | 0 <= i < |tabs| :: !tabs[i].mark.active) ==> r == 0
    ensures (exists i | 0 <= i < |tabs| :: tabs[i].mark.active) ==>
      tabs[r].mark.active && forall j | 0 <= j < r :: !tabs[j].mark.active
  {
    var idx := FindFirst(tabs, (t: Tab) => t.mark.active);
    if idx < 0 then 0 else idx
  }

  /** The index a key asks `setActiveByIndex` for, before clamping. */
  function KeyTarget(key: Key, current: int, count: nat): (r: Option<int>)
    ensures r.None? <==> key !in {ArrowDown, ArrowRight, ArrowUp, ArrowLeft, Home, End}
    ensures key in {ArrowDown, ArrowRight} ==> r == Some(current + 1)
    ensures key in {ArrowUp, ArrowLeft} ==> r == Some(current - 1)
    ensures key == Home ==> r == Some(0)
    ensures key == End ==> r == Some(count - 1)
  {
    match key
    case ArrowDown => Some(current + 1)
    case ArrowRight => Some(current + 1)
    case ArrowUp => Some(current - 1)
    case ArrowLeft => Some(current - 1)
    case Home => Some(0)
    case End => Some(count - 1)
    case _ => None
  }

  /** The tabs with their `data-format` kept and exactly the one at `k` marked. */
  function Marked(tabs: seq<Tab>, k: int): (r: seq<Tab>)
    ensures |r| == |tabs|
    ensures forall i | 0 <= i < |r| :: r[i].format == tabs[i].format && r[i].mark == Toggle(i == k, i == k)
  {
    seq(|tabs|, i requires 0 <= i < |tabs| => tabs[i].(mark := Toggle(i == k, i == k)))
  }

  /** With `k` a tab index, `findIndex` over the marked tabs finds `k` again, and it is
      the only active one. */
  lemma MarkedExactlyOne(tabs: seq<Tab>, k: int)
    requires 0 <= k < |tabs|
    ensures InitialIndex(Marked(tabs, k)) == k
    ensures forall i | 0 <= i < |tabs| :: Marked(tabs, k)[i].mark.active <==> i == k
  {
    var r := Marked(tabs, k);
    assert r[k].mark.active;
    assert forall j | 0 <= j < k :: !r[j].mark.active;
  }

  /** The `forEach` of `setActiveByIndex` and `init` over the tabs. */
  method MarkTabs(tabs: seq<Tab>, k: int) returns (r: seq<Tab>)
    ensures r == Marked(tabs, k)
  {
    r := tabs;
    var i := 0;
    while i < |r|
      invariant 0 <= i <= |r| == |tabs|
      invariant forall j | 0 <= j < i :: r[j] == tabs[j].(mark := Toggle(j == k, j == k))
      invariant forall j | i <= j < |r| :: r[j] == tabs[j]
    {
      var hit := i == k;
      r := r[i := r[i].(mark := Toggle(hit, hit))];
      i := i + 1;
    }
  }

  /** `render(key)`: the pills loop appends one span per tag after clearing the box. */
  method Render(data: map<String, Format>, key: String) returns (s: Stage)
    requires HasDefault(data)
    ensures s == StageFor(data, key)
  {
    var row := if key in data then data[key] else data[DefaultKey];
    var pills: seq<String> := [];
    var k := 0;
    while k < |row.tags|
      invariant 0 <= k <= |row.tags|
      invariant pills == row.tags[..k]
    {
      pills := pills + [row.tags[k]];
      k := k + 1;
    }
    s := Stage(row.title, row.text, row.imgSrc, row.imgAlt, pills);
  }

  class FormatSwitcher {
    /** The format table `DATA`. */
    const data: map<String, Format>
    const reducedMotion: bool
    var tabs: seq<Tab>
    var currentIdx: int
    var stage: Stage
    /** The stage's "is-swapping" class. */
    var swapping: bool
    /** Render timers not fired yet, each with the key it was set up for. */
    var pendingKeys: seq<String>
    var focused: Option<nat>

    /** After `init()`: there is a tab, `currentIdx` is one of them and the only active
        one, and with no render pending the stage shows the current tab's format. */
    predicate Valid()
      reads this
    {
      && HasDefault(data)
      && 0 <= currentIdx < |tabs|
      && (forall i | 0 <= i < |tabs| :: tabs[i].mark == Toggle(i == currentIdx, i == currentIdx))
      && (reducedMotion ==> pendingKeys == [])
      && (pendingKeys == [] ==> !swapping && stage == StageFor(data, KeyByIndex(tabs, currentIdx)))
      && (pendingKeys != [] ==> pendingKeys[|pendingKeys| - 1] == KeyByIndex(tabs, currentIdx))
    }

    /** The script's start: `currentIdx` from the markup, then `init()`. */
    constructor (table: map<String, Format>, initial: seq<Tab>, reduced: bool)
      requires HasDefault(table) && |initial| > 0
      ensures Valid()
      ensures data == table && reducedMotion == reduced
      ensures currentIdx == InitialIndex(initial)
      ensures |tabs| == |initial| && forall i | 0 <= i < |tabs| :: tabs[i].format == initial[i].format
      ensures pendingKeys == [] && focused == None
    {
      var c := InitialIndex(initial);
      var marked := MarkTabs(initial, c);
      var s := Render(table, KeyByIndex(initial, c));
      data, reducedMotion := table, reduced;
      tabs, currentIdx, stage := marked, c, s;
      swapping, pendingKeys, focused := false, [], None;
    }

    /** `setActiveByIndex(nextIdx, shouldFocus)`: a target that clamps to `currentIdx`
        changes nothing; otherwise exactly that tab becomes active, it takes the focus
        when asked, and its format is drawn now or after the swap timer. */
    method SetActiveByIndex(nextIdx: int, shouldFocus: bool)
      requires Valid()
      modifies this`tabs, this`currentIdx, this`stage, this`swapping, this`pendingKeys, this`focused
      ensures Valid()
      ensures |tabs| == |old(tabs)| && forall i | 0 <= i < |tabs| :: tabs[i].format == old(tabs[i].format)
      ensures ClampIndex(nextIdx, |old(tabs)|) == old(currentIdx) ==>
        tabs == old(tabs) && currentIdx == old(currentIdx) && stage == old(stage)
        && swapping == old(swapping) && pendingKeys == old(pendingKeys) && focused == old(focused)
      ensures ClampIndex(nextIdx, |old(tabs)|) != old(currentIdx) ==>
        && currentIdx == ClampIndex(nextIdx, |tabs|)
        && tabs == Marked(old(tabs), currentIdx)
        && focused == (if shouldFocus then Some(currentIdx as nat) else old(focused))
        && (reducedMotion ==> stage == StageFor(data, KeyByIndex(tabs, currentIdx)))
        && (!reducedMotion ==>
              swapping && stage == old(stage) && pendingKeys == old(pendingKeys) + [KeyByIndex(tabs, currentIdx)])
    {
      var idx := ClampIndex(nextIdx, |tabs|);
      if idx == currentIdx {
        return;
      }
      currentIdx := idx;
      var key := KeyByIndex(tabs, currentIdx);
      tabs := MarkTabs(tabs, currentIdx);
      if shouldFocus {
        focused := Some(currentIdx as nat);
      }
      if reducedMotion {
        stage := Render(data, key);
        return;
      }
      swapping := true;
      pendingKeys := pendingKeys + [key];
    }

    /** The oldest of the 170 ms timers fires: it draws the key it captured, and its
        animation frames take "is-swapping" off. */
    method RenderFires()
      requires Valid() && pendingKeys != []
      modifies this`stage, this`swapping, this`pendingKeys
      ensures Valid()
      ensures stage == StageFor(data, old(pendingKeys[0])) && !swapping
      ensures pendingKeys == old(pendingKeys[1..])
    {
      stage := Render(data, pendingKeys[0]);
      swapping := false;
      pendingKeys := pendingKeys[1..];
    }

    /** A click on tab `idx`: `setActiveByIndex(idx, true)`. A click on the current tab
        changes nothing; any other click makes the clicked tab the only active one,
        focuses it and draws its format, now or after the swap timer. */
    method Click(idx: nat)
      requires Valid() && idx < |tabs|
      modifies this`tabs, this`currentIdx, this`stage, this`swapping, this`pendingKeys, this`focused
      ensures Valid()
      ensures currentIdx == idx
      ensures idx == old(currentIdx) ==>
        tabs == old(tabs) && stage == old(stage) && swapping == old(swapping)
        && pendingKeys == old(pendingKeys) && focused == old(focused)
      ensures idx != old(currentIdx) ==>
        && tabs == Marked(old(tabs), idx)
        && focused == Some(idx)
        && (reducedMotion ==> stage == StageFor(data, KeyByIndex(tabs, idx)))
        && (!reducedMotion ==>
              swapping && stage == old(stage) && pendingKeys == old(pendingKeys) + [KeyByIndex(tabs, idx)])
    {
      SetActiveByIndex(idx, true);
    }

    /** The keydown handler of a tab: the arrows move by one tab, Home and End jump to
        the ends, other keys are ignored. A key that lands on the current tab changes
        nothing; any other makes its target the only active tab, focuses it and draws its
        format, now or after the swap timer, as `setActiveByIndex(.., true)` does. */
    method KeyDown(key: Key)
      requires Valid()
      modifies this`tabs, this`currentIdx, this`stage, this`swapping, this`pendingKeys, this`focused
      ensures Valid()
      ensures var t := KeyTarget(key, old(currentIdx), |old(tabs)|);
        currentIdx == if t.None? then old(currentIdx) else ClampIndex(t.value, |old(tabs)|)
      ensures currentIdx == old(currentIdx) ==>
        tabs == old(tabs) && stage == old(stage) && swapping == old(swapping)
        && pendingKeys == old(pendingKeys) && focused == old(focused)
      ensures currentIdx != old(currentIdx) ==>
        && tabs == Marked(old(tabs), currentIdx)
        && focused == Some(currentIdx as nat)
        && (reducedMotion ==> stage == StageFor(data, KeyByIndex(tabs, currentIdx)))
        && (!reducedMotion ==>
              swapping && stage == old(stage) && pendingKeys == old(pendingKeys) + [KeyByIndex(tabs, currentIdx)])
    {
      var t := KeyTarget(key, currentIdx, |tabs|);
      if t.Some? {
        SetActiveByIndex(t.value, true);
      }
    }
  }
}
