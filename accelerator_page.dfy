/** The accelerator timeline (public/assets/js/accelerator-page.js): a row of week
    buttons, one of them current, and a detail card that shows the current week's
    eyebrow, title and bullet points. The module variable `current` is clamped into
    the programme table, and the card is redrawn at once under reduced motion or by a
    170 ms timer otherwise. */
module AcceleratorPage {
  import opened Wrappers
  import opened Strings
  import opened UiCommon

  /** One row of the programme table. */
  datatype Week = Week(eyebrow: String, title: String, bullets: seq<String>)

  /** The detail card: the eyebrow and title texts and the list items, in order. */
  datatype Detail = Detail(eyebrow: String, title: String, items: seq<String>)

  /** `getActiveIndex()`: the first step carrying "is-active", or 0 when none does. */
  function ActiveIndex(steps: seq<Toggle>): (r: nat)
    ensures (forall i | 0 <= i < |steps| :: !steps[i].active) ==> r == 0
    ensures (exists i | 0 <= i < |steps| :: steps[i].active) ==>
      r < |steps| && steps[r].active && forall j | 0 <= j < r :: !steps[j].active
  {
    var idx := FindFirst(steps, IsActive);
    if idx >= 0 then idx else 0
  }

  /** What `renderDetail(i)` draws: the row at `i`, or the first row for an index the
      table does not have (`DATA[i] || DATA[0]`), with exactly that row's bullets. */
  function DetailOf(data: seq<Week>, i: int): (d: Detail)
    requires |data| > 0
    ensures 0 <= i < |data| ==> d == Detail(data[i].eyebrow, data[i].title, data[i].bullets)
    ensures !(0 <= i < |data|) ==> d == Detail(data[0].eyebrow, data[0].title, data[0].bullets)
  {
    var row := if 0 <= i < |data| then data[i] else data[0];
    Detail(row.eyebrow, row.title, row.bullets)
  }

  /** The index a key asks `setActive` for, before clamping; `None` for keys the handler
      ignores. */
  function KeyTarget(key: Key, current: int, last: int): (r: Option<int>)
    ensures r.None? <==> key !in {ArrowRight, ArrowDown, ArrowLeft, ArrowUp, Home, End}
    ensures key in {ArrowRight, ArrowDown} ==> r == Some(current + 1)
    ensures key in {ArrowLeft, ArrowUp} ==> r == Some(current - 1)
    ensures key == Home ==> r == Some(0)
    ensures key == End ==> r == Some(last)
  {
    match key
    case ArrowRight => Some(current + 1)
    case ArrowDown => Some(current + 1)
    case ArrowLeft => Some(current - 1)
    case ArrowUp => Some(current - 1)
    case Home => Some(0)
    case End => Some(last)
    case _ => None
  }

  /** `current` after a key press on a table of `n` rows. */
  function AfterKey(key: Key, current: int, n: nat): int
    requires n > 0
  {
    var t := KeyTarget(key, current, n - 1);
    if t.None? then current else Clamp(t.value, 0, n - 1)
  }

  /** Every key leaves `current` inside the table; the arrows move by one step and stop
      at the ends; Home and End reach the ends. */
  lemma KeysStayInRange(key: Key, current: int, n: nat)
    requires n > 0 && 0 <= current < n
    ensures 0 <= AfterKey(key, current, n) < n
    ensures key in {ArrowRight, ArrowDown} ==> AfterKey(key, current, n) == if current == n - 1 then current else current + 1
    ensures key in {ArrowLeft, ArrowUp} ==> AfterKey(key, current, n) == if current == 0 then 0 else current - 1
    ensures key == Home ==> AfterKey(key, current, n) == 0
    ensures key == End ==> AfterKey(key, current, n) == n - 1
  {
  }

  /** A right arrow followed by a left arrow comes back, except at the last week. */
  lemma RightThenLeft(current: int, n: nat)
    requires n > 0 && 0 <= current < n - 1
    ensures AfterKey(ArrowLeft, AfterKey(ArrowRight, current, n), n) == current
  {
  }

  /** The bullets loop of `renderDetail`: one list item per bullet, in order. */
  method BuildItems(bullets: seq<String>) returns (items: seq<String>)
    ensures items == bullets
  {
    items := [];
    var k := 0;
    while k < |bullets|
      invariant 0 <= k <= |bullets|
      invariant items == bullets[..k]
    {
      items := items + [bullets[k]];
      k := k + 1;
    }
  }

  /** `renderDetail(i)` as a computation of the new card. */
  method RenderDetail(data: seq<Week>, i: int) returns (d: Detail)
    requires |data| > 0
    ensures d == DetailOf(data, i)
  {
    var row := if 0 <= i < |data| then data[i] else data[0];
    var items := BuildItems(row.bullets);
    d := Detail(row.eyebrow, row.title, items);
  }

  class Timeline {
    /** The programme table `DATA`. */
    const data: seq<Week>
    const reducedMotion: bool
    /** The week buttons' marks. */
    var steps: seq<Toggle>
    var current: int
    var detail: Detail
    /** The card's "is-swapping" class. */
    var swapping: bool
    /** Redraw timers set by `setActive` that have not fired yet. */
    var pending: nat
    /** The step that was last focused by the script. */
    var focused: Option<nat>

    /** The state the script keeps once it has run its init: `current` is a row of the
        table, exactly the step at `current` is marked, and with no redraw pending the
        card shows the current row and is not swapping. */
    predicate Valid()
      reads this
    {
      && |data| > 0
      && 0 <= current < |data|
      && steps == OnlyAt(|steps|, current)
      && (reducedMotion ==> pending == 0)
      && (pending == 0 ==> !swapping && detail == DetailOf(data, current))
    }

    /** The script's start: `current = clamp(getActiveIndex(), 0, DATA.length - 1)`,
        then `setActiveInitial()` marks the steps and draws the card. */
    constructor (table: seq<Week>, initial: seq<Toggle>, reduced: bool)
      requires |table| > 0 && |initial| > 0
      ensures Valid()
      ensures data == table && reducedMotion == reduced
      ensures current == Clamp(ActiveIndex(initial), 0, |table| - 1)
      ensures |steps| == |initial| && pending == 0 && focused == None
    {
      var c := Clamp(ActiveIndex(initial), 0, |table| - 1);
      var marks := MarkOnly(initial, c);
      var d := RenderDetail(table, c);
      data, reducedMotion := table, reduced;
      steps, current, detail := marks, c, d;
      swapping, pending, focused := false, 0, None;
    }

    /** `setActive(i, shouldFocus)`. A target that clamps to the current week changes
        nothing. Otherwise exactly the new step is marked, it is focused when asked and
        present, and the card is redrawn now (reduced motion) or a redraw is scheduled
        behind the "is-swapping" class. */
    method SetActive(i: int, shouldFocus: bool)
      requires Valid()
      modifies this`steps, this`current, this`detail, this`swapping, this`pending, this`focused
      ensures Valid()
      ensures Clamp(i, 0, |data| - 1) == old(current) ==>
        steps == old(steps) && current == old(current) && detail == old(detail)
        && swapping == old(swapping) && pending == old(pending) && focused == old(focused)
      ensures Clamp(i, 0, |data| - 1) != old(current) ==>
        && current == Clamp(i, 0, |data| - 1)
        && steps == OnlyAt(|old(steps)|, current)
        && focused == (if shouldFocus && current < |steps| then Some(current) else old(focused))
        && (reducedMotion ==> detail == DetailOf(data, current) && pending == 0)
        && (!reducedMotion ==> swapping && pending == old(pending) + 1 && detail == old(detail))
    {
      var next := Clamp(i, 0, |data| - 1);
      if next == current {
        return;
      }
      current := next;
      steps := MarkOnly(steps, current);
      if shouldFocus && current < |steps| {
        focused := Some(current);
      }
      if reducedMotion {
        detail := RenderDetail(data, current);
        return;
      }
      swapping := true;
      pending := pending + 1;
    }

    /** One of the 170 ms timers fires: it draws the week that is current at that moment,
        and its animation frames take the "is-swapping" class off again. */
    method RedrawFires()
      requires Valid() && pending > 0
      modifies this`detail, this`swapping, this`pending
      ensures Valid()
      ensures pending == old(pending) - 1
      ensures detail == DetailOf(data, current) && !swapping
    {
      detail := RenderDetail(data, current);
      swapping := false;
      pending := pending - 1;
    }

    /** A click on step `idx`: `setActive(idx, true)`. A click on the current week
        changes nothing; any other click makes the clicked week, clamped into the table,
        the only marked one, focuses its step and redraws its card, now or by a pending
        redraw. */
    method Click(idx: nat)
      requires Valid() && idx < |steps|
      modifies this`steps, this`current, this`detail, this`swapping, this`pending, this`focused
      ensures Valid()
      ensures current == Clamp(idx, 0, |data| - 1)
      ensures current == old(current) ==>
        steps == old(steps) && detail == old(detail) && swapping == old(swapping)
        && pending == old(pending) && focused == old(focused)
      ensures current != old(current) ==>
        && steps == OnlyAt(|old(steps)|, current)
        && focused == (if current < |steps| then Some(current) else old(focused))
        && (reducedMotion ==> detail == DetailOf(data, current) && pending == 0)
        && (!reducedMotion ==> swapping && pending == old(pending) + 1 && detail == old(detail))
    {
      SetActive(idx, true);
    }

    /** The keydown handler of a step: the arrows move by one week, Home and End jump to
        the ends of the table, other keys are ignored. */
    method KeyDown(key: Key)
      requires Valid()
      modifies this`steps, this`current, this`detail, this`swapping, this`pending, this`focused
      ensures Valid()
      ensures current == AfterKey(key, old(current), |data|)
      ensures KeyTarget(key, old(current), |data| - 1).None? ==>
        steps == old(steps) && detail == old(detail) && swapping == old(swapping)
        && pending == old(pending) && focused == old(focused)
      ensures KeyTarget(key, old(current), |data| - 1).Some? && current == old(current) ==>
        steps == old(steps) && detail == old(detail) && swapping == old(swapping)
        && pending == old(pending) && focused == old(focused)
      ensures KeyTarget(key, old(current), |data| - 1).Some? && current != old(current) ==>
        && steps == OnlyAt(|old(steps)|, current)
        && focused == (if current < |steps| then Some(current) else old(focused))
        && (reducedMotion ==> detail == DetailOf(data, current) && pending == 0)
        && (!reducedMotion ==> swapping && pending == old(pending) + 1 && detail == old(detail))
    {
      var t := KeyTarget(key, current, |data| - 1);
      if t.Some? {
        SetActive(t.value, true);
      }
    }
  }
}
