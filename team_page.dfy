/** The team "process" block (public/assets/js/team-page.js): a list of stage panels,
    the one marked "is-active" being selected, optional mobile tabs that mirror the
    selection, and a mobile stage that shows the selected panel's step, title, text and
    image. The selection lives only in the panels' classes. */
module TeamPage {
  import opened Wrappers
  import opened Strings
  import opened UiCommon

  /** What the script reads from one panel: `data-step` and `data-img` ("" when
      absent), and the text of its heading and paragraph (`None` when the node is
      missing). */
  datatype PanelSource = PanelSource(step: String, heading: Option<String>, para: Option<String>, img: String)

  /** `getPanelData(panel, i)`. */
  datatype PanelData = PanelData(step: String, title: String, copy: String, img: String)

  /** A panel's "is-active" class, `aria-pressed` and `tabindex`. */
  datatype PanelMark = PanelMark(active: bool, pressed: bool, tabIndex: int)

  /** A mobile tab: its caption and marks. */
  datatype MobileTab = MobileTab(caption: String, mark: Toggle)

  /** The mobile stage after `renderStage`: the image only for a non-empty `img`, the
      eyebrow, the heading, and the paragraph only for non-empty copy. */
  datatype StageView = StageView(image: Option<String>, eyebrow: String, title: String, copy: Option<String>)

  const DefaultTitle: String := "Этап"

  /** `safeText(node)`: the trimmed text, "" for a missing node. */
  function SafeText(node: Option<String>): (s: String)
    ensures Trimmed(s)
    ensures node.None? ==> s == ""
  {
    if node.Some? then Trim(node.value) else ""
  }

  /** `String(n).padStart(2, "0")`. */
  function PadTwo(s: String): (r: String)
    ensures |s| >= 2 ==> r == s
    ensures |s| < 2 ==> |r| == 2 && r[2 - |s|..] == s && forall k | 0 <= k < 2 - |s| :: r[k] == '0'
  {
    if |s| >= 2 then s else seq(2 - |s|, k => '0') + s
  }

  /** The step label of `getPanelData(panel, index)`: the trimmed `data-step`, else the
      one-based position padded to two digits. */
  function StepOf(p: PanelSource, index: nat): (step: String)
    ensures Trim(p.step) != "" ==> step == Trim(p.step)
    ensures Trim(p.step) == "" ==> step == PadTwo(NatToString(index + 1))
    ensures step != ""
  {
    if Trim(p.step) != "" then Trim(p.step) else PadTwo(NatToString(index + 1))
  }

  /** `getPanelData(panel, fallbackIndex)`. */
  function PanelDataOf(p: PanelSource, index: nat): (d: PanelData)
    ensures d.step == StepOf(p, index)
    ensures d.title == if SafeText(p.heading) != "" then SafeText(p.heading) else DefaultTitle
    ensures d.copy == SafeText(p.para) && d.img == Trim(p.img)
  {
    var title := if SafeText(p.heading) != "" then SafeText(p.heading) else DefaultTitle;
    PanelData(StepOf(p, index), title, SafeText(p.para), Trim(p.img))
  }

  /** A panel without `data-step` among the first nine gets "0" followed by its
      one-based position. */
  lemma FallbackStepIsPadded(p: PanelSource, index: nat)
    requires Trim(p.step) == "" && index < 9
    ensures StepOf(p, index) == ['0', DigitChar(index + 1)]
  {
    assert NatToString(index + 1) == [DigitChar(index + 1)];
  }

  /** `renderStage(data)`. */
  function StageOf(d: PanelData): (v: StageView)
    ensures v.image.Some? <==> d.img != ""
    ensures v.image.Some? ==> v.image.value == d.img
    ensures v.copy.Some? <==> d.copy != ""
    ensures v.copy.Some? ==> v.copy.value == d.copy
    ensures v.eyebrow == "Этап " + d.step && v.title == d.title
  {
    StageView(
      if d.img != "" then Some(d.img) else None,
      "Этап " + d.step,
      d.title,
      if d.copy != "" then Some(d.copy) else None)
  }

  /** The panel marks with exactly the one at `k` selected. */
  function PanelMarks(n: nat, k: int): (r: seq<PanelMark>)
    ensures |r| == n
    ensures forall i | 0 <= i < n :: r[i] == PanelMark(i == k, i == k, if i == k then 0 else -1)
  {
    seq(n, i requires 0 <= i < n => PanelMark(i == k, i == k, if i == k then 0 else -1))
  }

  /** The mobile tabs with labels kept and exactly the one at `k` marked. */
  function TabMarks(tabs: seq<MobileTab>, k: int): (r: seq<MobileTab>)
    ensures |r| == |tabs|
    ensures forall i | 0 <= i < |r| :: r[i] == MobileTab(tabs[i].caption, Toggle(i == k, i == k))
  {
    seq(|tabs|, i requires 0 <= i < |tabs| => MobileTab(tabs[i].caption, Toggle(i == k, i == k)))
  }

  /** `findIndex` over the panels' class. */
  function ActivePanel(marks: seq<PanelMark>): (r: int)
    ensures -1 <= r < |marks|
    ensures r >= 0 ==> marks[r].active && forall j | 0 <= j < r :: !marks[j].active
    ensures r == -1 <==> forall j | 0 <= j < |marks| :: !marks[j].active
  {
    FindFirst(marks, (m: PanelMark) => m.active)
  }

  /** After marking panel `k`, exactly it is active and it alone is in the tab order,
      and the keyboard handler's `findIndex` finds it. */
  lemma PanelMarksExactlyOne(n: nat, k: int)
    requires 0 <= k < n
    ensures ActivePanel(PanelMarks(n, k)) == k
    ensures forall i | 0 <= i < n :: (PanelMarks(n, k)[i].active <==> i == k)
    ensures forall i | 0 <= i < n :: (PanelMarks(n, k)[i].tabIndex == 0 <==> i == k)
  {
    var r := PanelMarks(n, k);
    assert r[k].active;
    assert forall j | 0 <= j < k :: !r[j].active;
  }

  /** The index the keyboard handler passes to `setActive`, from the panel found active
      (`current`, -1 for none); `None` for the keys it ignores. */
  function KeyTarget(key: Key, current: int, n: nat): (r: Option<int>)
    requires n > 0 && -1 <= current < n
    ensures r.None? <==> key !in {ArrowLeft, ArrowRight, Home, End}
    ensures r.Some? ==> 0 <= r.value < n
    ensures key == ArrowLeft ==> r == Some(if current <= 0 then 0 else current - 1)
    ensures key == ArrowRight ==> r == Some(if current == -1 then Clamp(1, 0, n - 1) else Clamp(current + 1, 0, n - 1))
    ensures key == Home ==> r == Some(0)
    ensures key == End ==> r == Some(n - 1)
  {
    var next := if current >= 0 then current else 0;
    match key
    case ArrowLeft => Some(if next - 1 < 0 then 0 else next - 1)
    case ArrowRight => Some(if n - 1 < next + 1 then n - 1 else next + 1)
    case Home => Some(0)
    case End => Some(n - 1)
    case _ => None
  }

  /** The index `setActive` settles on: `Math.max(0, Math.min(n - 1, Number(x) || 0))`;
      the callers pass integers, for which `Number(x) || 0` is `x`. */
  function SelectedIndex(x: int, n: nat): (r: int)
    requires n > 0
    ensures 0 <= r < n
    ensures 0 <= x < n ==> r == x
    ensures x < 0 ==> r == 0
  {
    Clamp(x, 0, n - 1)
  }

  /** The initial `findIndex(...) || 0` keeps -1 (it is truthy), and `setActive` then
      clamps it to the first panel. */
  lemma NoActivePanelStartsAtFirst(marks: seq<PanelMark>)
    requires |marks| > 0 && forall j | 0 <= j < |marks| :: !marks[j].active
    ensures ActivePanel(marks) == -1
    ensures SelectedIndex(ActivePanel(marks), |marks|) == 0
  {
  }

  /** The button `buildMobileTabs` creates for panel `i`: labelled with the panel's
      step, not pressed. */
  function NewTab(p: PanelSource, i: nat): MobileTab {
    MobileTab(StepOf(p, i), Toggle(false, false))
  }

  /** The mobile tabs `buildMobileTabs` creates: one per panel, in order. */
  method BuildMobileTabs(panels: seq<PanelSource>) returns (tabs: seq<MobileTab>)
    ensures |tabs| == |panels|
    ensures forall i | 0 <= i < |tabs| :: tabs[i] == NewTab(panels[i], i)
  {
    tabs := [];
    var i := 0;
    while i < |panels|
      invariant 0 <= i <= |panels| && |tabs| == i
      invariant forall j | 0 <= j < i :: tabs[j] == NewTab(panels[j], j)
    {
      var t := NewTab(panels[i], i);
      tabs := tabs + [t];
      i := i + 1;
    }
  }

  /** The panels loop of `setActive`. */
  method MarkPanels(marks: seq<PanelMark>, k: int) returns (r: seq<PanelMark>)
    ensures r == PanelMarks(|marks|, k)
  {
    r := marks;
    var i := 0;
    while i < |r|
      invariant 0 <= i <= |r| == |marks|
      invariant forall j | 0 <= j < i :: r[j] == PanelMark(j == k, j == k, if j == k then 0 else -1)
    {
      var hit := i == k;
      r := r[i := PanelMark(hit, hit, if hit then 0 else -1)];
      i := i + 1;
    }
  }

  /** The mobile tabs loop of `setActive`. */
  method MarkTabs(tabs: seq<MobileTab>, k: int) returns (r: seq<MobileTab>)
    ensures r == TabMarks(tabs, k)
  {
    r := tabs;
    var i := 0;
    while i < |r|
      invariant 0 <= i <= |r| == |tabs|
      invariant forall j | 0 <= j < i :: r[j] == MobileTab(tabs[j].caption, Toggle(j == k, j == k))
      invariant forall j | i <= j < |r| :: r[j] == tabs[j]
    {
      var hit := i == k;
      r := r[i := MobileTab(r[i].caption, Toggle(hit, hit))];
      i := i + 1;
    }
  }

  class Process {
    const panels: seq<PanelSource>
    /** `#process-mobile-tabs` and `#process-mobile-stage` exist. */
    const hasTabsHost: bool
    const hasStage: bool
    var marks: seq<PanelMark>
    var mobileTabs: seq<MobileTab>
    var stage: Option<StageView>
    var focused: Option<nat>
    /** The panel that is selected, as the classes say. */
    ghost var selected: int

    /** After the script's init: one mark per panel with exactly the selected one active
        and alone in the tab order, the mobile tabs (when their host exists) one per
        panel and mirroring the selection, and the stage showing that panel. */
    ghost predicate Valid()
      reads this
    {
      && |panels| > 0
      && 0 <= selected < |panels|
      && marks == PanelMarks(|panels|, selected)
      && (hasTabsHost ==> |mobileTabs| == |panels| && forall i | 0 <= i < |mobileTabs| ::
            mobileTabs[i] == NewTab(panels[i], i).(mark := Toggle(i == selected, i == selected)))
      && (!hasTabsHost ==> mobileTabs == [])
      && (hasStage ==> stage == Some(StageOf(PanelDataOf(panels[selected], selected))))
      && (!hasStage ==> stage == None)
    }

    /** `setActive(nextIndex, focus)` on a page whose init has run. */
    method SetActive(x: int, focus: bool)
      requires Valid()
      modifies this`marks, this`mobileTabs, this`stage, this`focused, this`selected
      ensures Valid()
      ensures selected == SelectedIndex(x, |panels|)
      ensures focused == if focus then Some(selected as nat) else old(focused)
    {
      var idx := SelectedIndex(x, |panels|);
      var m := MarkPanels(marks, idx);
      var t := mobileTabs;
      if hasTabsHost {
        t := MarkTabs(mobileTabs, idx);
      }
      var s := stage;
      if hasStage {
        s := Some(StageOf(PanelDataOf(panels[idx], idx)));
      }
      marks, mobileTabs, stage, selected := m, t, s, idx;
      if focus {
        focused := Some(idx);
      }
    }

    /** The script's init: build the mobile tabs, then `setActive(initial, false)` with
        `initial` the markup's first active panel (-1 for none). */
    constructor (source: seq<PanelSource>, initial: seq<PanelMark>, tabsHost: bool, stageNode: bool)
      requires |source| > 0 && |initial| == |source|
      ensures Valid()
      ensures panels == source && hasTabsHost == tabsHost && hasStage == stageNode
      ensures selected == SelectedIndex(ActivePanel(initial), |source|)
      ensures focused == None
    {
      var idx := SelectedIndex(ActivePanel(initial), |source|);
      var m := MarkPanels(initial, idx);
      var t: seq<MobileTab> := [];
      if tabsHost {
        var built := BuildMobileTabs(source);
        t := MarkTabs(built, idx);
      }
      var s: Option<StageView> := None;
      if stageNode {
        s := Some(StageOf(PanelDataOf(source[idx], idx)));
      }
      panels, hasTabsHost, hasStage := source, tabsHost, stageNode;
      marks, mobileTabs, stage, focused := m, t, s, None;
      selected := idx;
    }

    /** A click on panel `i` or on mobile tab `i`: `setActive(i, false)`. */
    method Click(i: nat)
      requires Valid() && i < |panels|
      modifies this`marks, this`mobileTabs, this`stage, this`focused, this`selected
      ensures Valid()
      ensures selected == i && focused == old(focused)
    {
      SetActive(i, false);
    }

    /** The panels' keydown handler: it reads the active panel back from the classes. */
    method KeyDown(key: Key)
      requires Valid()
      modifies this`marks, this`mobileTabs, this`stage, this`focused, this`selected
      ensures Valid()
      ensures var t := KeyTarget(key, old(selected), |panels|);
        && (t.None? ==>
              marks == old(marks) && mobileTabs == old(mobileTabs) && stage == old(stage)
              && focused == old(focused) && selected == old(selected))
        && (t.Some? ==> selected == t.value && focused == Some(selected as nat))
    {
      PanelMarksExactlyOne(|panels|, selected);
      var current := ActivePanel(marks);
      var t := KeyTarget(key, current, |panels|);
      if t.Some? {
        SetActive(t.value, true);
      }
    }
  }
}
