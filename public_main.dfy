/** What public/assets/js/main.js adds to the shared shell: the seven-section scroll-spy
    with "numbers" highlighting the "about" link, the staggered delays and the one-time
    observer binding of the scroll animations, and the contacts typewriter that types,
    holds and erases a list of phrases in turn. */
module PublicMain {
  import opened Wrappers
  import opened Strings
  import opened JsValues
  import opened SiteShell

  // ---------------------------------------------------------------- scroll-spy

  /** The home sections in page order. */
  const MenuSectionIds: seq<String> := ["about", "numbers", "team", "events", "products", "faq", "contacts"]

  /** The "numbers" block has no menu entry of its own: it lights up "about". */
  function MappedSection(id: String): (r: String)
    ensures id != "numbers" ==> r == id
    ensures r != "numbers"
  {
    if id == "numbers" then "about" else id
  }

  /** The section the scroll position picks. */
  function SpyPick(top: String -> Option<int>, trigger: int): String {
    var k := LastReached(MenuSectionIds, top, trigger);
    if k.Some? then MenuSectionIds[k.value] else MenuSectionIds[0]
  }

  /** `setActiveMenuItem(id)`: the links pointing at the mapped section are active, the
      others are not. */
  method SetActiveMenuItem(links: seq<NavLink>, id: String) returns (r: seq<NavLink>)
    ensures |r| == |links|
    ensures forall i | 0 <= i < |r| ::
      r[i].href == links[i].href && (r[i].active <==> links[i].href == "#" + MappedSection(id))
  {
    r := MarkSection(links, MappedSection(id));
  }

  /** `refreshActiveMenuItem()`. */
  method RefreshActiveMenuItem(links: seq<NavLink>, top: String -> Option<int>, trigger: int) returns (r: seq<NavLink>)
    ensures |r| == |links|
    ensures forall i | 0 <= i < |r| ::
      r[i].href == links[i].href && (r[i].active <==> links[i].href == "#" + MappedSection(SpyPick(top, trigger)))
  {
    var activeId := RefreshActive(MenuSectionIds, top, trigger);
    r := SetActiveMenuItem(links, activeId);
  }

  /** A "#numbers" link is never the highlighted one, and with no section above the
      trigger line the "about" link is. */
  lemma SpyHighlights(top: String -> Option<int>, trigger: int)
    ensures "#" + MappedSection(SpyPick(top, trigger)) != "#numbers"
    ensures (forall j | 0 <= j < |MenuSectionIds| :: !Reached(top, trigger, MenuSectionIds[j])) ==>
      MappedSection(SpyPick(top, trigger)) == "about"
  {
    var m := MappedSection(SpyPick(top, trigger));
    assert ("#" + m)[1..] == m;
  }

  /** The click handler of an in-page link: `setActiveMenuItem(href.replace("#", ""))`,
      so "#numbers" lights the "#about" links; other links change nothing. */
  method ClickMenuLink(links: seq<NavLink>, href: String) returns (r: seq<NavLink>)
    ensures HashTarget(href).None? ==> r == links
    ensures HashTarget(href).Some? && href != "#numbers" ==>
      |r| == |links| && forall i | 0 <= i < |r| :: r[i].href == links[i].href && (r[i].active <==> links[i].href == href)
    ensures href == "#numbers" ==>
      |r| == |links| && forall i | 0 <= i < |r| :: r[i].href == links[i].href && (r[i].active <==> links[i].href == "#about")
  {
    var target := HashTarget(href);
    if target.None? {
      return links;
    }
    r := SetActiveMenuItem(links, target.value);
    assert target.value != "numbers" ==> "#" + MappedSection(target.value) == href;
    assert target.value == "numbers" <==> href == "#numbers";
  }

  // ---------------------------------------------------------------- stagger

  const DefaultDelayStep: real := 90.0

  /** `Number(container.dataset.stagger) || DEFAULT_DELAY_STEP`. */
  function StaggerStep(rt: Runtime, attr: String): (step: Number)
    ensures step != NaN && step != Finite(0.0)
    ensures rt.parseNumber(attr) == NaN || rt.parseNumber(attr) == Finite(0.0) ==> step == Finite(DefaultDelayStep)
    ensures Truthy(Num(rt.parseNumber(attr))) ==> step == rt.parseNumber(attr)
  {
    var n := ToNumber(rt, Str(attr));
    if Truthy(Num(n)) then n else Finite(DefaultDelayStep)
  }

  /** `i * step` in double arithmetic, rounding aside: an infinite step gives `NaN` for
      the first element and an infinite delay after it. */
  function Scale(i: nat, step: Number): (r: Number)
    ensures step.Finite? ==> r.Finite?
    ensures i == 0 && step.Finite? ==> r == Finite(0.0)
    ensures i == 0 && !step.Finite? ==> r == NaN
    ensures i > 0 && !step.Finite? ==> r == step
  {
    match step
    case Finite(v) => Finite(i as real * v)
    case NaN => NaN
    case Infinity => if i == 0 then NaN else Infinity
    case NegInfinity => if i == 0 then NaN else NegInfinity
  }

  /** With a positive step every element waits longer than the one before it. */
  lemma DelaysGrow(i: nat, j: nat, step: Number)
    requires i < j && step.Finite? && step.value > 0.0
    ensures Scale(i, step).value < Scale(j, step).value
  {
    assert j as real * step.value == i as real * step.value + (j - i) as real * step.value;
  }

  /** A `[data-stagger]` container: its attribute and the `--sa-delay` of each animated
      element inside it, in document order, `""` when unset. */
  datatype Container = Container(stagger: String, delays: seq<String>)

  /** `String(i * step) + "ms"`. */
  function DelayText(rt: Runtime, i: nat, step: Number): (t: String)
    ensures t != [] && IsSuffix("ms", t)
  {
    var t := rt.numberText(Scale(i, step)) + "ms";
    assert t[|t| - 2..] == "ms";
    t
  }

  /** The delays `applyStagger` leaves in a container: a delay already set is kept, the
      `i`-th unset one becomes `i` steps. */
  function Staggered(rt: Runtime, c: Container): (r: seq<String>)
    ensures |r| == |c.delays|
    ensures forall i | 0 <= i < |r| :: c.delays[i] != [] ==> r[i] == c.delays[i]
    ensures forall i | 0 <= i < |r| :: c.delays[i] == [] ==> r[i] == DelayText(rt, i, StaggerStep(rt, c.stagger))
    ensures forall i | 0 <= i < |r| :: r[i] != []
  {
    var step := StaggerStep(rt, c.stagger);
    seq(|c.delays|, i requires 0 <= i < |c.delays| => if c.delays[i] != [] then c.delays[i] else DelayText(rt, i, step))
  }

  /** A second `applyStagger` over the same elements changes nothing. */
  lemma StaggerIdempotent(rt: Runtime, c: Container)
    ensures Staggered(rt, c.(delays := Staggered(rt, c))) == Staggered(rt, c)
  {
  }

  /** `applyStagger(root)`: each container's animated elements, in order. */
  method ApplyStagger(rt: Runtime, containers: seq<Container>) returns (r: seq<Container>)
    ensures |r| == |containers|
    ensures forall k | 0 <= k < |r| :: r[k] == containers[k].(delays := Staggered(rt, containers[k]))
  {
    r := containers;
    var k := 0;
    while k < |r|
      invariant 0 <= k <= |r| == |containers|
      invariant forall j | 0 <= j < k :: r[j] == containers[j].(delays := Staggered(rt, containers[j]))
      invariant forall j | k <= j < |r| :: r[j] == containers[j]
    {
      var c := r[k];
      var step := StaggerStep(rt, c.stagger);
      var delays := c.delays;
      var i := 0;
      while i < |delays|
        invariant 0 <= i <= |delays| == |c.delays|
        invariant forall j | 0 <= j < i :: delays[j] == Staggered(rt, c)[j]
        invariant forall j | i <= j < |delays| :: delays[j] == c.delays[j]
      {
        if delays[i] == [] {
          delays := delays[i := DelayText(rt, i, step)];
        }
        i := i + 1;
      }
      r := r[k := c.(delays := delays)];
      k := k + 1;
    }
  }

  // ---------------------------------------------------------------- bind

  /** An animated element: its `data-sa-bound` flag, its "is-inview" class and how many
      times it has been handed to the observer. */
  datatype Animated = Animated(bound: bool, inView: bool, observations: nat)

  /** The flag records exactly whether the element is observed, and nothing is observed
      twice. */
  predicate ObservedOnce(e: Animated) {
    e.observations == if e.bound then 1 else 0
  }

  /** `bind(root)` after `applyStagger`: under reduced motion or without an observer
      every element is shown at once; otherwise each element not bound yet is bound and
      observed, and bound ones are skipped. */
  method Bind(els: seq<Animated>, reducedMotion: bool, hasObserver: bool) returns (r: seq<Animated>)
    ensures |r| == |els|
    ensures reducedMotion || !hasObserver ==> forall i | 0 <= i < |r| :: r[i] == els[i].(inView := true)
    ensures !reducedMotion && hasObserver ==> forall i | 0 <= i < |r| ::
      r[i].bound && r[i].inView == els[i].inView
      && r[i].observations == if els[i].bound then els[i].observations else els[i].observations + 1
    ensures (forall i | 0 <= i < |els| :: ObservedOnce(els[i])) ==> forall i | 0 <= i < |r| :: ObservedOnce(r[i])
  {
    r := els;
    var i := 0;
    if reducedMotion || !hasObserver {
      while i < |r|
        invariant 0 <= i <= |r| == |els|
        invariant forall j | 0 <= j < i :: r[j] == els[j].(inView := true)
        invariant forall j | i <= j < |r| :: r[j] == els[j]
      {
        r := r[i := r[i].(inView := true)];
        i := i + 1;
      }
      return;
    }
    while i < |r|
      invariant 0 <= i <= |r| == |els|
      invariant forall j | 0 <= j < i :: r[j] == if els[j].bound then els[j] else els[j].(bound := true, observations := els[j].observations + 1)
      invariant forall j | i <= j < |r| :: r[j] == els[j]
    {
      if !r[i].bound {
        r := r[i := r[i].(bound := true, observations := r[i].observations + 1)];
      }
      i := i + 1;
    }
  }

  // ---------------------------------------------------------------- typewriter

  /** `data-phrases` split on "|", trimmed, empty pieces dropped. */
  function Phrases(attr: Option<String>): (ps: seq<String>)
    ensures forall k | 0 <= k < |ps| :: ps[k] != [] && Trimmed(ps[k])
  {
    SplitTrimNonEmpty(if attr.Some? then attr.value else "", '|')
  }

  datatype Mode = Type | Hold | Erase

  /** The closure's `phraseIndex`, `charIndex`, `mode` and the node's text. */
  datatype Typing = Typing(phraseIndex: nat, charIndex: int, mode: Mode, text: String)

  /** The states the machine moves through: the phrase index is in range, the count is
      within the phrase, typing stops short of the end, holding sits at the end,
      erasing has something left, and once a character is shown the text is that many
      characters of the phrase. Before the first character the node's text is whatever
      it held. */
  predicate Ready(phrases: seq<String>, s: Typing) {
    && |phrases| > 0 && (forall k | 0 <= k < |phrases| :: phrases[k] != [])
    && s.phraseIndex < |phrases|
    && 0 <= s.charIndex <= |phrases[s.phraseIndex]|
    && (s.mode == Type ==> s.charIndex < |phrases[s.phraseIndex]|)
    && (s.mode == Hold ==> s.charIndex == |phrases[s.phraseIndex]|)
    && (s.mode == Erase ==> s.charIndex > 0)
    && (s.charIndex > 0 ==> s.text == phrases[s.phraseIndex][..s.charIndex])
  }

  /** `(phraseIndex + 1) % phrases.length`. */
  function NextPhrase(p: nat, n: nat): (r: nat)
    requires p < n
    ensures r < n
    ensures p < n - 1 ==> r == p + 1
    ensures p == n - 1 ==> r == 0
  {
    (p + 1) % n
  }

  /** One `tick()`: typing adds a character and holds at the end, holding turns to
      erasing, erasing takes two characters off and, once nothing is left, clears the
      text and starts typing the next phrase. */
  function Step(phrases: seq<String>, s: Typing): (t: Typing)
    requires Ready(phrases, s)
    ensures Ready(phrases, t)
  {
    var phrase := phrases[s.phraseIndex];
    match s.mode
    case Type =>
      var c := s.charIndex + 1;
      Typing(s.phraseIndex, c, if c >= |phrase| then Hold else Type, phrase[..c])
    case Hold => s.(mode := Erase)
    case Erase =>
      var c := s.charIndex - 2;
      if c <= 0 then Typing(NextPhrase(s.phraseIndex, |phrases|), 0, Type, "")
      else Typing(s.phraseIndex, c, Erase, phrase[..c])
  }

  /** `n` ticks in a row. */
  function Steps(phrases: seq<String>, s: Typing, n: nat): (t: Typing)
    requires Ready(phrases, s)
    ensures Ready(phrases, t)
    decreases n
  {
    if n == 0 then s else Steps(phrases, Step(phrases, s), n - 1)
  }

  lemma {:induction false} StepsAdd(phrases: seq<String>, s: Typing, a: nat, b: nat)
    requires Ready(phrases, s)
    ensures Steps(phrases, s, a + b) == Steps(phrases, Steps(phrases, s, a), b)
    decreases a
  {
    if a > 0 {
      StepsAdd(phrases, Step(phrases, s), a - 1, b);
    }
  }

  /** Typing from `c` characters reaches the whole phrase, held, after the remaining
      characters' worth of ticks. */
  lemma {:induction false} TypesToEnd(phrases: seq<String>, s: Typing)
    requires Ready(phrases, s) && s.mode == Type
    ensures var L := |phrases[s.phraseIndex]|;
      Steps(phrases, s, L - s.charIndex)
        == Typing(s.phraseIndex, L, Hold, phrases[s.phraseIndex])
    decreases |phrases[s.phraseIndex]| - s.charIndex
  {
    var phrase := phrases[s.phraseIndex];
    var t := Step(phrases, s);
    if s.charIndex + 1 < |phrase| {
      TypesToEnd(phrases, t);
    } else {
      assert phrase[..|phrase|] == phrase;
    }
  }

  /** Erasing from `c` characters takes `(c + 1) / 2` ticks and ends on an empty text,
      typing the next phrase from scratch. */
  lemma {:induction false} ErasesToNext(phrases: seq<String>, s: Typing)
    requires Ready(phrases, s) && s.mode == Erase
    ensures Steps(phrases, s, (s.charIndex + 1) / 2)
      == Typing(NextPhrase(s.phraseIndex, |phrases|), 0, Type, "")
    decreases s.charIndex
  {
    var t := Step(phrases, s);
    if s.charIndex > 2 {
      ErasesToNext(phrases, t);
      assert (s.charIndex + 1) / 2 == (t.charIndex + 1) / 2 + 1;
    }
  }

  /** One full round: a phrase of `L` characters is typed in `L` ticks, held for one and
      erased in `(L + 1) / 2`, after which the next phrase starts from an empty text. */
  lemma FullRound(phrases: seq<String>, p: nat, text: String)
    requires |phrases| > 0 && (forall k | 0 <= k < |phrases| :: phrases[k] != []) && p < |phrases|
    ensures var L := |phrases[p]|;
      Steps(phrases, Typing(p, 0, Type, text), L + 1 + (L + 1) / 2)
        == Typing(NextPhrase(p, |phrases|), 0, Type, "")
  {
    var L := |phrases[p]|;
    var s := Typing(p, 0, Type, text);
    TypesToEnd(phrases, s);
    var held := Typing(p, L, Hold, phrases[p]);
    StepsAdd(phrases, s, L, 1 + (L + 1) / 2);
    StepsAdd(phrases, held, 1, (L + 1) / 2);
    assert Steps(phrases, held, 1) == Typing(p, L, Erase, phrases[p]);
    ErasesToNext(phrases, Typing(p, L, Erase, phrases[p]));
  }

  /** The machine starts ready at the first phrase with nothing typed. */
  lemma StartReady(phrases: seq<String>, text: String)
    requires |phrases| > 0 && forall k | 0 <= k < |phrases| :: phrases[k] != [] && Trimmed(phrases[k])
    ensures Ready(phrases, Typing(0, 0, Type, text))
  {
  }

  class Typewriter {
    /** The script ran past its early returns: home page, node present, some phrase,
        motion allowed. */
    const running: bool
    const phrases: seq<String>
    var phraseIndex: nat
    var charIndex: int
    var mode: Mode
    /** The node's `textContent`. */
    var text: String

    function State(): Typing
      reads this
    {
      Typing(phraseIndex, charIndex, mode, text)
    }

    predicate Valid()
      reads this
    {
      running ==> Ready(phrases, State())
    }

    /** `initContactsTypewriter()`: returns early off the home page, without the node or
        without phrases; under reduced motion shows the first phrase and stops;
        otherwise starts at the first phrase with nothing typed. */
    constructor (homePage: bool, nodePresent: bool, attr: Option<String>, reducedMotion: bool, initialText: String)
      ensures Valid()
      ensures phrases == Phrases(attr)
      ensures running <==> homePage && nodePresent && |Phrases(attr)| > 0 && !reducedMotion
      ensures homePage && nodePresent && |Phrases(attr)| > 0 && reducedMotion ==> text == Phrases(attr)[0]
      ensures !(homePage && nodePresent && |Phrases(attr)| > 0 && reducedMotion) ==> text == initialText
      ensures phraseIndex == 0 && charIndex == 0 && mode == Type
    {
      var ps := Phrases(attr);
      var run := homePage && nodePresent && |ps| > 0 && !reducedMotion;
      var shown := if homePage && nodePresent && |ps| > 0 && reducedMotion then ps[0] else initialText;
      if run {
        StartReady(ps, shown);
      }
      phrases, running := ps, run;
      phraseIndex, charIndex, mode, text := 0, 0, Type, shown;
    }

    /** A timer fires `tick()`. */
    method Tick()
      requires Valid() && running
      modifies this`phraseIndex, this`charIndex, this`mode, this`text
      ensures Valid()
      ensures State() == Step(phrases, old(State()))
    {
      var phrase := phrases[phraseIndex];
      if mode == Type {
        charIndex := charIndex + 1;
        text := phrase[..charIndex];
        if charIndex >= |phrase| {
          mode := Hold;
        }
        return;
      }
      if mode == Hold {
        mode := Erase;
        return;
      }
      charIndex := charIndex - 2;
      if charIndex <= 0 {
        text := "";
        charIndex := 0;
        phraseIndex := NextPhrase(phraseIndex, |phrases|);
        mode := Type;
        return;
      }
      text := phrase[..charIndex];
    }

    /** The page becomes visible again: the current phrase restarts from nothing. */
    method Shown()
      requires Valid() && running
      modifies this`charIndex, this`mode, this`text
      ensures Valid()
      ensures State() == Typing(old(phraseIndex), 0, Type, "")
    {
      mode, charIndex, text := Type, 0, "";
    }
  }
}
