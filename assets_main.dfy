/** What assets/js/main.js adds to the shared shell: a five-section scroll-spy without
    id remapping, and the stagger reveal of bullet lists, where every list item is
    delayed by 80 ms per position and a group, once seen, stays visible. */
module AssetsMain {
  import opened Wrappers
  import opened Strings
  import opened SiteShell

  // ---------------------------------------------------------------- scroll-spy

  /** The home sections in page order. */
  const MenuSectionIds: seq<String> := ["about", "team", "events", "products", "contacts"]

  /** The section the scroll position picks. */
  function SpyPick(top: String -> Option<int>, trigger: int): (id: String)
    ensures id in MenuSectionIds
    ensures LastReached(MenuSectionIds, top, trigger).None? ==> id == "about"
  {
    var k := LastReached(MenuSectionIds, top, trigger);
    if k.Some? then MenuSectionIds[k.value] else MenuSectionIds[0]
  }

  /** `refreshActiveMenuItem()`: a link is active exactly when it points at the picked
      section, under its own name. */
  method RefreshActiveMenuItem(links: seq<NavLink>, top: String -> Option<int>, trigger: int) returns (r: seq<NavLink>)
    ensures |r| == |links|
    ensures forall i | 0 <= i < |r| ::
      r[i].href == links[i].href && (r[i].active <==> links[i].href == "#" + SpyPick(top, trigger))
  {
    var activeId := RefreshActive(MenuSectionIds, top, trigger);
    r := MarkSection(links, activeId);
  }

  /** A click on an in-page link makes exactly the links with that `href` active. */
  method ClickMenuLink(links: seq<NavLink>, href: String) returns (r: seq<NavLink>)
    ensures HashTarget(href).None? ==> r == links
    ensures HashTarget(href).Some? ==>
      |r| == |links| && forall i | 0 <= i < |r| :: r[i].href == links[i].href && (r[i].active <==> links[i].href == href)
  {
    var target := HashTarget(href);
    if target.None? {
      return links;
    }
    r := MarkSection(links, target.value);
  }

  // ---------------------------------------------------------------- stagger reveal

  const ItemDelayMs: nat := 80

  /** `String(index * 80) + "ms"`. */
  function ItemDelay(index: nat): (t: String)
    ensures IsSuffix("ms", t) && |t| >= 3
  {
    var t := NatToString(index * ItemDelayMs) + "ms";
    assert t[|t| - 2..] == "ms";
    t
  }

  /** Different positions get different delays. */
  lemma ItemDelayInjective(i: nat, j: nat)
    requires ItemDelay(i) == ItemDelay(j)
    ensures i == j
  {
    var a := NatToString(i * ItemDelayMs);
    var b := NatToString(j * ItemDelayMs);
    assert a == ItemDelay(i)[..|ItemDelay(i)| - 2];
    assert b == ItemDelay(j)[..|ItemDelay(j)| - 2];
    NatToStringInjective(i * ItemDelayMs, j * ItemDelayMs);
  }

  /** A `[data-stagger]` group: the transition delay of each `li`, its "is-visible" class
      and whether the observer still watches it. */
  datatype Group = Group(delays: seq<String>, visible: bool, observed: bool)

  /** `initStaggerReveal()`: every item's delay is set from its position, and every group
      is observed. */
  method InitStaggerReveal(groups: seq<Group>) returns (r: seq<Group>)
    ensures |r| == |groups|
    ensures forall g | 0 <= g < |r| :: r[g].visible == groups[g].visible && r[g].observed
    ensures forall g | 0 <= g < |r| :: (|r[g].delays| == |groups[g].delays|
      && forall i | 0 <= i < |r[g].delays| :: r[g].delays[i] == ItemDelay(i))
  {
    r := groups;
    var g := 0;
    while g < |r|
      invariant 0 <= g <= |r| == |groups|
      invariant forall k | 0 <= k < g :: r[k].visible == groups[k].visible && r[k].observed
      invariant forall k | 0 <= k < g :: (|r[k].delays| == |groups[k].delays|
        && forall i | 0 <= i < |r[k].delays| :: r[k].delays[i] == ItemDelay(i))
      invariant forall k | g <= k < |r| :: r[k] == groups[k]
    {
      var delays := r[g].delays;
      var i := 0;
      while i < |delays|
        invariant 0 <= i <= |delays| == |groups[g].delays|
        invariant forall j | 0 <= j < i :: delays[j] == ItemDelay(j)
      {
        delays := delays[i := NatToString(i * ItemDelayMs) + "ms"];
        i := i + 1;
      }
      r := r[g := r[g].(delays := delays, observed := true)];
      g := g + 1;
    }
  }

  /** An observer entry for a group: an intersecting entry shows it and stops watching
      it; a group no longer watched gets no entries. */
  function OnEntry(g: Group, intersecting: bool): (h: Group)
    ensures h.delays == g.delays
    ensures g.observed && intersecting ==> h.visible && !h.observed
    ensures !(g.observed && intersecting) ==> h == g
  {
    if g.observed && intersecting then g.(visible := true, observed := false) else g
  }

  /** The group after a run of entries. */
  function Replay(g: Group, entries: seq<bool>): Group
    decreases |entries|
  {
    if entries == [] then g else Replay(OnEntry(g, entries[0]), entries[1..])
  }

  /** A visible group never turns invisible again. */
  lemma {:induction false} VisibleStays(g: Group, entries: seq<bool>)
    requires g.visible
    ensures Replay(g, entries).visible
    decreases |entries|
  {
    if entries != [] {
      VisibleStays(OnEntry(g, entries[0]), entries[1..]);
    }
  }

  /** A watched group that intersects at some point ends up visible and unwatched. */
  lemma {:induction false} SeenOnce(g: Group, entries: seq<bool>, k: nat)
    requires g.observed && k < |entries| && entries[k]
    ensures Replay(g, entries).visible && !Replay(g, entries).observed
    decreases |entries|
  {
    var h := OnEntry(g, entries[0]);
    if entries[0] {
      Unwatched(h, entries[1..]);
      VisibleStays(h, entries[1..]);
    } else {
      SeenOnce(h, entries[1..], k - 1);
    }
  }

  /** An unwatched group receives nothing more. */
  lemma {:induction false} Unwatched(g: Group, entries: seq<bool>)
    requires !g.observed
    ensures Replay(g, entries) == g
    decreases |entries|
  {
    if entries != [] {
      Unwatched(g, entries[1..]);
    }
  }
}
