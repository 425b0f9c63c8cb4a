/** Pieces shared by the selectors of the page scripts: `Math.max(lo, Math.min(hi, n))`,
    the keys the handlers look at, `findIndex` over the "is-active" class, and the
    `forEach` that leaves exactly one element active with `aria-pressed` mirroring. */
module UiCommon {

  /** `Math.max(lo, Math.min(hi, n))` on integers. */
  function Clamp(n: int, lo: int, hi: int): (r: int)
    ensures lo <= r
    ensures lo <= hi ==> r <= hi
    ensures lo <= n <= hi ==> r == n
    ensures n < lo ==> r == lo
    ensures lo <= hi < n ==> r == hi
  {
    var m := if n < hi then n else hi;
    if m < lo then lo else m
  }

  /** The value of `KeyboardEvent.key`, as far as the handlers distinguish it. */
  datatype Key = ArrowLeft | ArrowRight | ArrowUp | ArrowDown | Home | End | Enter | Space | Escape | Tab | OtherKey

  /** A button's "is-active" class and its `aria-pressed` attribute. */
  datatype Toggle = Toggle(active: bool, pressed: bool)

  predicate IsActive(t: Toggle) {
    t.active
  }

  /** `Array.prototype.findIndex`: the first index whose element satisfies `p`, or -1. */
  function FindFirst<T>(s: seq<T>, p: T -> bool): (r: int)
    ensures -1 <= r < |s|
    ensures r >= 0 ==> p(s[r]) && forall j | 0 <= j < r :: !p(s[j])
    ensures r == -1 <==> forall j | 0 <= j < |s| :: !p(s[j])
  {
    if s == [] then -1
    else if p(s[0]) then 0
    else
      var k := FindFirst(s[1..], p);
      assert forall j | 1 <= j < |s| :: s[j] == s[1..][j - 1];
      if k == -1 then -1 else k + 1
  }

  /** The marks `forEach((btn, i) => { toggle("is-active", i === k); aria-pressed })`
      leaves on `n` buttons. */
  function OnlyAt(n: nat, k: int): (r: seq<Toggle>)
    ensures |r| == n
    ensures forall i | 0 <= i < n :: r[i].active == (i == k) && r[i].pressed == r[i].active
  {
    seq(n, i requires 0 <= i < n => Toggle(i == k, i == k))
  }

  /** With `k` in range exactly one button is active, it is the one at `k`, and
      `findIndex` over the class finds it again. */
  lemma OnlyAtExactlyOne(n: nat, k: int)
    requires 0 <= k < n
    ensures OnlyAt(n, k)[k].active
    ensures forall i, j | 0 <= i < n && 0 <= j < n && OnlyAt(n, k)[i].active && OnlyAt(n, k)[j].active :: i == j
    ensures FindFirst(OnlyAt(n, k), IsActive) == k
  {
    var r := OnlyAt(n, k);
    assert IsActive(r[k]);
    assert forall j | 0 <= j < k :: !IsActive(r[j]);
  }

  /** With `k` out of range no button is active. */
  lemma OnlyAtOutside(n: nat, k: int)
    requires k < 0 || n <= k
    ensures FindFirst(OnlyAt(n, k), IsActive) == -1
  {
    var r := OnlyAt(n, k);
    assert forall j | 0 <= j < n :: !IsActive(r[j]);
  }

  /** The toggle loop itself, over the buttons' current marks. */
  method MarkOnly(ts: seq<Toggle>, k: int) returns (r: seq<Toggle>)
    ensures r == OnlyAt(|ts|, k)
  {
    r := ts;
    var i := 0;
    while i < |r|
      invariant 0 <= i <= |r| == |ts|
      invariant forall j | 0 <= j < i :: r[j] == Toggle(j == k, j == k)
    {
      var hit := i == k;
      r := r[i := Toggle(hit, hit)];
      i := i + 1;
    }
  }
}
