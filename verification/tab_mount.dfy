/** The mount controller of the lazy tab container.

    The container keeps a persistent set of loaded tab indices. For the
    current selection it computes the indices that must be loaded (the
    selected tab and, with adjacent preloading, its in-range neighbours). A
    load effect adds them to the set; when tabs are not persisted an evict
    effect then drops every loaded index that is not required. The two
    effects are modelled as one synchronous reconciliation step. */
module TabMount {

  /** Every index of `s` names one of the `n` tabs. */
  predicate WithinTabs(s: set<nat>, n: nat) {
    forall i :: i in s ==> i < n
  }

  /** A set of indices all below `n` has at most `n` elements. */
  lemma {:induction false} WithinTabsBound(s: set<nat>, n: nat)
    requires WithinTabs(s, n)
    ensures |s| <= n
  {
    if n > 0 {
      var rest := s - {n - 1};
      WithinTabsBound(rest, n - 1);
      assert s <= rest + {n - 1};
    } else {
      assert s == {};
    }
  }

  /** Distance between two tab positions. */
  function Dist(a: nat, b: nat): nat {
    if a <= b then b - a else a - b
  }

  /** The tabs at most `radius` positions from `sel`, clipped to the tab
      range: an independent description of the required set. */
  function Window(sel: nat, n: nat, radius: nat): set<nat> {
    set i: nat | i < n && Dist(i, sel) <= radius
  }

  /** The indices that must be loaded for selection `sel` among `n` tabs:
      the selected tab, plus the previous one when it exists and the next one
      when it exists, if adjacent tabs are preloaded. The container does not
      check the selection, so a valid one is a precondition. */
  function Required(sel: nat, n: nat, preload: bool): (r: set<nat>)
    requires sel < n
    ensures sel in r
    ensures WithinTabs(r, n)
    ensures |r| <= 3
    ensures !preload ==> r == {sel}
    ensures n == 1 ==> r == {0}
    ensures preload && sel == 0 && 2 <= n ==> r == {0, 1}
    ensures preload && sel == n - 1 && 2 <= n ==> r == {n - 2, n - 1}
    ensures preload && 0 < sel < n - 1 ==> r == {sel - 1, sel, sel + 1} && |r| == 3
  {
    var before: set<nat> := if preload && sel > 0 then {sel - 1} else {};
    var after: set<nat> := if preload && sel < n - 1 then {sel + 1} else {};
    {sel} + before + after
  }

  /** The required set is exactly the window of radius 1 (with preloading)
      or 0 (without) around the selection. */
  lemma RequiredIsWindow(sel: nat, n: nat, preload: bool)
    requires sel < n
    ensures Required(sel, n, preload) == Window(sel, n, if preload then 1 else 0)
  {
    var r := Required(sel, n, preload);
    var w := Window(sel, n, if preload then 1 else 0);
    forall i: nat
      ensures i in r <==> i in w
    {
      if i in w {
        assert Dist(i, sel) <= 1;
        assert i == sel || (preload && (i + 1 == sel || i == sel + 1));
      }
    }
  }

  /** One reconciliation step: the load effect adds every required index and
      keeps every other entry; unless tabs are persisted, the evict effect
      then removes every loaded index that is not required. */
  function Reconcile(loaded: set<nat>, sel: nat, n: nat, preload: bool, persist: bool): (l: set<nat>)
    requires sel < n
    ensures Required(sel, n, preload) <= l
    ensures l <= loaded + Required(sel, n, preload)
    ensures persist ==> loaded <= l
    ensures !persist ==> l == Required(sel, n, preload)
    ensures sel in l
    ensures WithinTabs(loaded, n) ==> WithinTabs(l, n)
  {
    var toLoad := Required(sel, n, preload);
    var afterLoad := loaded + toLoad;
    if persist then afterLoad else afterLoad * toLoad
  }

  /** The two effects commute: evicting before loading gives the required
      set too, so their scheduling order does not matter. */
  lemma EffectOrderIrrelevant(loaded: set<nat>, sel: nat, n: nat, preload: bool)
    requires sel < n
    ensures var r := Required(sel, n, preload);
      (loaded * r) + r == Reconcile(loaded, sel, n, preload, false) == r
  {
  }

  /** Reconciling again with the same inputs changes nothing: the result is
      a fixed point. */
  lemma ReconcileIdempotent(loaded: set<nat>, sel: nat, n: nat, preload: bool, persist: bool)
    requires sel < n
    ensures var once := Reconcile(loaded, sel, n, preload, persist);
      Reconcile(once, sel, n, preload, persist) == once
  {
  }

  /** The load effect: marks each index of `toLoad` loaded, one at a time. */
  method LoadEffect(loaded: set<nat>, toLoad: set<nat>) returns (l: set<nat>)
    ensures toLoad <= l
    ensures forall i :: i in l && i !in toLoad ==> i in loaded
    ensures loaded <= l
  {
    l := loaded;
    var pending := toLoad;
    while pending != {}
      invariant pending <= toLoad
      invariant l == loaded + (toLoad - pending)
      decreases pending
    {
      var index :| index in pending;
      l := l + {index};
      pending := pending - {index};
    }
  }

  /** The evict effect: collects the loaded indices that are not in `keep`,
      then removes them one at a time. */
  method EvictEffect(loaded: set<nat>, keep: set<nat>) returns (l: set<nat>)
    ensures forall i :: i in l <==> i in loaded && i in keep
  {
    var toRemove := set i | i in loaded && i !in keep;
    l := loaded;
    var pending := toRemove;
    while pending != {}
      invariant pending <= toRemove
      invariant l == loaded - (toRemove - pending)
      decreases pending
    {
      var index :| index in pending;
      l := l - {index};
      pending := pending - {index};
    }
  }

  /** Both effects run in the container's order, load then (without
      persistence) evict; the outcome is the reconciliation step. */
  method RunEffects(loaded: set<nat>, sel: nat, n: nat, preload: bool, persist: bool) returns (l: set<nat>)
    requires sel < n
    ensures l == Reconcile(loaded, sel, n, preload, persist)
  {
    var toLoad := Required(sel, n, preload);
    l := LoadEffect(loaded, toLoad);
    if !persist {
      l := EvictEffect(l, toLoad);
    }
  }
}
