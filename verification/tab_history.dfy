/** The mount controller over a session: the selection changes one after
    another, and every change is followed by one reconciliation step on the
    same persistent loaded set. */
module TabHistory {
  import opened TabMount

  /** Every selection of the session names one of the `n` tabs. */
  predicate ValidSelections(sels: seq<nat>, n: nat) {
    forall k :: 0 <= k < |sels| ==> sels[k] < n
  }

  /** The loaded set after reconciling for each selection of `sels` in turn. */
  function Run(loaded: set<nat>, sels: seq<nat>, n: nat, preload: bool, persist: bool): (l: set<nat>)
    requires ValidSelections(sels, n)
    ensures WithinTabs(loaded, n) ==> WithinTabs(l, n)
    ensures persist ==> loaded <= l
    ensures |sels| > 0 ==> sels[|sels| - 1] in l
    ensures !persist && |sels| > 0 ==> l == Required(sels[|sels| - 1], n, preload)
    decreases |sels|
  {
    if |sels| == 0 then loaded
    else Run(Reconcile(loaded, sels[0], n, preload, persist), sels[1..], n, preload, persist)
  }

  /** Every index required by some selection of `sels`. */
  function Covered(sels: seq<nat>, n: nat, preload: bool): set<nat>
    requires ValidSelections(sels, n)
    decreases |sels|
  {
    if |sels| == 0 then {}
    else Required(sels[0], n, preload) + Covered(sels[1..], n, preload)
  }

  /** A session can be split anywhere: running the whole is running the first
      part, then the rest from where it left off. */
  lemma {:induction false} RunAppend(loaded: set<nat>, a: seq<nat>, b: seq<nat>, n: nat, preload: bool, persist: bool)
    requires ValidSelections(a, n) && ValidSelections(b, n)
    ensures ValidSelections(a + b, n)
    ensures Run(loaded, a + b, n, preload, persist) == Run(Run(loaded, a, n, preload, persist), b, n, preload, persist)
    decreases |a|
  {
    if |a| > 0 {
      assert (a + b)[1..] == a[1..] + b;
      RunAppend(Reconcile(loaded, a[0], n, preload, persist), a[1..], b, n, preload, persist);
    } else {
      assert a + b == b;
    }
  }

  /** With persistent tabs the loaded set only grows along a session: the set
      after any prefix is contained in the set after any longer prefix. */
  lemma PersistNeverShrinks(loaded: set<nat>, sels: seq<nat>, j: nat, k: nat, n: nat, preload: bool)
    requires ValidSelections(sels, n)
    requires j <= k <= |sels|
    ensures Run(loaded, sels[..j], n, preload, true) <= Run(loaded, sels[..k], n, preload, true)
  {
    assert sels[..k] == sels[..j] + sels[j..k];
    RunAppend(loaded, sels[..j], sels[j..k], n, preload, true);
  }

  /** With persistent tabs the loaded set after a session is the initial set
      plus every index any of its selections required. */
  lemma {:induction false} PersistLoadsEverythingRequired(loaded: set<nat>, sels: seq<nat>, n: nat, preload: bool)
    requires ValidSelections(sels, n)
    ensures Run(loaded, sels, n, preload, true) == loaded + Covered(sels, n, preload)
    decreases |sels|
  {
    if |sels| > 0 {
      PersistLoadsEverythingRequired(Reconcile(loaded, sels[0], n, preload, true), sels[1..], n, preload);
    }
  }

  /** Starting from indices of real tabs, the loaded set never holds more
      entries than there are tabs. */
  lemma RunSizeBound(loaded: set<nat>, sels: seq<nat>, n: nat, preload: bool, persist: bool)
    requires ValidSelections(sels, n)
    requires WithinTabs(loaded, n)
    ensures |Run(loaded, sels, n, preload, persist)| <= n
  {
    WithinTabsBound(Run(loaded, sels, n, preload, persist), n);
  }

  /** Selecting the current tab again is idle: the loaded set stays as it
      is. */
  lemma ReselectIsIdle(loaded: set<nat>, sels: seq<nat>, n: nat, preload: bool, persist: bool)
    requires ValidSelections(sels, n)
    requires |sels| > 0
    ensures ValidSelections(sels + [sels[|sels| - 1]], n)
    ensures Run(loaded, sels + [sels[|sels| - 1]], n, preload, persist) == Run(loaded, sels, n, preload, persist)
  {
    var last := sels[|sels| - 1];
    var prefix := sels[..|sels| - 1];
    assert sels == prefix + [last];
    RunAppend(loaded, prefix, [last], n, preload, persist);
    RunAppend(loaded, sels, [last], n, preload, persist);
    var before := Run(loaded, prefix, n, preload, persist);
    ReconcileIdempotent(before, last, n, preload, persist);
  }

  /** Three tabs, no preloading, persistent: selecting 0, 1, 2 loads {0},
      then {0, 1}, then {0, 1, 2}. */
  lemma ScenarioPersistentSwitch()
    ensures Run({}, [0], 3, false, true) == {0}
    ensures Run({}, [0, 1], 3, false, true) == {0, 1}
    ensures Run({}, [0, 1, 2], 3, false, true) == {0, 1, 2}
  {
  }

  /** Three tabs, no preloading, not persistent: selecting 0, 1, 2 leaves
      {0}, then {1}, then {2} loaded. */
  lemma ScenarioEvictingSwitch()
    ensures Run({}, [0], 3, false, false) == {0}
    ensures Run({}, [0, 1], 3, false, false) == {1}
    ensures Run({}, [0, 1, 2], 3, false, false) == {2}
  {
  }

  /** Preloading follows only the selections actually made: jumping from the
      first to the third of five tabs never loads the fifth. */
  lemma ScenarioPreloadJump()
    ensures Run({}, [0], 5, true, true) == {0, 1}
    ensures Run({}, [0, 2], 5, true, true) == {0, 1, 2, 3}
  {
  }
}
