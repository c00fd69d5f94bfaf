/** The render pass of the lazy tab container: it walks the tab list in
    order and wraps every loaded tab in the visibility gate, asking the gate
    to show only the selected one. */
module TabRender {
  import opened TabMount
  import VisibilityGate

  /** One rendered tab: its index and the visibility flag given to its gate. */
  datatype Pane = Pane(index: nat, visible: bool)

  /** Panes are emitted in tab order, each index at most once. */
  predicate Ascending(panes: seq<Pane>) {
    forall j, k :: 0 <= j < k < |panes| ==> panes[j].index < panes[k].index
  }

  /** The tab indices that have a pane. */
  function Indices(panes: seq<Pane>): set<nat> {
    if |panes| == 0 then {} else {panes[0].index} + Indices(panes[1..])
  }

  /** An index smaller than every pane's has no pane. */
  lemma {:induction false} IndicesAbove(panes: seq<Pane>, x: nat)
    requires forall k :: 0 <= k < |panes| ==> x < panes[k].index
    ensures x !in Indices(panes)
  {
    if |panes| > 0 {
      IndicesAbove(panes[1..], x);
    }
  }

  /** Number of panes whose gate is asked to show them. */
  function VisibleCount(panes: seq<Pane>): nat {
    if |panes| == 0 then 0
    else (if panes[0].visible then 1 else 0) + VisibleCount(panes[1..])
  }

  /** The panes for tabs `from` up to `n - 1`. */
  function RenderFrom(loaded: set<nat>, sel: nat, n: nat, from: nat): (panes: seq<Pane>)
    ensures Ascending(panes)
    ensures forall k :: 0 <= k < |panes| ==>
      from <= panes[k].index < n && panes[k].index in loaded
    ensures forall i :: i in Indices(panes) <==> i in loaded && from <= i < n
    ensures forall k :: 0 <= k < |panes| ==> panes[k].visible == (panes[k].index == sel)
    decreases n - from
  {
    if from >= n then []
    else
      var rest := RenderFrom(loaded, sel, n, from + 1);
      if from in loaded then
        var panes := [Pane(from, from == sel)] + rest;
        assert forall k :: 0 <= k < |rest| ==> panes[k + 1] == rest[k];
        assert panes[1..] == rest;
        panes
      else rest
  }

  /** The panes drawn for `n` tabs: only tabs that are loaded and within the
      tab list get a pane, every such tab gets exactly one, in tab order, and
      a pane is visible exactly when it is the selected tab. */
  function Render(loaded: set<nat>, sel: nat, n: nat): (panes: seq<Pane>)
    ensures Ascending(panes)
    ensures Indices(panes) == set i | i in loaded && i < n
    ensures forall k :: 0 <= k < |panes| ==> panes[k].visible == (panes[k].index == sel)
  {
    RenderFrom(loaded, sel, n, 0)
  }

  /** In an ordered pane list where only the selected tab is visible, at most
      one pane is visible, and one is when the selected tab has a pane. */
  lemma {:induction false} VisibleCountIsSelected(panes: seq<Pane>, sel: nat)
    requires Ascending(panes)
    requires forall k :: 0 <= k < |panes| ==> panes[k].visible == (panes[k].index == sel)
    ensures VisibleCount(panes) == if sel in Indices(panes) then 1 else 0
  {
    if |panes| > 0 {
      var rest := panes[1..];
      assert forall k :: 0 <= k < |rest| ==> rest[k] == panes[k + 1];
      VisibleCountIsSelected(rest, sel);
      if panes[0].index == sel {
        IndicesAbove(rest, sel);
      }
    }
  }

  /** After a reconciliation step exactly one rendered pane is visible, and it
      is the selected tab's. */
  lemma ExactlyOneVisible(loaded: set<nat>, sel: nat, n: nat, preload: bool, persist: bool)
    requires sel < n
    ensures var panes := Render(Reconcile(loaded, sel, n, preload, persist), sel, n);
      VisibleCount(panes) == 1 && sel in Indices(panes)
  {
    var panes := Render(Reconcile(loaded, sel, n, preload, persist), sel, n);
    VisibleCountIsSelected(panes, sel);
  }

  /** The pass composed right after a selection change still sees the loaded
      set from before the effects ran: it shows one pane if the selection is
      already loaded and in range, and none otherwise. */
  lemma FirstPassVisibleCount(loaded: set<nat>, sel: nat, n: nat)
    ensures VisibleCount(Render(loaded, sel, n)) == if sel in loaded && sel < n then 1 else 0
  {
    VisibleCountIsSelected(Render(loaded, sel, n), sel);
  }

  /** After a reconciliation step the selected tab's pane is stacked strictly
      above every other pane, and it is the only opaque and the only clickable
      one. */
  lemma SelectedPaneOnTop(loaded: set<nat>, sel: nat, n: nat, preload: bool, persist: bool)
    requires sel < n
    ensures var panes := Render(Reconcile(loaded, sel, n, preload, persist), sel, n);
      forall j, k :: 0 <= j < |panes| && 0 <= k < |panes| && panes[j].index == sel && k != j ==>
        && VisibilityGate.Gate(panes[j].visible).zIndex > VisibilityGate.Gate(panes[k].visible).zIndex
        && VisibilityGate.Gate(panes[j].visible).alpha == 1.0
        && VisibilityGate.Gate(panes[k].visible).alpha == 0.0
        && !VisibilityGate.Gate(panes[k].visible).clickable
  {
    var panes := Render(Reconcile(loaded, sel, n, preload, persist), sel, n);
    forall j, k | 0 <= j < |panes| && 0 <= k < |panes| && panes[j].index == sel && k != j
      ensures !panes[k].visible
    {
      if j < k {
        assert panes[j].index < panes[k].index;
      } else {
        assert panes[k].index < panes[j].index;
      }
    }
  }
}
