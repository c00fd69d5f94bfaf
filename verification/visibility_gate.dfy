/** The visibility gate of the lazy tab container.

    Every loaded tab is wrapped in the gate, which never removes its content:
    it only raises the visible pane above its siblings, makes the hidden ones
    fully transparent and turns their click handling off. The gate is a pure
    function of one boolean. */
module VisibilityGate {

  /** Stacking priority (z-index) of the visible pane and of a hidden one. */
  const ShownZIndex: real := 100.0
  const HiddenZIndex: real := 0.0

  /** What the gate applies to one pane: stacking priority, opacity
      (1 is opaque, 0 transparent) and whether clicks are enabled. */
  datatype Layer = Layer(zIndex: real, alpha: real, clickable: bool)

  /** The layer attributes for a pane that is (or is not) the visible one.
      The ordering of the two stacking priorities against each other is
      stated by `VisibleStacksAboveHidden`. */
  function Gate(visible: bool): (g: Layer)
    ensures g.clickable <==> visible
    ensures g.alpha == 1.0 <==> visible
    ensures g.alpha == 0.0 <==> !visible
    ensures 0.0 <= g.alpha <= 1.0
    ensures visible ==> g.zIndex > HiddenZIndex
    ensures !visible ==> g.zIndex < ShownZIndex
  {
    Layer(if visible then ShownZIndex else HiddenZIndex,
          if visible then 1.0 else 0.0,
          visible)
  }

  /** Whether a user perceives a layer: it is drawn with some opacity and
      takes clicks. */
  predicate Perceived(g: Layer) {
    g.alpha > 0.0 && g.clickable
  }

  /** The gate is faithful: a pane is perceived exactly when it was asked to
      be visible, so the flag can be read back from the layer. */
  lemma PerceivedIffVisible(visible: bool)
    ensures Perceived(Gate(visible)) <==> visible
  {
  }

  /** Visible content is stacked strictly above hidden content, whatever
      order the panes are drawn in. */
  lemma VisibleStacksAboveHidden()
    ensures Gate(true).zIndex > Gate(false).zIndex
  {
  }
}
