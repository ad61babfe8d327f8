/** The show/hide guard of `pub.tooltip`, for one element: the closure
    variable `tooltip` holds the node created on show, and the node is either
    attached to the document body or not. */
module SvxTooltip {
  import opened JsCore

  class Tooltip {
    /** The `tooltip` variable: `null`, or the id of the node it holds. */
    var tip: Option<nat>
    /** Whether that node has a parent (it was appended to the body). */
    var attached: bool
    /** How many nodes this element has created, which is the next node's id. */
    var created: nat

    predicate Valid()
      reads this
    {
      (tip.None? ==> !attached) && (tip.Some? ==> tip.value < created)
    }

    constructor()
      ensures Valid() && tip == None && created == 0
    {
      tip, attached, created := None, false, 0;
    }

    /** `showTooltip`: does nothing while a node is held; otherwise creates a
        node, appends it to the body and holds it. */
    method Show()
      requires Valid()
      modifies this
      ensures Valid()
      ensures old(tip).Some? ==> tip == old(tip) && attached == old(attached) && created == old(created)
      ensures old(tip).None? ==> tip == Some(old(created)) && attached && created == old(created) + 1
    {
      if tip.Some? {
        return;
      }
      tip := Some(created);
      created := created + 1;
      attached := true;
    }

    /** `hideTooltip`: removes the node and lets go of it, but only when a
        node is held and still attached. */
    method Hide()
      requires Valid()
      modifies this
      ensures Valid()
      ensures old(tip).Some? && old(attached) ==> tip == None && !attached && created == old(created)
      ensures !(old(tip).Some? && old(attached)) ==>
                tip == old(tip) && attached == old(attached) && created == old(created)
    {
      if tip.Some? && attached {
        attached := false;
        tip := None;
      }
    }

    /** Something else removes the node from the document. */
    method Detach()
      requires Valid()
      modifies this
      ensures Valid()
      ensures tip == old(tip) && !attached && created == old(created)
    {
      attached := false;
    }
  }

  /** From any state that holds no node, a show followed by a hide comes
      back to holding no node, with exactly one more node created. */
  method ShowThenHide(t: Tooltip)
    requires t.Valid() && t.tip.None?
    modifies t
    ensures t.Valid() && t.tip == None && !t.attached && t.created == old(t.created) + 1
  {
    t.Show();
    t.Hide();
  }

  /** Once the held node has been removed by someone else, the guard is
      stuck: whatever sequence of shows (`true`) and hides (`false`)
      follows, the detached node stays held and no node is created. */
  method DetachedStaysStuck(t: Tooltip, calls: seq<bool>)
    requires t.Valid() && t.tip.Some? && !t.attached
    modifies t
    ensures t.Valid() && t.tip == old(t.tip) && !t.attached && t.created == old(t.created)
  {
    for n := 0 to |calls|
      invariant t.Valid() && t.tip == old(t.tip) && !t.attached && t.created == old(t.created)
    {
      if calls[n] {
        t.Show();
      } else {
        t.Hide();
      }
    }
  }
}
