/** The state updates of ComPAC's small widgets: `clearForm`, the accordion
    and tab click handlers and the star rating. An element's class list is
    modelled by one boolean per element (is the `active`, or `hover`, class
    present), held in an array the handlers update in place. Selectors and
    event binding are left out: a handler is a method called with the index
    of the element the event fired on. */
module PacWidgets {
  import opened JsCore

  /** A form control: its `type` and the three properties `clearForm` writes. */
  datatype Control = Control(kind: string, value: string, checked: bool, selectedIndex: int)

  predicate IsTextual(kind: string)
  {
    kind == "text" || kind == "password" || kind == "textarea" || kind == "hidden"
  }

  predicate IsCheckable(kind: string)
  {
    kind == "checkbox" || kind == "radio"
  }

  predicate IsSelect(kind: string)
  {
    kind == "select-one" || kind == "select-multiple"
  }

  /** The `switch` on `element.type`: text-like controls lose their value,
      check boxes and radios are unchecked, selects lose their selection,
      and every other type (`email`, `number`, `date`, ...) is left alone. */
  function Cleared(c: Control): (r: Control)
    ensures r.kind == c.kind
    ensures IsTextual(c.kind) ==> r == c.(value := "")
    ensures IsCheckable(c.kind) ==> r == c.(checked := false)
    ensures IsSelect(c.kind) ==> r == c.(selectedIndex := -1)
    ensures !IsTextual(c.kind) && !IsCheckable(c.kind) && !IsSelect(c.kind) ==> r == c
  {
    match c.kind
    case "text" => c.(value := "")
    case "password" => c.(value := "")
    case "textarea" => c.(value := "")
    case "hidden" => c.(value := "")
    case "checkbox" => c.(checked := false)
    case "radio" => c.(checked := false)
    case "select-one" => c.(selectedIndex := -1)
    case "select-multiple" => c.(selectedIndex := -1)
    case _ => c
  }

  /** Clearing a cleared control changes nothing. */
  lemma ClearedIdempotent(c: Control)
    ensures Cleared(Cleared(c)) == Cleared(c)
  {
  }

  /** `pac.clearForm(form)`: nothing happens when the form is not found;
      otherwise every element is cleared in place. */
  method ClearForm(form: Option<array<Control>>)
    modifies if form.Some? then {form.value} else {}
    ensures form.Some? ==> forall i :: 0 <= i < form.value.Length ==> form.value[i] == Cleared(old(form.value[i]))
  {
    if form.None? {
      return;
    }
    var elements := form.value;
    for i := 0 to elements.Length
      invariant forall j :: 0 <= j < i ==> elements[j] == Cleared(old(elements[j]))
      invariant forall j :: i <= j < elements.Length ==> elements[j] == old(elements[j])
    {
      elements[i] := Cleared(elements[i]);
    }
  }

  /** No two elements are active. */
  predicate AtMostOne(s: seq<bool>)
  {
    forall i, j :: 0 <= i < |s| && 0 <= j < |s| && s[i] && s[j] ==> i == j
  }

  /** Exactly element `k` of `n` is active. */
  function OnlyAt(n: nat, k: int): (s: seq<bool>)
    ensures |s| == n
    ensures forall i :: 0 <= i < n ==> (s[i] <==> i == k)
  {
    seq(n, i => i == k)
  }

  /** The accordion header's click handler on item `index`, as a function of
      the items' states: in single mode every item is closed first, and the
      clicked item is then flipped against its state before the click. */
  function AccordionClick(s: seq<bool>, index: nat, multiple: bool): seq<bool>
    requires index < |s|
  {
    seq(|s|, i requires 0 <= i < |s| => if i == index then !s[index] else multiple && s[i])
  }

  /** The clicked item is open exactly when it was closed; in multiple mode
      the other items keep their states, in single mode they are closed, so
      at most one item is open afterwards whatever the state before. */
  lemma AccordionClickEffect(s: seq<bool>, index: nat, multiple: bool)
    requires index < |s|
    ensures var r := AccordionClick(s, index, multiple);
            |r| == |s| && (r[index] <==> !s[index]) &&
            (multiple ==> forall i :: 0 <= i < |s| && i != index ==> r[i] == s[i]) &&
            (!multiple ==> AtMostOne(r))
  {
  }

  /** In multiple mode two clicks on the same item restore every state; in
      single mode a second click closes everything if the first one opened
      the item. */
  lemma AccordionClickTwice(s: seq<bool>, index: nat, multiple: bool)
    requires index < |s|
    ensures multiple ==> AccordionClick(AccordionClick(s, index, multiple), index, multiple) == s
    ensures !multiple && !s[index] ==>
              AccordionClick(AccordionClick(s, index, multiple), index, multiple) == seq(|s|, i => false)
  {
  }

  class Accordion {
    /** Whether each item carries the active class. */
    const active: array<bool>
    const multiple: bool

    constructor(items: nat, multiple: bool)
      ensures active.Length == items && this.multiple == multiple
      ensures forall i :: 0 <= i < items ==> !active[i]
    {
      active := new bool[items](i => false);
      this.multiple := multiple;
    }

    /** The click handler of item `index`. */
    method Click(index: nat)
      requires index < active.Length
      modifies active
      ensures active[..] == AccordionClick(old(active[..]), index, multiple)
    {
      var isActive := active[index];
      if !multiple {
        forall i | 0 <= i < active.Length {
          active[i] := false;
        }
      }
      active[index] := !isActive;
    }
  }

  class Tabs {
    /** Whether each tab, and each content panel, carries the active class. */
    const tabActive: array<bool>
    const contentActive: array<bool>
    /** Each tab's `data-target`, resolved to the index of a panel; `None`
        when the attribute is missing or names no element. */
    const targets: seq<Option<nat>>

    predicate Valid()
    {
      |targets| == tabActive.Length && tabActive != contentActive
    }

    /** The panels a target leaves active: the one it names, if any. */
    static function Panels(m: nat, target: Option<nat>): (s: seq<bool>)
      ensures |s| == m
      ensures forall i :: 0 <= i < m ==> (s[i] <==> target == Some(i))
    {
      if target.Some? then OnlyAt(m, target.value) else seq(m, i => false)
    }

    /** `pac.tabs(...)` with `activateFirst` not `false`: when there is a
        tab, the first one is activated at set-up. */
    constructor(targets: seq<Option<nat>>, panels: nat, activateFirst: bool)
      ensures Valid() && this.targets == targets && contentActive.Length == panels
      ensures activateFirst && |targets| > 0 ==>
                tabActive[..] == OnlyAt(|targets|, 0) && contentActive[..] == Panels(panels, targets[0])
      ensures !(activateFirst && |targets| > 0) ==>
                tabActive[..] == seq(|targets|, i => false) && contentActive[..] == seq(panels, i => false)
    {
      this.targets := targets;
      var n := |targets|;
      var tabs := new bool[n](i => false);
      var contents := new bool[panels](i => false);
      if activateFirst && n > 0 {
        tabs[0] := true;
        var t := targets[0];
        if t.Some? && t.value < panels {
          contents[t.value] := true;
        }
      }
      tabActive := tabs;
      contentActive := contents;
      assert tabs[..] == seq(n, i => false) || tabs[..] == OnlyAt(n, 0);
    }

    /** The event handler of tab `k`: every tab and panel loses the class,
        then tab `k` and the panel its target names gain it. */
    method Activate(k: nat)
      requires Valid() && k < tabActive.Length
      modifies tabActive, contentActive
      ensures tabActive[..] == OnlyAt(tabActive.Length, k)
      ensures contentActive[..] == Panels(contentActive.Length, targets[k])
    {
      forall i | 0 <= i < tabActive.Length {
        tabActive[i] := false;
      }
      forall i | 0 <= i < contentActive.Length {
        contentActive[i] := false;
      }
      tabActive[k] := true;
      var target := targets[k];
      if target.Some? && target.value < contentActive.Length {
        contentActive[target.value] := true;
      }
    }
  }

  /** After any tab is activated exactly one tab is active and at most one
      panel is. */
  lemma TabsSingleActive(n: nat, k: nat, m: nat, target: Option<nat>)
    requires k < n
    ensures AtMostOne(OnlyAt(n, k)) && OnlyAt(n, k)[k]
    ensures AtMostOne(Tabs.Panels(m, target))
  {
  }

  /** The number of `true` entries. */
  function CountTrue(s: seq<bool>): (c: nat)
    ensures c <= |s|
  {
    if s == [] then 0 else CountTrue(s[..|s| - 1]) + (if s[|s| - 1] then 1 else 0)
  }

  /** The stars lit for a rating: the first `rating` of `n`. */
  function Lit(n: nat, rating: int): (s: seq<bool>)
    ensures |s| == n
    ensures forall i :: 0 <= i < n ==> (s[i] <==> i < rating)
  {
    seq(n, i => i < rating)
  }

  /** A rating between 0 and the number of stars lights exactly that many
      stars, and they form a prefix: no lit star follows an unlit one. */
  lemma {:induction false} LitCount(n: nat, rating: int)
    requires 0 <= rating <= n
    ensures CountTrue(Lit(n, rating)) == rating
    ensures forall i, j :: 0 <= i < j < n && Lit(n, rating)[j] ==> Lit(n, rating)[i]
  {
    if n > 0 {
      var s := Lit(n, rating);
      assert s[..n - 1] == Lit(n - 1, if rating == n then n - 1 else rating);
      LitCount(n - 1, if rating == n then n - 1 else rating);
    }
  }

  class StarRating {
    /** Whether each star carries the `active` and the `hover` class. */
    const active: array<bool>
    const hover: array<bool>
    const hoverEffect: bool
    /** Whether an `onChange` callback was given. */
    const notifies: bool
    var currentRating: int
    /** The ratings passed to `onChange`, in call order. */
    var changes: seq<int>

    predicate Valid()
      reads this
    {
      active != hover && active.Length == hover.Length
    }

    constructor(stars: nat, hoverEffect: bool, notifies: bool)
      ensures Valid() && active.Length == stars
      ensures active[..] == Lit(stars, 0) && hover[..] == Lit(stars, 0)
      ensures currentRating == 0 && changes == []
      ensures this.hoverEffect == hoverEffect && this.notifies == notifies
    {
      active := new bool[stars](i => false);
      hover := new bool[stars](i => false);
      this.hoverEffect := hoverEffect;
      this.notifies := notifies;
      currentRating := 0;
      changes := [];
    }

    /** The click handler of star `index`: the rating becomes `index + 1`,
        the stars up to it are lit and the others not, and `onChange` is
        told the rating. */
    method Click(index: nat)
      requires Valid() && index < active.Length
      modifies this, active
      ensures Valid()
      ensures currentRating == index + 1
      ensures active[..] == Lit(active.Length, index + 1)
      ensures changes == old(changes) + (if notifies then [index + 1] else [])
      ensures hover[..] == old(hover[..])
    {
      var rating := index + 1;
      currentRating := rating;
      forall i | 0 <= i < active.Length {
        active[i] := i < rating;
      }
      if notifies {
        changes := changes + [rating];
      }
    }

    /** The `mouseenter` handler of star `index`, bound only with
        `hoverEffect`: the stars up to it gain `hover`. */
    method Enter(index: nat)
      requires Valid() && hoverEffect && index < hover.Length
      modifies hover
      ensures hover[..] == Lit(hover.Length, index + 1)
    {
      forall i | 0 <= i < hover.Length {
        hover[i] := i <= index;
      }
    }

    /** The `mouseleave` handler: every star loses `hover`. */
    method Leave()
      requires Valid() && hoverEffect
      modifies hover
      ensures hover[..] == Lit(hover.Length, 0)
    {
      forall i | 0 <= i < hover.Length {
        hover[i] := false;
      }
    }
  }
}
