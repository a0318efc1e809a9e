/** The page indicator under the grid: a row of page buttons and the index of
    the active page. Activating a page emits "child-activate"; the count of
    emissions is kept as ghost state so that callers can state how often the
    signal fires. */
module IndicatorState {

  /** One page button; only whether it is shown matters to the launcher. */
  datatype PageButton = PageButton(visible: bool)

  class Indicator {
    /** The index of the active page. */
    var active: int
    /** The page buttons, in the order they were appended. */
    var children: seq<PageButton>
    /** Whether the indicator itself is shown. */
    var shown: bool
    /** How many times "child-activate" has been emitted. */
    ghost var activations: nat

    /** The active index names a page button, or is the initial 0 while there
        are none. */
    ghost predicate Valid()
      reads this
    {
      0 <= active && (active == 0 || active < |children|)
    }

    /** A new indicator: page 0 active, no page buttons, nothing emitted. */
    constructor ()
      ensures Valid()
      ensures active == 0 && children == [] && !shown && activations == 0
    {
      active := 0;
      children := [];
      shown := false;
      activations := 0;
    }

    /** The active index. */
    method GetActive() returns (a: int)
      requires Valid()
      ensures a == active && a >= 0
      ensures children != [] ==> a < |children|
    {
      a := active;
    }

    /** Makes page `index` active and emits "child-activate" once, whether or
        not it was active already; the page buttons are left as they are. */
    method SetActive(index: int)
      requires Valid()
      requires 0 <= index < |children|
      modifies this
      ensures Valid()
      ensures active == index
      ensures activations == old(activations) + 1
      ensures children == old(children) && shown == old(shown)
    {
      active := index;
      activations := activations + 1;
    }

    /** The page buttons. */
    method GetChildren() returns (c: seq<PageButton>)
      ensures c == children
    {
      c := children;
    }

    /** Adds one shown page button at the end; the text is not used. */
    method Append(text: string)
      requires Valid()
      modifies this
      ensures Valid()
      ensures children == old(children) + [PageButton(true)]
      ensures active == old(active) && shown == old(shown) && activations == old(activations)
    {
      children := children + [PageButton(true)];
    }

    /** A page button was toggled: when it became active its page becomes the
        active one; a button becoming inactive changes nothing. */
    method OnChildToggled(index: int, nowActive: bool)
      requires Valid()
      requires 0 <= index < |children|
      modifies this
      ensures Valid()
      ensures children == old(children) && shown == old(shown)
      ensures nowActive ==> active == index && activations == old(activations) + 1
      ensures !nowActive ==> active == old(active) && activations == old(activations)
    {
      if nowActive {
        SetActive(index);
      }
    }
  }
}
