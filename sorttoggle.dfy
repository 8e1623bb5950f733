/**
 * The sort-direction toggle of the page's click handler. Every header cell keeps
 * its own `data-order` attribute, unset at first; a click sorts ascending unless
 * the attribute says "asc", and then records the direction it used.
 */
module SortToggle {

  /** The value of a header's `dataset.order`. */
  datatype SortOrder = Unset | Asc | Desc

  /** `header.dataset.order !== 'asc'`: whether a click sorts ascending. */
  function Ascends(order: SortOrder): bool
  {
    order != Asc
  }

  /** `ascending ? 'asc' : 'desc'`: what a click leaves in `dataset.order`. */
  function Recorded(order: SortOrder): (r: SortOrder)
    ensures r != Unset
    ensures r == Asc <==> Ascends(order)
  {
    if Ascends(order) then Asc else Desc
  }

  /** A header's order after `n` clicks on it. */
  function AfterClicks(n: nat): SortOrder
  {
    if n == 0 then Unset else Recorded(AfterClicks(n - 1))
  }

  /**
   * Repeated clicks on one header alternate: the first is ascending, and click
   * number `n + 1` is ascending exactly when `n` is even.
   */
  lemma {:induction false} ClicksAlternate(n: nat)
    ensures AfterClicks(n) == if n == 0 then Unset else if n % 2 == 1 then Asc else Desc
    ensures Ascends(AfterClicks(n)) <==> n % 2 == 0
  {
    if n > 0 {
      ClicksAlternate(n - 1);
    }
  }

  /** A header cell with its click listener. */
  class Header {
    var order: SortOrder

    constructor ()
      ensures order == Unset
    {
      order := Unset;
    }

    /** The listener: choose the direction, (sort the rows,) record the direction. */
    method Click() returns (ascending: bool)
      modifies this
      ensures ascending == Ascends(old(order))
      ensures order == Recorded(old(order))
    {
      ascending := order != Asc;
      order := if ascending then Asc else Desc;
    }
  }
}
