/**
  * The buy page as an event-driven object: pointer clicks on the map, the
  * "Buy Now" and "Clear" buttons, the confirmation dialog, the arrival of the
  * sold list and of the background image, and the two outcomes of the purchase
  * call. Each event is handled to completion before the next.
  */
module BuyPage {
  import opened Wrappers
  import opened Grid
  import opened Selection
  import opened Purchase

  /** What a click on "Buy Now" did. */
  datatype BuyNowOutcome = Disabled | QuantityMismatch | ConfirmOpened

  class BuyPageState {
    /** The selected cells, in the order they were picked. */
    var selected: seq<Cell>
    /** The latest sold list received from the server. */
    var sold: seq<Coord>
    /** The background image has been drawn; clicks are ignored until then. */
    var mapLoaded: bool
    /** A purchase is in flight; this is what disables "Buy Now". */
    var busy: bool
    /** The confirmation dialog is showing. */
    var confirmOpen: bool
    /** The number of cells the user must buy, when the server fixes one. */
    const quantity: Option<int>

    /**
      * No cell is selected twice, and while the dialog shows, nothing is in
      * flight and the selection is one "Buy Now" accepted: non-empty and of the
      * fixed quantity, if there is one. The dialog covers the whole page, so the
      * selection cannot change under it.
      */
    ghost predicate Valid()
      reads this
    {
      NoDup(selected) &&
      (confirmOpen ==> !busy && |selected| != 0 && (quantity.Some? ==> |selected| == quantity.value))
    }

    constructor (quantity: Option<int>)
      ensures Valid()
      ensures selected == [] && sold == [] && !mapLoaded && !busy && !confirmOpen
      ensures this.quantity == quantity
    {
      selected := [];
      sold := [];
      mapLoaded := false;
      busy := false;
      confirmOpen := false;
      this.quantity := quantity;
    }

    /** The sold-list query resolved; an absent result leaves the list as it was. */
    method SetSold(query: Option<seq<Coord>>)
      requires Valid()
      modifies this`sold
      ensures Valid()
      ensures sold == if query.Some? then query.value else old(sold)
    {
      if query.Some? {
        sold := query.value;
      }
    }

    /** The background image has been drawn. */
    method MapLoaded()
      requires Valid()
      modifies this`mapLoaded
      ensures Valid() && mapLoaded
    {
      mapLoaded := true;
    }

    /**
      * A click at offset (px, py) on the canvas. Before the map has loaded, or
      * while the dialog's overlay covers the canvas, it is ignored; otherwise it
      * removes, appends or is refused as `Step` says, on the cell under the
      * pointer.
      */
    method HandleClick(px: nat, py: nat) returns (outcome: ClickOutcome)
      requires Valid()
      modifies this`selected
      ensures Valid()
      ensures outcome == Ignored <==> !mapLoaded || confirmOpen
      ensures outcome == Ignored ==> selected == old(selected)
      ensures outcome != Ignored ==> Click(outcome, selected) == Step(old(selected), sold, PointerToCell(px, py))
      ensures |selected| == |old(selected)| + Delta(outcome)
    {
      if !mapLoaded || confirmOpen {
        return Ignored;
      }
      var cell := PointerToCell(px, py);
      StepKeepsNoDup(selected, sold, cell);
      var index := IndexOf(selected, cell);
      if index != -1 {
        selected := Without(selected, index);
        outcome := Removed;
      } else if IsSoldOut(sold, cell) {
        outcome := RejectedSold;
      } else if |selected| == 0 || AnyAdjacent(selected, cell) {
        selected := selected + [cell];
        outcome := Inserted;
      } else {
        outcome := RejectedNotAdjacent;
      }
    }

    /** "Buy Now" is enabled: nothing is in flight and something is selected. */
    predicate BuyNowEnabled()
      reads this
    {
      !busy && |selected| != 0
    }

    /**
      * A click on "Buy Now". A disabled button does nothing; with a fixed quantity
      * the selection must have exactly that many cells; otherwise the
      * confirmation dialog opens.
      */
    method BuyNowClick() returns (outcome: BuyNowOutcome)
      requires Valid()
      modifies this`confirmOpen
      ensures Valid()
      ensures outcome == Disabled <==> busy || |selected| == 0
      ensures outcome == QuantityMismatch <==>
        !busy && |selected| != 0 && quantity.Some? && |selected| != quantity.value
      ensures outcome == ConfirmOpened <==>
        !busy && |selected| != 0 && (quantity.Some? ==> |selected| == quantity.value)
      ensures confirmOpen == (old(confirmOpen) || outcome == ConfirmOpened)
    {
      if !BuyNowEnabled() {
        return Disabled;
      }
      if quantity.Some? && |selected| != quantity.value {
        return QuantityMismatch;
      }
      confirmOpen := true;
      outcome := ConfirmOpened;
    }

    /** "Cancel" in the confirmation dialog. */
    method CancelConfirm()
      requires Valid()
      modifies this`confirmOpen
      ensures Valid() && !confirmOpen
    {
      confirmOpen := false;
    }

    /**
      * "Confirm" in the open dialog: close it, mark a purchase in flight, and
      * return the request handed to the purchase call. No purchase was in
      * flight before, and the request holds exactly the cells "Buy Now"
      * accepted. The selection is left as it is.
      */
    method ConfirmPurchase() returns (request: Request)
      requires Valid() && confirmOpen
      modifies this`confirmOpen, this`busy
      ensures Valid() && !old(busy)
      ensures !confirmOpen && busy
      ensures |request.coords| == |selected| && |request.coords| != 0
      ensures quantity.Some? ==> |request.coords| == quantity.value
      ensures forall i :: 0 <= i < |selected| ==> request.coords[i] == Coord(selected[i].col, selected[i].row)
      ensures DecodeRequest(request) == selected
    {
      confirmOpen := false;
      busy := true;
      request := FormatRequest(selected);
      DecodeFormat(selected);
    }

    /** The purchase call succeeded: "Buy Now" is usable again; the selection is kept. */
    method OnSuccess()
      requires Valid()
      modifies this`busy
      ensures Valid() && !busy
    {
      busy := false;
    }

    /** The purchase call failed: "Buy Now" is usable again; the selection is kept. */
    method OnError()
      requires Valid()
      modifies this`busy
      ensures Valid() && !busy
    {
      busy := false;
    }

    /**
      * "Clear Selected Pixels": the selection is emptied. While the dialog's
      * overlay covers the button the click does not reach it.
      */
    method Clear()
      requires Valid()
      modifies this`selected
      ensures Valid()
      ensures selected == if old(confirmOpen) then old(selected) else []
    {
      if !confirmOpen {
        selected := [];
      }
    }
  }

  /** Two adjacent picks, then a distant pick and a sold pick, both refused. */
  method ClickSession() {
    var page := new BuyPageState(None);
    page.SetSold(Some([Coord(2, 2)]));
    page.MapLoaded();
    PickSequence();
    var o := page.HandleClick(35, 31);
    assert PointerToCell(35, 31) == Cell(3, 3);
    assert o == Inserted;
    o := page.HandleClick(41, 39);
    assert PointerToCell(41, 39) == Cell(3, 4);
    assert o == Inserted;
    o := page.HandleClick(50, 50);
    assert PointerToCell(50, 50) == Cell(5, 5);
    assert o == RejectedNotAdjacent;
    o := page.HandleClick(20, 29);
    assert PointerToCell(20, 29) == Cell(2, 2);
    assert o == RejectedSold && page.selected == [Cell(3, 3), Cell(3, 4)];
  }

  /**
    * While the dialog is open a click on the map is ignored; a purchase in flight
    * disables "Buy Now" until the call fails; the selection survives.
    */
  method PurchaseSession(page: BuyPageState)
    requires page.Valid()
    requires page.selected == [Cell(3, 3), Cell(3, 4)] && page.quantity == Some(2) && !page.busy
    modifies page
  {
    var b := page.BuyNowClick();
    assert b == ConfirmOpened && page.confirmOpen;
    var o := page.HandleClick(50, 31);
    assert o == Ignored && page.selected == [Cell(3, 3), Cell(3, 4)];
    var request := page.ConfirmPurchase();
    assert request.coords == [Coord(3, 3), Coord(4, 3)];
    b := page.BuyNowClick();
    assert b == Disabled;
    page.OnError();
    b := page.BuyNowClick();
    assert b == ConfirmOpened;
  }

  /** With a fixed quantity of three, two selected cells do not open the dialog. */
  method QuantitySession(page: BuyPageState)
    requires page.Valid()
    requires |page.selected| == 2 && page.quantity == Some(3) && !page.busy && !page.confirmOpen
    modifies page
  {
    var b := page.BuyNowClick();
    assert b == QuantityMismatch && !page.confirmOpen;
  }
}
