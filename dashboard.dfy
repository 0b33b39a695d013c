/** The bed-management component itself: the state it keeps and the event handlers that
    change it. Each handler runs as one sequential step. */
module Dashboard {
  import opened Wrappers
  import opened Catalog
  import opened Views

  /** The transient notifications the handlers raise, kept as a log. */
  datatype Notice =
    | AvailabilityUpdated(bedType: string, entered: Option<int>)
    | BedBooked(bedType: string, number: int)

  class BedManagement {
    var beds: seq<Bed>
    /** The type chosen in the availability form. */
    var selectedBedType: string
    /** The availability text box; `None` is text that parseInt turns into NaN, the empty box included. */
    var availableBeds: Option<int>
    /** The active occupancy tab. */
    var activeCategory: string
    /** The slot whose booking waits for confirmation. */
    var selectedBed: Option<Selection>
    var selectedPriceBedType: string
    var showPriceDetails: bool
    var notices: seq<Notice>

    /** What no handler can change: the table keeps the seed's length, order, ids, types,
        totals, prices and display strings. Only `available` ever moves. */
    ghost predicate Valid()
      reads this
    {
      SameShape(Seed(), beds)
    }

    constructor ()
      ensures Valid()
      ensures beds == Seed() && selectedBedType == "General" && availableBeds == None
      ensures activeCategory == "All" && selectedBed == None
      ensures selectedPriceBedType == "General" && !showPriceDetails && notices == []
    {
      beds := Seed();
      selectedBedType := "General";
      availableBeds := None;
      activeCategory := "All";
      selectedBed := None;
      selectedPriceBedType := "General";
      showPriceDetails := false;
      notices := [];
    }

    /** The records the occupancy tabs currently show. */
    function Filtered(): (r: seq<Bed>)
      reads this
      ensures activeCategory == "All" ==> r == beds
      ensures activeCategory != "All" ==>
                forall b :: b in r <==> b in beds && b.bedType == activeCategory
    {
      FilteredBeds(beds, activeCategory)
    }

    /** Submitting the availability form: every record of the selected type gets the parsed
        value, unchecked; the text box is emptied and a notice names the type and the text. */
    method HandleSubmit()
      requires Valid()
      modifies this
      ensures Valid()
      ensures beds == SetAvailability(old(beds), old(selectedBedType), ParseInt(old(availableBeds)))
      ensures availableBeds == None
      ensures notices == old(notices) + [AvailabilityUpdated(old(selectedBedType), old(availableBeds))]
      ensures selectedBedType == old(selectedBedType) && activeCategory == old(activeCategory)
      ensures selectedBed == old(selectedBed) && selectedPriceBedType == old(selectedPriceBedType)
      ensures showPriceDetails == old(showPriceDetails)
      ensures forall i, j :: 0 <= i < j < |beds| ==> beds[i] == old(beds)[i] || beds[j] == old(beds)[j]
    {
      var entered := availableBeds;
      SeedShapeUnique(beds);
      RewriteChangesAtMostOne(beds, selectedBedType, _ => ParseInt(entered));
      var updated := SetAvailability(beds, selectedBedType, ParseInt(entered));
      RewriteKeepsShape(beds, selectedBedType, _ => ParseInt(entered));
      SameShapeTransitive(Seed(), beds, updated);
      beds := updated;
      availableBeds := None;
      notices := notices + [AvailabilityUpdated(selectedBedType, entered)];
    }

    /** Confirming the booking dialog: with a pending selection, every record of its type
        loses one available bed (no floor at zero), a notice names the type and slot, and
        the selection is cleared; with none, nothing happens. */
    method HandleBookBed()
      requires Valid()
      modifies this
      ensures Valid()
      ensures old(selectedBed).None? ==>
                beds == old(beds) && selectedBed == None && notices == old(notices)
      ensures old(selectedBed).Some? ==>
                beds == BookOne(old(beds), old(selectedBed).value.bedType) && selectedBed == None &&
                notices == old(notices) + [BedBooked(old(selectedBed).value.bedType, old(selectedBed).value.number)]
      ensures selectedBedType == old(selectedBedType) && availableBeds == old(availableBeds)
      ensures activeCategory == old(activeCategory) && selectedPriceBedType == old(selectedPriceBedType)
      ensures showPriceDetails == old(showPriceDetails)
      ensures forall i, j :: 0 <= i < j < |beds| ==> beds[i] == old(beds)[i] || beds[j] == old(beds)[j]
    {
      if selectedBed.Some? {
        var s := selectedBed.value;
        SeedShapeUnique(beds);
        RewriteChangesAtMostOne(beds, s.bedType, MinusOne);
        var updated := BookOne(beds, s.bedType);
        RewriteKeepsShape(beds, s.bedType, MinusOne);
        SameShapeTransitive(Seed(), beds, updated);
        beds := updated;
        notices := notices + [BedBooked(s.bedType, s.number)];
        selectedBed := None;
      }
    }

    /** Clicking slot `i` of the `k`-th record the active tab shows. The grid only draws
        slots 0 .. total-1 of the shown records. `opensDialog` says whether the click
        reaches the slot's confirmation dialog, that is, whether its button is enabled. */
    method ClickSlot(k: nat, i: int) returns (opensDialog: bool)
      requires Valid()
      requires k < |Filtered()| && 0 <= i < SlotCount(Filtered()[k])
      modifies this`selectedBed
      ensures Valid()
      ensures opensDialog == !SlotDisabled(old(Filtered())[k], i)
      ensures selectedBed == Click(old(selectedBed), old(Filtered())[k], i)
      ensures SlotFree(old(Filtered())[k], i) ==>
                selectedBed == Some(Selection(old(Filtered())[k].bedType, i + 1))
      ensures !SlotFree(old(Filtered())[k], i) ==> selectedBed == old(selectedBed)
    {
      var b := Filtered()[k];
      opensDialog := !(b.available.Int? && i >= b.available.n);
      if b.available.Int? && i < b.available.n {
        selectedBed := Some(Selection(b.bedType, i + 1));
      }
    }

    /** Choosing a type in the availability form. */
    method SelectBedType(t: string)
      modifies this`selectedBedType
      ensures selectedBedType == t
    {
      selectedBedType := t;
    }

    /** Typing into the availability text box. */
    method EnterAvailableBeds(entered: Option<int>)
      modifies this`availableBeds
      ensures availableBeds == entered
    {
      availableBeds := entered;
    }

    /** Switching the occupancy tab: the table itself is untouched. */
    method SelectCategory(c: string)
      modifies this`activeCategory
      ensures activeCategory == c && beds == old(beds)
      ensures Filtered() == FilteredBeds(beds, c)
    {
      activeCategory := c;
    }

    /** Choosing the type of the pricing cards, and toggling their price details. */
    method SelectPriceBedType(t: string)
      modifies this`selectedPriceBedType
      ensures selectedPriceBedType == t
    {
      selectedPriceBedType := t;
    }

    method SetShowPriceDetails(on: bool)
      modifies this`showPriceDetails
      ensures showPriceDetails == on
    {
      showPriceDetails := on;
    }
  }
}
