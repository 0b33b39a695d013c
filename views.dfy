/** The pure views the dashboard computes from the catalog: the category filter of the
    occupancy tabs (and of the pricing cards), the slot grid of one category with its
    free/occupied rule and slot click, the occupied counter under each grid, and the
    icon colour of a bed type. */
module Views {
  import opened Wrappers
  import opened Catalog

  /** `beds.filter(bed => bed.type === t)`. */
  function OfType(beds: seq<Bed>, t: string): (r: seq<Bed>)
    ensures |r| <= |beds|
    ensures forall b :: b in r ==> b in beds && b.bedType == t
    ensures forall b :: b in beds && b.bedType == t ==> b in r
  {
    if beds == [] then []
    else if beds[0].bedType == t then [beds[0]] + OfType(beds[1..], t)
    else OfType(beds[1..], t)
  }

  /** The records shown under the active occupancy tab: all of them under "All",
      otherwise those of the tab's type. */
  function FilteredBeds(beds: seq<Bed>, activeCategory: string): (r: seq<Bed>)
    ensures activeCategory == "All" ==> r == beds
    ensures activeCategory != "All" ==>
              forall b :: b in r <==> b in beds && b.bedType == activeCategory
  {
    if activeCategory == "All" then beds else OfType(beds, activeCategory)
  }

  /** The records shown as pricing cards for the type chosen in the pricing selector. */
  function PriceCards(beds: seq<Bed>, selectedPriceBedType: string): (r: seq<Bed>)
    ensures forall b :: b in r <==> b in beds && b.bedType == selectedPriceBedType
    ensures UniqueTypes(beds) ==> |r| <= 1
  {
    var r := OfType(beds, selectedPriceBedType);
    if UniqueTypes(beds) then
      if k :| 0 <= k < |beds| && beds[k].bedType == selectedPriceBedType then
        OfTypeUnique(beds, selectedPriceBedType, k); r
      else
        OfTypeAbsent(beds, selectedPriceBedType); r
    else r
  }

  /** Filtering keeps the original order: it distributes over concatenation, keeps a
      record of the type and drops any other. */
  lemma {:induction false} OfTypeAppend(a: seq<Bed>, b: seq<Bed>, t: string)
    ensures OfType(a + b, t) == OfType(a, t) + OfType(b, t)
  {
    if a == [] {
      assert a + b == b;
    } else {
      assert (a + b)[1..] == a[1..] + b;
      OfTypeAppend(a[1..], b, t);
    }
  }

  lemma OfTypeSingle(x: Bed, t: string)
    ensures OfType([x], t) == if x.bedType == t then [x] else []
  {
  }

  /** With one record per type, a type present in the table filters to exactly its
      record, and an absent type to nothing. */
  lemma {:induction false} OfTypeUnique(beds: seq<Bed>, t: string, k: nat)
    requires UniqueTypes(beds)
    requires k < |beds| && beds[k].bedType == t
    ensures OfType(beds, t) == [beds[k]]
  {
    if k == 0 {
      OfTypeAbsent(beds[1..], t);
    } else {
      assert beds[0].bedType != t;
      OfTypeUnique(beds[1..], t, k - 1);
    }
  }

  lemma {:induction false} OfTypeAbsent(beds: seq<Bed>, t: string)
    requires forall i :: 0 <= i < |beds| ==> beds[i].bedType != t
    ensures OfType(beds, t) == []
  {
    if beds != [] {
      assert beds[0].bedType != t;
      OfTypeAbsent(beds[1..], t);
    }
  }

  /** A tab shows the rewritten table exactly as the rewrite of what it showed before:
      switching tabs and updating the table commute, and a tab of another type than
      the rewritten one shows the same records as before. */
  lemma {:induction false} OfTypeRewrite(beds: seq<Bed>, c: string, t: string, f: Num -> Num)
    ensures OfType(Rewrite(beds, t, f), c) == Rewrite(OfType(beds, c), t, f)
    ensures c != t ==> OfType(Rewrite(beds, t, f), c) == OfType(beds, c)
  {
    if beds != [] {
      var r := Rewrite(beds, t, f);
      assert r[1..] == Rewrite(beds[1..], t, f);
      OfTypeRewrite(beds[1..], c, t, f);
      var rest := OfType(beds[1..], c);
      if beds[0].bedType == c {
        assert OfType(beds, c) == [beds[0]] + rest;
        assert Rewrite([beds[0]] + rest, t, f)[1..] == Rewrite(rest, t, f);
      }
    }
    if c != t {
      forall b | b in OfType(beds, c) ensures b.bedType != t { }
      RewriteAbsentType(OfType(beds, c), t, f);
    }
  }

  /** The tab view of the table after an update: the "All" tab shows the whole updated
      table, any other tab the update of what it showed before. */
  lemma FilteredBedsRewrite(beds: seq<Bed>, c: string, t: string, f: Num -> Num)
    ensures FilteredBeds(Rewrite(beds, t, f), c) == Rewrite(FilteredBeds(beds, c), t, f)
  {
    if c != "All" {
      OfTypeRewrite(beds, c, t, f);
    }
  }

  // ---- the slot grid of one category ----

  /** `Array.from({ length: bed.total })` makes `total` slots; a negative length is
      taken as zero. */
  function SlotCount(b: Bed): (r: nat)
    ensures b.total >= 0 ==> r == b.total
    ensures b.total < 0 ==> r == 0
  {
    if b.total < 0 then 0 else b.total
  }

  /** Slot `i` (0-based) is free (green, titled "Available", and its click selects it)
      iff `i < bed.available`. A NaN `available` makes every comparison false, so no slot
      is free. With a numeric count, a slot is free exactly when its button is enabled. */
  predicate SlotFree(b: Bed, i: int)
    ensures b.available.NaN? ==> !SlotFree(b, i)
    ensures b.available.Int? ==> (SlotFree(b, i) <==> !SlotDisabled(b, i))
  {
    b.available.Int? && i < b.available.n
  }

  function FreeSlots(b: Bed): set<int>
  {
    set i | 0 <= i < SlotCount(b) && SlotFree(b, i)
  }

  function OccupiedSlots(b: Bed): set<int>
  {
    set i | 0 <= i < SlotCount(b) && !SlotFree(b, i)
  }

  /** `available` clamped to the grid: how many slots are drawn free. */
  function Clamp(x: int, hi: nat): (r: nat)
  {
    if x < 0 then 0 else if x > hi then hi else x
  }

  /** The counter under each grid: `bed.total - bed.available`. */
  function Occupied(b: Bed): (r: Num)
    ensures r.Int? <==> b.available.Int?
    ensures r.Int? ==> r.n + b.available.n == b.total
  {
    match b.available
    case Int(n) => Int(b.total - n)
    case NaN => NaN
  }

  /** The slot numbers lo .. hi-1. */
  function Range(lo: int, hi: int): (r: set<int>)
    ensures forall i :: i in r <==> lo <= i < hi
    ensures lo <= hi ==> |r| == hi - lo
    decreases hi - lo
  {
    if hi <= lo then {} else Range(lo, hi - 1) + {hi - 1}
  }

  /** The free slots are the first `available` slots of the grid, cut to the grid's size:
      slot numbers 0 .. available-1 when 0 <= available <= total, none when `available`
      is negative or NaN, all of them when it exceeds `total`. Every other slot is
      occupied. */
  lemma SlotPartition(b: Bed)
    ensures var free := if b.available.Int? then Clamp(b.available.n, SlotCount(b)) else 0;
            FreeSlots(b) == Range(0, free) &&
            OccupiedSlots(b) == Range(free, SlotCount(b)) &&
            |FreeSlots(b)| == free && |OccupiedSlots(b)| == SlotCount(b) - free
  {
  }

  /** The counter agrees with the grid (it shows the number of red slots) exactly when
      the record is within 0 <= available <= total. Outside that range it shows a
      number the grid does not: a negative count when `available` exceeds `total`, a
      count above the number of slots when `available` is negative, NaN for NaN. */
  lemma OccupiedMatchesGrid(b: Bed)
    requires b.total >= 0
    ensures Occupied(b) == Int(|OccupiedSlots(b)|) <==> InRange(b)
  {
    SlotPartition(b);
  }

  /** The pending booking: a bed type and the 1-based number of the clicked slot. */
  datatype Selection = Selection(bedType: string, number: int)

  /** The click handler of slot `i` of record `b`: a free slot records its type and
      number `i + 1`; any other slot leaves the selection as it was. */
  function Click(selected: Option<Selection>, b: Bed, i: int): (r: Option<Selection>)
    ensures r != selected ==> SlotFree(b, i) && r == Some(Selection(b.bedType, i + 1))
    ensures SlotFree(b, i) ==> r.Some? && r.value.bedType == b.bedType && r.value.number == i + 1
  {
    if SlotFree(b, i) then Some(Selection(b.bedType, i + 1)) else selected
  }

  /** `disabled={i >= bed.available}`: the slot's button is disabled, so neither its click
      handler nor its confirmation dialog can be reached. */
  predicate SlotDisabled(b: Bed, i: int)
  {
    b.available.Int? && i >= b.available.n
  }

  /** A slot's button opens its confirmation dialog exactly when it is free, except with a
      NaN count: then `i >= NaN` is false, the button stays enabled although the slot is
      drawn occupied, and its dialog opens without the click changing the selection, so
      Confirm books whatever was selected before. */
  lemma DialogWithoutSelection(b: Bed, i: int)
    ensures !SlotDisabled(b, i) && !SlotFree(b, i) <==> b.available.NaN?
    ensures b.available.Int? ==> (!SlotDisabled(b, i) <==> SlotFree(b, i))
  {
  }

  /** A click changes the selection only to a slot that is free, and the recorded number
      is then between 1 and the record's `available`. */
  lemma ClickSelectsFreeSlot(selected: Option<Selection>, b: Bed, i: int)
    requires 0 <= i < SlotCount(b)
    ensures Click(selected, b, i) != selected ==>
              b.available.Int? && Click(selected, b, i) == Some(Selection(b.bedType, i + 1)) &&
              1 <= i + 1 <= b.available.n
    ensures Click(selected, b, i) == Some(Selection(b.bedType, i + 1)) <==> i in FreeSlots(b) || selected == Some(Selection(b.bedType, i + 1))
  {
  }

  /** With one record per type and every record in range, clicking a free slot and then
      confirming lowers that record's `available` by one and keeps every record in
      range. */
  lemma ClickThenBookKeepsRange(beds: seq<Bed>, selected: Option<Selection>, k: nat, i: int)
    requires UniqueTypes(beds) && AllInRange(beds)
    requires k < |beds| && 0 <= i < SlotCount(beds[k]) && SlotFree(beds[k], i)
    ensures Click(selected, beds[k], i).Some?
    ensures var after := BookOne(beds, Click(selected, beds[k], i).value.bedType);
            AllInRange(after) && after[k].available == Int(beds[k].available.n - 1)
  {
  }

  // ---- icon colour ----

  const KnownTypes: set<string> := {"General", "ICU", "Emergency", "Pediatric", "Maternity"}

  /** `getBedColor`: one colour per known bed type, grey for anything else. */
  function BedColor(t: string): (r: string)
    ensures r == "text-gray-500" <==> t !in KnownTypes
  {
    if t == "General" then "text-blue-500"
    else if t == "ICU" then "text-red-500"
    else if t == "Emergency" then "text-yellow-500"
    else if t == "Pediatric" then "text-green-500"
    else if t == "Maternity" then "text-pink-500"
    else "text-gray-500"
  }

  /** Distinct known types get distinct colours, and every type of the seed is known. */
  lemma BedColorsDistinct(s: string, t: string)
    requires s in KnownTypes && t in KnownTypes && s != t
    ensures BedColor(s) != BedColor(t)
  {
  }

  lemma SeedTypesKnown()
    ensures forall i :: 0 <= i < |Seed()| ==> Seed()[i].bedType in KnownTypes
  {
  }
}
