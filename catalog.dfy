/** The bed catalog of the bed-management dashboard: an ordered table of bed-category
    records, its seed, and the record-level rewrite that both handlers perform with
    `beds.map(...)`. */
module Catalog {
  import opened Wrappers

  /** The value an `available` field can hold: a whole number, or the NaN that
      `parseInt` produces for text with no leading digits. Subtracting one from NaN
      gives NaN again. */
  datatype Num = Int(n: int) | NaN

  /** `parseInt` of the availability text box. `Some(v)`: the text parses to `v`.
      `None`: it does not parse, which includes the empty field. */
  function ParseInt(entered: Option<int>): (r: Num)
    ensures r.Int? <==> entered.Some?
    ensures entered.Some? ==> r.n == entered.value
  {
    match entered
    case Some(v) => Int(v)
    case None => NaN
  }

  /** `bed.available - 1` on a JavaScript number. */
  function MinusOne(x: Num): (r: Num)
    ensures r.Int? <==> x.Int?
    ensures x.Int? ==> r.n + 1 == x.n
  {
    match x
    case Int(n) => Int(n - 1)
    case NaN => NaN
  }

  /** One bed-category record. */
  datatype Bed = Bed(id: int, bedType: string, total: int, available: Num, price: int,
                     checkInTime: string, additionalDetails: string)

  /** The catalog the component starts with: five records with ids 1 to 5, each with
      0 <= available <= total. */
  function Seed(): (r: seq<Bed>)
    ensures |r| == 5
    ensures forall i :: 0 <= i < |r| ==> r[i].id == i + 1 && InRange(r[i])
  {
    [ Bed(1, "General", 100, Int(30), 200, "2:00 PM", "Standard amenities, shared bathroom"),
      Bed(2, "ICU", 20, Int(5), 1000, "Immediate", "24/7 monitoring, specialized equipment"),
      Bed(3, "Emergency", 10, Int(2), 500, "Immediate", "Rapid response team, triage priority"),
      Bed(4, "Pediatric", 30, Int(10), 300, "1:00 PM", "Child-friendly environment, parent accommodation"),
      Bed(5, "Maternity", 25, Int(8), 400, "12:00 PM", "Labor and delivery support, newborn care") ]
  }

  /** Two records agree on every field except `available`. */
  predicate SameExceptAvailable(a: Bed, b: Bed)
  {
    a.id == b.id && a.bedType == b.bedType && a.total == b.total && a.price == b.price &&
    a.checkInTime == b.checkInTime && a.additionalDetails == b.additionalDetails
  }

  /** Two tables have the same length and order, and position by position the records
      differ at most in `available`. */
  predicate SameShape(a: seq<Bed>, b: seq<Bed>)
  {
    |a| == |b| && forall i :: 0 <= i < |a| ==> SameExceptAvailable(a[i], b[i])
  }

  /** The intended (but nowhere enforced) invariant: 0 <= available <= total. */
  predicate InRange(b: Bed)
  {
    b.available.Int? && 0 <= b.available.n <= b.total
  }

  predicate AllInRange(beds: seq<Bed>)
  {
    forall i :: 0 <= i < |beds| ==> InRange(beds[i])
  }

  predicate UniqueIds(beds: seq<Bed>)
  {
    forall i, j :: 0 <= i < j < |beds| ==> beds[i].id != beds[j].id
  }

  predicate UniqueTypes(beds: seq<Bed>)
  {
    forall i, j :: 0 <= i < j < |beds| ==> beds[i].bedType != beds[j].bedType
  }

  /** What `beds.map(bed => bed.type === t ? { ...bed, available: f(bed.available) } : bed)`
      returns: the table position by position, with `f` applied to `available` of every
      record whose type is `t` (all of them, should types repeat) and every other record
      returned as it is. */
  function Rewrite(beds: seq<Bed>, t: string, f: Num -> Num): (r: seq<Bed>)
    ensures |r| == |beds|
    ensures forall i :: 0 <= i < |beds| && beds[i].bedType == t ==>
              r[i] == beds[i].(available := f(beds[i].available))
    ensures forall i :: 0 <= i < |beds| && beds[i].bedType != t ==> r[i] == beds[i]
  {
    if beds == [] then []
    else
      var b := beds[0];
      [if b.bedType == t then b.(available := f(b.available)) else b] + Rewrite(beds[1..], t, f)
  }

  /** The table after the availability form is submitted with type `t` and parsed value `v`. */
  function SetAvailability(beds: seq<Bed>, t: string, v: Num): (r: seq<Bed>)
    ensures SameShape(beds, r)
    ensures forall i :: 0 <= i < |beds| ==>
              r[i].available == if beds[i].bedType == t then v else beds[i].available
  {
    Rewrite(beds, t, _ => v)
  }

  /** The table after a booking of type `t` is confirmed. */
  function BookOne(beds: seq<Bed>, t: string): (r: seq<Bed>)
    ensures SameShape(beds, r)
    ensures forall i :: 0 <= i < |beds| && beds[i].bedType == t && beds[i].available.Int? ==>
              r[i].available == Int(beds[i].available.n - 1)
    ensures forall i :: 0 <= i < |beds| && (beds[i].bedType != t || beds[i].available.NaN?) ==>
              r[i] == beds[i]
  {
    Rewrite(beds, t, MinusOne)
  }

  /** `beds.find(bed => bed.type === t)`: the first record of type `t`, if any. */
  function FindByType(beds: seq<Bed>, t: string): (r: Option<Bed>)
    ensures r.None? <==> forall i :: 0 <= i < |beds| ==> beds[i].bedType != t
    ensures r.Some? ==> exists k :: 0 <= k < |beds| && beds[k] == r.value && r.value.bedType == t &&
                                    forall j :: 0 <= j < k ==> beds[j].bedType != t
  {
    if beds == [] then None
    else if beds[0].bedType == t then Some(beds[0])
    else
      var r := FindByType(beds[1..], t);
      assert forall i :: 1 <= i < |beds| ==> beds[i] == beds[1..][i - 1];
      r
  }

  // ---- properties of the rewrite ----

  /** A rewrite keeps length, order, ids, types, totals, prices and the display strings. */
  lemma RewriteKeepsShape(beds: seq<Bed>, t: string, f: Num -> Num)
    ensures SameShape(beds, Rewrite(beds, t, f))
  {
  }

  lemma SameShapeTransitive(a: seq<Bed>, b: seq<Bed>, c: seq<Bed>)
    requires SameShape(a, b) && SameShape(b, c)
    ensures SameShape(a, c)
  {
  }

  /** Tables of the same shape agree on which types are unique. */
  lemma SameShapeUniqueTypes(a: seq<Bed>, b: seq<Bed>)
    requires SameShape(a, b) && UniqueTypes(a)
    ensures UniqueTypes(b) && UniqueIds(b) == UniqueIds(a)
  {
  }

  /** Submitting the form sets `available` to exactly `v` on every record of type `t`,
      however many there are, and leaves every other record identical. A record changes
      if and only if it has type `t` and did not already hold `v`. */
  lemma SetAvailabilityEffect(beds: seq<Bed>, t: string, v: Num)
    ensures SameShape(beds, SetAvailability(beds, t, v))
    ensures forall i :: 0 <= i < |beds| ==>
              SetAvailability(beds, t, v)[i].available == (if beds[i].bedType == t then v else beds[i].available)
    ensures forall i :: 0 <= i < |beds| ==>
              (SetAvailability(beds, t, v)[i] != beds[i] <==> beds[i].bedType == t && beds[i].available != v)
  {
  }

  /** Submitting the form does no validation: whatever `v` is (negative, above the
      record's total, NaN) is what the record of type `t` then holds. */
  lemma SetAvailabilityStoresUnchecked(beds: seq<Bed>, t: string, v: Num, k: nat)
    requires k < |beds| && beds[k].bedType == t
    ensures SetAvailability(beds, t, v)[k].available == v
    ensures InRange(SetAvailability(beds, t, v)[k]) <==> v.Int? && 0 <= v.n <= beds[k].total
  {
  }

  /** Submitting twice for the same type: the second value wins. */
  lemma SetAvailabilityLastWins(beds: seq<Bed>, t: string, v: Num, w: Num)
    ensures SetAvailability(SetAvailability(beds, t, v), t, w) == SetAvailability(beds, t, w)
  {
  }

  /** Updates of two different types do not interfere: their order does not matter. */
  lemma SetAvailabilityCommutes(beds: seq<Bed>, t: string, v: Num, u: string, w: Num)
    requires t != u
    ensures SetAvailability(SetAvailability(beds, t, v), u, w) ==
            SetAvailability(SetAvailability(beds, u, w), t, v)
  {
  }

  /** Confirming a booking of type `t` lowers `available` by exactly one on every record
      of type `t`, with no floor at zero; NaN stays NaN; totals and all records of other
      types are untouched. A record changes if and only if it has type `t` and a numeric
      `available`. */
  lemma BookOneEffect(beds: seq<Bed>, t: string)
    ensures SameShape(beds, BookOne(beds, t))
    ensures forall i :: 0 <= i < |beds| && beds[i].bedType == t && beds[i].available.Int? ==>
              BookOne(beds, t)[i].available == Int(beds[i].available.n - 1)
    ensures forall i :: 0 <= i < |beds| ==>
              (BookOne(beds, t)[i] != beds[i] <==> beds[i].bedType == t && beds[i].available.Int?)
  {
  }

  /** Booking a type that no record has changes nothing. */
  lemma RewriteAbsentType(beds: seq<Bed>, t: string, f: Num -> Num)
    requires forall i :: 0 <= i < |beds| ==> beds[i].bedType != t
    ensures Rewrite(beds, t, f) == beds
  {
  }

  /** With one record per type, a booking for a type whose record has at least one bed
      available keeps every record within 0 <= available <= total. */
  lemma BookOneKeepsRange(beds: seq<Bed>, t: string, k: nat)
    requires AllInRange(beds) && UniqueTypes(beds)
    requires k < |beds| && beds[k].bedType == t && beds[k].available.n >= 1
    ensures AllInRange(BookOne(beds, t))
  {
  }

  /** The booking step itself keeps no floor: applied to a record of the booked type
      that holds 0, it stores -1 and the intended range is lost. (Whether the page can
      confirm a booking in that state depends on how its dialogs are opened, which is
      outside the booking step.) */
  lemma BookOneBelowZero(beds: seq<Bed>, t: string, k: nat)
    requires k < |beds| && beds[k].bedType == t && beds[k].available == Int(0)
    ensures BookOne(beds, t)[k].available == Int(-1)
    ensures !AllInRange(BookOne(beds, t))
  {
  }

  /** Lookup is by type, not by id: if two records share type `t`, one booking lowers
      both of them, while `FindByType` (which feeds the form's `max` attribute) sees
      only the first. */
  lemma BookOneHitsEveryDuplicate(beds: seq<Bed>, t: string, j: nat, k: nat)
    requires j < k < |beds| && beds[j].bedType == t && beds[k].bedType == t
    requires forall i :: 0 <= i < j ==> beds[i].bedType != t
    requires beds[j].available.Int? && beds[k].available.Int?
    ensures BookOne(beds, t)[j].available == Int(beds[j].available.n - 1)
    ensures BookOne(beds, t)[k].available == Int(beds[k].available.n - 1)
    ensures FindByType(beds, t) == Some(beds[j])
  {
  }

  /** Every table with the seed's shape has one record per type and per id. */
  lemma SeedShapeUnique(beds: seq<Bed>)
    requires SameShape(Seed(), beds)
    ensures UniqueTypes(beds) && UniqueIds(beds)
  {
    SeedWellFormed();
    SameShapeUniqueTypes(Seed(), beds);
  }

  /** With one record per type, a rewrite changes at most one record. */
  lemma RewriteChangesAtMostOne(beds: seq<Bed>, t: string, f: Num -> Num)
    requires UniqueTypes(beds)
    ensures forall i, j :: 0 <= i < j < |beds| ==>
              Rewrite(beds, t, f)[i] == beds[i] || Rewrite(beds, t, f)[j] == beds[j]
  {
  }

  /** The seed holds five records with distinct ids and types, each within its range. */
  lemma SeedWellFormed()
    ensures |Seed()| == 5
    ensures UniqueIds(Seed()) && UniqueTypes(Seed()) && AllInRange(Seed())
  {
  }
}
