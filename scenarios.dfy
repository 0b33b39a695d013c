/** Concrete interactions with the dashboard, starting from the seeded catalog. */
module Scenarios {
  import opened Wrappers
  import opened Catalog
  import opened Views

  /** Submitting the form with type General and value 45: General then holds 45 and every
      other field of every record is as seeded. */
  lemma SubmitGeneral45()
    ensures SetAvailability(Seed(), "General", Int(45)) == Seed()[0 := Seed()[0].(available := Int(45))]
  {
  }

  /** On the ICU tab the only record shown is ICU. Its slot index 7 is occupied (ICU has 5
      available), so clicking it selects nothing; slot index 3 is free and selects ICU bed
      number 4; confirming then takes ICU from 5 to 4 available and keeps its total of 20. */
  lemma BookIcuSlot()
    ensures FilteredBeds(Seed(), "ICU") == [Seed()[1]]
    ensures Click(None, Seed()[1], 7) == None
    ensures Click(None, Seed()[1], 3) == Some(Selection("ICU", 4))
    ensures BookOne(Seed(), "ICU")[1] == Seed()[1].(available := Int(4))
  {
  }

  /** A selection made while Emergency had 2 available, confirmed after the form has set
      Emergency to 0, takes it to -1: the count is not re-checked at confirmation. */
  lemma StaleBookingGoesNegative()
    ensures Click(None, Seed()[2], 0) == Some(Selection("Emergency", 1))
    ensures BookOne(SetAvailability(Seed(), "Emergency", Int(0)), "Emergency")[2].available == Int(-1)
  {
  }
}
