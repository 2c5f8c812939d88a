/** The medicine record the reminder list holds. */
module Types {
  import opened Wrappers

  /**
   * A medicine and its dosing state; `nextDoseTime` is a Date: an instant in milliseconds
   * since the epoch, or None for an invalid Date.
   */
  datatype Medicine = Medicine(
    id: string,
    medicineName: string,
    dose: string,
    timesPerDay: int,
    durationDays: int,
    instructions: string,
    nextDoseTime: Option<int>)

  /**
   * The record the medicine list starts with; its next dose time is the moment it is
   * created (`new Date()`), given here as `now`.
   */
  function DefaultMedicine(now: int): (r: Medicine)
    ensures r.nextDoseTime == Some(now)
    ensures r.timesPerDay == 0
  {
    Medicine("1", "paracetamol", "1", 0, 0, "take with water", Some(now))
  }
}
