/**
 * The node identity of this deployment: two fixed 5-bit numbers, each derived
 * from a calendar date by the formula ((month * day) + (year % 100)) % 32.
 */
module EurekaConfig {

  /** The date formula the configuration uses to fold a date into 0..31. */
  function DateCode(month: int, day: int, year: int): (r: int)
    ensures 0 <= r < 32
  {
    ((month * day) + (year % 100)) % 32
  }

  /** The datacenter id: the code of 02/16/2024 (written 0b11000 in the configuration). */
  function CurrentDataCenterIn5Bit(): (r: int)
    ensures r == DateCode(2, 16, 2024)
    ensures 0 <= r <= 31
  {
    0x18
  }

  /** The instance index: the code of 06/01/2024 (written 0b11110 in the configuration). */
  function CurrentInstanceIndex(): (r: int)
    ensures r == DateCode(6, 1, 2024)
    ensures 0 <= r <= 31
  {
    0x1E
  }
}
