/** The thermal habitability band and the three classification channels of the heat image. */
module Habitability {

  /** 273.15 - 15.5 kelvin, exactly 257.65 over the reals. */
  const LowestHabitableTemp: real := 273.15 - 15.5
  /** 273.15 + 34.4 kelvin, exactly 307.55 over the reals. */
  const HighestHabitableTemp: real := 273.15 + 34.4

  function IsHabitableHeat(kelvin: real): bool {
    kelvin >= LowestHabitableTemp && kelvin <= HighestHabitableTemp
  }

  /** The band is [257.65, 307.55], closed at both ends. */
  lemma HabitableBand(kelvin: real)
    ensures IsHabitableHeat(kelvin) <==> 257.65 <= kelvin <= 307.55
  {
  }

  lemma HabitableBoundaries()
    ensures IsHabitableHeat(257.65) && !IsHabitableHeat(257.649)
    ensures IsHabitableHeat(307.55) && !IsHabitableHeat(307.551)
  {
  }

  /** Red channel of the heat image: saturated when the scaled value is too hot. */
  function TooHotChannel(rate: real, x: real): int {
    if x * rate > HighestHabitableTemp then 255 else 0
  }

  /** Second channel: saturated when the scaled value is habitable. */
  function HabitableChannel(rate: real, x: real): int {
    if IsHabitableHeat(x * rate) then 255 else 0
  }

  /** Third channel: saturated when the scaled value is too cold. */
  function TooColdChannel(rate: real, x: real): int {
    if x * rate < LowestHabitableTemp then 255 else 0
  }

  /** The three channels partition the scaled values: exactly one of them is 255 and the
      other two are 0, and which one is decided by comparing x * rate with the band. */
  lemma ExactlyOneClass(rate: real, x: real)
    ensures var v := x * rate;
      [TooHotChannel(rate, x), HabitableChannel(rate, x), TooColdChannel(rate, x)] ==
        if v > 307.55 then [255, 0, 0]
        else if v < 257.65 then [0, 0, 255]
        else [0, 255, 0]
  {
  }
}
