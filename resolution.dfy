/**
 * DS18B20 resolution handling: the conversion wait per resolution and the
 * configuration-register byte that selects a resolution.
 *
 * In the DS18B20 configuration register, bits 6:5 (R1:R0) select 9, 10, 11
 * or 12 bits; the maximum conversion time is 750 ms at 12 bits and halves
 * with each bit less (93.75 ms, 187.5 ms, 375 ms, 750 ms).
 */
module Resolution {
  import opened AddressCodec

  const MIN_RESOLUTION: int := 9
  const MAX_RESOLUTION: int := 12
  /** The resolution a sensor object starts with. */
  const DEFAULT_RESOLUTION: Byte := 12

  predicate IsValidResolution(r: int) {
    MIN_RESOLUTION <= r <= MAX_RESOLUTION
  }

  /**
   * How many milliseconds a conversion at `resolution` bits must be given:
   * 9, 10 and 11 are matched explicitly, every other value (12 among them)
   * takes the default branch.
   */
  function MillisToWaitForConversion(resolution: Byte): (ms: nat)
    ensures 94 <= ms <= 750
    ensures ms < 0x1_0000
  {
    match resolution
    case 9 => 94
    case 10 => 188
    case 11 => 375
    case _ => 750
  }

  function Pow2(n: nat): (p: nat)
    ensures p >= 1
  {
    if n == 0 then 1 else 2 * Pow2(n - 1)
  }

  /** The datasheet's maximum conversion time in microseconds: 750 ms / 2^(12 - r). */
  function DatasheetConversionMicros(r: int): (us: nat)
    requires IsValidResolution(r)
  {
    750_000 / Pow2(MAX_RESOLUTION - r)
  }

  /**
   * For every valid resolution the wait is the datasheet's maximum
   * conversion time rounded up to a whole millisecond: never shorter than
   * the conversion, and less than a millisecond longer.
   */
  lemma MillisCoverDatasheetConversion(r: Byte)
    requires IsValidResolution(r)
    ensures DatasheetConversionMicros(r) <= 1000 * MillisToWaitForConversion(r)
    ensures 1000 * MillisToWaitForConversion(r) < DatasheetConversionMicros(r) + 1000
  {
  }

  /** A higher resolution never waits less. */
  lemma MillisMonotone(r1: Byte, r2: Byte)
    requires IsValidResolution(r1) && IsValidResolution(r2) && r1 <= r2
    ensures MillisToWaitForConversion(r1) <= MillisToWaitForConversion(r2)
  {
  }

  /**
   * A value outside 9..12 falls into the default branch, which is the wait
   * for 12 bits, the longest wait of all.
   */
  lemma InvalidResolutionWaitsLongest(r: Byte)
    requires !IsValidResolution(r) || r == MAX_RESOLUTION
    ensures MillisToWaitForConversion(r) == MillisToWaitForConversion(DEFAULT_RESOLUTION)
    ensures forall v: Byte :: MillisToWaitForConversion(v) <= MillisToWaitForConversion(r)
  {
  }

  /**
   * The configuration byte written for resolution r: `(r - 9) << 5` cast to
   * `uint8_t`. Only the R1:R0 field (bits 6:5) can be set.
   */
  function ConfigRegister(r: Byte): (config: Byte)
    requires IsValidResolution(r)
    ensures config in {0x00, 0x20, 0x40, 0x60}
    ensures config % 0x20 == 0 && config < 0x80
  {
    ((r - MIN_RESOLUTION) * 0x20) % 0x100
  }

  /** The resolution a sensor reads out of the R1:R0 field of its configuration register. */
  function ResolutionOfConfig(config: Byte): (r: int)
    ensures IsValidResolution(r)
  {
    MIN_RESOLUTION + (config / 0x20) % 4
  }

  /** The configuration byte written for r selects exactly r on the sensor. */
  lemma ConfigRegisterSelectsResolution(r: Byte)
    requires IsValidResolution(r)
    ensures ResolutionOfConfig(ConfigRegister(r)) == r
  {
  }

  /** Distinct resolutions are written as distinct configuration bytes. */
  lemma ConfigRegisterInjective(r1: Byte, r2: Byte)
    requires IsValidResolution(r1) && IsValidResolution(r2)
    ensures ConfigRegister(r1) == ConfigRegister(r2) <==> r1 == r2
  {
    ConfigRegisterSelectsResolution(r1);
    ConfigRegisterSelectsResolution(r2);
  }
}
