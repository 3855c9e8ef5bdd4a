/**
 * The ESP-IDF `One_wire_temp_sensor`: a device registry filled by a bus
 * scan, a process-wide resolution, and the conversion scheduler state.
 *
 * The ds18x20 driver is not modelled; every call the object makes into it
 * is appended to the ghost `busLog`, and what a call reports back (the scan
 * result, a temperature reading) is a parameter of the operation that makes
 * the call. The microsecond clock is the parameter `now`.
 */
module TempSensor {
  import opened AddressCodec
  import opened Resolution
  import opened SampleSchedule

  const MAX_NUMBER_OF_SENSORS: nat := 10

  /** The driver's "any device on the bus" address: all 64 bits set. */
  const DS18X20_ANY: Address64 := 0xFFFF_FFFF_FFFF_FFFF

  /** The alarm thresholds written with every resolution change. */
  const TH: Byte := 0x00
  const TL: Byte := 0xFF

  const WAIT_FOR_CONVERSION: bool := true
  const DO_NOT_WAIT_FOR_CONVERSION: bool := false

  /** One call into the ds18x20 driver, with the arguments it was given. */
  datatype BusCall =
    | ScanDevices(pin: Byte, capacity: nat)
    | Measure(pin: Byte, address: Address64, wait: bool)
    | WriteScratchpad(pin: Byte, address: Address64, bytes: seq<Byte>)
    | CopyScratchpad(pin: Byte, address: Address64)
    /** `ds18b20_read_temperature`, the DS18B20-specific readout. */
    | ReadTemperatureDs18b20(pin: Byte, address: Address64)

  /**
   * What a scan reports: the addresses it recorded in the buffer, and the
   * number of devices it found, which may exceed the buffer's capacity.
   */
  datatype ScanReport = ScanReport(recorded: seq<Address64>, found: nat)

  /** A scan into a buffer of `capacity` slots records the first min(found, capacity) devices. */
  predicate IsScanReport(scan: ScanReport, capacity: nat) {
    |scan.recorded| == if scan.found < capacity then scan.found else capacity
  }

  /** The three scratchpad bytes written for resolution r: TH, TL, configuration. */
  function ScratchpadFor(r: Byte): (bytes: seq<Byte>)
    requires IsValidResolution(r)
    ensures |bytes| == 3 && ResolutionOfConfig(bytes[2]) == r
  {
    ConfigRegisterSelectsResolution(r);
    [TH, TL, ConfigRegister(r)]
  }

  /** The driver calls a resolution change makes: a write and a copy per device, in order. */
  function ResolutionWrites(pin: Byte, addresses: seq<Address64>, r: Byte): (calls: seq<BusCall>)
    requires IsValidResolution(r)
    ensures |calls| == 2 * |addresses|
    decreases |addresses|
  {
    if addresses == [] then []
    else
      var last := |addresses| - 1;
      ResolutionWrites(pin, addresses[..last], r)
        + [WriteScratchpad(pin, addresses[last], ScratchpadFor(r)), CopyScratchpad(pin, addresses[last])]
  }

  /**
   * Call 2k of a resolution change writes `[0x00, 0xFF, config]` to device k,
   * with a configuration byte in {0x00, 0x20, 0x40, 0x60} that selects r, and
   * call 2k + 1 copies device k's scratchpad to EEPROM.
   */
  lemma {:induction false} ResolutionWritesAt(pin: Byte, addresses: seq<Address64>, r: Byte, k: nat)
    requires IsValidResolution(r) && k < |addresses|
    ensures ResolutionWrites(pin, addresses, r)[2 * k]
         == WriteScratchpad(pin, addresses[k], [0x00, 0xFF, ConfigRegister(r)])
    ensures ResolutionWrites(pin, addresses, r)[2 * k + 1] == CopyScratchpad(pin, addresses[k])
    ensures ConfigRegister(r) in {0x00, 0x20, 0x40, 0x60}
    ensures ResolutionOfConfig(ResolutionWrites(pin, addresses, r)[2 * k].bytes[2]) == r
  {
    var last := |addresses| - 1;
    ConfigRegisterSelectsResolution(r);
    if k < last {
      ResolutionWritesAt(pin, addresses[..last], r, k);
    }
  }

  /**
   * Two devices at 560 and 230 set to 12 bits: one write and one copy each,
   * in index order, with configuration byte 0x60.
   */
  lemma TwoDevicesAtTwelveBits(pin: Byte)
    ensures ResolutionWrites(pin, [560, 230], 12)
         == [WriteScratchpad(pin, 560, [0x00, 0xFF, 0x60]), CopyScratchpad(pin, 560),
             WriteScratchpad(pin, 230, [0x00, 0xFF, 0x60]), CopyScratchpad(pin, 230)]
  {
    assert [560, 230][..1] == [560];
  }

  class OneWireTempSensor {
    const pinUsed: Byte
    /** The count the last scan reported; the driver does not bound it by the buffer. */
    var devicesFound: nat
    var resolution: Byte
    const addressList: array<Address64>

    var isWaitingSample: bool
    var isSampleAvailable: bool
    var lastRequestMicros: int

    /** Every driver call made so far, oldest first. */
    ghost var busLog: seq<BusCall>

    ghost predicate Valid()
      reads this
    {
      addressList.Length == MAX_NUMBER_OF_SENSORS && IsValidResolution(resolution)
    }

    /** The scheduler fields as a state of the conversion state machine. */
    function Schedule(): (s: SchedulerState)
      reads this
    {
      SchedulerState(isWaitingSample, isSampleAvailable, lastRequestMicros)
    }

    /**
     * Builds a sensor on `pin` and scans the bus; starts at 12 bits with no
     * conversion requested.
     */
    constructor (pin: Byte, scan: ScanReport)
      requires IsScanReport(scan, MAX_NUMBER_OF_SENSORS)
      ensures Valid() && fresh(addressList)
      ensures pinUsed == pin && resolution == DEFAULT_RESOLUTION && Schedule() == Initial
      ensures devicesFound == scan.found && addressList[..|scan.recorded|] == scan.recorded
      ensures busLog == [ScanDevices(pin, MAX_NUMBER_OF_SENSORS)]
    {
      pinUsed := pin;
      addressList := new Address64[MAX_NUMBER_OF_SENSORS];
      devicesFound := 0;
      resolution := DEFAULT_RESOLUTION;
      isWaitingSample, isSampleAvailable, lastRequestMicros := false, false, 0;
      busLog := [];
      new;
      StoreScan(scan);
    }

    /**
     * `ds18x20_scan_devices` into `addressList`: the recorded addresses fill
     * the front of the buffer, the other slots keep their contents, and
     * `devicesFound` takes the reported count unclamped.
     */
    method StoreScan(scan: ScanReport)
      requires Valid() && IsScanReport(scan, addressList.Length)
      modifies this, addressList
      ensures Valid()
      ensures devicesFound == scan.found && addressList[..|scan.recorded|] == scan.recorded
      ensures forall k :: |scan.recorded| <= k < addressList.Length ==> addressList[k] == old(addressList[k])
      ensures resolution == old(resolution) && Schedule() == old(Schedule())
      ensures busLog == old(busLog) + [ScanDevices(pinUsed, MAX_NUMBER_OF_SENSORS)]
    {
      forall k | 0 <= k < |scan.recorded| {
        addressList[k] := scan.recorded[k];
      }
      devicesFound := scan.found;
      busLog := busLog + [ScanDevices(pinUsed, MAX_NUMBER_OF_SENSORS)];
    }

    /** Rescans the bus and returns the found count cast to `uint8_t` (modulo 256). */
    method GetDeviceCount(scan: ScanReport) returns (count: Byte)
      requires Valid() && IsScanReport(scan, MAX_NUMBER_OF_SENSORS)
      modifies this, addressList
      ensures Valid()
      ensures count == scan.found % 256
      ensures devicesFound == scan.found && addressList[..|scan.recorded|] == scan.recorded
      ensures forall k :: |scan.recorded| <= k < addressList.Length ==> addressList[k] == old(addressList[k])
      ensures resolution == old(resolution) && Schedule() == old(Schedule())
      ensures busLog == old(busLog) + [ScanDevices(pinUsed, MAX_NUMBER_OF_SENSORS)]
    {
      StoreScan(scan);
      count := devicesFound % 256;
    }

    /**
     * Writes the `Device_address` form of entry `index` into the caller's
     * buffer; an index at or past the found count leaves the buffer as it
     * was. The object itself is not changed. The source indexes
     * `address_list` without checking its capacity, so an index below the
     * found count must be inside the buffer.
     */
    method GetDeviceAddressOnIndex(addressToGet: array<Byte>, index: Byte)
      requires Valid() && addressToGet.Length == BYTES_PER_ADDRESS
      requires index < devicesFound ==> index < addressList.Length
      modifies addressToGet
      ensures index >= devicesFound ==> addressToGet[..] == old(addressToGet[..])
      ensures index < devicesFound ==> addressToGet[..] == ToDeviceAddress(addressList[index])
    {
      if index >= devicesFound {
        return;
      }
      ConvertToDeviceAddress(addressToGet, addressList[index]);
    }

    /** The resolution in force, always one of 9..12; the object is not changed. */
    method GetResolution() returns (r: Byte)
      requires Valid()
      ensures r == resolution && IsValidResolution(r)
    {
      r := resolution;
    }

    /**
     * Rejects a resolution outside 9..12 without any effect. Otherwise
     * writes TH, TL and the configuration byte to every found device and
     * copies each scratchpad to EEPROM, in index order, and only then
     * commits the new resolution. The loop runs up to the found count
     * unclamped, so that count must fit in the buffer.
     */
    method SetResolution(newResolution: Byte)
      requires Valid()
      requires IsValidResolution(newResolution) ==> devicesFound <= addressList.Length
      modifies this
      ensures Valid()
      ensures devicesFound == old(devicesFound) && Schedule() == old(Schedule())
      ensures !IsValidResolution(newResolution) ==> resolution == old(resolution) && busLog == old(busLog)
      ensures IsValidResolution(newResolution) ==>
        && resolution == newResolution
        && busLog == old(busLog) + ResolutionWrites(pinUsed, addressList[..devicesFound], newResolution)
    {
      if newResolution < 9 || newResolution > 12 {
        return;
      }
      var config := ConfigRegister(newResolution);
      var bytesToWrite := [TH, TL, config];
      for i := 0 to devicesFound
        invariant busLog == old(busLog) + ResolutionWrites(pinUsed, addressList[..i], newResolution)
        invariant resolution == old(resolution) && devicesFound == old(devicesFound)
        invariant Schedule() == old(Schedule())
      {
        busLog := busLog + [WriteScratchpad(pinUsed, addressList[i], bytesToWrite)];
        busLog := busLog + [CopyScratchpad(pinUsed, addressList[i])];
        assert addressList[..i + 1][..i] == addressList[..i];
      }
      resolution := newResolution;
    }

    /**
     * Starts a conversion on every device without waiting, then stamps the
     * request with the clock reading `now`.
     */
    method RequestTemperatures(now: int)
      requires Valid()
      modifies this
      ensures Valid()
      ensures Schedule() == Request(old(Schedule()), now)
      ensures busLog == old(busLog) + [Measure(pinUsed, DS18X20_ANY, false)]
      ensures resolution == old(resolution) && devicesFound == old(devicesFound)
    {
      busLog := busLog + [Measure(pinUsed, DS18X20_ANY, DO_NOT_WAIT_FOR_CONVERSION)];
      lastRequestMicros := now;
      isWaitingSample := true;
    }

    /** Marks a sample available, then runs a conversion that waits for its end. */
    method RequestTemperatureBlocking()
      requires Valid()
      modifies this
      ensures Valid()
      ensures Schedule() == RequestBlocking(old(Schedule()))
      ensures busLog == old(busLog) + [Measure(pinUsed, DS18X20_ANY, true)]
      ensures resolution == old(resolution) && devicesFound == old(devicesFound)
    {
      isWaitingSample := false;
      isSampleAvailable := true;
      busLog := busLog + [Measure(pinUsed, DS18X20_ANY, WAIT_FOR_CONVERSION)];
    }

    /** Polls for a sample at clock reading `now`. */
    method IsSampleAvailable(now: int) returns (available: bool)
      requires Valid()
      modifies this
      ensures Valid()
      ensures PollOutcome(available, Schedule()) == Poll(old(Schedule()), resolution, now)
      ensures resolution == old(resolution) && devicesFound == old(devicesFound) && busLog == old(busLog)
    {
      if isWaitingSample {
        available := IsTimeToEnableSample(now);
      } else {
        available := isSampleAvailable;
      }
    }

    /**
     * Whether the conversion wait for the current resolution has passed
     * since the last request; if so the sample becomes available.
     */
    method IsTimeToEnableSample(now: int) returns (enabled: bool)
      requires Valid()
      modifies this
      ensures Valid()
      ensures PollOutcome(enabled, Schedule()) == CheckTimer(old(Schedule()), resolution, now)
      ensures resolution == old(resolution) && devicesFound == old(devicesFound) && busLog == old(busLog)
    {
      var usecsToWaitSample := MicrosToWait(resolution);
      if now - lastRequestMicros >= usecsToWaitSample {
        isWaitingSample := false;
        isSampleAvailable := true;
        return true;
      } else {
        return false;
      }
    }

    /**
     * Reads a device's temperature: converts the `Device_address` back to
     * the driver's 64-bit form and returns whatever the driver reports
     * (`driverReading`). Only the ghost log changes.
     */
    method GetTemperatureInCelsius(address: array<Byte>, driverReading: real) returns (celsius: real)
      requires address.Length == BYTES_PER_ADDRESS
      modifies this`busLog
      ensures busLog == old(busLog) + [ReadTemperatureDs18b20(pinUsed, FromDeviceAddress(address[..]))]
      ensures celsius == driverReading
    {
      var addressToUse := AddressFromDeviceAddress(address);
      busLog := busLog + [ReadTemperatureDs18b20(pinUsed, addressToUse)];
      celsius := driverReading;
    }
  }
}
