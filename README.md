# One-wire temperature sensor: a Dafny model of the ESP-IDF `One_wire_temp_sensor`

This project models the ESP-IDF implementation of `One_wire_temp_sensor`. That class
sits between an application and the ds18x20 one-wire driver, and it does four jobs:

- **Address codec** (`address_codec.dfy`, module `AddressCodec`). It converts between
  the driver's 64-bit address (`ds18x20_addr_t`) and the 8-byte `Device_address` given
  to callers. Byte 0 is the least significant byte. The specification functions are
  `LittleEndian`/`ToDeviceAddress` and `FromBytes`/`FromDeviceAddress`. The two C loops
  are the methods `ConvertToDeviceAddress`, which fills the caller's array in place, and
  `AddressFromDeviceAddress`, which folds from byte 7 down into a `uint64_t`
  accumulator. The wrap-around modulo 2^64 is written out and is proved never to take
  effect.
- **Device registry** (the fields `addressList`, `devicesFound` of class
  `TempSensor.OneWireTempSensor`). The registry is filled by a bus scan. Lookup by
  index does nothing when the index is at or past the found count.
- **Resolution** (`resolution.dfy`, module `Resolution`). It holds the conversion wait
  per resolution (9→94 ms, 10→188 ms, 11→375 ms, anything else→750 ms). It also holds
  the configuration byte `(r - 9) << 5`, which sets the R1:R0 field (bits 6:5) of the
  DS18B20 configuration register. Both are proved to agree with the DS18B20 datasheet: the
  maximum conversion time is 750 ms / 2^(12 - r), and R1:R0 decodes back to r.
  `SetResolution` writes `[0x00, 0xFF, config]` to every found device, copies each
  scratchpad to EEPROM, and only then commits the value.
- **Conversion scheduler** (`sample_schedule.dfy`, module `SampleSchedule`). This is a
  pure state machine over `is_waiting_sample`, `_is_sample_available` and the
  timestamp of the last request, with the lifecycle Idle/Pending/Ready read from the
  two flags. The class methods `RequestTemperatures`, `RequestTemperatureBlocking`,
  `IsSampleAvailable` and `IsTimeToEnableSample` are each proved to move the object's
  fields exactly as the matching function does.

The class is in `temp_sensor.dfy`. The ds18x20 driver is not modelled. Each call into
it (scan, measure, scratchpad write, scratchpad copy, temperature read) is appended to
a ghost log `busLog`, with its arguments. What the driver reports back is a parameter
of the operation: the scan's recorded addresses and found count, and a temperature
reading. The microsecond clock `esp_timer_get_time` is the parameter `now`.

Assumptions and decisions:

- **Start state.** The C++ code never initialises the scheduler fields. The
  constructor assumes the start state: not waiting, no sample available, timestamp 0.
  The address slots the scan does not fill are left uninitialised in C and hold
  arbitrary values here too; no contract says anything about them.
- **Field set.** The header `One_wire_temp_sensor.h` does not declare the scheduler
  fields, `request_temperature_BLOCKING`, `is_sample_available` or
  `is_time_to_enable_sample`. It also declares `request_temperatures` as `const`, but
  the ESP-IDF version changes state. The model follows the `.cpp`.
- **Found count is not clamped.** The driver may report more devices than the
  10-slot buffer holds, and the code does not clamp `devices_found`. `devicesFound`
  therefore keeps the reported count unclamped. The two operations that index the
  buffer by it require exactly what the code assumes:
  - `GetDeviceAddressOnIndex` requires an index below the found count to be below 10;
  - `SetResolution` with a valid resolution requires the found count to be at most 10.
- **Device count is truncated.** `get_device_count` returns `(uint8_t)devices_found`,
  which truncates rather than saturates: 256 devices read as 0 and 300 as 44.
- **Request does not clear the flag.** `request_temperatures` does not clear
  `_is_sample_available`. After a request made while a sample is available, both flags
  are set, and the waiting flag decides the answer. `PhaseOf` counts that state as
  Pending.
- **`const` methods.** The header marks `get_device_address_on_index`,
  `get_resolution`, `request_temperatures`, `get_temperature_in_celsius` and
  `get_millis_to_wait_for_conversion` as `const`. In the model:
  - `GetDeviceAddressOnIndex` may modify only the caller's buffer;
  - `GetResolution` modifies nothing;
  - `RequestTemperatures` changes the scheduler fields, as the ESP-IDF code does (see
    "Field set" above);
  - `GetTemperatureInCelsius` changes only the ghost `busLog`, which records the read;
  - the wait lookup is a function.

## Model

| member | source | states |
|---|---|---|
| `AddressCodec.ToDeviceAddress` | One_wire_temp_sensor.h:9 | the `Device_address` form of any 64-bit address has exactly 8 bytes |
| `AddressCodec.FromDeviceAddress` | implementation/ESP-IDF/One_wire_temp_sensor.cpp:93-98 | the 64-bit value the 8 bytes denote: byte 0 is its least significant byte (`a % 256`), byte 7 its most significant (`a / 256^7`) |
| `AddressCodec.FromBytesLast` | implementation/ESP-IDF/One_wire_temp_sensor.cpp:95-96 | the last of n bytes carries weight 256^(n-1): the value is that of the first n-1 bytes plus 256^(n-1) times the last |
| `AddressCodec.DeviceAddressBytes` | implementation/ESP-IDF/One_wire_temp_sensor.cpp:36-41 | byte i of the `Device_address` form of a is `(a >> 8*i) & 0xFF`: little-endian |
| `AddressCodec.LittleEndianAt` | implementation/ESP-IDF/One_wire_temp_sensor.cpp:37-40 | for any length n, byte k of the n-byte little-endian form is `(a / 256^k) % 256` |
| `AddressCodec.FromLittleEndian` | implementation/ESP-IDF/One_wire_temp_sensor.cpp:93-98 | folding the n little-endian bytes of any a < 256^n gives a back |
| `AddressCodec.LittleEndianOfFromBytes` | implementation/ESP-IDF/One_wire_temp_sensor.cpp:36-41 | encoding the value a byte sequence denotes gives the same bytes back |
| `AddressCodec.AddressRoundTrip` | implementation/ESP-IDF/One_wire_temp_sensor.cpp:93-98 | bytes-to-address after address-to-bytes is the identity on every 64-bit address |
| `AddressCodec.DeviceAddressRoundTrip` | implementation/ESP-IDF/One_wire_temp_sensor.cpp:36-41 | address-to-bytes after bytes-to-address is the identity on every 8-byte array |
| `AddressCodec.Address560` | test/test_ESP_IDF_implementation/tests_general.cpp:47-58 | address 560 becomes bytes 0x30, 0x02, then six zeros |
| `AddressCodec.ConvertToDeviceAddress` | implementation/ESP-IDF/One_wire_temp_sensor.cpp:36-41 | the in-place loop leaves the caller's 8-byte array equal to the little-endian form of the address |
| `AddressCodec.AddressFromDeviceAddress` | implementation/ESP-IDF/One_wire_temp_sensor.cpp:93-98 | the byte-7-first `uint64_t` fold returns exactly the value the 8 bytes denote; it never wraps |
| `Resolution.MillisToWaitForConversion` | implementation/ESP-IDF/One_wire_temp_sensor.cpp:101-112 | every input gets a wait between 94 and 750 ms, which fits in a `uint16_t` |
| `Resolution.MillisCoverDatasheetConversion` | implementation/ESP-IDF/One_wire_temp_sensor.cpp:101-112 | for 9..12 bits the wait is the datasheet maximum conversion time 750 ms / 2^(12-r) rounded up to the next whole ms (94, 188, 375, 750): never shorter, and less than 1 ms longer |
| `Resolution.InvalidResolutionWaitsLongest` | implementation/ESP-IDF/One_wire_temp_sensor.cpp:109-110 | 12 and every value outside 9..12 take the default branch: the 12-bit wait, which is the longest wait |
| `Resolution.MillisMonotone` | implementation/ESP-IDF/One_wire_temp_sensor.cpp:101-112 | a higher valid resolution never waits less |
| `Resolution.ConfigRegister` | implementation/ESP-IDF/One_wire_temp_sensor.cpp:53-55 | `(r - 9) << 5` as `uint8_t` is one of 0x00, 0x20, 0x40, 0x60, with only bits 6:5 possibly set |
| `Resolution.ResolutionOfConfig` | implementation/ESP-IDF/One_wire_temp_sensor.cpp:55 | the R1:R0 field of any configuration byte selects a resolution in 9..12 |
| `Resolution.ConfigRegisterSelectsResolution` | implementation/ESP-IDF/One_wire_temp_sensor.cpp:55 | the byte written for r decodes back to r |
| `Resolution.ConfigRegisterInjective` | implementation/ESP-IDF/One_wire_temp_sensor.cpp:55 | two valid resolutions get the same byte if and only if they are equal |
| `SampleSchedule.Request` | implementation/ESP-IDF/One_wire_temp_sensor.cpp:67-71 | a non-blocking request takes any state to Pending, stamped with `now`; the available flag is left as it was |
| `SampleSchedule.RequestBlocking` | implementation/ESP-IDF/One_wire_temp_sensor.cpp:75-80 | a blocking request takes any state to Ready and leaves the timestamp as it was |
| `SampleSchedule.CheckTimer` | implementation/ESP-IDF/One_wire_temp_sensor.cpp:121-132 | if the timer check answers true, the state is Ready with the same stamp; if it answers false, nothing changes |
| `SampleSchedule.Poll` | implementation/ESP-IDF/One_wire_temp_sensor.cpp:114-119 | a poll answers true if and only if it leaves the state Ready; a false answer changes nothing; Ready answers true and stays put; Idle answers false |
| `SampleSchedule.PollThreshold` | implementation/ESP-IDF/One_wire_temp_sensor.cpp:123-124 | when Pending, a poll answers true exactly when `now - stamp >= 1000 * millis(resolution)` |
| `SampleSchedule.PollMonotoneInTime` | implementation/ESP-IDF/One_wire_temp_sensor.cpp:121-132 | a poll that answers true at t1 answers true, with the same next state, at every t2 >= t1 |
| `SampleSchedule.ReadyStaysReady` | implementation/ESP-IDF/One_wire_temp_sensor.cpp:114-119 | from Ready, every poll in any sequence answers true, at any times and resolutions, until the next request |
| `SampleSchedule.PendingUntilDeadline` | implementation/ESP-IDF/One_wire_temp_sensor.cpp:114-132 | after a request, the polls before the wait elapses answer false; the first poll at or past the wait answers true; every later poll answers true |
| `SampleSchedule.NineBitScenario` | implementation/ESP-IDF/One_wire_temp_sensor.cpp:121-132 | after a request at 0 with 9 bits, a poll at 93999 us answers false and one at 94000 us answers true |
| `SampleSchedule.ThresholdUsesPollTimeResolution` | implementation/ESP-IDF/One_wire_temp_sensor.cpp:123 | the wait uses the resolution at poll time: 94 ms after a request, a poll answers true at 9 bits and false at 12 bits |
| `TempSensor.ScratchpadFor` | implementation/ESP-IDF/One_wire_temp_sensor.cpp:53-56 | the 3 scratchpad bytes written for r carry a configuration byte that selects r |
| `TempSensor.ResolutionWrites` | implementation/ESP-IDF/One_wire_temp_sensor.cpp:58-61 | a resolution change over n devices makes exactly 2n driver calls |
| `TempSensor.ResolutionWritesAt` | implementation/ESP-IDF/One_wire_temp_sensor.cpp:56-61 | call 2k writes `[0x00, 0xFF, config]` to device k, with config in {0x00, 0x20, 0x40, 0x60} and selecting r; call 2k+1 copies device k's scratchpad |
| `TempSensor.TwoDevicesAtTwelveBits` | implementation/ESP-IDF/One_wire_temp_sensor.cpp:53-61 | with devices 560 and 230 at 12 bits, the calls are write(560, 00 FF 60), copy(560), write(230, 00 FF 60), copy(230) |
| `TempSensor.OneWireTempSensor.constructor` | implementation/ESP-IDF/One_wire_temp_sensor.cpp:14-16 | construction makes one scan of 10 slots and stores its addresses and count; the resolution starts at 12 and no conversion is requested |
| `TempSensor.OneWireTempSensor.StoreScan` | implementation/ESP-IDF/One_wire_temp_sensor.cpp:23 | a scan fills the front of the buffer with the recorded addresses; the other slots are unchanged; the found count is stored unclamped |
| `TempSensor.OneWireTempSensor.GetDeviceCount` | implementation/ESP-IDF/One_wire_temp_sensor.cpp:22-25 | a rescan overwrites the registry and returns the found count modulo 256 |
| `TempSensor.OneWireTempSensor.GetDeviceAddressOnIndex` | implementation/ESP-IDF/One_wire_temp_sensor.cpp:29-33 | an index at or past the found count leaves the caller's buffer unchanged, byte for byte; otherwise the buffer holds the little-endian form of that entry; the object is not modified |
| `TempSensor.OneWireTempSensor.GetResolution` | implementation/ESP-IDF/One_wire_temp_sensor.cpp:43-45 | returns the stored resolution, which is always in 9..12; changes nothing |
| `TempSensor.OneWireTempSensor.SetResolution` | implementation/ESP-IDF/One_wire_temp_sensor.cpp:49-63 | a value outside 9..12 changes no state and makes no driver call; otherwise the call log grows by exactly the write/copy pairs for the found devices in index order, then the resolution becomes r; the count and scheduler are untouched |
| `TempSensor.OneWireTempSensor.RequestTemperatures` | implementation/ESP-IDF/One_wire_temp_sensor.cpp:67-71 | one broadcast measure call (`DS18X20_ANY`, no wait); the scheduler moves as `Request` says, stamped with `now` |
| `TempSensor.OneWireTempSensor.RequestTemperatureBlocking` | implementation/ESP-IDF/One_wire_temp_sensor.cpp:75-80 | one broadcast measure call that waits; the scheduler moves as `RequestBlocking` says, to Ready |
| `TempSensor.OneWireTempSensor.IsSampleAvailable` | implementation/ESP-IDF/One_wire_temp_sensor.cpp:114-119 | the answer and the new scheduler fields are those of `Poll`, at the resolution current when polled; no driver call |
| `TempSensor.OneWireTempSensor.IsTimeToEnableSample` | implementation/ESP-IDF/One_wire_temp_sensor.cpp:121-132 | the answer and the new scheduler fields are those of `CheckTimer` at the current resolution |
| `TempSensor.OneWireTempSensor.GetTemperatureInCelsius` | implementation/ESP-IDF/One_wire_temp_sensor.cpp:84-90 | one read call to the 64-bit address the 8 bytes denote; returns the driver's reading; no real field changes |

## Left out

- The Arduino implementation (`implementation/Arduino/One_wire_temp_sensor.cpp`) is not
  part of this model. Its constructor allocates a `OneWire` and a `DallasTemperature`
  object, calls `begin()` and switches off waiting for conversion; its destructor frees
  both. Each of its other member functions is a one-line delegation to
  `DallasTemperature`, whose code is not available.
- The ds18x20 driver itself is not part of this model: scanning, measuring, scratchpad
  I/O and readout, and the `esp_err_t` codes it returns, which the class ignores. The
  calls are recorded in the ghost `busLog`.
- The build-time driver selection (`#if defined(...)`, `config.h`) and the empty
  destructor are not modelled.
- The pin is a plain `Byte`. The `gpio_num_t` cast is not modelled.
- `TempSensor.OneWireTempSensor.GetTemperatureInCelsius`: the driver's `float` reading
  is a `real` parameter that is passed through unchanged. Single-precision rounding is
  not modelled.
- `TempSensor.OneWireTempSensor.IsTimeToEnableSample`: `now` and the timestamp are
  unbounded integers. The `int64_t` overflow of `now - stamp` is not modelled; with a
  microsecond clock counted from boot it would take about 292,000 years.
- `TempSensor.OneWireTempSensor.GetDeviceCount`: `devicesFound` is an unbounded `nat`.
  The width of `size_t` is not modelled (32 bits on ESP32, 64 bits on the host test
  build).
- Out-of-bounds reads of `address_list` are not modelled. They happen when the driver
  reports more than 10 devices and then `get_device_address_on_index` or
  `set_resolution` is called. The model excludes them by precondition rather than
  giving them a meaning.
