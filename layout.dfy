/** The constants, register layout and records of the driver's header:
    model identifiers, 1-Wire function commands, scratchpad offsets,
    resolution configuration bytes, the size of the sensor table and the
    per-sensor record. */
module Layout {
  import opened CInt

  // Model identifiers: byte 0 of a device address is the family code.
  const DS18S20Model: byte := 0x10
  const DS18B20Model: byte := 0x28
  const DS1822Model: byte := 0x22

  // 1-Wire function commands.
  const StartConvo: byte := 0x44
  const CopyScratch: byte := 0x48
  const ReadScratch: byte := 0xBE
  const WriteScratch: byte := 0x4E
  const RecallScratch: byte := 0xB8
  const ReadPowerSupplyCommand: byte := 0xB4
  const AlarmSearch: byte := 0xEC

  // Offsets of the fields of the 9-byte scratchpad.
  const TempLsb: nat := 0
  const TempMsb: nat := 1
  const HighAlarmTemp: nat := 2
  const LowAlarmTemp: nat := 3
  const Configuration: nat := 4
  const InternalByte: nat := 5
  const CountRemain: nat := 6
  const CountPerC: nat := 7
  const ScratchPadCrc: nat := 8

  // Configuration register values, one per resolution.
  const Temp9Bit: byte := 0x1F
  const Temp10Bit: byte := 0x3F
  const Temp11Bit: byte := 0x5F
  const Temp12Bit: byte := 0x7F

  /** Number of slots in the sensor table. */
  const MaxDevices: nat := 6

  const AddressSize: nat := 8
  const ScratchPadSize: nat := 9

  type DeviceAddress = a: seq<byte> | |a| == AddressSize witness [0, 0, 0, 0, 0, 0, 0, 0]
  type ScratchPad = s: seq<byte> | |s| == ScratchPadSize witness [0, 0, 0, 0, 0, 0, 0, 0, 0]

  /** One slot of the sensor table. Temperatures are in hundredths of a
      degree Celsius; the widths are those of the C++ record. */
  datatype Sensor = Sensor(
    minTemp: int16,
    maxTemp: int16,
    avgTemp: int16,
    currentTemp: int16,
    avgTempAccumulator: int32,
    avgTempReadings: uint16,
    offset: int16,
    address: DeviceAddress)

  /** The contents of a slot that discovery has never written. */
  const BlankSensor: Sensor := Sensor(0, 0, 0, 0, 0, 0, 0, [0, 0, 0, 0, 0, 0, 0, 0])

  /** A device whose resolution is fixed at 9 bits and that has no
      configuration register. */
  predicate IsFixedResolution(a: DeviceAddress): (fixed: bool)
    ensures fixed ==> a[0] == DS18S20Model
    ensures a[0] == DS18B20Model || a[0] == DS1822Model ==> !fixed
  {
    a[0] == DS18S20Model
  }

  /** The scratchpad offsets name the nine positions of a scratchpad, each
      once, in register order. */
  lemma ScratchPadLayout()
    ensures [TempLsb, TempMsb, HighAlarmTemp, LowAlarmTemp, Configuration,
             InternalByte, CountRemain, CountPerC, ScratchPadCrc] == seq(ScratchPadSize, i => i)
  {
  }

  /** The three model identifiers are distinct, so a family code names at
      most one model. */
  lemma ModelsDistinct()
    ensures |{DS18S20Model, DS18B20Model, DS1822Model}| == 3
  {
  }
}
