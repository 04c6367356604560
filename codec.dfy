/** Integrity checks and the decoding of the scratchpad's temperature
    register, and the command sequences the driver sends for a scratchpad
    read and write. */
module Codec {
  import opened CInt
  import opened Layout
  import opened OneWire

  /** An address is accepted when the CRC of its first seven bytes equals
      its eighth. */
  predicate ValidAddress(crc8: seq<byte> -> byte, a: DeviceAddress): (ok: bool)
    ensures ok <==> a == a[..7] + [crc8(a[..7])]
  {
    assert a == a[..7] + [a[7]];
    crc8(a[..7]) == a[7]
  }

  /** A scratchpad is trusted when the CRC of its first eight bytes equals
      its ninth. */
  predicate ScratchPadValid(crc8: seq<byte> -> byte, sp: ScratchPad): (ok: bool)
    ensures ok <==> sp == sp[..8] + [crc8(sp[..8])]
  {
    assert sp == sp[..8] + [sp[ScratchPadCrc]];
    crc8(sp[..8]) == sp[ScratchPadCrc]
  }

  /** The addresses of a search, in order, keeping only those that pass
      the address check: the table discovery builds. */
  function Accepted(crc8: seq<byte> -> byte, found: seq<DeviceAddress>): (r: seq<DeviceAddress>)
    ensures |r| <= |found|
  {
    if found == [] then []
    else Accepted(crc8, found[..|found| - 1])
         + (if ValidAddress(crc8, found[|found| - 1]) then [found[|found| - 1]] else [])
  }

  /** Discovery's table of one search is the tables of its two halves
      laid end to end. */
  lemma {:induction false} AcceptedAppend(crc8: seq<byte> -> byte, xs: seq<DeviceAddress>, ys: seq<DeviceAddress>)
    ensures Accepted(crc8, xs + ys) == Accepted(crc8, xs) + Accepted(crc8, ys)
  {
    if ys == [] {
      assert xs + ys == xs;
    } else {
      var n := |ys| - 1;
      assert (xs + ys)[..|xs + ys| - 1] == xs + ys[..n];
      assert (xs + ys)[|xs + ys| - 1] == ys[n];
      AcceptedAppend(crc8, xs, ys[..n]);
    }
  }

  /** An address is in discovery's table exactly when the search reported
      it and its CRC checks. */
  lemma {:induction false} AcceptedMembers(crc8: seq<byte> -> byte, found: seq<DeviceAddress>, a: DeviceAddress)
    ensures a in Accepted(crc8, found) <==> a in found && ValidAddress(crc8, a)
  {
    if found != [] {
      var n := |found| - 1;
      AcceptedMembers(crc8, found[..n], a);
      assert found == found[..n] + [found[n]];
    }
  }

  /** A search whose every address passes the check is kept whole. */
  lemma {:induction false} AcceptedAllValid(crc8: seq<byte> -> byte, found: seq<DeviceAddress>)
    requires forall k :: 0 <= k < |found| ==> ValidAddress(crc8, found[k])
    ensures Accepted(crc8, found) == found
  {
    if found != [] {
      var n := |found| - 1;
      AcceptedAllValid(crc8, found[..n]);
      assert found == found[..n] + [found[n]];
    }
  }

  /** The signed 16-bit temperature register, MSB:LSB in two's complement. */
  function RawTemp(lsb: byte, msb: byte): (raw: int16)
    ensures raw == if msb < 0x80 then msb * 0x100 + lsb else msb * 0x100 + lsb - 0x1_0000
  {
    Wrap16(msb * 0x100 + lsb)
  }

  function LowByte(raw: int16): byte
  {
    (raw + 0x1_0000) % 0x100
  }

  function HighByte(raw: int16): byte
  {
    ((raw + 0x1_0000) / 0x100) % 0x100
  }

  /** Every register value is recovered from the two bytes it is sent as. */
  lemma RawTempRoundTrip(raw: int16)
    ensures RawTemp(LowByte(raw), HighByte(raw)) == raw
  {
    var u := raw + 0x1_0000;
    if raw >= 0 {
      assert HighByte(raw) == raw / 0x100;
    } else {
      assert HighByte(raw) == u / 0x100;
    }
  }

  /** Hundredths of a degree from a register in sixteenths of a degree:
      raw * 100 shifted right by four, that is rounded toward minus
      infinity. */
  function Hundredths(raw: int16): (t: int)
    ensures t * 16 <= raw * 100 < t * 16 + 16
    ensures -204800 <= t <= 204793
  {
    (raw * 100) / 16
  }

  /** A larger register never decodes to a smaller temperature. */
  lemma HundredthsMonotone(r1: int16, r2: int16)
    requires r1 <= r2
    ensures Hundredths(r1) <= Hundredths(r2)
  {
  }

  /** The line activity of a scratchpad read; the nine bytes in between
      are read from the input. ReadCommands is the activity as one value,
      for stating its shape; ReadTrace below appends it one bus call at a
      time, the form in which the driver's methods produce it, and
      ReadTraceAppends ties the two. WriteCommands and WriteTrace are the
      same pair for a write. */
  function ReadCommands(rom: DeviceAddress): (r: seq<Event>)
    ensures |r| == 4 && r[0] == Reset && r[3] == Reset
    ensures Select(rom) in r && Write(ReadScratch, false) in r
  {
    [Reset, Select(rom), Write(ReadScratch, false), Reset]
  }

  /** The trace t followed by a scratchpad read, one event per bus call. */
  function ReadTrace(t: seq<Event>, rom: DeviceAddress): (r: seq<Event>)
    ensures |r| == |t| + 4 && r[..|t|] == t && r[|t|] == Reset && r[|r| - 1] == Reset
  {
    t + [Reset] + [Select(rom)] + [Write(ReadScratch, false)] + [Reset]
  }

  lemma ReadTraceAppends(t: seq<Event>, rom: DeviceAddress)
    ensures ReadTrace(t, rom) == t + ReadCommands(rom)
  {
  }

  /** The line activity of a scratchpad write: the two alarm bytes, the
      configuration byte for families that have one, then a copy to
      EEPROM with a strong pull-up and a settle time under parasite power. */
  function WriteCommands(rom: DeviceAddress, sp: ScratchPad, parasite: bool): (r: seq<Event>)
    ensures |r| >= 8 && r[0] == Reset && r[1] == Select(rom) && r[|r| - 1] == Reset
  {
    [Reset, Select(rom), Write(WriteScratch, false),
     Write(sp[HighAlarmTemp], false), Write(sp[LowAlarmTemp], false)]
    + (if IsFixedResolution(rom) then [] else [Write(sp[Configuration], false)])
    + [Reset, Write(CopyScratch, parasite)]
    + (if parasite then [Delay(10)] else [])
    + [Reset]
  }

  /** A scratchpad write selects the device, sends the write command and
      both alarm bytes, sends the configuration byte exactly when the
      family has a configuration register, copies to EEPROM with the strong
      pull-up set by the power mode, waits 10 ms exactly under parasite
      power, and ends with a reset. */
  lemma WriteCommandsShape(rom: DeviceAddress, sp: ScratchPad, parasite: bool)
    ensures var r := WriteCommands(rom, sp, parasite);
            |r| == 8 + (if IsFixedResolution(rom) then 0 else 1) + (if parasite then 1 else 0)
            && r[..5] == [Reset, Select(rom), Write(WriteScratch, false),
                          Write(sp[HighAlarmTemp], false), Write(sp[LowAlarmTemp], false)]
            && (r[5] == Write(sp[Configuration], false) <==> !IsFixedResolution(rom))
            && Write(CopyScratch, parasite) in r && r[|r| - 1] == Reset
            && (Delay(10) in r <==> parasite)
  {
    var r := WriteCommands(rom, sp, parasite);
    if parasite {
      assert r[|r| - 2] == Delay(10);
    }
  }

  /** The trace t followed by a scratchpad write, one event per bus call. */
  function WriteTrace(t: seq<Event>, rom: DeviceAddress, sp: ScratchPad, parasite: bool): (r: seq<Event>)
    ensures |r| > |t| + 4 && r[..|t|] == t && r[|t|] == Reset && r[|r| - 1] == Reset
  {
    var head := t + [Reset] + [Select(rom)] + [Write(WriteScratch, false)]
                + [Write(sp[HighAlarmTemp], false)] + [Write(sp[LowAlarmTemp], false)];
    var config := if IsFixedResolution(rom) then head else head + [Write(sp[Configuration], false)];
    var copy := config + [Reset] + [Write(CopyScratch, parasite)];
    var settle := if parasite then copy + [Delay(10)] else copy;
    settle + [Reset]
  }

  /** The bus calls of a write put exactly its line activity after t. */
  lemma WriteTraceAppends(t: seq<Event>, rom: DeviceAddress, sp: ScratchPad, parasite: bool)
    ensures WriteTrace(t, rom, sp, parasite) == t + WriteCommands(rom, sp, parasite)
  {
    var w := WriteCommands(rom, sp, parasite);
    var r := WriteTrace(t, rom, sp, parasite);
    WriteCommandsShape(rom, sp, parasite);
    assert |r| == |t| + |w|;
    forall k | |t| <= k < |r|
      ensures r[k] == w[k - |t|]
    {
    }
  }
}
