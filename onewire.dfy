/** The 1-Wire bus master the driver talks through, seen only at its
    interface: byte and bit reads come from a supplied input, device search
    walks a supplied list of addresses, the checksum is an arbitrary
    function, and every reset, select, skip, write and delay is appended to
    a trace. A read past the end of the supplied input returns an idle
    (all ones) line. */
module OneWire {
  import opened CInt
  import opened Layout

  type bit = x: int | 0 <= x < 2

  /** What the driver puts on the line, in order. */
  datatype Event =
    | Reset
    | Select(rom: DeviceAddress)
    | Skip
    | Write(value: byte, strongPullup: bool)
    | Delay(ms: nat)

  /** The byte at position k of the input, or 0xFF past its end. */
  function ByteAt(s: seq<byte>, k: int): byte
  {
    if 0 <= k < |s| then s[k] else 0xFF
  }

  /** The n bytes that n successive reads return. */
  function Take(s: seq<byte>, n: nat): (r: seq<byte>)
    ensures |r| == n
  {
    seq(n, k => ByteAt(s, k))
  }

  /** The input left after n reads. */
  function Drop(s: seq<byte>, n: nat): (r: seq<byte>)
    ensures |r| == if n <= |s| then |s| - n else 0
  {
    if n <= |s| then s[n..] else []
  }

  /** One more read extends Take by the next byte and shortens Drop by one. */
  lemma TakeDropStep(s: seq<byte>, n: nat)
    ensures Take(s, n) + [ByteAt(Drop(s, n), 0)] == Take(s, n + 1)
    ensures Drop(Drop(s, n), 1) == Drop(s, n + 1)
  {
    assert ByteAt(Drop(s, n), 0) == ByteAt(s, n);
  }

  class Bus {
    /** The bus master's CRC-8 over a byte string. */
    const crc8: seq<byte> -> byte
    /** The addresses a full search of the line reports, in order. */
    const found: seq<DeviceAddress>
    /** Bytes the devices will send. */
    var input: seq<byte>
    /** Single bits the devices will send. */
    var bits: seq<bit>
    /** How many addresses the current search has reported. */
    var cursor: nat
    ghost var trace: seq<Event>

    constructor (crc8: seq<byte> -> byte, found: seq<DeviceAddress>, input: seq<byte>, bits: seq<bit>)
      ensures this.crc8 == crc8 && this.found == found
      ensures this.input == input && this.bits == bits
      ensures cursor == 0 && trace == []
    {
      this.crc8 := crc8;
      this.found := found;
      this.input := input;
      this.bits := bits;
      cursor := 0;
      trace := [];
    }

    method ResetLine()
      modifies this`trace
      ensures trace == old(trace) + [Reset]
    {
      trace := trace + [Reset];
    }

    method SelectDevice(rom: DeviceAddress)
      modifies this`trace
      ensures trace == old(trace) + [Select(rom)]
    {
      trace := trace + [Select(rom)];
    }

    method SkipRom()
      modifies this`trace
      ensures trace == old(trace) + [Skip]
    {
      trace := trace + [Skip];
    }

    method WriteByte(value: byte, strongPullup: bool)
      modifies this`trace
      ensures trace == old(trace) + [Write(value, strongPullup)]
    {
      trace := trace + [Write(value, strongPullup)];
    }

    method Wait(ms: nat)
      modifies this`trace
      ensures trace == old(trace) + [Delay(ms)]
    {
      trace := trace + [Delay(ms)];
    }

    method ReadByte() returns (b: byte)
      modifies this`input
      ensures b == ByteAt(old(input), 0)
      ensures input == Drop(old(input), 1)
    {
      if input == [] {
        b := 0xFF;
      } else {
        b := input[0];
        input := input[1..];
      }
    }

    method ReadBit() returns (b: bit)
      modifies this`bits
      ensures b == if old(bits) == [] then 1 else old(bits)[0]
      ensures bits == if old(bits) == [] then [] else old(bits)[1..]
    {
      if bits == [] {
        b := 1;
      } else {
        b := bits[0];
        bits := bits[1..];
      }
    }

    method ResetSearch()
      modifies this`cursor
      ensures cursor == 0
    {
      cursor := 0;
    }

    method Search() returns (more: bool, a: DeviceAddress)
      modifies this`cursor
      ensures more == (old(cursor) < |found|)
      ensures more ==> a == found[old(cursor)] && cursor == old(cursor) + 1
      ensures !more ==> cursor == old(cursor)
    {
      if cursor < |found| {
        more, a := true, found[cursor];
        cursor := cursor + 1;
      } else {
        more, a := false, [0, 0, 0, 0, 0, 0, 0, 0];
      }
    }
  }
}
