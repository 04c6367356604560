/** The DallasTemperature driver: a fixed table of six sensor slots and the
    driver-wide state (enrolled device count, parasite-power flag, group
    resolution, wait and check flags), operated over an abstract 1-Wire bus. */
module Driver {
  import opened CInt
  import opened Layout
  import opened OneWire
  import opened Codec
  import opened Stats
  import opened Resolution
  import opened Units

  /** The slot an index reaches: an index at or past the enrolled count
      falls back to slot 0. */
  function Slot(index: byte, devices: nat): (i: nat)
    ensures i == index || i == 0
    ensures i == index <==> index < devices || index == 0
    ensures devices > 0 ==> i < devices
  {
    if index >= devices then 0 else index
  }

  /** The resolution a device reports for a read that returned sp: 9 for
      the fixed-resolution family without looking at sp, otherwise the
      configuration byte's resolution, or 0 when the scratchpad fails its
      CRC or holds an unknown byte. */
  function ResolutionReply(crc8: seq<byte> -> byte, fixed: bool, sp: ScratchPad): (r: nat)
    ensures fixed ==> r == 9
    ensures !fixed && !ScratchPadValid(crc8, sp) ==> r == 0
    ensures r == 0 || 9 <= r <= 12
  {
    if fixed then 9
    else if ScratchPadValid(crc8, sp) then BitsFor(sp[Configuration])
    else 0
  }

  /** A device that keeps the configuration byte a resolution request wrote
      reports that resolution back (9 for the fixed-resolution family). */
  lemma SetThenGet(crc8: seq<byte> -> byte, fixed: bool, sp: ScratchPad, bits: int)
    requires 9 <= bits <= 12
    requires ScratchPadValid(crc8, sp[Configuration := ConfigFor(bits)])
    ensures ResolutionReply(crc8, fixed, sp[Configuration := ConfigFor(bits)]) == if fixed then 9 else bits
  {
    BitsForConfigFor(bits);
  }

  /** The trace t followed by a per-device resolution request whose
      scratchpad read finds `input` on the line: the read, then, when the
      scratchpad checks and the family has a configuration register, a
      write of the scratchpad just read with its configuration byte
      replaced. */
  function ResolutionTrace(t: seq<Event>, crc8: seq<byte> -> byte, rom: DeviceAddress, fixed: bool,
                           input: seq<byte>, config: byte, parasite: bool): (r: seq<Event>)
    ensures |r| >= |t| + 4 && r[..|t|] == t
    ensures fixed ==> r == ReadTrace(t, rom)
  {
    var sp := Take(input, ScratchPadSize);
    if ScratchPadValid(crc8, sp) && !fixed
    then WriteTrace(ReadTrace(t, rom), rom, sp[Configuration := config], parasite)
    else ReadTrace(t, rom)
  }

  /** A resolution request reads the scratchpad, and writes it back with
      the new configuration byte exactly when it checks and the family has
      a configuration register. */
  lemma ResolutionTraceShape(t: seq<Event>, crc8: seq<byte> -> byte, rom: DeviceAddress, fixed: bool,
                             input: seq<byte>, config: byte, parasite: bool)
    ensures var sp := Take(input, ScratchPadSize);
            var r := ResolutionTrace(t, crc8, rom, fixed, input, config, parasite);
            |r| >= |t| + 4 && r[..|t| + 4] == t + ReadCommands(rom)
            && (|r| > |t| + 4 <==> ScratchPadValid(crc8, sp) && !fixed)
            && (ScratchPadValid(crc8, sp) && !fixed ==>
                  r == t + ReadCommands(rom) + WriteCommands(rom, sp[Configuration := config], parasite))
  {
    var sp := Take(input, ScratchPadSize);
    var read := ReadTrace(t, rom);
    ReadTraceAppends(t, rom);
    if ScratchPadValid(crc8, sp) && !fixed {
      WriteTraceAppends(read, rom, sp[Configuration := config], parasite);
      WriteCommandsShape(rom, sp[Configuration := config], parasite);
      var r := read + WriteCommands(rom, sp[Configuration := config], parasite);
      assert r[..|t| + 4] == read;
    } else {
      assert read[..|t| + 4] == read;
    }
  }

  /** The trace t followed by the group resolution request over the slots
      of table, slot j's read consuming the bytes from 9 * j of input on. */
  function GroupTrace(t: seq<Event>, crc8: seq<byte> -> byte, table: seq<Sensor>, input: seq<byte>,
                      config: byte, parasite: bool): (r: seq<Event>)
    ensures table == [] ==> r == t
    ensures |r| >= |t| + 4 * |table|
    decreases |table|
  {
    if table == [] then t
    else
      var j := |table| - 1;
      ResolutionTrace(GroupTrace(t, crc8, table[..j], input, config, parasite),
                      crc8, table[j].address, IsFixedResolution(table[j].address),
                      Drop(input, ScratchPadSize * j), config, parasite)
  }

  /** The group request over one more slot is the request over the slots
      before it followed by that slot's resolution request. */
  lemma GroupTraceStep(t: seq<Event>, crc8: seq<byte> -> byte, table: seq<Sensor>, input: seq<byte>,
                       config: byte, parasite: bool, i: nat)
    requires i < |table|
    ensures GroupTrace(t, crc8, table[..i + 1], input, config, parasite)
         == ResolutionTrace(GroupTrace(t, crc8, table[..i], input, config, parasite),
                            crc8, table[i].address, IsFixedResolution(table[i].address),
                            Drop(input, ScratchPadSize * i), config, parasite)
  {
    assert table[..i + 1][..i] == table[..i];
  }

  /** One slot's resolution request after the group request over the
      slots before it is the group request over one more slot. */
  lemma GroupTraceNext(t: seq<Event>, crc8: seq<byte> -> byte, table: seq<Sensor>, input: seq<byte>,
                       config: byte, parasite: bool, i: nat, before: seq<Event>, after: seq<Event>)
    requires i < |table|
    requires before == GroupTrace(t, crc8, table[..i], input, config, parasite)
    requires after == ResolutionTrace(before, crc8, table[i].address, IsFixedResolution(table[i].address),
                                      Drop(input, ScratchPadSize * i), config, parasite)
    ensures after == GroupTrace(t, crc8, table[..i + 1], input, config, parasite)
  {
    GroupTraceStep(t, crc8, table, input, config, parasite, i);
  }

  /** The group request keeps the trace before it and adds at least a read
      for every slot. */
  lemma {:induction false} GroupTraceExtends(t: seq<Event>, crc8: seq<byte> -> byte, table: seq<Sensor>,
                                             input: seq<byte>, config: byte, parasite: bool)
    ensures var r := GroupTrace(t, crc8, table, input, config, parasite);
            |r| >= |t| + 4 * |table| && r[..|t|] == t
    decreases |table|
  {
    if table != [] {
      var j := |table| - 1;
      var g := GroupTrace(t, crc8, table[..j], input, config, parasite);
      GroupTraceExtends(t, crc8, table[..j], input, config, parasite);
      ResolutionTraceShape(g, crc8, table[j].address, IsFixedResolution(table[j].address),
                           Drop(input, ScratchPadSize * j), config, parasite);
      var r := GroupTrace(t, crc8, table, input, config, parasite);
      assert r[..|g|] == g;
      assert r[..|t|] == g[..|t|];
    }
  }

  /** The slots once the group request's loop has processed the first n
      of table: each of those read once, in slot order, from its own nine
      bytes of input. */
  function Processed(table: seq<Sensor>, input: seq<byte>, n: nat): (r: seq<Sensor>)
    requires n <= |table| && forall k :: 0 <= k < |table| ==> table[k].avgTempReadings <= Ceiling
    ensures |r| == |table|
    ensures forall k :: n <= k < |table| ==> r[k] == table[k]
    decreases n
  {
    if n == 0 then table
    else
      var j := n - 1;
      Processed(table, input, j)[j := Record(table[j], Take(Drop(input, ScratchPadSize * j), ScratchPadSize))]
  }

  /** Each processed slot holds one read of its own nine bytes. */
  lemma {:induction false} ProcessedSlots(table: seq<Sensor>, input: seq<byte>, n: nat)
    requires n <= |table| && forall k :: 0 <= k < |table| ==> table[k].avgTempReadings <= Ceiling
    ensures forall k :: 0 <= k < n ==>
              Processed(table, input, n)[k] == Record(table[k], Take(Drop(input, ScratchPadSize * k), ScratchPadSize))
    decreases n
  {
    if n > 0 {
      ProcessedSlots(table, input, n - 1);
    }
  }

  /** Reading slot n from its own nine bytes takes Processed one slot on. */
  lemma ProcessedNext(table: seq<Sensor>, input: seq<byte>, n: nat, before: seq<Sensor>, sp: seq<byte>, after: seq<Sensor>)
    requires n < |table| && forall k :: 0 <= k < |table| ==> table[k].avgTempReadings <= Ceiling
    requires before == Processed(table, input, n)
    requires sp == Take(Drop(input, ScratchPadSize * n), ScratchPadSize)
    requires after == before[n := Record(before[n], sp)]
    ensures after == Processed(table, input, n + 1)
  {
  }

  /** Nine more bytes read after the first 9 * i. */
  lemma DropStep(input: seq<byte>, i: nat)
    ensures Drop(Drop(input, ScratchPadSize * i), ScratchPadSize) == Drop(input, ScratchPadSize * (i + 1))
  {
    DropDrop(input, ScratchPadSize * i, ScratchPadSize);
  }

  lemma DropDrop(s: seq<byte>, a: nat, b: nat)
    ensures Drop(Drop(s, a), b) == Drop(s, a + b)
  {
  }

  /** Reading a slot once more extends its history by that read. */
  lemma {:induction false} RecordAllSnoc(s: Sensor, sps: seq<ScratchPad>, sp: ScratchPad)
    requires Healthy(s)
    ensures RecordAll(s, sps + [sp]) == Record(RecordAll(s, sps), sp)
    decreases |sps|
  {
    if sps == [] {
      RecordKeepsHealthy(s, sp);
      assert RecordAll(s, [sp]) == RecordAll(Record(s, sp), []);
    } else {
      RecordKeepsHealthy(s, sps[0]);
      var s1 := Record(s, sps[0]);
      assert (sps + [sp])[1..] == sps[1..] + [sp];
      assert RecordAll(s, sps + [sp]) == RecordAll(s1, sps[1..] + [sp]);
      assert RecordAll(s, sps) == RecordAll(s1, sps[1..]);
      RecordAllSnoc(s1, sps[1..], sp);
    }
  }

  /** Reading a slot through two histories in turn is reading it through
      their concatenation. */
  lemma {:induction false} RecordAllAppend(s: Sensor, a: seq<ScratchPad>, b: seq<ScratchPad>)
    requires Healthy(s)
    ensures RecordAll(s, a + b) == RecordAll(RecordAll(s, a), b)
    decreases |a|
  {
    if a != [] {
      RecordKeepsHealthy(s, a[0]);
      var s1 := Record(s, a[0]);
      assert (a + b)[1..] == a[1..] + b;
      assert RecordAll(s, a + b) == RecordAll(s1, a[1..] + b);
      assert RecordAll(s, a) == RecordAll(s1, a[1..]);
      RecordAllAppend(s1, a[1..], b);
    } else {
      assert a + b == b;
    }
  }

  /** One read and two reads of a slot, spelled out. */
  lemma RecordAllOne(s: Sensor, a: ScratchPad)
    requires Healthy(s)
    ensures RecordAll(s, [a]) == Record(s, a)
  {
    RecordAllSnoc(s, [], a);
    assert [] + [a] == [a];
  }

  lemma RecordAllTwo(s: Sensor, a: ScratchPad, b: ScratchPad)
    requires Healthy(s)
    ensures RecordAll(s, [a, b]) == Record(Record(s, a), b)
  {
    RecordAllOne(s, a);
    RecordAllSnoc(s, [a], b);
    assert [a] + [b] == [a, b];
  }

  /** Once the first scratchpad is read, the next ones of what remains are
      the later ones of the input. */
  lemma NextPadsShift(input: seq<byte>, m: nat)
    requires m <= 2
    ensures var rest := Drop(input, ScratchPadSize);
            NextPads(rest)[0] == NextPads(input)[1] && NextPads(rest)[1] == NextPads(input)[2]
            && [NextPads(input)[0]] + NextPads(rest)[..m] == NextPads(input)[..m + 1]
            && Drop(rest, ScratchPadSize * m) == Drop(input, ScratchPadSize * (m + 1))
  {
    DropDrop(input, ScratchPadSize, ScratchPadSize);
    DropDrop(input, ScratchPadSize, ScratchPadSize * m);
    var rest := Drop(input, ScratchPadSize);
    assert [NextPads(input)[0]] + NextPads(rest)[..m] == NextPads(input)[..m + 1];
  }

  /** A prefix of the search accepts a prefix of the table. */
  lemma AcceptedPrefix(crc8: seq<byte> -> byte, found: seq<DeviceAddress>, c: nat)
    requires c <= |found|
    ensures Accepted(crc8, found) == Accepted(crc8, found[..c]) + Accepted(crc8, found[c..])
  {
    assert found == found[..c] + found[c..];
    AcceptedAppend(crc8, found[..c], found[c..]);
  }

  /** One more search result extends the table by it exactly when its CRC
      checks. */
  lemma AcceptedStep(crc8: seq<byte> -> byte, found: seq<DeviceAddress>, c: nat)
    requires c < |found|
    ensures Accepted(crc8, found[..c + 1])
         == Accepted(crc8, found[..c]) + (if ValidAddress(crc8, found[c]) then [found[c]] else [])
  {
    assert found[..c + 1][..c] == found[..c];
  }

  /** The table begin has built so far, over the sensor slots s with n
      devices counted: the addresses of table in the first n slots, each
      slot but the first freshly enrolled, slot 0 enrolled and then read
      through history, and the slots past the count as they were in orig. */
  ghost predicate DiscoveredIn(s: seq<Sensor>, n: nat, table: seq<DeviceAddress>,
                               history: seq<ScratchPad>, orig: seq<Sensor>): (ok: bool)
    ensures ok ==> |s| == MaxDevices && n == |table| <= MaxDevices
    ensures ok ==> forall k :: 1 <= k < n ==>
                     s[k].avgTempReadings == 0 && s[k].offset == 0 && s[k].minTemp == MinSentinel
    ensures ok && n > 0 ==> s[0].address == table[0]
  {
    |s| == MaxDevices && |orig| == MaxDevices && n == |table| <= MaxDevices
    && (forall k :: 0 <= k < n ==> s[k].address == table[k])
    && (forall k :: 1 <= k < n ==> s[k] == Enrolled(orig[k], table[k]))
    && (forall k :: n <= k < MaxDevices ==> s[k] == orig[k])
    && (n > 0 ==> s[0] == RecordAll(Enrolled(orig[0], table[0]), history))
  }

  /** Enrolling address a in the next free slot and then reading slot 0
      through sps extends the table by a and slot 0's history by sps (the
      history starts afresh when a is the first device). */
  lemma EnrollStep(s0: seq<Sensor>, s1: seq<Sensor>, s2: seq<Sensor>, n: nat, table: seq<DeviceAddress>,
                   history: seq<ScratchPad>, orig: seq<Sensor>, a: DeviceAddress, sps: seq<ScratchPad>)
    requires DiscoveredIn(s0, n, table, history, orig) && n < MaxDevices
    requires |s1| == MaxDevices && s1[n] == Enrolled(s0[n], a)
    requires forall k :: 0 <= k < MaxDevices && k != n ==> s1[k] == s0[k]
    requires |s2| == MaxDevices && Healthy(s1[0]) && s2[0] == RecordAll(s1[0], sps)
    requires forall k :: 1 <= k < MaxDevices ==> s2[k] == s1[k]
    ensures DiscoveredIn(s2, n + 1, table + [a], (if n == 0 then [] else history) + sps, orig)
  {
    EnrollSlots(s0, s1, s2, n, table, orig, a);
    EnrollFirst(s0[0], s1[0], s2[0], n, table, history, orig, a, sps);
  }

  /** Once address a is enrolled in the next free slot, slot 0 holds the
      first address of the table. */
  lemma FirstAddress(s0: seq<Sensor>, s1: seq<Sensor>, n: nat, table: seq<DeviceAddress>,
                     history: seq<ScratchPad>, orig: seq<Sensor>, a: DeviceAddress)
    requires DiscoveredIn(s0, n, table, history, orig) && n < MaxDevices
    requires |s1| == MaxDevices && s1[n] == Enrolled(s0[n], a)
    requires forall k :: 0 <= k < MaxDevices && k != n ==> s1[k] == s0[k]
    ensures s1[0].address == (table + [a])[0]
  {
  }

  /** The slot part of EnrollStep: addresses, the freshly enrolled slots
      and the untouched ones. */
  lemma EnrollSlots(s0: seq<Sensor>, s1: seq<Sensor>, s2: seq<Sensor>, n: nat, table: seq<DeviceAddress>,
                    orig: seq<Sensor>, a: DeviceAddress)
    requires |s0| == MaxDevices && |orig| == MaxDevices && n == |table| < MaxDevices
    requires forall k :: 0 <= k < n ==> s0[k].address == table[k]
    requires forall k :: 1 <= k < n ==> s0[k] == Enrolled(orig[k], table[k])
    requires forall k :: n <= k < MaxDevices ==> s0[k] == orig[k]
    requires |s1| == MaxDevices && s1[n] == Enrolled(s0[n], a)
    requires forall k :: 0 <= k < MaxDevices && k != n ==> s1[k] == s0[k]
    requires |s2| == MaxDevices && s2[0].address == s1[0].address
    requires forall k :: 1 <= k < MaxDevices ==> s2[k] == s1[k]
    ensures forall k :: 0 <= k < n + 1 ==> s2[k].address == (table + [a])[k]
    ensures forall k :: 1 <= k < n + 1 ==> s2[k] == Enrolled(orig[k], (table + [a])[k])
    ensures forall k :: n + 1 <= k < MaxDevices ==> s2[k] == orig[k]
  {
    var t := table + [a];
    forall k | 0 <= k < n + 1
      ensures s2[k].address == t[k]
    {
      if k < n {
        assert t[k] == table[k];
      }
    }
    forall k | 1 <= k < n + 1
      ensures s2[k] == Enrolled(orig[k], t[k])
    {
      if k < n {
        assert t[k] == table[k];
      }
    }
  }

  /** The slot 0 part of EnrollStep: slot 0's history grows by sps. */
  lemma EnrollFirst(f0: Sensor, f1: Sensor, f2: Sensor, n: nat, table: seq<DeviceAddress>,
                    history: seq<ScratchPad>, orig: seq<Sensor>, a: DeviceAddress, sps: seq<ScratchPad>)
    requires |orig| == MaxDevices && n == |table| < MaxDevices
    requires n > 0 ==> f0 == RecordAll(Enrolled(orig[0], table[0]), history) && f1 == f0
    requires n == 0 ==> f0 == orig[0] && f1 == Enrolled(f0, a)
    requires Healthy(f1) && f2 == RecordAll(f1, sps)
    ensures f2 == RecordAll(Enrolled(orig[0], (table + [a])[0]), (if n == 0 then [] else history) + sps)
  {
    var h := if n == 0 then [] else history;
    var base := Enrolled(orig[0], (table + [a])[0]);
    assert f1 == RecordAll(base, h);
    RecordAllAppend(base, h, sps);
  }

  /** Taking the next search result: the table grows by it exactly when
      its CRC checks, and then the table so far is shorter than the table
      of the whole search. */
  lemma AcceptedNext(crc8: seq<byte> -> byte, found: seq<DeviceAddress>, c: nat)
    requires c < |found|
    ensures Accepted(crc8, found[..c + 1])
         == Accepted(crc8, found[..c]) + (if ValidAddress(crc8, found[c]) then [found[c]] else [])
    ensures ValidAddress(crc8, found[c]) ==> |Accepted(crc8, found[..c])| < |Accepted(crc8, found)|
  {
    AcceptedStep(crc8, found, c);
    AcceptedPrefix(crc8, found, c + 1);
  }

  /** The larger of two values. */
  function Max(a: int, b: int): (r: int)
    ensures r >= a && r >= b && (r == a || r == b)
  {
    if a >= b then a else b
  }

  /** max(a, b) as the Arduino.h macro ((a)>(b)?(a):(b)) evaluates it:
      the second operand once for the comparison, giving b1, and once more
      for the result when a is not greater, giving b2. Only when both
      evaluations agree is it the larger of the two. */
  function MacroMax(a: int, b1: int, b2: int): (r: int)
    ensures r == a || r == b2
    ensures b1 == b2 ==> r == Max(a, b1)
  {
    if a > b1 then a else b2
  }

  /** The next three scratchpads on the line: the nine bytes from 0, 9
      and 18 of input. */
  function NextPads(input: seq<byte>): (pads: seq<ScratchPad>)
    ensures |pads| == 3
    ensures pads[0] == Take(Drop(input, 0), ScratchPadSize)
    ensures pads[1] == Take(Drop(input, ScratchPadSize), ScratchPadSize)
    ensures pads[2] == Take(Drop(input, ScratchPadSize * 2), ScratchPadSize)
  {
    [Take(input, ScratchPadSize), Take(Drop(input, ScratchPadSize), ScratchPadSize),
     Take(Drop(input, 2 * ScratchPadSize), ScratchPadSize)]
  }

  /** The number of scratchpads getResolution reads inside begin's
      bitResolution = max(bitResolution, getResolution(devices)) on a
      device whose first reply is r1, with the group resolution at bits:
      none for the fixed-resolution family, which answers without a read;
      otherwise one, and a second when the macro evaluates the call again. */
  function ResolutionReads(fixed: bool, bits: int, r1: int): (n: nat)
    ensures n <= 2 && (n == 0 <==> fixed) && (n == 2 <==> !fixed && bits <= r1)
  {
    if fixed then 0 else if bits > r1 then 1 else 2
  }

  /** The number of scratchpads begin's probes read, on slot 0 whose
      address is rom, with the group resolution at bits and input on the
      line: readScratchPad's read, then getResolution's. */
  function ProbeReadCount(crc8: seq<byte> -> byte, rom: DeviceAddress, bits: int, input: seq<byte>): (n: nat)
    ensures 1 <= n <= 3 && (n == 1 <==> IsFixedResolution(rom))
  {
    var fixed := IsFixedResolution(rom);
    1 + ResolutionReads(fixed, bits, ResolutionReply(crc8, fixed, NextPads(input)[1]))
  }

  /** The group resolution begin's max macro leaves, on slot 0 whose
      address is rom, with the group resolution at bits and input on the
      line: it stays, or becomes the reply to the second getResolution,
      which can be lower than the first reply and lower than bits. */
  function ProbeBits(crc8: seq<byte> -> byte, rom: DeviceAddress, bits: int, input: seq<byte>): (r: int)
    ensures r == bits || r == 0 || 9 <= r <= 12
    ensures IsFixedResolution(rom) ==> r == Max(bits, 9)
    ensures bits > ResolutionReply(crc8, IsFixedResolution(rom), NextPads(input)[1]) ==> r == bits
  {
    var fixed := IsFixedResolution(rom);
    var pads := NextPads(input);
    MacroMax(bits, ResolutionReply(crc8, fixed, pads[1]), ResolutionReply(crc8, fixed, pads[2]))
  }

  /** The group resolution begin evidently means to keep: the larger of
      itself and the device's reply, so it never falls and only takes a
      reported resolution. */
  function IntendedProbeBits(crc8: seq<byte> -> byte, rom: DeviceAddress, bits: int, input: seq<byte>): (r: int)
    ensures var r1 := ResolutionReply(crc8, IsFixedResolution(rom), NextPads(input)[1]);
            r >= bits && r >= r1 && (r == bits || r == r1)
  {
    Max(bits, ResolutionReply(crc8, IsFixedResolution(rom), NextPads(input)[1]))
  }

  /** The max macro as written: with the group resolution at 9 and a
      device whose first getResolution read checks with the 12-bit
      configuration byte and whose second fails its CRC, begin reads three
      scratchpads and sets the group resolution to 0, where the larger of 9
      and the reply is 12. */
  lemma ProbeBitsMisses(crc8: seq<byte> -> byte, rom: DeviceAddress, input: seq<byte>)
    requires !IsFixedResolution(rom)
    requires ScratchPadValid(crc8, NextPads(input)[1]) && NextPads(input)[1][Configuration] == Temp12Bit
    requires !ScratchPadValid(crc8, NextPads(input)[2])
    ensures ProbeReadCount(crc8, rom, 9, input) == 3
    ensures ProbeBits(crc8, rom, 9, input) == 0
    ensures IntendedProbeBits(crc8, rom, 9, input) == 12
  {
  }

  /** The scratchpads of getResolution's one or two reads inside begin
      are the next ones on the line, and together consume their bytes. */
  lemma QueriesCompose(input: seq<byte>, fixed: bool)
    ensures var first := if fixed then [] else [Take(input, ScratchPadSize)];
            var rest := Drop(input, ScratchPadSize * |first|);
            var second := if fixed then [] else [Take(rest, ScratchPadSize)];
            first == NextPads(input)[..|first|]
            && first + second == NextPads(input)[..|first| + |second|]
            && Drop(rest, ScratchPadSize * |second|) == Drop(input, ScratchPadSize * (|first| + |second|))
            && NextPads(input)[0] == Take(input, ScratchPadSize)
  {
    assert Drop(input, 0) == input;
    DropDrop(input, ScratchPadSize, ScratchPadSize);
  }

  /** The trace t followed by begin's power-supply query of the device rom,
      which is skipped once parasite power has been seen. */
  function PowerTrace(t: seq<Event>, rom: DeviceAddress, parasite: bool): (r: seq<Event>)
    ensures parasite ==> r == t
    ensures !parasite ==> |r| == |t| + 4 && r[..|t|] == t
                          && r[|t|..] == [Reset, Select(rom), Write(ReadPowerSupplyCommand, false), Reset]
  {
    if parasite then t
    else t + [Reset] + [Select(rom)] + [Write(ReadPowerSupplyCommand, false)] + [Reset]
  }

  /** The trace t followed by n scratchpad reads of the device rom. */
  function ReadTraces(t: seq<Event>, rom: DeviceAddress, n: nat): (r: seq<Event>)
    ensures |r| == |t| + 4 * n && r[..|t|] == t
    decreases n
  {
    if n == 0 then t else ReadTraces(ReadTrace(t, rom), rom, n - 1)
  }

  /** Reading a device a times and then b times is reading it a + b times. */
  lemma {:induction false} ReadTracesAppend(t: seq<Event>, rom: DeviceAddress, a: nat, b: nat)
    ensures ReadTraces(ReadTraces(t, rom, a), rom, b) == ReadTraces(t, rom, a + b)
    decreases a
  {
    if a > 0 {
      ReadTracesAppend(ReadTrace(t, rom), rom, a - 1, b);
    }
  }

  /** What begin's probes act on besides the sensor table: the parasite
      flag, the group resolution, the bytes and bits still to come off the
      line, the trace, and the scratchpads read so far. */
  datatype Probed = Probed(parasite: bool, bitResolution: int, input: seq<byte>, bits: seq<bit>,
                           trace: seq<Event>, pads: seq<ScratchPad>)

  /** The probes of one enrolled device, all of which reach slot 0, whose
      address is rom: the power query unless parasite power has been seen,
      then readScratchPad and the max macro's getResolution calls. */
  function ProbeStep(crc8: seq<byte> -> byte, rom: DeviceAddress, p: Probed): (r: Probed)
    ensures p.parasite ==> r.parasite && r.bits == p.bits
    ensures r.parasite <==> p.parasite || (p.bits != [] && p.bits[0] == 0)
    ensures |p.pads| + 1 <= |r.pads| <= |p.pads| + 3
    ensures r.bitResolution == p.bitResolution || r.bitResolution == 0 || 9 <= r.bitResolution <= 12
    ensures |r.trace| >= |p.trace| + 4
  {
    var n := ProbeReadCount(crc8, rom, p.bitResolution, p.input);
    var power := PowerTrace(p.trace, rom, p.parasite);
    Probed(p.parasite || (p.bits != [] && p.bits[0] == 0),
           ProbeBits(crc8, rom, p.bitResolution, p.input),
           Drop(p.input, ScratchPadSize * n),
           if p.parasite || p.bits == [] then p.bits else p.bits[1..],
           ReadTraces(power, rom, n),
           p.pads + NextPads(p.input)[..n])
  }

  /** The probes of n enrolled devices, in turn, all on slot 0 (address
      rom). Parasite power, once seen, stays; every device reads one to
      three scratchpads and adds at least a read to the trace. */
  function ProbeIter(crc8: seq<byte> -> byte, rom: DeviceAddress, n: nat, p: Probed): (r: Probed)
    ensures p.parasite ==> r.parasite
    ensures r.bitResolution == p.bitResolution || r.bitResolution == 0 || 9 <= r.bitResolution <= 12
    ensures |p.pads| + n <= |r.pads| <= |p.pads| + 3 * n
    ensures n == 0 ==> r == p
    decreases n
  {
    if n == 0 then p else ProbeStep(crc8, rom, ProbeIter(crc8, rom, n - 1, p))
  }

  /** What begin's probes leave after enrolling the addresses of table,
      starting from p: every probe reaches slot 0, which holds the first
      address. */
  function ProbedAfter(crc8: seq<byte> -> byte, table: seq<DeviceAddress>, p: Probed): (r: Probed)
    ensures table == [] ==> r == p
    ensures p.parasite ==> r.parasite
    ensures r.bitResolution == p.bitResolution || r.bitResolution == 0 || 9 <= r.bitResolution <= 12
    ensures |p.pads| + |table| <= |r.pads| <= |p.pads| + 3 * |table|
  {
    if table == [] then p else ProbeIter(crc8, table[0], |table|, p)
  }

  /** Enrolling one more address probes it once more on slot 0. */
  lemma ProbedAfterStep(crc8: seq<byte> -> byte, table: seq<DeviceAddress>, a: DeviceAddress, p: Probed)
    ensures ProbedAfter(crc8, table + [a], p)
         == ProbeStep(crc8, (table + [a])[0], ProbedAfter(crc8, table, p))
  {
  }

  /** One pass of begin's search loop keeps the probe state at ProbedAfter
      of the table: a pass that enrolls nothing leaves it, a pass that
      enrolls one more address adds that device's probes. */
  lemma ProbedAfterNext(crc8: seq<byte> -> byte, t0: seq<DeviceAddress>, table: seq<DeviceAddress>,
                        init: Probed, before: Probed, after: Probed)
    requires before == ProbedAfter(crc8, t0, init)
    requires table != t0 ==> |table| == |t0| + 1 && table == t0 + [table[|t0|]]
    requires after == if table == t0 then before else ProbeStep(crc8, table[0], before)
    ensures after == ProbedAfter(crc8, table, init)
  {
    if table != t0 {
      ProbedAfterStep(crc8, t0, table[|t0|], init);
    }
  }

  /** resetStats() as written: every pass of its loop resets the slot just
      past the enrolled devices, so no enrolled slot is reset. */
  function ResetAllAsWritten(table: seq<Sensor>, devices: nat): (r: seq<Sensor>)
    requires devices < |table|
    ensures |r| == |table|
    ensures forall k :: 0 <= k < devices ==> r[k] == table[k]
  {
    if devices == 0 then table else table[devices := Cleared(table[devices])]
  }

  /** resetStats() as intended: every enrolled slot goes back to its
      sentinels, keeping its address, and the other slots are untouched. */
  function ResetAll(table: seq<Sensor>, n: nat): (r: seq<Sensor>)
    requires n <= |table|
    ensures |r| == |table|
    ensures forall k :: 0 <= k < n ==>
              r[k].avgTempReadings == 0 && r[k].avgTempAccumulator == 0
              && r[k].minTemp > r[k].maxTemp && r[k].address == table[k].address
    ensures forall k :: 0 <= k < n ==> r[k] == Cleared(table[k])
    ensures forall k :: n <= k < |table| ==> r[k] == table[k]
  {
    seq(|table|, k requires 0 <= k < |table| => if k < n then Cleared(table[k]) else table[k])
  }

  /** With one enrolled device that has seen readings, the written loop
      leaves its statistics in place, where the intended one clears them. */
  lemma ResetAllAsWrittenMisses(table: seq<Sensor>, devices: nat)
    requires 0 < devices < |table|
    requires table[0].avgTempReadings > 0
    ensures ResetAllAsWritten(table, devices)[0].avgTempReadings > 0
    ensures ResetAll(table, devices)[0].avgTempReadings == 0
  {
  }

  /** begin fills the whole table from a search of six addresses whose
      CRCs check: the enrolled count is then 6, and the slot resetStats
      writes, the one at the count, lies past the six-slot table. */
  lemma ResetStatsPastTable(crc8: seq<byte> -> byte, found: seq<DeviceAddress>)
    requires |found| == MaxDevices
    requires forall k :: 0 <= k < |found| ==> ValidAddress(crc8, found[k])
    ensures |Accepted(crc8, found)| == MaxDevices
  {
    AcceptedAllValid(crc8, found);
  }

  class DallasTemperature {
    const bus: Bus
    /** The sensor table, MaxDevices slots. */
    const sensors: array<Sensor>
    var parasite: bool
    /** The group resolution, used to size the conversion wait. */
    var bitResolution: byte
    var waitForConversion: bool
    var checkForConversion: bool
    /** The number of enrolled devices. */
    var devices: byte

    /** The table has its six slots and the enrolled count fits it. */
    ghost predicate Sized()
      reads this`devices
    {
      sensors.Length == MaxDevices && devices <= MaxDevices
    }

    /** Sized, and every slot keeps the statistics invariant. */
    ghost predicate Valid()
      reads this`devices, sensors
    {
      Sized() && forall k :: 0 <= k < MaxDevices ==> Healthy(sensors[k])
    }

    /** The driver fields and line state begin's probes act on, with the
        scratchpads read so far. */
    ghost function Snapshot(history: seq<ScratchPad>): (p: Probed)
      reads this`parasite, this`bitResolution, bus`input, bus`bits, bus`trace
      ensures p.parasite == parasite && p.bitResolution == bitResolution as int && p.pads == history
    {
      Probed(parasite, bitResolution as int, bus.input, bus.bits, bus.trace, history)
    }

    /** The effect of one scratchpad read of the slot index reaches: the
        nine bytes come off the line, the read is framed by resets around
        a select and the read command, and only that slot's record changes,
        by Record. */
    twostate predicate ReadDone(index: byte, sp: ScratchPad)
      requires old(Valid())
      reads this`devices, sensors, bus`input, bus`trace
    {
      var i := Slot(index, old(devices));
      sp == Take(old(bus.input), ScratchPadSize)
      && bus.input == Drop(old(bus.input), ScratchPadSize)
      && bus.trace == ReadTrace(old(bus.trace), old(sensors[i].address))
      && sensors[i] == Record(old(sensors[i]), sp)
      && (forall k :: 0 <= k < MaxDevices && k != i ==> sensors[k] == old(sensors[k]))
      && sensors[..] == old(sensors[..])[i := Record(old(sensors[i]), sp)]
    }

    constructor (bus: Bus)
      ensures Valid() && fresh(sensors)
      ensures this.bus == bus && devices == 0 && !parasite && bitResolution == 9
      ensures waitForConversion && checkForConversion
      ensures sensors[..] == seq(MaxDevices, _ => BlankSensor)
    {
      this.bus := bus;
      sensors := new Sensor[MaxDevices](_ => BlankSensor);
      devices := 0;
      parasite := false;
      bitResolution := 9;
      waitForConversion := true;
      checkForConversion := true;
    }

    /** Enumerate the line: every search result whose CRC checks is copied
        into the next slot, which is reset; power mode, scratchpad and
        resolution are then probed through the index fallback, that is on
        slot 0. */
    method Begin() returns (ghost history: seq<ScratchPad>)
      requires Valid()
      requires |Accepted(bus.crc8, bus.found)| <= MaxDevices
      modifies this`devices, this`parasite, this`bitResolution, sensors, bus
      ensures Valid()
      ensures Discovered(Accepted(bus.crc8, bus.found), history, old(sensors[..]))
      ensures old(parasite) ==> parasite
      ensures bitResolution == old(bitResolution) || bitResolution == 0 || 9 <= bitResolution <= 12
      ensures Snapshot(history) == ProbedAfter(bus.crc8, Accepted(bus.crc8, bus.found), old(Snapshot([])))
      ensures bus.cursor == |bus.found|
    {
      bus.ResetSearch();
      devices := 0;
      history := Discover(sensors[..]);
    }

    /** begin's search loop: walk the search from its start, enrolling
        every address whose CRC checks. */
    method Discover(ghost orig: seq<Sensor>) returns (ghost history: seq<ScratchPad>)
      requires Valid() && devices == 0 && bus.cursor == 0 && orig == sensors[..]
      requires |Accepted(bus.crc8, bus.found)| <= MaxDevices
      modifies this`devices, this`parasite, this`bitResolution, sensors, bus`cursor, bus`input, bus`bits, bus`trace
      ensures Valid()
      ensures Discovered(Accepted(bus.crc8, bus.found), history, orig)
      ensures Snapshot(history) == ProbedAfter(bus.crc8, Accepted(bus.crc8, bus.found), old(Snapshot([])))
      ensures bus.cursor == |bus.found|
    {
      ghost var init := Snapshot([]);
      history := [];
      ghost var table: seq<DeviceAddress> := [];
      var more := true;
      while more
        invariant Valid()
        invariant bus.cursor <= |bus.found|
        invariant table == Accepted(bus.crc8, bus.found[..bus.cursor])
        invariant Discovered(table, history, orig)
        invariant !more ==> bus.cursor == |bus.found|
        invariant Snapshot(history) == ProbedAfter(bus.crc8, table, init)
        decreases |bus.found| - bus.cursor, more
      {
        ghost var t0, before := table, Snapshot(history);
        more, table, history := SearchStep(table, history, orig, before);
        ProbedAfterNext(bus.crc8, t0, table, init, before, Snapshot(history));
      }
      assert bus.found[..bus.cursor] == bus.found;
    }

    /** One pass of begin's search loop: take the next search result and
        enroll it when its CRC checks; more is false once the search is
        exhausted. */
    method SearchStep(ghost table: seq<DeviceAddress>, ghost history: seq<ScratchPad>, ghost orig: seq<Sensor>,
                      ghost before: Probed)
      returns (more: bool, ghost table': seq<DeviceAddress>, ghost history': seq<ScratchPad>)
      requires Valid() && bus.cursor <= |bus.found|
      requires table == Accepted(bus.crc8, bus.found[..bus.cursor])
      requires Discovered(table, history, orig)
      requires |Accepted(bus.crc8, bus.found)| <= MaxDevices
      requires table == [] ==> history == []
      requires Snapshot(history) == before
      modifies this`devices, this`parasite, this`bitResolution, sensors, bus`cursor, bus`input, bus`bits, bus`trace
      ensures Valid() && bus.cursor <= |bus.found|
      ensures table' == Accepted(bus.crc8, bus.found[..bus.cursor])
      ensures Discovered(table', history', orig)
      ensures table' != table ==> |table'| == |table| + 1 && table' == table + [table'[|table|]]
      ensures Snapshot(history') == if table' == table then before else ProbeStep(bus.crc8, table'[0], before)
      ensures more ==> bus.cursor == old(bus.cursor) + 1
      ensures !more ==> bus.cursor == |bus.found|
    {
      table', history' := table, history;
      var deviceAddress;
      more, deviceAddress := NextCandidate(table);
      if more {
        table', history' := Consider(deviceAddress, table, history, orig, before);
      }
    }

    /** Take the next search result: the accepted table grows by it exactly
        when its CRC checks, and then stays within the slots. */
    method NextCandidate(ghost table: seq<DeviceAddress>) returns (more: bool, a: DeviceAddress)
      requires bus.cursor <= |bus.found| && table == Accepted(bus.crc8, bus.found[..bus.cursor])
      requires |Accepted(bus.crc8, bus.found)| <= MaxDevices
      modifies bus`cursor
      ensures bus.cursor <= |bus.found|
      ensures more ==> bus.cursor == old(bus.cursor) + 1
      ensures more ==> Accepted(bus.crc8, bus.found[..bus.cursor]) == table + (if ValidAddress(bus.crc8, a) then [a] else [])
      ensures more && ValidAddress(bus.crc8, a) ==> |table| < MaxDevices
      ensures !more ==> bus.cursor == |bus.found| && bus.cursor == old(bus.cursor)
    {
      ghost var c := bus.cursor;
      more, a := bus.Search();
      if more {
        AcceptedNext(bus.crc8, bus.found, c);
      }
    }

    /** Enroll address a when its CRC checks; skip it otherwise. */
    method Consider(a: DeviceAddress, ghost table: seq<DeviceAddress>, ghost history: seq<ScratchPad>,
                    ghost orig: seq<Sensor>, ghost before: Probed)
      returns (ghost table': seq<DeviceAddress>, ghost history': seq<ScratchPad>)
      requires Valid() && Discovered(table, history, orig)
      requires ValidAddress(bus.crc8, a) ==> devices < MaxDevices
      requires table == [] ==> history == []
      requires Snapshot(history) == before
      modifies this`devices, this`parasite, this`bitResolution, sensors, bus`input, bus`bits, bus`trace
      ensures Valid() && Discovered(table', history', orig)
      ensures table' == table + (if ValidAddress(bus.crc8, a) then [a] else [])
      ensures Snapshot(history') == if table' == table then before else ProbeStep(bus.crc8, table'[0], before)
    {
      table', history' := table, history;
      if ValidAddress(bus.crc8, a) {
        history' := Enroll(a, table, history, orig, before);
        table' := table + [a];
      }
    }

    /** The table begin has built so far, over this driver's slots and
        count (see DiscoveredIn). */
    ghost predicate Discovered(table: seq<DeviceAddress>, history: seq<ScratchPad>, orig: seq<Sensor>)
      reads this`devices, sensors
    {
      Sized() && DiscoveredIn(sensors[..], devices as nat, table, history, orig)
    }

    /** The body of begin's search loop for an address whose CRC checks:
        enroll it in the next slot, probe, and count it. */
    method Enroll(a: DeviceAddress, ghost table: seq<DeviceAddress>, ghost history: seq<ScratchPad>,
                  ghost orig: seq<Sensor>, ghost before: Probed) returns (ghost history': seq<ScratchPad>)
      requires Valid() && Discovered(table, history, orig) && devices < MaxDevices
      requires devices == 0 ==> history == []
      requires Snapshot(history) == before
      modifies this`devices, this`parasite, this`bitResolution, sensors, bus`input, bus`bits, bus`trace
      ensures Valid() && Discovered(table + [a], history', orig)
      ensures Snapshot(history') == ProbeStep(bus.crc8, (table + [a])[0], before)
    {
      var d := devices;
      ghost var s0 := sensors[..];
      Admit(d, a);
      FirstAddress(s0, sensors[..], d as nat, table, history, orig, a);
      history' := ProbeEnrolled(d, a, table, history, orig, s0, before);
    }

    /** The rest of Enroll once slot d holds address a: probe, then count
        the device. */
    method ProbeEnrolled(d: byte, a: DeviceAddress, ghost table: seq<DeviceAddress>, ghost history: seq<ScratchPad>,
                         ghost orig: seq<Sensor>, ghost s0: seq<Sensor>, ghost before: Probed)
      returns (ghost history': seq<ScratchPad>)
      requires Valid() && d == devices && devices < MaxDevices
      requires DiscoveredIn(s0, d as nat, table, history, orig) && (d == 0 ==> history == [])
      requires sensors[d] == Enrolled(s0[d], a)
      requires forall k :: 0 <= k < MaxDevices && k != d as int ==> sensors[k] == s0[k]
      requires sensors[0].address == (table + [a])[0]
      requires Snapshot(history) == before
      modifies this`devices, this`parasite, this`bitResolution, sensors, bus`input, bus`bits, bus`trace
      ensures Valid() && Discovered(table + [a], history', orig)
      ensures Snapshot(history') == ProbeStep(bus.crc8, (table + [a])[0], before)
    {
      ghost var s1 := sensors[..];
      ghost var sps := Probe(d, history);
      history' := (if d == 0 then [] else history) + sps;
      devices := devices + 1;
      EnrollStep(s0, s1, sensors[..], d as nat, table, history, orig, a, sps);
    }

    /** Copy a search result into slot d, reset its statistics and clear
        its offset. */
    method Admit(d: byte, a: DeviceAddress)
      requires Valid() && d == devices && devices < MaxDevices
      modifies sensors
      ensures Valid()
      ensures sensors[d] == Enrolled(old(sensors[d]), a)
      ensures forall k :: 0 <= k < MaxDevices && k != d ==> sensors[k] == old(sensors[k])
    {
      CopyAddress(d, a);
      ResetStats(d);
      sensors[d] := sensors[d].(offset := 0);
    }

    /** The probes begin makes right after enrolling slot d, before the
        count is raised: power mode, scratchpad and resolution, all of which
        the index fallback sends to slot 0. Parasite power is latched by the
        first device that reports it; the group resolution goes through the
        max macro (see ProbeBits). */
    method Probe(d: byte, ghost history: seq<ScratchPad>) returns (ghost sps: seq<ScratchPad>)
      requires Valid() && d == devices && devices < MaxDevices
      modifies this`parasite, this`bitResolution, sensors, bus`input, bus`bits, bus`trace
      ensures Valid()
      ensures Snapshot(history + sps) == ProbeStep(bus.crc8, old(sensors[0].address), old(Snapshot(history)))
      ensures sensors[0] == RecordAll(old(sensors[0]), sps)
      ensures forall k :: 1 <= k < MaxDevices ==> sensors[k] == old(sensors[k])
    {
      ProbePower(d);
      sps := ProbeReads(d);
    }

    /** begin's power-supply probe, `if (!parasite && readPowerSupply(d))`:
        the query is skipped once parasite power has been seen, and
        otherwise takes one bit off the line. */
    method ProbePower(d: byte)
      requires Sized()
      modifies this`parasite, bus`bits, bus`trace
      ensures parasite == (old(parasite) || (old(bus.bits) != [] && old(bus.bits)[0] == 0))
      ensures old(parasite) ==> bus.bits == old(bus.bits)
      ensures !old(parasite) ==> bus.bits == if old(bus.bits) == [] then [] else old(bus.bits)[1..]
      ensures bus.trace == PowerTrace(old(bus.trace), sensors[Slot(d, devices)].address, old(parasite))
    {
      if !parasite {
        var p := ReadPowerSupply(d);
        if p {
          parasite := true;
        }
      }
    }

    /** The scratchpad read and the resolution update of begin, on slot 0:
        readScratchPad takes the first scratchpad, getResolution the ones
        after it (see ProbeReadCount), and each read is folded into the
        slot's record. */
    method ProbeReads(d: byte) returns (ghost sps: seq<ScratchPad>)
      requires Valid() && d == devices && devices < MaxDevices
      modifies this`bitResolution, sensors, bus`input, bus`trace
      ensures Valid()
      ensures var rom := old(sensors[0].address);
              var n := ProbeReadCount(bus.crc8, rom, old(bitResolution) as int, old(bus.input));
              bitResolution as int == ProbeBits(bus.crc8, rom, old(bitResolution) as int, old(bus.input))
              && sps == NextPads(old(bus.input))[..n]
              && bus.input == Drop(old(bus.input), ScratchPadSize * n)
              && bus.trace == ReadTraces(old(bus.trace), rom, n)
      ensures sensors[0] == RecordAll(old(sensors[0]), sps)
      ensures forall k :: 1 <= k < MaxDevices ==> sensors[k] == old(sensors[k])
    {
      assert Slot(d, devices) == 0;
      ghost var s0 := sensors[0];
      ghost var in0 := bus.input;
      var scratchPad := ReadScratchPad(d);
      ghost var more := ProbeResolution(d);
      sps := [scratchPad] + more;
      NextPadsShift(in0, |more|);
      assert sps[1..] == more;
    }

    /** begin's bitResolution = max(bitResolution, getResolution(devices))
        with the macro expanded: a first query, and a second whose reply is
        stored when the group resolution is not greater than the first
        reply. Both reach slot 0. */
    method ProbeResolution(d: byte) returns (ghost sps: seq<ScratchPad>)
      requires Valid() && d == devices && devices < MaxDevices
      modifies this`bitResolution, sensors, bus`input, bus`trace
      ensures Valid()
      ensures var rom := old(sensors[0].address);
              var fixed := IsFixedResolution(rom);
              var pads := NextPads(old(bus.input));
              var n := ResolutionReads(fixed, old(bitResolution) as int, ResolutionReply(bus.crc8, fixed, pads[0]));
              bitResolution as int == MacroMax(old(bitResolution) as int, ResolutionReply(bus.crc8, fixed, pads[0]),
                                               ResolutionReply(bus.crc8, fixed, pads[1]))
              && sps == pads[..n]
              && bus.input == Drop(old(bus.input), ScratchPadSize * n)
              && bus.trace == ReadTraces(old(bus.trace), rom, n)
      ensures sensors[0] == RecordAll(old(sensors[0]), sps)
      ensures forall k :: 1 <= k < MaxDevices ==> sensors[k] == old(sensors[k])
    {
      ghost var s0 := sensors[0];
      ghost var in0 := bus.input;
      ghost var t0 := bus.trace;
      QueriesCompose(in0, IsFixedResolution(s0.address));
      var r1, first := QueryResolution(d);
      if bitResolution > r1 {
        sps := first;
      } else {
        var r2, second := QueryResolution(d);
        bitResolution := r2;
        sps := first + second;
        RecordAllAppend(s0, first, second);
        ReadTracesAppend(t0, s0.address, |first|, |second|);
      }
    }

    /** One getResolution(devices) inside begin, on slot 0: the fixed-
        resolution family answers 9 with no read, any other device reads
        the next scratchpad, which is folded into slot 0's record. */
    method QueryResolution(d: byte) returns (bits: byte, ghost sps: seq<ScratchPad>)
      requires Valid() && d == devices && devices < MaxDevices
      modifies sensors, bus`input, bus`trace
      ensures Valid()
      ensures var rom := old(sensors[0].address);
              var fixed := IsFixedResolution(rom);
              var sp := Take(old(bus.input), ScratchPadSize);
              bits as int == ResolutionReply(bus.crc8, fixed, sp)
              && sps == (if fixed then [] else [sp])
              && bus.input == Drop(old(bus.input), ScratchPadSize * |sps|)
              && bus.trace == ReadTraces(old(bus.trace), rom, |sps|)
      ensures sensors[0] == RecordAll(old(sensors[0]), sps)
      ensures sensors[0].address == old(sensors[0].address)
      ensures forall k :: 1 <= k < MaxDevices ==> sensors[k] == old(sensors[k])
    {
      assert Slot(d, devices) == 0;
      ghost var s0 := sensors[0];
      ghost var in0 := bus.input;
      bits := GetResolution(d);
      if IsFixedResolution(s0.address) {
        sps := [];
        assert Drop(in0, 0) == in0;
      } else {
        sps := [Take(in0, ScratchPadSize)];
        RecordAllOne(s0, sps[0]);
      }
    }

    /** The byte-by-byte copy of a search result into a slot's address. */
    method CopyAddress(slot: nat, a: DeviceAddress)
      requires Valid() && slot < MaxDevices
      modifies sensors
      ensures Valid()
      ensures sensors[slot] == old(sensors[slot]).(address := a)
      ensures forall k :: 0 <= k < MaxDevices && k != slot ==> sensors[k] == old(sensors[k])
    {
      ghost var s0 := sensors[slot];
      for count := 0 to AddressSize
        invariant Valid()
        invariant sensors[slot] == s0.(address := sensors[slot].address)
        invariant forall j :: 0 <= j < count ==> sensors[slot].address[j] == a[j]
        invariant forall j :: count <= j < AddressSize ==> sensors[slot].address[j] == s0.address[j]
        invariant forall k :: 0 <= k < MaxDevices && k != slot ==> sensors[k] == old(sensors[k])
      {
        var s := sensors[slot];
        sensors[slot] := s.(address := s.address[count := a[count]]);
      }
      assert sensors[slot].address == a;
    }

    /** resetStats(uint8_t) as written: the argument is ignored and the
        slot at the enrolled count is the one reset. */
    method ResetStats(index: byte)
      requires Valid() && devices < MaxDevices
      modifies sensors
      ensures Valid()
      ensures sensors[..] == old(sensors[..])[devices := Cleared(old(sensors[devices]))]
    {
      var s := sensors[devices];
      sensors[devices] := s.(minTemp := MinSentinel, maxTemp := MaxSentinel, avgTemp := 0,
                             avgTempAccumulator := 0, avgTempReadings := 0);
    }

    /** resetStats() as written: one pass per enrolled device, each
        resetting the slot at the enrolled count. */
    method ResetAllStats()
      requires Valid() && devices < MaxDevices
      modifies sensors
      ensures Valid()
      ensures sensors[..] == ResetAllAsWritten(old(sensors[..]), devices)
    {
      for i := 0 to devices
        invariant Valid()
        invariant sensors[..] == if i == 0 then old(sensors[..]) else ResetAllAsWritten(old(sensors[..]), devices)
      {
        ResetStats(i);
      }
    }

    method GetDeviceCount() returns (n: byte)
      ensures n == devices
    {
      n := devices;
    }

    /** Read the nine scratchpad bytes of the slot index reaches and fold
        the temperature into that slot's statistics. */
    method ReadScratchPad(index: byte) returns (sp: ScratchPad)
      requires Valid()
      modifies sensors, bus`input, bus`trace
      ensures Valid()
      ensures ReadDone(index, sp)
    {
      var i := Slot(index, devices);
      ghost var s := sensors[i];
      bus.ResetLine();
      bus.SelectDevice(sensors[i].address);
      bus.WriteByte(ReadScratch, false);
      var buf: seq<byte> := [];
      for k := 0 to ScratchPadSize
        invariant buf == Take(old(bus.input), k)
        invariant bus.input == Drop(old(bus.input), k)
        invariant bus.trace == old(bus.trace) + [Reset] + [Select(s.address)] + [Write(ReadScratch, false)]
        invariant sensors[..] == old(sensors[..])
      {
        TakeDropStep(old(bus.input), k);
        var b := bus.ReadByte();
        buf := buf + [b];
      }
      sp := buf;

      FoldReading(i, sp);
      bus.ResetLine();
    }

    /** The statistics half of readScratchPad, on one slot's record: decode
        the register, latch the cold offset once, and update current,
        maximum, minimum, accumulator, count and average, halving count and
        accumulator once the count passes the ceiling. */
    static method Fold(s: Sensor, sp: ScratchPad) returns (rec: Sensor)
      requires s.avgTempReadings < 0xFFFF
      ensures rec == Record(s, sp)
    {
      var returnedTemp := RawTemp(sp[TempLsb], sp[TempMsb]);
      // hundredths of a degree; the arithmetic shift right by 4 rounds down
      var temp: int := returnedTemp as int * 100;
      temp := temp / 16;
      assert temp == Hundredths(returnedTemp);
      rec := s;
      if temp < LatchBelow && rec.offset == 0 {
        rec := rec.(offset := ColdOffset);
      }
      assert rec == LatchStep(s, Hundredths(returnedTemp));
      ghost var r0 := rec;
      temp := temp + rec.offset;
      rec := rec.(currentTemp := Wrap16(temp));
      if temp > rec.maxTemp {
        rec := rec.(maxTemp := Wrap16(temp));
      }
      if temp < rec.minTemp {
        rec := rec.(minTemp := Wrap16(temp));
      }
      assert rec == TrackStep(r0, temp);
      rec := Accumulate(rec, temp);
    }

    /** The running-average update of readScratchPad: add the reading to
        the int32 accumulator, count it, store the truncated average, and
        halve count and accumulator once the count passes the ceiling. */
    static method Accumulate(s: Sensor, temp: int) returns (rec: Sensor)
      requires s.avgTempReadings < 0xFFFF
      ensures rec == AverageStep(s, temp)
    {
      rec := s.(avgTempAccumulator := Wrap32(s.avgTempAccumulator + temp));
      rec := rec.(avgTempReadings := rec.avgTempReadings + 1);
      rec := rec.(avgTemp := Wrap16(TruncDiv(rec.avgTempAccumulator, rec.avgTempReadings)));
      // halve both once the count passes the ceiling, so the average stays responsive
      if rec.avgTempReadings > Ceiling {
        rec := rec.(avgTempReadings := rec.avgTempReadings / 2,
                    avgTempAccumulator := TruncDiv(rec.avgTempAccumulator, 2));
      }
    }

    /** Fold one read into slot i of the table; every slot stays healthy. */
    method FoldReading(i: nat, sp: ScratchPad)
      requires Valid() && i < MaxDevices
      modifies sensors
      ensures Valid()
      ensures sensors[i] == Record(old(sensors[i]), sp)
      ensures forall k :: 0 <= k < MaxDevices && k != i ==> sensors[k] == old(sensors[k])
      ensures sensors[..] == old(sensors[..])[i := Record(old(sensors[i]), sp)]
    {
      RecordKeepsHealthy(sensors[i], sp);
      var rec := Fold(sensors[i], sp);
      sensors[i] := rec;
    }

    /** Read the scratchpad and report whether its CRC checks; the
        statistics are updated either way. */
    method IsConnected(index: byte) returns (ok: bool, sp: ScratchPad)
      requires Valid()
      modifies sensors, bus`input, bus`trace
      ensures Valid()
      ensures ReadDone(index, sp)
      ensures ok == ScratchPadValid(bus.crc8, sp)
    {
      sp := ReadScratchPad(index);
      ok := bus.crc8(sp[..8]) == sp[ScratchPadCrc];
    }

    method ReadSensor(index: byte) returns (ok: bool)
      requires Valid()
      modifies sensors, bus`input, bus`trace
      ensures Valid()
      ensures ReadDone(index, Take(old(bus.input), ScratchPadSize))
      ensures ok == ScratchPadValid(bus.crc8, Take(old(bus.input), ScratchPadSize))
    {
      var sp;
      ok, sp := IsConnected(index);
    }

    /** The current temperature of a slot, in hundredths of a degree. The
        index is not checked against the enrolled count. */
    method GetCelsius(index: byte) returns (t: int16)
      requires Sized() && index < MaxDevices
      ensures t == sensors[index].currentTemp
    {
      t := sensors[index].currentTemp;
    }

    /** getFahrenheit as written, see FahrenheitAsWritten. */
    method GetFahrenheit(index: byte) returns (t: int16)
      requires Sized() && index < MaxDevices
      ensures t == FahrenheitAsWritten(sensors[index].currentTemp)
    {
      var temp: int := sensors[index].currentTemp;
      temp := temp * 10;
      temp := TruncDiv(temp, 18);
      t := Wrap16(temp);
    }

    /** Write the alarm bytes, and the configuration byte for families that
        have one, then copy the scratchpad to EEPROM. */
    method WriteScratchPad(index: byte, sp: ScratchPad)
      requires Sized()
      modifies bus`trace
      ensures bus.trace == WriteTrace(old(bus.trace), sensors[Slot(index, devices)].address, sp, parasite)
    {
      var i := Slot(index, devices);
      bus.ResetLine();
      bus.SelectDevice(sensors[i].address);
      bus.WriteByte(WriteScratch, false);
      bus.WriteByte(sp[HighAlarmTemp], false);
      bus.WriteByte(sp[LowAlarmTemp], false);
      if sensors[i].address[0] != DS18S20Model {
        bus.WriteByte(sp[Configuration], false);
      }
      bus.ResetLine();
      bus.WriteByte(CopyScratch, parasite);
      if parasite {
        bus.Wait(10);
      }
      bus.ResetLine();
    }

    /** A device answering 0 to the power-supply query is parasite powered;
        an idle line answers 1. */
    method ReadPowerSupply(index: byte) returns (parasitic: bool)
      requires Sized()
      modifies bus`bits, bus`trace
      ensures parasitic <==> old(bus.bits) != [] && old(bus.bits)[0] == 0
      ensures bus.bits == if old(bus.bits) == [] then [] else old(bus.bits)[1..]
      ensures bus.trace == old(bus.trace)
              + [Reset] + [Select(sensors[Slot(index, devices)].address)]
              + [Write(ReadPowerSupplyCommand, false)] + [Reset]
    {
      var i := Slot(index, devices);
      parasitic := false;
      bus.ResetLine();
      bus.SelectDevice(sensors[i].address);
      bus.WriteByte(ReadPowerSupplyCommand, false);
      var b := bus.ReadBit();
      if b == 0 {
        parasitic := true;
      }
      bus.ResetLine();
    }

    /** Store the clamped resolution as the group resolution and apply it to
        every enrolled device in slot order. */
    method SetGlobalResolution(newResolution: byte)
      requires Valid()
      modifies this`bitResolution, sensors, bus`input, bus`trace
      ensures Valid()
      ensures bitResolution as int == Clamp(newResolution, 9, 12)
      ensures bus.input == Drop(old(bus.input), ScratchPadSize * devices)
      ensures forall k :: 0 <= k < devices ==>
                sensors[k] == Record(old(sensors[k]), Take(Drop(old(bus.input), ScratchPadSize * k), ScratchPadSize))
      ensures forall k :: devices <= k < MaxDevices ==> sensors[k] == old(sensors[k])
      ensures bus.trace == GroupTrace(old(bus.trace), bus.crc8, old(sensors[..devices]), old(bus.input),
                                      ConfigFor(bitResolution), parasite)
    {
      bitResolution := Clamp(newResolution, 9, 12) as byte;
      GroupRequest();
    }

    /** The group request's loop: one resolution request per enrolled
        slot, in slot order. */
    method GroupRequest()
      requires Valid()
      modifies sensors, bus`input, bus`trace
      ensures Valid()
      ensures bus.input == Drop(old(bus.input), ScratchPadSize * devices)
      ensures forall k :: 0 <= k < devices ==>
                sensors[k] == Record(old(sensors[k]), Take(Drop(old(bus.input), ScratchPadSize * k), ScratchPadSize))
      ensures forall k :: devices <= k < MaxDevices ==> sensors[k] == old(sensors[k])
      ensures bus.trace == GroupTrace(old(bus.trace), bus.crc8, old(sensors[..devices]), old(bus.input),
                                      ConfigFor(bitResolution), parasite)
    {
      ghost var table := sensors[..];
      ghost var input := bus.input;
      assert forall k :: 0 <= k < MaxDevices ==> table[k] == old(sensors[k]);
      assert forall k :: 0 <= k < MaxDevices ==> table[k].avgTempReadings <= Ceiling;
      assert Drop(input, 0) == input;
      for i := 0 to devices
        modifies sensors, bus`input, bus`trace
        invariant Valid()
        invariant bus.input == Drop(input, ScratchPadSize * i)
        invariant sensors[..] == Processed(table, input, i)
        invariant bus.trace == GroupTrace(old(bus.trace), bus.crc8, table[..i], input, ConfigFor(bitResolution), parasite)
      {
        GroupPass(i, table, input, old(bus.trace));
      }
      ProcessedSlots(table, input, devices as nat);
      assert table[..devices] == old(sensors[..devices]);
    }

    /** One pass of the group request's loop: set the resolution of slot i,
        which reads the next nine bytes and updates that slot alone. */
    method GroupPass(i: nat, ghost table: seq<Sensor>, ghost input: seq<byte>, ghost t0: seq<Event>)
      requires Valid() && i < devices && |table| == MaxDevices
      requires forall k :: 0 <= k < MaxDevices ==> table[k].avgTempReadings <= Ceiling
      requires bus.input == Drop(input, ScratchPadSize * i)
      requires sensors[..] == Processed(table, input, i)
      requires bus.trace == GroupTrace(t0, bus.crc8, table[..i], input, ConfigFor(bitResolution), parasite)
      modifies sensors, bus`input, bus`trace
      ensures Valid()
      ensures bus.input == Drop(input, ScratchPadSize * (i + 1))
      ensures sensors[..] == Processed(table, input, i + 1)
      ensures bus.trace == GroupTrace(t0, bus.crc8, table[..i + 1], input, ConfigFor(bitResolution), parasite)
    {
      assert Slot(i as byte, devices) == i && sensors[i] == table[i];
      ghost var s0, in0, tr0 := sensors[..], bus.input, bus.trace;
      var ok := SetResolution(i as byte, bitResolution);
      ProcessedNext(table, input, i, s0, Take(in0, ScratchPadSize), sensors[..]);
      GroupTraceNext(t0, bus.crc8, table, input, ConfigFor(bitResolution), parasite, i, tr0, bus.trace);
      DropStep(input, i);
    }

    /** Set one device's resolution: false, with nothing written, when its
        scratchpad fails the CRC; true otherwise, writing the configuration
        byte unless the device is of the fixed-resolution family. The family
        is looked up at index itself, the read and write go to the slot the
        index reaches. */
    method SetResolution(index: byte, newResolution: byte) returns (ok: bool)
      requires Valid() && index < MaxDevices
      modifies sensors, bus`input, bus`trace
      ensures Valid()
      ensures var i := Slot(index, devices);
              var sp := Take(old(bus.input), ScratchPadSize);
              ok == ScratchPadValid(bus.crc8, sp)
              && bus.input == Drop(old(bus.input), ScratchPadSize)
              && sensors[i] == Record(old(sensors[i]), sp)
              && (forall k :: 0 <= k < MaxDevices && k != i ==> sensors[k] == old(sensors[k]))
              && sensors[..] == old(sensors[..])[i := Record(old(sensors[i]), sp)]
              && bus.trace == ResolutionTrace(old(bus.trace), bus.crc8, old(sensors[i].address),
                                              IsFixedResolution(old(sensors[index].address)),
                                              old(bus.input), ConfigFor(newResolution), parasite)
    {
      ghost var i := Slot(index, devices);
      ghost var rom := sensors[i].address;
      ghost var fixed := IsFixedResolution(sensors[index].address);
      ghost var read := ReadTrace(bus.trace, rom);
      var connected, scratchPad := IsConnected(index);
      assert sensors[i].address == rom && bus.trace == read;
      assert IsFixedResolution(sensors[index].address) == fixed;
      if connected {
        if sensors[index].address[0] != DS18S20Model {
          scratchPad := scratchPad[Configuration := ConfigFor(newResolution)];
          WriteScratchPad(index, scratchPad);
        }
        return true;
      }
      return false;
    }

    method GetGlobalResolution() returns (bits: byte)
      ensures bits == bitResolution
    {
      bits := bitResolution;
    }

    /** The resolution of the slot index reaches: 9 for the fixed-resolution
        family with no bus traffic, otherwise from a scratchpad read. */
    method GetResolution(index: byte) returns (bits: byte)
      requires Valid()
      modifies sensors, bus`input, bus`trace
      ensures Valid()
      ensures bits == 0 || 9 <= bits <= 12
      ensures var i := Slot(index, devices);
              var sp := Take(old(bus.input), ScratchPadSize);
              var fixed := IsFixedResolution(old(sensors[i].address));
              bits == ResolutionReply(bus.crc8, fixed, sp)
              && (fixed ==> unchanged(sensors) && bus.input == old(bus.input) && bus.trace == old(bus.trace))
              && (!fixed ==> ReadDone(index, sp))
    {
      var i := Slot(index, devices);
      if sensors[i].address[0] == DS18S20Model {
        return 9;
      }
      var connected, scratchPad := IsConnected(i);
      bits := 0;
      if connected {
        var c := scratchPad[Configuration];
        if c == Temp12Bit {
          bits := 12;
        } else if c == Temp11Bit {
          bits := 11;
        } else if c == Temp10Bit {
          bits := 10;
        } else if c == Temp9Bit {
          bits := 9;
        }
      }
    }

    method SetWaitForConversion(flag: bool)
      modifies this`waitForConversion
      ensures waitForConversion == flag
    {
      waitForConversion := flag;
    }

    method GetWaitForConversion() returns (flag: bool)
      ensures flag == waitForConversion
    {
      flag := waitForConversion;
    }

    method SetCheckForConversion(flag: bool)
      modifies this`checkForConversion
      ensures checkForConversion == flag
    {
      checkForConversion := flag;
    }

    method GetCheckForConversion() returns (flag: bool)
      ensures flag == checkForConversion
    {
      flag := checkForConversion;
    }

    method IsParasitePowerMode() returns (p: bool)
      ensures p == parasite
    {
      p := parasite;
    }

    /** Reads the scratchpad of the slot index reaches and reports whether
        its first byte, the temperature LSB, is non-zero. */
    method IsConversionAvailable(index: byte) returns (available: bool)
      requires Valid()
      modifies sensors, bus`input, bus`trace
      ensures Valid()
      ensures ReadDone(index, Take(old(bus.input), ScratchPadSize))
      ensures available <==> ByteAt(old(bus.input), TempLsb) != 0
    {
      var i := Slot(index, devices);
      var scratchPad := ReadScratchPad(i);
      available := scratchPad[TempLsb] != 0;
    }

    /** Start a conversion on every device, then wait the fixed time for
        the group resolution unless waiting is switched off. The check flag
        plays no part. */
    method RequestTemperatures()
      modifies bus`trace
      ensures var start := old(bus.trace) + [Reset] + [Skip] + [Write(StartConvo, parasite)];
              bus.trace == if waitForConversion then start + [Delay(ConversionDelay(bitResolution))] else start
    {
      bus.ResetLine();
      bus.SkipRom();
      bus.WriteByte(StartConvo, parasite);
      if !waitForConversion {
        return;
      }
      BlockTillConversionComplete(bitResolution, 0);
    }

    /** The fixed wait for a resolution; the device index is unused. */
    method BlockTillConversionComplete(bits: byte, index: byte)
      modifies bus`trace
      ensures bus.trace == old(bus.trace) + [Delay(ConversionDelay(bits))]
    {
      var ms: nat;
      if bits == 9 {
        ms := 94;
      } else if bits == 10 {
        ms := 188;
      } else if bits == 11 {
        ms := 375;
      } else {
        ms := 750;
      }
      bus.Wait(ms);
    }
  }
}
