/** What one scratchpad read does to a sensor's record: decode the
    register, latch the cold offset, and update the current, minimum,
    maximum and running-average statistics, with the accumulator and the
    reading count halved together once the count passes its ceiling. */
module Stats {
  import opened CInt
  import opened Layout
  import opened Codec

  const MinSentinel: int16 := 9000
  const MaxSentinel: int16 := -9000
  /** The reading count above which count and accumulator are halved. */
  const Ceiling: nat := 10000
  /** Decoded readings below this latch the offset, once. */
  const LatchBelow: int := -3000
  const ColdOffset: int16 := 5500
  /** The largest magnitude a decoded reading plus its offset can have. */
  const MaxReading: nat := 210293

  /** resetStats on one slot: the statistics go back to their sentinels;
      the address, the offset and the current reading stay. */
  function Cleared(s: Sensor): (r: Sensor)
    ensures r.address == s.address && r.offset == s.offset && r.currentTemp == s.currentTemp
    ensures r.minTemp == MinSentinel && r.maxTemp == MaxSentinel && r.minTemp > r.maxTemp
    ensures r.avgTempReadings == 0 && r.avgTempAccumulator == 0 && r.avgTemp == 0
  {
    s.(minTemp := MinSentinel, maxTemp := MaxSentinel, avgTemp := 0,
       avgTempAccumulator := 0, avgTempReadings := 0)
  }

  /** A slot as discovery leaves it right after enrolling address a. */
  function Enrolled(s: Sensor, a: DeviceAddress): (r: Sensor)
    ensures r.address == a && r.offset == 0 && r.avgTempReadings == 0
    ensures Healthy(r)
  {
    Cleared(s.(address := a)).(offset := 0)
  }

  /** The offset after a reading that decodes to t: 5500 is latched the
      first time a reading falls below -30.00 degrees and kept ever after. */
  function LatchOffset(offset: int16, t: int): (r: int16)
    ensures offset != 0 ==> r == offset
    ensures offset == 0 ==> (r == ColdOffset <==> t < LatchBelow)
    ensures r == offset || r == ColdOffset
  {
    if t < LatchBelow && offset == 0 then ColdOffset else offset
  }

  /** The temperature, in hundredths of a degree, that a read of sp adds to
      the statistics of s (the int32 value before it is narrowed). */
  function Reading(s: Sensor, sp: ScratchPad): (r: int)
    ensures var t := Hundredths(RawTemp(sp[TempLsb], sp[TempMsb]));
            (s.offset != 0 ==> r == t + s.offset)
            && (s.offset == 0 ==> (r == t || r == t + ColdOffset) && (r == t + ColdOffset <==> t < LatchBelow))
  {
    var t := Hundredths(RawTemp(sp[TempLsb], sp[TempMsb]));
    t + LatchOffset(s.offset, t)
  }

  /** The first step of a read: latch the cold offset for a reading t0. */
  function LatchStep(s: Sensor, t0: int): (r: Sensor)
    ensures r == s.(offset := LatchOffset(s.offset, t0))
  {
    if t0 < LatchBelow && s.offset == 0 then s.(offset := ColdOffset) else s
  }

  /** The second step: store the reading temp as the current temperature and
      widen the maximum and minimum to include it (each narrowed to int16). */
  function TrackStep(s: Sensor, temp: int): (r: Sensor)
    ensures r.(currentTemp := s.currentTemp, minTemp := s.minTemp, maxTemp := s.maxTemp) == s
    ensures r.currentTemp == Wrap16(temp)
    ensures r.maxTemp == s.maxTemp || r.maxTemp == Wrap16(temp)
    ensures r.minTemp == s.minTemp || r.minTemp == Wrap16(temp)
    ensures -0x8000 <= temp < 0x8000 ==> r.minTemp <= temp <= r.maxTemp
  {
    var r1 := s.(currentTemp := Wrap16(temp));
    var r2 := if temp > r1.maxTemp then r1.(maxTemp := Wrap16(temp)) else r1;
    if temp < r2.minTemp then r2.(minTemp := Wrap16(temp)) else r2
  }

  /** The third step: add the reading to the int32 accumulator, count it,
      store the truncated average, then halve count and accumulator once
      the count passes the ceiling. */
  function AverageStep(s: Sensor, temp: int): (r: Sensor)
    requires s.avgTempReadings < 0xFFFF
    ensures r.(avgTemp := s.avgTemp, avgTempAccumulator := s.avgTempAccumulator,
               avgTempReadings := s.avgTempReadings) == s
    ensures s.avgTempReadings <= Ceiling ==> 0 < r.avgTempReadings <= Ceiling
  {
    var r4 := s.(avgTempAccumulator := Wrap32(s.avgTempAccumulator + temp));
    var r5 := r4.(avgTempReadings := r4.avgTempReadings + 1);
    var r6 := r5.(avgTemp := Wrap16(TruncDiv(r5.avgTempAccumulator, r5.avgTempReadings)));
    if r6.avgTempReadings > Ceiling
    then r6.(avgTempReadings := r6.avgTempReadings / 2,
             avgTempAccumulator := TruncDiv(r6.avgTempAccumulator, 2))
    else r6
  }

  /** The record of s after one scratchpad read returned sp, with the
      narrowing conversions of the C++ assignments written out. */
  function Record(s: Sensor, sp: ScratchPad): (r: Sensor)
    requires s.avgTempReadings < 0xFFFF
    ensures r.address == s.address
    ensures r.offset == LatchOffset(s.offset, Hundredths(RawTemp(sp[TempLsb], sp[TempMsb])))
    ensures r.currentTemp == Wrap16(Reading(s, sp))
  {
    var t0 := Hundredths(RawTemp(sp[TempLsb], sp[TempMsb]));
    var r0 := LatchStep(s, t0);
    AverageStep(TrackStep(r0, t0 + r0.offset), t0 + r0.offset)
  }

  /** The invariant every slot keeps: the reading count never passes the
      ceiling, the offset is 0 or the latched 5500, and the accumulator is
      no larger than one more reading than the count allows. */
  ghost predicate Healthy(s: Sensor)
  {
    s.avgTempReadings <= Ceiling
    && (s.offset == 0 || s.offset == ColdOffset)
    && Abs(s.avgTempAccumulator) <= (s.avgTempReadings + 1) * MaxReading
  }

  lemma ReadingBound(s: Sensor, sp: ScratchPad)
    ensures Healthy(s) ==> Abs(Reading(s, sp)) <= MaxReading
  {
  }

  /** One read keeps a healthy record healthy, and then neither the int32
      accumulator nor the uint16 count wraps: the accumulator is the old
      one plus the reading, halved (rounding toward zero) exactly when the
      count passed the ceiling. */
  lemma RecordKeepsHealthy(s: Sensor, sp: ScratchPad)
    requires Healthy(s)
    ensures Healthy(Record(s, sp))
    ensures var acc := s.avgTempAccumulator + Reading(s, sp);
            if s.avgTempReadings == Ceiling then
              Record(s, sp).avgTempReadings == Ceiling / 2
              && Record(s, sp).avgTempAccumulator == TruncDiv(acc, 2)
            else
              Record(s, sp).avgTempReadings == s.avgTempReadings + 1
              && Record(s, sp).avgTempAccumulator == acc
  {
    var t0 := Hundredths(RawTemp(sp[TempLsb], sp[TempMsb]));
    var r0 := LatchStep(s, t0);
    var temp := t0 + r0.offset;
    var r1 := TrackStep(r0, temp);
    ReadingBound(s, sp);
    assert Reading(s, sp) == temp;
    assert r1.avgTempAccumulator == s.avgTempAccumulator && r1.avgTempReadings == s.avgTempReadings;
    assert r1.offset == r0.offset;
    AverageStepBounded(r1, temp);
    assert Record(s, sp) == AverageStep(r1, temp);
  }

  /** The averaging step keeps the count within the ceiling and the
      accumulator within one reading more than the count allows, and its
      int32 addition never wraps. */
  lemma AverageStepBounded(s: Sensor, temp: int)
    requires s.avgTempReadings <= Ceiling && Abs(temp) <= MaxReading
    requires Abs(s.avgTempAccumulator) <= (s.avgTempReadings + 1) * MaxReading
    ensures var r := AverageStep(s, temp);
            var acc := s.avgTempAccumulator + temp;
            r.offset == s.offset && r.avgTempReadings <= Ceiling
            && Abs(r.avgTempAccumulator) <= (r.avgTempReadings + 1) * MaxReading
            && if s.avgTempReadings == Ceiling then
                 r.avgTempReadings == Ceiling / 2 && r.avgTempAccumulator == TruncDiv(acc, 2)
               else
                 r.avgTempReadings == s.avgTempReadings + 1 && r.avgTempAccumulator == acc
  {
    var n := s.avgTempReadings;
    var acc := s.avgTempAccumulator + temp;
    assert Abs(acc) <= (n + 2) * MaxReading <= 10002 * MaxReading;
    assert Wrap32(acc) == acc;
    if n == Ceiling {
      TruncDivBounds(acc, 2);
    }
  }

  /** The average stored by a read is that of the accumulator and count
      before any halving, rounded toward zero. */
  lemma RecordAverage(s: Sensor, sp: ScratchPad)
    requires Healthy(s)
    ensures var acc := s.avgTempAccumulator + Reading(s, sp);
            Record(s, sp).avgTemp == Wrap16(TruncDiv(acc, s.avgTempReadings + 1))
  {
    var t0 := Hundredths(RawTemp(sp[TempLsb], sp[TempMsb]));
    var r0 := LatchStep(s, t0);
    var temp := t0 + r0.offset;
    var r1 := TrackStep(r0, temp);
    ReadingBound(s, sp);
    assert Reading(s, sp) == temp;
    var acc := s.avgTempAccumulator + temp;
    assert Abs(acc) <= 10002 * MaxReading;
    assert Wrap32(acc) == acc;
    assert r1.avgTempAccumulator == s.avgTempAccumulator && r1.avgTempReadings == s.avgTempReadings;
    assert Record(s, sp) == AverageStep(r1, temp);
  }

  /** When the reading fits the int16 fields, the read stores it as the
      current temperature and the minimum and maximum bracket it: each is
      the old bound widened to include the reading. */
  lemma RecordBrackets(s: Sensor, sp: ScratchPad)
    requires s.avgTempReadings < 0xFFFF
    requires -0x8000 <= Reading(s, sp) < 0x8000
    ensures var t := Reading(s, sp);
            var r := Record(s, sp);
            r.currentTemp == t && r.minTemp <= t <= r.maxTemp
            && r.maxTemp == (if t > s.maxTemp then t else s.maxTemp)
            && r.minTemp == (if t < s.minTemp then t else s.minTemp)
  {
  }

  /** Inside the sensors' measuring range, -55 to +125 degrees (raw -880 to
      2000 sixteenths), nothing is narrowed: the reading fits int16. */
  lemma SensorRangeFits(s: Sensor, sp: ScratchPad)
    requires Healthy(s)
    requires -880 <= RawTemp(sp[TempLsb], sp[TempMsb]) <= 2000
    ensures -5500 <= Reading(s, sp) <= 18000
  {
    var raw := RawTemp(sp[TempLsb], sp[TempMsb]);
    var t := Hundredths(raw);
    assert -5500 <= t <= 12500;
  }

  /** The records of a slot after the reads that returned sps, in order. */
  function RecordAll(s: Sensor, sps: seq<ScratchPad>): (r: Sensor)
    requires Healthy(s)
    ensures Healthy(r)
    ensures r.address == s.address
    decreases |sps|
  {
    if sps == [] then s
    else
      RecordKeepsHealthy(s, sps[0]);
      RecordAll(Record(s, sps[0]), sps[1..])
  }

  /** Once a slot has reached half the ceiling, the count stays between
      half the ceiling and the ceiling for every later sequence of reads. */
  lemma {:induction false} CountStaysInBand(s: Sensor, sps: seq<ScratchPad>)
    requires Healthy(s)
    requires s.avgTempReadings >= Ceiling / 2
    ensures Ceiling / 2 <= RecordAll(s, sps).avgTempReadings <= Ceiling
    decreases |sps|
  {
    if sps != [] {
      RecordKeepsHealthy(s, sps[0]);
      CountStaysInBand(Record(s, sps[0]), sps[1..]);
    }
  }

  /** Once latched, the offset never changes again. */
  lemma {:induction false} OffsetLatchesOnce(s: Sensor, sps: seq<ScratchPad>)
    requires Healthy(s)
    requires s.offset == ColdOffset
    ensures RecordAll(s, sps).offset == ColdOffset
    decreases |sps|
  {
    if sps != [] {
      RecordKeepsHealthy(s, sps[0]);
      OffsetLatchesOnce(Record(s, sps[0]), sps[1..]);
    }
  }
}
