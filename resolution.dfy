/** Resolution bookkeeping: the configuration byte for a requested number
    of bits and back, the group clamp to 9..12 bits, and the fixed wait a
    conversion needs at each resolution. */
module Resolution {
  import opened CInt
  import opened Layout

  /** The configuration byte written for a requested resolution; any
      request other than 10, 11 or 12 bits selects 9 bits. */
  function ConfigFor(bits: int): (c: byte)
    ensures c == Temp9Bit || c == Temp10Bit || c == Temp11Bit || c == Temp12Bit
  {
    if bits == 12 then Temp12Bit
    else if bits == 11 then Temp11Bit
    else if bits == 10 then Temp10Bit
    else Temp9Bit
  }

  /** The resolution a configuration byte stands for, 0 for a byte that
      is none of the four. */
  function BitsFor(c: byte): (bits: nat)
    ensures bits == 0 || 9 <= bits <= 12
  {
    if c == Temp12Bit then 12
    else if c == Temp11Bit then 11
    else if c == Temp10Bit then 10
    else if c == Temp9Bit then 9
    else 0
  }

  /** Setting then reading back a resolution gives the request for 9..12
      bits, and 9 bits for anything else. */
  lemma BitsForConfigFor(bits: int)
    ensures BitsFor(ConfigFor(bits)) == if 10 <= bits <= 12 then bits else 9
  {
  }

  /** A recognised configuration byte is the one its resolution is set
      with, so the four bytes are distinct and the two maps are inverse. */
  lemma ConfigForBitsFor(c: byte)
    requires BitsFor(c) != 0
    ensures ConfigFor(BitsFor(c)) == c
  {
  }

  /** Two distinct resolutions in 9..12 are configured by distinct bytes. */
  lemma ConfigForInjective(b1: int, b2: int)
    requires 9 <= b1 <= 12 && 9 <= b2 <= 12
    requires ConfigFor(b1) == ConfigFor(b2)
    ensures b1 == b2
  {
    BitsForConfigFor(b1);
    BitsForConfigFor(b2);
  }

  /** Arduino's constrain(x, lo, hi). */
  function Clamp(x: int, lo: int, hi: int): (r: int)
    requires lo <= hi
    ensures lo <= r <= hi
    ensures lo <= x <= hi ==> r == x
    ensures x < lo ==> r == lo
    ensures x > hi ==> r == hi
  {
    if x < lo then lo else if x > hi then hi else x
  }

  function Pow2(n: nat): nat
  {
    if n == 0 then 1 else 2 * Pow2(n - 1)
  }

  /** The fixed wait, in milliseconds, after a conversion request: for 9 to
      12 bits it is the 12-bit worst case of 750 ms halved once per bit
      given up, rounded up; any other value waits the full 750 ms. */
  function ConversionDelay(bits: int): (ms: nat)
    ensures 9 <= bits <= 12 ==>
              ms * Pow2(12 - bits) >= 750 && (ms - 1) * Pow2(12 - bits) < 750
    ensures !(9 <= bits <= 11) ==> ms == 750
  {
    if bits == 9 then 94
    else if bits == 10 then 188
    else if bits == 11 then 375
    else 750
  }

  /** A finer resolution never waits less. */
  lemma ConversionDelayMonotone(b1: int, b2: int)
    requires 9 <= b1 <= b2 <= 12
    ensures ConversionDelay(b1) <= ConversionDelay(b2) <= 750
  {
  }
}
