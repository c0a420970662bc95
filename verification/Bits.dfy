/** Masks and shifts on bytes, as division and remainder. */
module Bits {

  /** The bits of a byte. */
  function ToBits(n: nat): (x: bv8)
    requires n < 256
    ensures x as int == n
  {
    if n == 0 then 0
    else
      var x := ToBits(n - 1);
      NotAllOnes(x);
      OneMore(x);
      x + 1
  }

  lemma NotAllOnes(x: bv8)
    ensures x as int < 255 ==> x < 255
  {
  }

  lemma OneMore(x: bv8)
    requires x < 255
    ensures (x + 1) as int == x as int + 1
  {
  }

  lemma SixBits(x: bv8)
    ensures x as int < 64 ==> x < 64
  {
  }

  lemma TopSix(x: bv8)
    ensures ((x & 0xfc) >> 2) as int == x as int / 4
  {
  }

  lemma LowTwoUp(x: bv8)
    ensures ((x & 0x03) << 4) as int == x as int % 4 * 16
  {
  }

  lemma TopFour(x: bv8)
    ensures ((x & 0xf0) >> 4) as int == x as int / 16
  {
  }

  lemma LowFourUp(x: bv8)
    ensures ((x & 0x0f) << 2) as int == x as int % 16 * 4
  {
  }

  lemma TopTwo(x: bv8)
    ensures ((x & 0xc0) >> 6) as int == x as int / 64
  {
  }

  lemma LowSix(x: bv8)
    ensures (x & 0x3f) as int == x as int % 64
  {
  }

  lemma SixUp(x: bv8)
    requires x < 64
    ensures (x << 2) as int == x as int * 4
  {
  }

  lemma HighTwoOfSix(x: bv8)
    requires x < 64
    ensures ((x & 0x30) >> 4) as int == x as int / 16
  {
  }

  lemma LowFourOfSixUp(x: bv8)
    requires x < 64
    ensures ((x & 0x0f) << 4) as int == x as int % 16 * 16
  {
  }

  lemma HighFourOfSix(x: bv8)
    requires x < 64
    ensures ((x & 0x3c) >> 2) as int == x as int / 4
  {
  }

  lemma LowTwoOfSixUp(x: bv8)
    requires x < 64
    ensures ((x & 0x03) << 6) as int == x as int % 4 * 64
  {
  }

  // The parts of the three bytes of a group, high bits to one letter and low bits to the next.

  function FirstHigh(n: nat): (d: nat)
    requires n < 256
    ensures d == n / 4
  {
    var x := ToBits(n);
    TopSix(x);
    ((x & 0xfc) >> 2) as int
  }

  function FirstLow(n: nat): (d: nat)
    requires n < 256
    ensures d == n % 4 * 16
  {
    var x := ToBits(n);
    LowTwoUp(x);
    ((x & 0x03) << 4) as int
  }

  function SecondHigh(n: nat): (d: nat)
    requires n < 256
    ensures d == n / 16
  {
    var x := ToBits(n);
    TopFour(x);
    ((x & 0xf0) >> 4) as int
  }

  function SecondLow(n: nat): (d: nat)
    requires n < 256
    ensures d == n % 16 * 4
  {
    var x := ToBits(n);
    LowFourUp(x);
    ((x & 0x0f) << 2) as int
  }

  function ThirdHigh(n: nat): (d: nat)
    requires n < 256
    ensures d == n / 64
  {
    var x := ToBits(n);
    TopTwo(x);
    ((x & 0xc0) >> 6) as int
  }

  function ThirdLow(n: nat): (d: nat)
    requires n < 256
    ensures d == n % 64
  {
    var x := ToBits(n);
    LowSix(x);
    (x & 0x3f) as int
  }

  // The parts of the four values of a group, high bits to one byte and low bits to the next.

  function FirstDigit(n: nat): (d: nat)
    requires n < 64
    ensures d == n * 4
  {
    var x := ToBits(n);
    SixBits(x);
    SixUp(x);
    (x << 2) as int
  }

  function SecondDigitHigh(n: nat): (d: nat)
    requires n < 64
    ensures d == n / 16
  {
    var x := ToBits(n);
    SixBits(x);
    HighTwoOfSix(x);
    ((x & 0x30) >> 4) as int
  }

  function SecondDigitLow(n: nat): (d: nat)
    requires n < 64
    ensures d == n % 16 * 16
  {
    var x := ToBits(n);
    SixBits(x);
    LowFourOfSixUp(x);
    ((x & 0x0f) << 4) as int
  }

  function ThirdDigitHigh(n: nat): (d: nat)
    requires n < 64
    ensures d == n / 4
  {
    var x := ToBits(n);
    SixBits(x);
    HighFourOfSix(x);
    ((x & 0x3c) >> 2) as int
  }

  function ThirdDigitLow(n: nat): (d: nat)
    requires n < 64
    ensures d == n % 4 * 64
  {
    var x := ToBits(n);
    SixBits(x);
    LowTwoOfSixUp(x);
    ((x & 0x03) << 6) as int
  }
}
