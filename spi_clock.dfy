/**
 * Clock-rate selection: how a requested SCK divisor becomes a supported
 * hardware divider and the SPR1:SPR0 / SPI2X register bits that select it.
 */
module SpiClock {
  import opened SpiBus

  /** The dividers the peripheral supports, fastest first. */
  const Steps: seq<nat> := [2, 4, 8, 16, 32, 64, 128]

  /** The slowest supported divider: requests above it are clamped to it. */
  const MaxDivider: nat := 128

  /** The rate-selector code that goes with each entry of `Steps`. Bit 0 is
      the complement of SPI2X, bits 2..1 are SPR1:SPR0; code 6 (fosc/64 in
      double speed) duplicates code 5 and is skipped. */
  const RateCodes: seq<nat> := [0, 1, 2, 3, 4, 5, 7]

  /** `v` is the divider the transport must select for `divisor`: a
      supported step, not below the request unless clamped at the slowest
      step, and no smaller step would do. */
  ghost predicate IsSelectedDivider(divisor: int, v: int)
  {
    v in Steps
    && (divisor <= v || v == MaxDivider)
    && forall s :: s in Steps && s < v ==> s < divisor
  }

  /** There is only one such divider. */
  lemma SelectedDividerUnique(divisor: int, v: int, w: int)
    requires IsSelectedDivider(divisor, v) && IsSelectedDivider(divisor, w)
    ensures v == w
  {
  }

  /** The if-chain of SdSpiLib::init, with the library's SPI_CLOCK_DIVn
      constants written as the dividers they name. */
  function LibDivider(divisor: byte): (v: nat)
    ensures IsSelectedDivider(divisor, v)
  {
    if divisor <= 2 then 2
    else if divisor <= 4 then 4
    else if divisor <= 8 then 8
    else if divisor <= 16 then 16
    else if divisor <= 32 then 32
    else if divisor <= 64 then 64
    else 128
  }

  /** A slower request never gets a faster clock. */
  lemma SelectedDividerMonotone(d1: int, d2: int, v1: int, v2: int)
    requires d1 <= d2
    requires IsSelectedDivider(d1, v1) && IsSelectedDivider(d2, v2)
    ensures v1 <= v2
  {
  }

  /** The SCK rate table of the ATmega328P datasheet (SPI chapter): the
      divider of the system clock selected by SPI2X and SPR1:SPR0. */
  function SckDivider(spi2x: bool, spr: int): (d: nat)
    requires 0 <= spr < 4
  {
    var single := [4, 16, 64, 128][spr];
    if spi2x then single / 2 else single
  }

  /** `uint8_t` left shift by one: the result wraps modulo 256. */
  function ShiftLeft(x: byte): (y: byte)
  {
    (x * 2) % 256
  }

  /** The loop at the head of SdSpi::init: walk the staircase from 2,
      doubling `b` and advancing the rate code `r`, until `b` reaches the
      request or the code reaches 7. */
  method ClockLoop(divisor: byte) returns (b: byte, r: byte)
    ensures b == LibDivider(divisor)
    ensures r in RateCodes && r / 2 <= 3
    ensures SckDivider(r % 2 == 0, r / 2) == b
  {
    b, r := 2, 0;
    ghost var k := 0;
    while divisor > b && r < 7
      invariant 0 <= k < |Steps|
      invariant b == Steps[k] && r == RateCodes[k]
      invariant forall j :: 0 <= j < k ==> Steps[j] < divisor
      decreases 7 - r
    {
      assert b <= 64;
      b := ShiftLeft(b);
      r := r + if r < 5 then 1 else 2;
      k := k + 1;
    }
    assert IsSelectedDivider(divisor, b);
    SelectedDividerUnique(divisor, b, LibDivider(divisor));
  }
}
