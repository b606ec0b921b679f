/**
 * SdSpi: the transport that drives the AVR SPI peripheral's registers
 * directly, including the latency-optimised buffer receive.
 */
module SdSpiHardware {
  import opened SpiBus
  import opened SpiClock
  import opened SpiTransport

  /** `(1 << SPE) | (1 << MSTR)` with SPE = 6 and MSTR = 4: peripheral
      enabled, controller mode; SPIE, DORD, CPOL and CPHA clear. */
  const SpiEnableMaster: byte := 0x50

  /** `1 << SPI2X` with SPI2X = 0. */
  const DoubleSpeedBit: byte := 0x01

  /** SPR1:SPR0, the two low bits of SPCR. */
  function RateSelect(spcr: byte): (spr: int)
  {
    spcr % 4
  }

  /** The SPI2X bit of SPSR. */
  function DoubleSpeed(spsr: byte): (spi2x: bool)
  {
    spsr % 2 == 1
  }

  class SdSpi {
    const bus: Bus

    constructor (bus: Bus)
      ensures this.bus == bus
    {
      this.bus := bus;
    }

    /** Select the clock: SPCR gets enable, controller mode and the rate
        selector's high bits; SPSR is exactly SPI2X when the selector is
        even and zero when it is odd. Read through the datasheet's SCK table, the effective divider
        is the smallest supported one that is at least `divisor`. */
    method Init(divisor: byte)
      modifies bus`spcr, bus`spsr
      ensures bus.spcr - RateSelect(bus.spcr) == SpiEnableMaster
      ensures SckDivider(DoubleSpeed(bus.spsr), RateSelect(bus.spcr)) == LibDivider(divisor)
      ensures IsSelectedDivider(divisor, SckDivider(DoubleSpeed(bus.spsr), RateSelect(bus.spcr)))
      ensures exists r :: r in RateCodes
                && bus.spcr == SpiEnableMaster + r / 2
                && bus.spsr == (if r % 2 == 1 then 0 else DoubleSpeedBit)
    {
      var b, r := ClockLoop(divisor);
      bus.spcr := SpiEnableMaster + r / 2;
      bus.spsr := if r % 2 == 1 then 0 else DoubleSpeedBit;
      assert r in RateCodes;
    }

    /** Shift out the idle byte and return the byte shifted in. */
    method ReceiveByte() returns (x: byte)
      modifies bus`sent, bus`count, bus`spdr
      ensures bus.Observed() == Shift(old(bus.Observed()), IdleByte)
      ensures x == bus.miso(old(bus.count)) && bus.spdr == x
    {
      bus.Write(IdleByte);
      x := bus.spdr;
    }

    /** Receive `n` bytes into `buf[0..n)`. The next transfer is started
        before the byte just received is stored, and the last byte is stored
        after the loop. The outcome is that of `n` calls of ReceiveByte. */
    method Receive(buf: array<byte>, n: nat) returns (status: byte)
      requires n <= buf.Length
      modifies bus`sent, bus`count, bus`spdr, buf
      ensures status == 0
      ensures bus.Observed() == Wire(old(bus.sent) + Idle(n), old(bus.count) + n)
      ensures buf[..n] == Incoming(bus.miso, old(bus.count), n)
      ensures buf[n..] == old(buf[n..])
      ensures n == 0 ==> bus.spdr == old(bus.spdr)
      ensures n > 0 ==> bus.spdr == bus.miso(old(bus.count) + n - 1)
      ensures (bus.Observed(), buf[..n]) == ReceiveBytes(bus.miso, old(bus.Observed()), n)
    {
      ReceiveBytesClosedForm(bus.miso, bus.Observed(), n);
      if n == 0 {
        return 0;
      }
      var last := n - 1;
      bus.Write(IdleByte);
      var i := 0;
      while i < last
        invariant 0 <= i <= last
        invariant bus.Observed() == Wire(old(bus.sent) + Idle(i + 1), old(bus.count) + i + 1)
        invariant bus.spdr == bus.miso(old(bus.count) + i)
        invariant buf[..i] == Incoming(bus.miso, old(bus.count), i)
        invariant forall j :: i <= j < buf.Length ==> buf[j] == old(buf[j])
      {
        var b := bus.spdr;
        bus.Write(IdleByte);
        buf[i] := b;
        i := i + 1;
      }
      buf[last] := bus.spdr;
      assert buf[n..] == old(buf[n..]);
      return 0;
    }

    /** Shift out `data`, discarding the byte shifted in. */
    method SendByte(data: byte)
      modifies bus`sent, bus`count, bus`spdr
      ensures bus.Observed() == Shift(old(bus.Observed()), data)
      ensures bus.spdr == bus.miso(old(bus.count))
    {
      bus.Write(data);
    }

    /** Send `buf[0..n)` in order. The byte to send next is held in `b`
        while the previous transfer runs. The outcome is that of `n` calls
        of SendByte. */
    method Send(buf: array<byte>, n: nat)
      requires n <= buf.Length
      modifies bus`sent, bus`count, bus`spdr
      ensures bus.Observed() == Wire(old(bus.sent) + buf[..n], old(bus.count) + n)
      ensures n == 0 ==> bus.spdr == old(bus.spdr)
      ensures n > 0 ==> bus.spdr == bus.miso(old(bus.count) + n - 1)
      ensures bus.Observed() == SendBytes(old(bus.Observed()), buf[..n])
    {
      SendBytesClosedForm(bus.Observed(), buf[..n]);
      if n == 0 {
        return;
      }
      bus.Write(buf[0]);
      if n > 1 {
        var b := buf[1];
        var i := 2;
        while true
          invariant 2 <= i <= n
          invariant b == buf[i - 1]
          invariant bus.Observed() == Wire(old(bus.sent) + buf[..i - 1], old(bus.count) + i - 1)
          invariant bus.spdr == bus.miso(old(bus.count) + i - 2)
          decreases n - i
        {
          bus.Write(b);
          if i == n {
            break;
          }
          assert i < n;
          b := buf[i];
          i := i + 1;
        }
      }
    }

    function UseSpiTransactions(): (r: bool)
      ensures r == UsesSpiTransactions(HardwareSpi)
    {
      true
    }
  }
}
