/**
 * SdSpiLib: the transport that goes through the Arduino SPI library. Every
 * byte is one library `transfer`, modelled as one complete bus exchange.
 */
module SdSpiLibrary {
  import opened SpiBus
  import opened SpiClock
  import opened SpiTransport

  class SdSpiLib {
    const bus: Bus
    /** The divider last handed to the library's `setClockDivider`. */
    var clockDivider: nat

    /** The starting divider is arbitrary: the source keeps no such field,
        and only Init gives it meaning. */
    constructor (bus: Bus)
      ensures this.bus == bus && clockDivider == 2
    {
      this.bus := bus;
      clockDivider := 2;
    }

    /** Pick the library's clock divider from the staircase: the smallest
        supported divider that is at least `divisor`, 128 at most. */
    method Init(divisor: byte)
      modifies this`clockDivider
      ensures clockDivider == LibDivider(divisor)
      ensures IsSelectedDivider(divisor, clockDivider)
    {
      clockDivider := LibDivider(divisor);
    }

    method ReceiveByte() returns (x: byte)
      modifies bus`sent, bus`count, bus`spdr
      ensures bus.Observed() == Shift(old(bus.Observed()), IdleByte)
      ensures x == bus.miso(old(bus.count)) && bus.spdr == x
    {
      x := bus.Transfer(IdleByte);
    }

    /** One exchange of the idle byte per element of `buf[0..n)`. */
    method Receive(buf: array<byte>, n: nat) returns (status: byte)
      requires n <= buf.Length
      modifies bus`sent, bus`count, bus`spdr, buf
      ensures status == 0
      ensures bus.Observed() == Wire(old(bus.sent) + Idle(n), old(bus.count) + n)
      ensures buf[..n] == Incoming(bus.miso, old(bus.count), n)
      ensures buf[n..] == old(buf[n..])
      ensures n == 0 ==> bus.spdr == old(bus.spdr)
      ensures n > 0 ==> bus.spdr == bus.miso(old(bus.count) + n - 1)
    {
      for i := 0 to n
        invariant bus.Observed() == Wire(old(bus.sent) + Idle(i), old(bus.count) + i)
        invariant buf[..i] == Incoming(bus.miso, old(bus.count), i)
        invariant forall j :: i <= j < buf.Length ==> buf[j] == old(buf[j])
        invariant i == 0 ==> bus.spdr == old(bus.spdr)
        invariant i > 0 ==> bus.spdr == bus.miso(old(bus.count) + i - 1)
      {
        var x := bus.Transfer(IdleByte);
        buf[i] := x;
      }
      assert buf[n..] == old(buf[n..]);
      return 0;
    }

    method SendByte(b: byte)
      modifies bus`sent, bus`count, bus`spdr
      ensures bus.Observed() == Shift(old(bus.Observed()), b)
      ensures bus.spdr == bus.miso(old(bus.count))
    {
      var discarded := bus.Transfer(b);
    }

    method Send(buf: array<byte>, n: nat)
      requires n <= buf.Length
      modifies bus`sent, bus`count, bus`spdr
      ensures bus.Observed() == Wire(old(bus.sent) + buf[..n], old(bus.count) + n)
      ensures n == 0 ==> bus.spdr == old(bus.spdr)
      ensures n > 0 ==> bus.spdr == bus.miso(old(bus.count) + n - 1)
    {
      for i := 0 to n
        invariant bus.Observed() == Wire(old(bus.sent) + buf[..i], old(bus.count) + i)
        invariant i == 0 ==> bus.spdr == old(bus.spdr)
        invariant i > 0 ==> bus.spdr == bus.miso(old(bus.count) + i - 1)
      {
        var discarded := bus.Transfer(buf[i]);
        assert buf[..i + 1] == buf[..i] + [buf[i]];
      }
    }

    function UseSpiTransactions(): (r: bool)
      ensures r == UsesSpiTransactions(LibrarySpi)
    {
      true
    }
  }
}
