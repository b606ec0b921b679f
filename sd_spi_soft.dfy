/**
 * SdSpiSoft: the bit-banged transport. Its byte-level `receive` and `send`
 * belong to the software SPI driver, which is not part of this model; each
 * is taken as one complete bus exchange. The buffer routines are loops over
 * the transport's own byte routines.
 */
module SdSpiSoftware {
  import opened SpiBus
  import opened SpiTransport

  class SdSpiSoft {
    const bus: Bus

    constructor (bus: Bus)
      ensures this.bus == bus
    {
      this.bus := bus;
    }

    method ReceiveByte() returns (x: byte)
      modifies bus`sent, bus`count, bus`spdr
      ensures bus.Observed() == Shift(old(bus.Observed()), IdleByte)
      ensures x == bus.miso(old(bus.count)) && bus.spdr == x
    {
      x := bus.Transfer(IdleByte);
    }

    /** `buf[i] = receive()` for each `i` below `n`. */
    method Receive(buf: array<byte>, n: nat) returns (status: byte)
      requires n <= buf.Length
      modifies bus`sent, bus`count, bus`spdr, buf
      ensures status == 0
      ensures bus.Observed() == Wire(old(bus.sent) + Idle(n), old(bus.count) + n)
      ensures buf[..n] == Incoming(bus.miso, old(bus.count), n)
      ensures buf[n..] == old(buf[n..])
      ensures n == 0 ==> bus.spdr == old(bus.spdr)
      ensures n > 0 ==> bus.spdr == bus.miso(old(bus.count) + n - 1)
    {
      for i := 0 to n
        invariant bus.Observed() == Wire(old(bus.sent) + Idle(i), old(bus.count) + i)
        invariant buf[..i] == Incoming(bus.miso, old(bus.count), i)
        invariant forall j :: i <= j < buf.Length ==> buf[j] == old(buf[j])
        invariant i == 0 ==> bus.spdr == old(bus.spdr)
        invariant i > 0 ==> bus.spdr == bus.miso(old(bus.count) + i - 1)
      {
        var x := ReceiveByte();
        buf[i] := x;
      }
      assert buf[n..] == old(buf[n..]);
      return 0;
    }

    method SendByte(data: byte)
      modifies bus`sent, bus`count, bus`spdr
      ensures bus.Observed() == Shift(old(bus.Observed()), data)
      ensures bus.spdr == bus.miso(old(bus.count))
    {
      var discarded := bus.Transfer(data);
    }

    /** `send(buf[i])` for each `i` below `n`. */
    method Send(buf: array<byte>, n: nat)
      requires n <= buf.Length
      modifies bus`sent, bus`count, bus`spdr
      ensures bus.Observed() == Wire(old(bus.sent) + buf[..n], old(bus.count) + n)
      ensures n == 0 ==> bus.spdr == old(bus.spdr)
      ensures n > 0 ==> bus.spdr == bus.miso(old(bus.count) + n - 1)
    {
      for i := 0 to n
        invariant bus.Observed() == Wire(old(bus.sent) + buf[..i], old(bus.count) + i)
        invariant i == 0 ==> bus.spdr == old(bus.spdr)
        invariant i > 0 ==> bus.spdr == bus.miso(old(bus.count) + i - 1)
      {
        SendByte(buf[i]);
        assert buf[..i + 1] == buf[..i] + [buf[i]];
      }
    }

    function UseSpiTransactions(): (r: bool)
      ensures r == UsesSpiTransactions(SoftSpi)
    {
      false
    }
  }
}
