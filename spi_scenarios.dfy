/**
 * Uses of the hardware transport that exercise its contracts end to end.
 */
module SpiScenarios {
  import opened SpiBus
  import opened SpiClock
  import opened SdSpiHardware

  /** A responder that replays, during the next `n` transfers, the block of
      `n` bytes it has just been sent: sending a block and then receiving
      `n` bytes gives the block back. */
  method LoopbackRoundTrip(t: SdSpi, out: array<byte>, back: array<byte>, n: nat)
    requires n <= out.Length && n <= back.Length
    requires forall i :: 0 <= i < n ==> t.bus.miso(t.bus.count + n + i) == out[i]
    modifies t.bus, back
    ensures back[..n] == old(out[..n])
    ensures t.bus.Observed() == Wire(old(t.bus.sent) + old(out[..n]) + Idle(n), old(t.bus.count) + 2 * n)
  {
    t.Send(out, n);
    var status := t.Receive(back, n);
  }

  /** Clock divisor 2, a six-byte command frame, then a five-byte reply:
      the wire carries exactly the frame followed by five idle bytes, and
      the reply holds the five bytes that followed the frame. Divider 2 is
      the one setting at which the fixed delay in the optimised receive
      covers a whole byte transfer, as the bus model assumes. */
  method CommandExchange(t: SdSpi, reply: array<byte>)
    requires reply.Length == 5
    modifies t.bus, reply
    ensures SckDivider(DoubleSpeed(t.bus.spsr), RateSelect(t.bus.spcr)) == 2
    ensures t.bus.sent == old(t.bus.sent) + [0x40, 0x00, 0x00, 0x00, 0x00, 0x95] + Idle(5)
    ensures reply[..] == Incoming(t.bus.miso, old(t.bus.count) + 6, 5)
  {
    t.Init(2);
    var frame := new byte[] [0x40, 0x00, 0x00, 0x00, 0x00, 0x95];
    t.Send(frame, 6);
    var status := t.Receive(reply, 5);
    assert reply[..] == reply[..5];
  }
}
