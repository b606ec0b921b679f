/**
 * The serial peripheral as the transfer routines see it.
 *
 * Writing the data register (SPDR) starts a full-duplex transfer: the written
 * byte is shifted out and, at the same time, one byte from the responder is
 * shifted in and latched for the next read of the data register. The
 * busy-wait on the transfer-complete flag (SPIF) that follows every write in
 * the source is taken as "the transfer has completed", so a write latches its
 * incoming byte at once.
 */
module SpiBus {

  /** An unsigned 8-bit value (the source's `uint8_t`). */
  type byte = x: int | 0 <= x < 256

  /** The byte shifted out while receiving: all ones. */
  const IdleByte: byte := 0xFF

  /** `n` idle bytes, as shifted out by `n` receives. */
  function Idle(n: nat): (s: seq<byte>)
  {
    seq(n, _ => IdleByte)
  }

  /** The `n` bytes the responder shifts in during transfers `from`, `from + 1`, ... */
  function Incoming(miso: nat -> byte, from: nat, n: nat): (s: seq<byte>)
  {
    seq(n, i requires 0 <= i => miso(from + i))
  }

  /** What an observer of the bus sees: every byte driven onto the data-out
      line, in order, and the number of transfers performed. */
  datatype Wire = Wire(sent: seq<byte>, count: nat)

  /** One transfer of `x`. */
  function Shift(w: Wire, x: byte): (w': Wire)
  {
    Wire(w.sent + [x], w.count + 1)
  }

  /** Reference semantics of `n` successive single-byte receives: the wire
      afterwards and the bytes returned, in call order. */
  function ReceiveBytes(miso: nat -> byte, w: Wire, n: nat): (r: (Wire, seq<byte>))
  {
    if n == 0 then (w, [])
    else
      var (before, got) := ReceiveBytes(miso, w, n - 1);
      (Shift(before, IdleByte), got + [miso(before.count)])
  }

  /** Reference semantics of single-byte sends of `xs[0]`, `xs[1]`, ... */
  function SendBytes(w: Wire, xs: seq<byte>): (w': Wire)
    decreases |xs|
  {
    if xs == [] then w else SendBytes(Shift(w, xs[0]), xs[1..])
  }

  /** `n` single-byte receives shift out `n` idle bytes and return the next
      `n` incoming bytes in order. */
  lemma {:induction false} ReceiveBytesClosedForm(miso: nat -> byte, w: Wire, n: nat)
    ensures ReceiveBytes(miso, w, n)
         == (Wire(w.sent + Idle(n), w.count + n), Incoming(miso, w.count, n))
  {
    if n > 0 {
      ReceiveBytesClosedForm(miso, w, n - 1);
      var before := Wire(w.sent + Idle(n - 1), w.count + (n - 1));
      assert ReceiveBytes(miso, w, n)
          == (Shift(before, IdleByte), Incoming(miso, w.count, n - 1) + [miso(before.count)]);
      assert w.sent + Idle(n - 1) + [IdleByte] == w.sent + Idle(n);
      assert Incoming(miso, w.count, n - 1) + [miso(w.count + (n - 1))] == Incoming(miso, w.count, n);
      assert Shift(before, IdleByte) == Wire(w.sent + Idle(n), w.count + n);
    } else {
      assert w.sent + Idle(0) == w.sent;
      assert Incoming(miso, w.count, 0) == [];
    }
  }

  /** Single-byte sends of `xs` put exactly `xs` on the wire, in order, one
      transfer per byte. */
  lemma {:induction false} SendBytesClosedForm(w: Wire, xs: seq<byte>)
    ensures SendBytes(w, xs) == Wire(w.sent + xs, w.count + |xs|)
    decreases |xs|
  {
    if xs != [] {
      SendBytesClosedForm(Shift(w, xs[0]), xs[1..]);
      assert w.sent + [xs[0]] + xs[1..] == w.sent + xs;
    }
  }

  /** The hardware serial peripheral: its data register, its two control
      registers, and the responder at the other end of the bus. */
  class Bus {
    /** The byte the responder shifts in during the k-th transfer (k from 0). */
    const miso: nat -> byte
    /** Every byte written to the data register, in order. */
    ghost var sent: seq<byte>
    /** Number of transfers started so far. */
    var count: nat
    /** The data register as read: the byte shifted in by the last transfer. */
    var spdr: byte
    /** SPI control register (SPCR). */
    var spcr: byte
    /** SPI status register (SPSR); only its SPI2X bit is written here. */
    var spsr: byte

    ghost function Observed(): (w: Wire)
      reads this
    {
      Wire(sent, count)
    }

    constructor (miso: nat -> byte)
      ensures this.miso == miso && Observed() == Wire([], 0)
      ensures spdr == 0 && spcr == 0 && spsr == 0
    {
      this.miso := miso;
      sent, count := [], 0;
      spdr, spcr, spsr := 0, 0, 0;
    }

    /** `SPDR = x` followed by the wait for the transfer-complete flag. */
    method Write(x: byte)
      modifies this`sent, this`count, this`spdr
      ensures Observed() == Shift(old(Observed()), x)
      ensures spdr == miso(old(count))
    {
      spdr := miso(count);
      sent := sent + [x];
      count := count + 1;
    }

    /** One complete exchange (the SPI library's `transfer`, the software
        SPI's `receive`/`send`): write `x`, wait, read back. */
    method Transfer(x: byte) returns (y: byte)
      modifies this`sent, this`count, this`spdr
      ensures Observed() == Shift(old(Observed()), x)
      ensures y == miso(old(count)) && spdr == y
    {
      Write(x);
      y := spdr;
    }
  }
}
