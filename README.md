# SdSpi transfer engine, modelled in Dafny

This project models the SPI transports of the SdFat card driver (`SdSpi.h`):

- `SdSpi` drives the AVR SPI peripheral's registers directly.
- `SdSpiLib` goes through the Arduino SPI library.
- `SdSpiSoft` bit-bangs the bus on ordinary pins.

Two parts carry logic, and both are modelled and proved:

1. **Clock selection.** `SdSpi::init` walks the divider staircase 2, 4, …, 128 with a small loop. It writes the rate-selector code into SPCR (SPR1:SPR0) and SPSR (SPI2X). `SdSpiLib::init` picks the divider from the same staircase with an if-chain. `SpiClock.ClockLoop` is the loop. It is proved to end on the smallest supported divider that is at least the request, clamped at 128, and that divider equals the if-chain's choice for every `uint8_t` input. The `uint8_t` left shift is written out with its wrap-around (`ShiftLeft`), and the loop is proved never to reach the wrap. Read through the SCK-rate table of the ATmega328P datasheet, the register bits written by `SdSpi.Init` select exactly that divider.
2. **Byte and buffer transfers.** The data register is abstracted by `SpiBus.Bus`:
   - writing it appends the byte to a ghost log `sent`, counts one transfer, and latches the byte the responder shifts in;
   - the responder is a total function `miso: nat -> byte` that gives the byte shifted in during the k-th transfer;
   - reading the data register returns the latched byte.

   Every transfer routine of the three transports states its whole effect: which bytes go onto the wire and in what order, how many transfers happen, where the received bytes land, that `buf[n..]` is untouched, and what the data register holds afterwards (the last incoming byte, or its old value when nothing was transferred). A pure reference semantics of `n` single-byte calls (`ReceiveBytes`, `SendBytes`) is proved equal to that closed form. The optimised `SdSpi` buffer routines state that they match it. So the latency-optimised `receive(buf, n)` and the pipelined `send(buf, n)` produce the same bus log and buffer contents as `n` single-byte calls and as the plain loops of `SdSpiLib` and `SdSpiSoft`.

Modules: `SpiBus` (bytes, wire traces, the bus), `SpiClock` (divider selection), `SpiTransport` (the transaction flag), `SdSpiHardware`, `SdSpiLibrary` and `SdSpiSoftware` (the three transports), and `SpiScenarios` (end-to-end uses of `SdSpi`).

The register bit positions come from the ATmega328P datasheet, not from `SdSpi.h`: SPE = 6, MSTR = 4 and SPI2X = 0, so `(1 << SPE) | (1 << MSTR)` is `0x50`. The SCK table comes from the SPI chapter of the same datasheet.

`init` picks the smallest supported divider that is at least the request, or 128 for larger requests, so up to 128 the clock is never faster than requested.

## Model

| member | source | states |
|---|---|---|
| SpiClock.ClockLoop | SdSpi.h:314-318 | the loop ends with `b` the divider selected for `divisor` (a step of 2..128, at least the request unless clamped at 128, no smaller step would do) and equal to the `SdSpiLib` if-chain's choice; `r` is one of 0,1,2,3,4,5,7, so `r >> 1 <= 3`; the datasheet divider for (SPI2X = `r` even, SPR = `r >> 1`) is `b`; inside the loop, the `uint8_t` shift is proved never to wrap |
| SpiClock.LibDivider | SdSpi.h:147-163 | the if-chain's divider is the smallest supported step at least the request, or 128 when the request exceeds 64 |
| SpiClock.SelectedDividerUnique | SdSpi.h:318 | for any request, at most one divider meets the selection rule, so the loop and the if-chain agree on every input |
| SpiClock.SelectedDividerMonotone | SdSpi.h:148-162 | the selected divider is monotone in the request |
| SdSpiHardware.SdSpi.Init | SdSpi.h:313-321 | for a rate code `r` in {0,1,2,3,4,5,7}, SPCR is exactly enable and controller mode plus `r >> 1` (SPIE, DORD, CPOL and CPHA clear), and SPSR is exactly SPI2X when `r` is even and 0 when it is odd; through the datasheet SCK table, SPCR and SPSR select the divider `LibDivider(divisor)`, which fixes `r` |
| SdSpiHardware.SdSpi.ReceiveByte | SdSpi.h:324-329 | one transfer that shifts out 0xFF and returns the byte shifted in during it, which the data register still holds |
| SdSpiHardware.SdSpi.Receive | SdSpi.h:332-349 | returns 0; `n` transfers of 0xFF; `buf[i]` is the i-th incoming byte for every `i < n`, the last one in `buf[n-1]`; `buf[n..]` unchanged; the data register is left holding the last incoming byte (for `n == 0` nothing at all happens, and the data register keeps its value); identical to `n` single-byte receives |
| SdSpiHardware.SdSpi.SendByte | SdSpi.h:352-356 | one transfer that shifts out `data`; the data register holds the byte shifted in |
| SdSpiHardware.SdSpi.Send | SdSpi.h:358-376 | exactly `buf[0..n)` goes onto the wire, in order, one transfer each; nothing for `n == 0` (the data register keeps its value), otherwise the data register holds the byte shifted in during the last transfer; reads stay below `n`; `buf` is not modified; identical to `n` single-byte sends |
| SdSpiHardware.SdSpi.UseSpiTransactions | SdSpi.h:113-115 | the hardware transport uses SPI transactions |
| SdSpiLibrary.SdSpiLib.Init | SdSpi.h:141-165 | the divider handed to the library is the selected divider for the request |
| SdSpiLibrary.SdSpiLib.ReceiveByte | SdSpi.h:170-172 | one exchange of 0xFF, returning the incoming byte |
| SdSpiLibrary.SdSpiLib.Receive | SdSpi.h:180-185 | returns 0; same wire log and buffer contents as `SdSpi.Receive` |
| SdSpiLibrary.SdSpiLib.SendByte | SdSpi.h:190-192 | one exchange of `b` |
| SdSpiLibrary.SdSpiLib.Send | SdSpi.h:198-202 | same wire log as `SdSpi.Send`: `buf[0..n)` in order |
| SdSpiLibrary.SdSpiLib.UseSpiTransactions | SdSpi.h:204-206 | the library transport uses SPI transactions |
| SdSpiSoftware.SdSpiSoft.ReceiveByte | SdSpi.h:234-236 | one exchange of 0xFF, returning the incoming byte |
| SdSpiSoftware.SdSpiSoft.Receive | SdSpi.h:244-249 | returns 0; same wire log and buffer contents as `SdSpi.Receive`, built from its own single-byte receive |
| SdSpiSoftware.SdSpiSoft.SendByte | SdSpi.h:254-256 | one exchange of `data` |
| SdSpiSoftware.SdSpiSoft.Send | SdSpi.h:262-266 | same wire log as `SdSpi.Send`, built from its own single-byte send |
| SdSpiSoftware.SdSpiSoft.UseSpiTransactions | SdSpi.h:268-270 | the software transport does not use SPI transactions |
| SpiTransport.UsesSpiTransactions | SdSpi.h:67-68 | true exactly for the two transports on the hardware peripheral, false exactly for the software one |
| SpiBus.ReceiveBytesClosedForm | SdSpi.h:324-329 | `n` single-byte receives shift out `n` idle bytes and return the next `n` incoming bytes in order |
| SpiBus.SendBytesClosedForm | SdSpi.h:352-356 | single-byte sends of `xs` put exactly `xs` on the wire, in order, one transfer each |
| SpiBus.Bus.Write | SdSpi.h:353-355 | a data-register write logs the byte, counts one transfer and latches the responder's byte for that transfer |
| SpiBus.Bus.Transfer | SdSpi.h:171 | a library or software exchange is a write followed by a read of the latched byte |
| SpiScenarios.LoopbackRoundTrip | SdSpi.h:332-376 | with a responder that replays the block it was just sent, `Send(out, n)` then `Receive(back, n)` leaves `back[..n]` equal to `out[..n]` |
| SpiScenarios.CommandExchange | SdSpi.h:313-376 | `Init(2)`, a six-byte frame, then a five-byte reply: divider 2, the setting at which the fixed delay of the optimised receive covers a byte transfer; the wire carries the frame and then five 0xFF bytes; the reply holds the five bytes that followed the frame |

## Left out

- `SdSpi::begin`, `SdSpiLib::begin` and `SdSpiSoft::begin` (pin directions, `PORTB`/`DDRB`, `SPI.begin`, the software driver's begin): hardware side effects with nothing to state.
- `SdSpiSoft::init` ignores its divisor and does nothing, so there is nothing to model.
- The inline `asm` delays and the fixed cycle-count delay that replaces flag polling in `SdSpi::receive(buf, n)`. These are timing. The model assumes every transfer has completed before the data register is read. The delay, together with the loop body, lasts about one byte transfer at divider 2 (16 CPU cycles). A byte takes 8 × divider CPU cycles, so at every divider above 2 (a slower SCK) the loop writes SPDR while a transfer is still running. That hazard is not represented, and the receive contracts hold in the source only at divider 2.
- The `SPIF` busy-wait loops: each is taken as one completed transfer. A dead bus, which hangs the source, is not modelled; the responder always answers.
- The Arduino SPI library (`transfer`, `setBitOrder`, `setDataMode`, `setClockDivider`, the numeric values of `SPI_CLOCK_DIVn`) is foreign code. `transfer` is modelled as one bus exchange, and the chosen clock divider is kept as the number 2..128. The branch without `SPI_CLOCK_DIV128`, which passes the divisor straight to the library, is not part of this model.
- The software SPI driver (`utility/SoftSPI.h`) is not part of this model. Its byte `receive` and `send` are taken as one exchange each, with `receive` shifting out 0xFF.
- The virtual base class `SdSpiBase` has no logic. Only its statement about `useSpiTransactions` is kept.
- Compile-time selection of the default transport and its `#error` branch: configuration plumbing.
- `size_t` is modelled as `nat`. The wrap of `n--` at `n == 0` is never observed, because the routine returns first.
- SpiScenarios.LoopbackRoundTrip: a wire loopback (data-out tied to data-in) would return 0xFF to every receive, since receive shifts out 0xFF. The round trip is therefore stated for a responder that replays the block it was sent.
- SdSpiHardware.SdSpi.Receive: its contract assumes each transfer completes before the next write of the data register, which the source's fixed delay guarantees only at divider 2 (see the delay line above).
