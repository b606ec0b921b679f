/**
 * The three transports behind the card driver, and the one fact about them
 * that is a constant: whether the layer above must bracket transfers in SPI
 * transactions.
 */
module SpiTransport {

  datatype Transport =
    | HardwareSpi   // SdSpi: drives the SPI peripheral's registers directly
    | LibrarySpi    // SdSpiLib: goes through the Arduino SPI library
    | SoftSpi       // SdSpiSoft: bit-banged on ordinary pins

  /** Transports on the shared hardware peripheral need transactions; the
      software transport owns its pins and does not. */
  function UsesSpiTransactions(t: Transport): (r: bool)
    ensures r <==> (t == HardwareSpi || t == LibrarySpi)
    ensures !r <==> t == SoftSpi
  {
    match t
    case HardwareSpi => true
    case LibrarySpi => true
    case SoftSpi => false
  }
}
