/** The size of the packets exchanged with the PIC. */
module Serial {
  /** The longest packet, and the bound below which a firmware payload must stay. */
  const SERIAL_RAW_MAX_LEN: nat := 50
}
