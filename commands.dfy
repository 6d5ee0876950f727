/** The ROM command bytes the driver sends. The crate's `commands` module is not part of
    this model; the values are the standard 1-Wire ROM command codes. */
module Commands {
  /** Selects the one device whose address follows. */
  const MATCH_ROM: bv8 := 0x55
  /** Selects every device on the bus. */
  const SKIP_ROM: bv8 := 0xCC
  /** Starts a search among all devices. */
  const SEARCH_NORMAL: bv8 := 0xF0
  /** Starts a search among the devices in an alarm condition. */
  const SEARCH_ALARM: bv8 := 0xEC
}
