/** Constants that several parts of the ADS library share. */
module AdsConstants {
  import opened Bytes

  const NUM_PORTS_MAX := 128
  const PORT_BASE := 30000

  const TCP_HEADER := 6
  const AOE_HEADER := 32

  const ADSERR_DEVICE_INVALIDSIZE: uint32 := 0x705
  const ADSERR_CLIENT_SYNCTIMEOUT: uint32 := 0x745

  /** The number of values of size_t. */
  const SIZES := 0x1_0000_0000_0000_0000
}
