/** The IPv4 protocol numbers the simulator dispatches on (IANA "Assigned Internet Protocol Numbers"). */
module Protocols {
  import opened Bytes

  const PROTOCOL_ICMP: u8 := 1
  const PROTOCOL_TCP: u8 := 6
  const PROTOCOL_UDP: u8 := 17
}
