/** Socket addresses as the configuration builds them and the UDP sender keeps them. */
module Net {
  import opened Prelude

  /** `std::net::IpAddr`: four octets or eight 16-bit segments. */
  datatype IpAddr = V4(octets: seq<u8>) | V6(segments: seq<u16>)

  /** `std::net::SocketAddr`: an address and a port. */
  datatype SocketAddr = SocketAddr(ip: IpAddr, port: u16)

  /** `::1`, `Ipv6Addr::new(0, 0, 0, 0, 0, 0, 0, 1)`. */
  const IPV6_LOCALHOST: IpAddr := V6([0, 0, 0, 0, 0, 0, 0, 1])

  /** `::`, `Ipv6Addr::new(0, 0, 0, 0, 0, 0, 0, 0)`. */
  const IPV6_UNSPECIFIED: IpAddr := V6([0, 0, 0, 0, 0, 0, 0, 0])
}
