/**
 Socket addresses as Rust's `std::net` represents them, and the standard
 library's `Ipv6Addr::to_ipv4`, which the peer entry uses to fold IPv6
 addresses that embed an IPv4 address into the IPv4 slot.
 */
module Net {
  import opened Wrappers

  type u8 = x: int | 0 <= x < 0x100
  type u16 = x: int | 0 <= x < 0x1_0000
  type u32 = x: int | 0 <= x < 0x1_0000_0000

  /** An IPv4 address as its four octets, most significant first. */
  datatype Ipv4Addr = Ipv4Addr(a: u8, b: u8, c: u8, d: u8)

  /** The eight 16-bit groups of an IPv6 address, most significant first. */
  type Segments = s: seq<u16> | |s| == 8 witness [0, 0, 0, 0, 0, 0, 0, 0]

  datatype Ipv6Addr = Ipv6Addr(segments: Segments)

  datatype SocketAddrV4 = SocketAddrV4(ip: Ipv4Addr, port: u16)

  datatype SocketAddrV6 = SocketAddrV6(ip: Ipv6Addr, port: u16, flowinfo: u32, scopeId: u32)

  datatype SocketAddr = V4(v4: SocketAddrV4) | V6(v6: SocketAddrV6)

  /** Two octets as one big-endian 16-bit group. */
  function Join(hi: u8, lo: u8): u16
  {
    hi * 0x100 + lo
  }

  lemma SplitJoin(hi: u8, lo: u8)
    ensures Join(hi, lo) / 0x100 == hi && Join(hi, lo) % 0x100 == lo
  {
  }

  /**
   `Ipv6Addr::to_ipv4`: defined on the addresses whose first 80 bits are zero
   and whose next 16 bits are `0x0000` (IPv4-compatible, section 2.5.5.1 of
   RFC 4291, which includes `::` and `::1`) or `0xffff` (IPv4-mapped,
   section 2.5.5.2 of RFC 4291); the IPv4 address is the last 32 bits.
   */
  function ToIpv4(ip: Ipv6Addr): Option<Ipv4Addr>
  {
    var s := ip.segments;
    if s[0] == 0 && s[1] == 0 && s[2] == 0 && s[3] == 0 && s[4] == 0 && (s[5] == 0 || s[5] == 0xffff) then
      Some(Ipv4Addr(s[6] / 0x100, s[6] % 0x100, s[7] / 0x100, s[7] % 0x100))
    else
      None
  }

  /** `Ipv4Addr::to_ipv6_compatible`: `::a.b.c.d`. */
  function Ipv4Compatible(ip: Ipv4Addr): Ipv6Addr
  {
    Ipv6Addr([0, 0, 0, 0, 0, 0, Join(ip.a, ip.b), Join(ip.c, ip.d)])
  }

  /** `Ipv4Addr::to_ipv6_mapped`: `::ffff:a.b.c.d`. */
  function Ipv4Mapped(ip: Ipv4Addr): Ipv6Addr
  {
    Ipv6Addr([0, 0, 0, 0, 0, 0xffff, Join(ip.a, ip.b), Join(ip.c, ip.d)])
  }

  /** `to_ipv4` yields `v4` exactly for the compatible and the mapped form of `v4`. */
  lemma ToIpv4Inverse(ip: Ipv6Addr, v4: Ipv4Addr)
    ensures ToIpv4(ip) == Some(v4) <==> ip == Ipv4Compatible(v4) || ip == Ipv4Mapped(v4)
  {
    SplitJoin(v4.a, v4.b);
    SplitJoin(v4.c, v4.d);
    var s := ip.segments;
    if ToIpv4(ip) == Some(v4) {
      assert s[6] == Join(v4.a, v4.b) && s[7] == Join(v4.c, v4.d);
      if s[5] == 0 {
        assert s == Ipv4Compatible(v4).segments;
      } else {
        assert s == Ipv4Mapped(v4).segments;
      }
    }
  }
}
