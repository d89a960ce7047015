/** The records of depend/libipvs/ip_vs.h that the library fills, encodes and sorts. */
module Records {
  import opened Machine

  const AF_UNSPEC: u16 := 0
  const AF_INET: u16 := 2
  const AF_INET6: u16 := 10
  const IPPROTO_TCP: u16 := 6
  const IPPROTO_UDP: u16 := 17
  const IP_VS_SVC_F_PERSISTENT: u32 := 1
  const IP_VS_SVC_F_ONEPACKET: u32 := 4
  const IP_VS_CONN_F_FWD_MASK: u32 := 7
  const IP_VS_CONN_F_DROUTE: u32 := 3

  /** `union nf_inet_addr`: sixteen bytes, of which IPv4 uses the first four. */
  type Addr = s: seq<byte> | |s| == 16 witness [0, 0, 0, 0, 0, 0, 0, 0, 0, 0, 0, 0, 0, 0, 0, 0]
  type Quad = s: seq<byte> | |s| == 4 witness [0, 0, 0, 0]

  /** A `char[16]` array; its text is what precedes the first NUL. */
  type Name = s: seq<byte> | |s| == 16 witness [0, 0, 0, 0, 0, 0, 0, 0, 0, 0, 0, 0, 0, 0, 0, 0]

  const ZEROS: Addr := [0, 0, 0, 0, 0, 0, 0, 0, 0, 0, 0, 0, 0, 0, 0, 0]

  /** `struct ip_vs_service_user`; ports and addresses are in network byte order. */
  datatype Service = Service(
    protocol: u16, port: u16, fwmark: u32, sched: Name, flags: u32, timeout: u32, netmask: u32,
    af: u16, addr: Addr, pe: Name)

  /** `struct ip_vs_dest_user`. */
  datatype Dest = Dest(
    port: u16, connFlags: u32, weight: i32, upper: u32, lower: u32, af: u16, addr: Addr)

  /** `struct ip_vs_stats64`. */
  datatype Stats = Stats(
    conns: u64, inpkts: u64, outpkts: u64, inbytes: u64, outbytes: u64,
    cps: u64, inpps: u64, outpps: u64, inbps: u64, outbps: u64)

  const NO_STATS: Stats := Stats(0, 0, 0, 0, 0, 0, 0, 0, 0, 0)

  /** `struct ip_vs_service_entry`. */
  datatype ServiceEntry = ServiceEntry(
    protocol: u16, port: u16, fwmark: u32, sched: Name, flags: u32, timeout: u32, netmask: u32,
    numDests: u32, af: u16, addr: Addr, pe: Name, stats: Stats)

  /** `struct ip_vs_dest_entry`. */
  datatype DestEntry = DestEntry(
    port: u16, connFlags: u32, weight: i32, upper: u32, lower: u32,
    active: u32, inactive: u32, persistent: u32, af: u16, addr: Addr, stats: Stats)

  /** `struct ip_vs_daemon_user`. */
  datatype Daemon = Daemon(
    state: i32, ifn: Name, syncid: i32, maxlen: i32, port: u16, ttl: u16, af: u16, group: Addr)

  /** What `memset(…, 0, …)` leaves in an entry. */
  const EMPTY_SERVICE: ServiceEntry :=
    ServiceEntry(0, 0, 0, ZEROS, 0, 0, 0, 0, 0, ZEROS, ZEROS, NO_STATS)
  const EMPTY_DEST: DestEntry := DestEntry(0, 0, 0, 0, 0, 0, 0, 0, 0, ZEROS, NO_STATS)
  const EMPTY_DAEMON: Daemon := Daemon(0, ZEROS, 0, 0, 0, 0, 0, ZEROS)

  /** The bytes of an address that its family gives a meaning to. */
  function Significant(af: u16, a: Addr): (s: seq<byte>) {
    if af == AF_INET6 then a else a[..4]
  }
}
