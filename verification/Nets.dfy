/** Addresses, networks and the parsers of the standard library the operator relies on.

    An address is kept in the normal form that `net.IP.To4` decides on: an IPv4 address in
    16-byte form is a `V4` address. Two networks are equal exactly when both `IP.Equal` and
    the byte comparison of their masks say so. */
module Nets {
  datatype Option<+T> = None | Some(value: T)

  datatype Result<+T, +E> = Ok(value: T) | Err(error: E)

  datatype Family = V4 | V6

  datatype Addr = Addr(family: Family, value: nat)

  datatype Net = Net(ip: Addr, ones: nat)

  function Bits(family: Family): nat {
    if family.V4? then 32 else 128
  }

  /** The network of one address: mask /32 or /128. */
  function HostNet(a: Addr): Net {
    Net(a, Bits(a.family))
  }

  function Pow2(n: nat): (r: nat)
    ensures r > 0
  {
    if n == 0 then 1 else 2 * Pow2(n - 1)
  }

  /** Membership of an address in a network: same family and the same leading `ones` bits. */
  predicate InNet(a: Addr, n: Net) {
    && a.family == n.ip.family && n.ones <= Bits(a.family)
    && a.value / Pow2(Bits(a.family) - n.ones) == n.ip.value / Pow2(Bits(a.family) - n.ones)
  }

  /** A WireGuard key; the all-zero key stands for "no preshared key". */
  datatype Key = Key(bytes: nat)

  const NO_PSK := Key(0)

  /** What `net.ParseIP`, `net.ParseCIDR` and `wgtypes.ParseKey` make of a text. Every result
      holds for every choice of these partial functions. */
  datatype Parsers = Parsers(
    ip: string -> Option<Addr>,
    cidr: string -> Option<Net>,
    key: string -> Option<Key>)

  datatype PeerSpec = PeerSpec(preSharedKey: string, publicKey: string, accessRules: seq<string>)

  datatype PeerStatus = PeerStatus(address: string, addresses: seq<string>, dns: seq<string>)

  datatype AccessPeer = AccessPeer(name: string, spec: PeerSpec, status: Option<PeerStatus>)

  /** The addresses of a status; the deprecated single address stands in for an empty list. */
  function Addresses(status: PeerStatus): seq<string> {
    if status.addresses == [] then [status.address] else status.addresses
  }
}
