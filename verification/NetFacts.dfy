/** Networks as ranges of addresses: what the masks of `Nets` mean. */
module NetFacts {
  import opened Nets
  import opened AddressIndex
  import ClusterLinks

  /** The network of one address: the full mask of its family, and the address alone. */
  lemma HostNetIs(a: Addr, b: Addr)
    ensures HostNet(a) == Net(a, if a.family.V4? then 32 else 128)
    ensures InNet(b, HostNet(a)) <==> b == a
  {
  }

  /** A network whose host part is zero is the range of its addresses. */
  lemma InNetIsRange(a: Addr, n: Net, hostBits: nat)
    requires n.ones + hostBits == if n.ip.family.V4? then 32 else 128
    requires n.ip.value % Pow2(hostBits) == 0
    ensures InNet(a, n) <==>
            a.family == n.ip.family && n.ip.value <= a.value < n.ip.value + Pow2(hostBits)
  {
    var size: int := Pow2(hostBits);
    var q := n.ip.value / size;
    assert n.ip.value == q * size;
    assert a.value == (a.value / size) * size + a.value % size;
    if n.ip.value <= a.value < n.ip.value + size {
      RemainderUnique(a.value, size, q, a.value - n.ip.value);
    }
  }

  function AddressBits(n: Net): nat {
    if n.ip.family.V4? then 32 else 128
  }

  /** A default route is one that every address of its family matches. */
  lemma DefaultIsEverything(d: Net)
    requires d.ones <= AddressBits(d) && d.ip.value < Pow2(AddressBits(d))
    ensures ClusterLinks.IsDefault(d) <==>
            forall a: Addr :: a.family == d.ip.family && a.value < Pow2(AddressBits(d)) ==> InNet(a, d)
  {
    var all, size: int := Pow2(AddressBits(d)), Pow2(AddressBits(d) - d.ones);
    if d.ones == 0 {
      forall a: Addr | a.family == d.ip.family && a.value < all ensures InNet(a, d) {
        RemainderUnique(a.value, size, 0, a.value);
        RemainderUnique(d.ip.value, size, 0, d.ip.value);
      }
    } else {
      var low, high := Addr(d.ip.family, 0), Addr(d.ip.family, all - 1);
      Pow2Grows(AddressBits(d) - d.ones, AddressBits(d));
      RemainderUnique(0, size, 0, 0);
      assert high.value == (high.value / size) * size + high.value % size;
      assert high.value / size != 0;
      assert !InNet(low, d) || !InNet(high, d);
    }
  }
}
