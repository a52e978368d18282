/** Shared value types: options, results, IPv4 addresses and the address plan of one virtual network. */
module Base {

  datatype Option<+T> = None | Some(value: T)

  datatype Result<+T, +E> = Ok(value: T) | Err(error: E)

  /** An IPv4 address as the 32-bit number it stands for. */
  type Ip = x: int | 0 <= x < 0x1_0000_0000

  type DeviceId = string

  function Pow2(n: nat): (r: nat)
    ensures r >= 1
    ensures n >= 2 ==> r >= 4
  {
    if n == 0 then 1 else if n == 1 then 2 else 2 * Pow2(n - 1)
  }

  lemma SubsetSize<T>(a: set<T>, b: set<T>)
    requires a <= b
    ensures |a| <= |b|
    ensures |a| == |b| ==> a == b
  {
    assert b == a + (b - a);
  }

  /** `network` is the lowest address of the subnet; the gateway is always the address after it. */
  datatype Config = Config(network: Ip, prefix: nat, lease: nat) {

    predicate Valid() {
      && prefix <= 32
      && network + Size() <= 0x1_0000_0000
      && network + 1 < 0x1_0000_0000
    }

    function Size(): nat
      requires prefix <= 32
    {
      Pow2(32 - prefix)
    }

    function Broadcast(): Ip
      requires Valid()
    {
      network + Size() - 1
    }

    function Gateway(): Ip
      requires Valid()
    {
      network + 1
    }

    predicate Contains(ip: Ip)
      requires Valid()
    {
      network <= ip <= Broadcast()
    }

    /** What a device may hold. */
    predicate Usable(ip: Ip)
      requires Valid()
    {
      Contains(ip) && ip != Gateway()
    }

    /** What the allocator hands out by itself: a usable address other than the two ends of the subnet. */
    predicate Host(ip: Ip)
      requires Valid()
    {
      network < ip < Broadcast() && ip != Gateway()
    }
  }
}
