/** IPv4 subnets and the first-fit allocation of addresses (src/network/mod.rs). */
module Addresses {
  import opened Wrappers
  import opened Bits

  /** An address as the 32-bit number the allocator computes with. */
  type Ip = U32

  /** A subnet text `a.b.c.d/p` that could be read. */
  datatype Subnet = Subnet(base: Ip, prefix: nat)

  /** The four octets that follow the fixed `02:42` of a hardware address. */
  datatype Mac = Mac(o0: nat, o1: nat, o2: nat, o3: nat)

  datatype Endpoint = Endpoint(containerId: string, containerName: string, ipv4: Ip, mac: Mac)

  datatype AllocationError = InvalidCidr | InvalidGateway | UnsupportedPrefix | Exhausted

  function Mask(prefix: nat): U32
    requires prefix <= 32
  {
    if prefix == 0 then 0 else Shl(U32_SIZE - 1, 32 - prefix)
  }

  function NetworkAddress(s: Subnet): Ip
    requires s.prefix <= 32
  {
    And(s.base, Mask(s.prefix))
  }

  function Broadcast(s: Subnet): nat
    requires s.prefix <= 32
  {
    Or(NetworkAddress(s), Not(Mask(s.prefix)))
  }

  predicate Supported(s: Subnet) {
    8 <= s.prefix <= 30
  }

  /** Strictly between the network and the broadcast address. */
  predicate IsHost(s: Subnet, ip: nat)
    requires s.prefix <= 32
  {
    NetworkAddress(s) < ip < Broadcast(s)
  }

  predicate Taken(gateway: Ip, existing: map<string, Endpoint>, ip: nat) {
    ip == gateway || exists id :: id in existing && existing[id].ipv4 == ip
  }

  /** The least host address that is neither the gateway nor in use. */
  ghost predicate IsLeastFree(s: Subnet, gateway: Ip, existing: map<string, Endpoint>, ip: Ip)
    requires s.prefix <= 32
  {
    && IsHost(s, ip) && !Taken(gateway, existing, ip)
    && forall h: nat :: IsHost(s, h) && h < ip ==> Taken(gateway, existing, h)
  }

  ghost predicate AllTaken(s: Subnet, gateway: Ip, existing: map<string, Endpoint>)
    requires s.prefix <= 32
  {
    forall h: nat :: IsHost(s, h) ==> Taken(gateway, existing, h)
  }

  /** The bit operations round the base down to a multiple of 2^(32-p) and fill the low bits; the
      block of addresses they delimit stays within 32 bits. */
  lemma BlockBounds(s: Subnet)
    requires 1 <= s.prefix <= 32
    ensures var size := Pow2(32 - s.prefix);
            && NetworkAddress(s) == s.base / size * size
            && Broadcast(s) == NetworkAddress(s) + size - 1 < U32_SIZE
  {
    var size := Pow2(32 - s.prefix);
    var q, r := Divide(s.base, size);
    BlockOf(s, 32 - s.prefix, q, r);
  }

  lemma Divide(a: nat, d: nat) returns (q: nat, r: nat)
    requires d > 0
    ensures a == q * d + r && r < d && q == a / d && q * d == a / d * d
  {
    q, r := a / d, a % d;
  }

  lemma BlockOf(s: Subnet, k: nat, q: nat, r: nat)
    requires 1 <= s.prefix <= 32 && k == 32 - s.prefix
    requires s.base == q * Pow2(k) + r && r < Pow2(k)
    ensures NetworkAddress(s) == q * Pow2(k)
    ensures Broadcast(s) == q * Pow2(k) + Pow2(k) - 1 < U32_SIZE
  {
    MaskIs(s.prefix);
    AndMask(s.base, Mask(s.prefix), q, r, s.prefix, k);
    OrLowOnes(q * Pow2(k), q, k);
    Pow2Add(s.prefix, k);
    QuotientBelow(s.base, q, Pow2(k), Pow2(s.prefix));
  }

  lemma MaskIs(prefix: nat)
    requires 1 <= prefix <= 32
    ensures Mask(prefix) + Pow2(32 - prefix) == U32_SIZE == Pow2(32)
    ensures Not(Mask(prefix)) == Pow2(32 - prefix) - 1
  {
    Pow2Of32();
    OnesShifted(32 - prefix);
  }

  lemma Euclid(a: nat, d: nat)
    requires d > 0
    ensures a == a / d * d + a % d && a % d < d
  {
  }

  /** From network to broadcast address are exactly the addresses with the same first p bits as
      the base, that is the same quotient by the block size. */
  lemma SubnetIsBlock(s: Subnet, ip: nat)
    requires 1 <= s.prefix <= 32
    ensures NetworkAddress(s) <= ip <= Broadcast(s) <==>
            ip / Pow2(32 - s.prefix) == s.base / Pow2(32 - s.prefix)
  {
    var size := Pow2(32 - s.prefix);
    BlockBounds(s);
    BlockMember(ip, s.base / size, size);
    assert NetworkAddress(s) == s.base / size * size && Broadcast(s) == s.base / size * size + size - 1;
  }

  lemma BlockMember(ip: nat, q: nat, size: nat)
    requires size > 0
    ensures q * size <= ip <= q * size + size - 1 <==> ip / size == q
  {
    Euclid(ip, size);
    if q * size <= ip <= q * size + size - 1 {
      ModOf(ip, q, ip - q * size, size);
    }
  }

  lemma HostBounds(s: Subnet)
    requires Supported(s)
    ensures NetworkAddress(s) + 3 <= Broadcast(s) < U32_SIZE
  {
    BlockBounds(s);
    Pow2Mono(2, 32 - s.prefix);
    assert Pow2(2) == 4;
  }

  lemma QuotientBelow(base: nat, q: nat, size: nat, blocks: nat)
    requires size > 0 && q * size <= base < blocks * size
    ensures q * size + size <= blocks * size
  {
    if q >= blocks {
      MulMono(blocks, q, size);
    } else {
      MulMono(q + 1, blocks, size);
      assert (q + 1) * size == q * size + size;
    }
  }

  predicate Between(low: nat, h: nat, high: nat) { low < h < high }

  function Range(low: nat, high: nat): set<nat> {
    set h: nat | h < high && Between(low, h, high)
  }

  lemma {:induction false} RangeSize(low: nat, high: nat)
    requires low < high
    ensures |Range(low, high)| == high - low - 1
  {
    if low + 1 < high {
      RangeSize(low, high - 1);
      assert Range(low, high) == Range(low, high - 1) + {high - 1};
    } else {
      assert Range(low, high) == {};
    }
  }

  /** A supported subnet has 2^(32-p) - 2 host addresses. */
  lemma HostCount(s: Subnet)
    requires Supported(s)
    ensures |Range(NetworkAddress(s), Broadcast(s))| == Pow2(32 - s.prefix) - 2
    ensures forall h :: h in Range(NetworkAddress(s), Broadcast(s)) <==> IsHost(s, h)
  {
    BlockBounds(s);
    HostBounds(s);
    RangeSize(NetworkAddress(s), Broadcast(s));
  }

  /** `allocate_ip_in_subnet`; the texts are given as what they parse to. */
  method AllocateIp(subnet: Option<Subnet>, gateway: Option<Ip>, existing: map<string, Endpoint>)
    returns (result: Result<Ip, AllocationError>)
    ensures result == Err(InvalidCidr) <==> subnet.None?
    ensures result == Err(InvalidGateway) <==> subnet.Some? && gateway.None?
    ensures result == Err(UnsupportedPrefix) <==> subnet.Some? && gateway.Some? && !Supported(subnet.value)
    ensures result.Ok? ==>
              && subnet.Some? && gateway.Some? && Supported(subnet.value)
              && IsLeastFree(subnet.value, gateway.value, existing, result.value)
    ensures result == Err(Exhausted) <==>
              && subnet.Some? && gateway.Some? && Supported(subnet.value)
              && AllTaken(subnet.value, gateway.value, existing)
  {
    if subnet.None? {
      return Err(InvalidCidr);
    }
    if gateway.None? {
      return Err(InvalidGateway);
    }
    var s := subnet.value;
    if s.prefix > 30 || s.prefix < 8 {
      return Err(UnsupportedPrefix);
    }
    HostBounds(s);
    var mask := Mask(s.prefix);
    var base := And(s.base, mask);
    var bcast: U32 := Or(base, Not(mask));
    var used := set id | id in existing :: existing[id].ipv4;
    var host, end: U32 := base + 1, SaturatingSub(bcast, 1);
    while host <= end
      invariant NetworkAddress(s) < host <= Broadcast(s)
      invariant forall h: nat :: IsHost(s, h) && h < host ==> Taken(gateway.value, existing, h)
      decreases Broadcast(s) - host
    {
      if host != gateway.value && host !in used {
        return Ok(host);
      }
      assert Taken(gateway.value, existing, host);
      host := host + 1;
    }
    result := Err(Exhausted);
  }

  function MacOf(ip: Ip): Mac {
    Mac(ip / 0x100_0000, ip / 0x1_0000 % 0x100, ip / 0x100 % 0x100, ip % 0x100)
  }

  /** The octets determine the address, so distinct addresses give distinct hardware addresses. */
  lemma MacOfInjective(a: Ip, b: Ip)
    ensures MacOf(a) == MacOf(b) <==> a == b
  {
    OctetsRejoin(a);
    OctetsRejoin(b);
  }

  /** The octets of an address are those it is put together from. */
  lemma OctetsAre(ip: Ip, a: nat, b: nat, c: nat, d: nat)
    requires b < 0x100 && c < 0x100 && d < 0x100 && ip == ((a * 0x100 + b) * 0x100 + c) * 0x100 + d
    ensures MacOf(ip) == Mac(a, b, c, d)
  {
    ModOf(ip, (a * 0x100 + b) * 0x100 + c, d, 0x100);
    ModOf(ip / 0x100, a * 0x100 + b, c, 0x100);
    ModOf(ip / 0x100 / 0x100, a, b, 0x100);
    assert ip / 0x1_0000 == ip / 0x100 / 0x100 && ip / 0x100_0000 == ip / 0x1_0000 / 0x100;
  }

  lemma OctetsRejoin(ip: Ip)
    ensures var m := MacOf(ip); ip == ((m.o0 * 0x100 + m.o1) * 0x100 + m.o2) * 0x100 + m.o3
    ensures var m := MacOf(ip); m.o0 < 0x100 && m.o1 < 0x100 && m.o2 < 0x100 && m.o3 < 0x100
  {
    Euclid(ip, 0x100);
    Euclid(ip / 0x100, 0x100);
    Euclid(ip / 0x1_0000, 0x100);
    assert ip / 0x1_0000 == ip / 0x100 / 0x100 && ip / 0x100_0000 == ip / 0x1_0000 / 0x100;
  }
}
