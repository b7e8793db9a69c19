/** The network store and its address management (src/network/mod.rs). */
module Networks {
  import opened Wrappers
  import opened Text
  import opened Bits
  import opened Addresses

  /** A record; subnet and gateway are what their texts parse to, None when they do not parse. */
  datatype NetworkRecord = NetworkRecord(
    id: string, name: string, driver: string,
    subnet: Option<Subnet>, gateway: Option<Ip>,
    internal: bool, attachable: bool,
    labels: map<string, string>, dnsServers: seq<string>,
    containers: map<string, Endpoint>)

  type Networks = seq<NetworkRecord>

  datatype NetworkError =
    | InvalidName | AlreadyExists | EmptyQuery | NotFound | DefaultNetwork | ActiveEndpoints
    | NotConnected | Allocation(cause: AllocationError)

  const DEFAULT_NETWORK := "boxr0"
  const DEFAULT_ID := "boxr00000000"

  function DefaultRecord(): NetworkRecord {
    NetworkRecord(DEFAULT_ID, DEFAULT_NETWORK, "bridge", PrivateSubnet(28), PrivateGateway(28),
                  false, false, map[], [], map[])
  }

  /** `172.n.0.0/16`, readable only while n fits an octet. */
  function PrivateSubnet(n: nat): Option<Subnet> {
    if n <= 255 then Some(Subnet(172 * 0x100_0000 + n * 0x1_0000, 16)) else None
  }

  function PrivateGateway(n: nat): Option<Ip> {
    if n <= 255 then Some(172 * 0x100_0000 + n * 0x1_0000 + 1) else None
  }

  // ---------------------------------------------------------------------------------------
  // Finding

  /** An id, a prefix of an id, or a name. */
  predicate Selects(query: string, n: NetworkRecord) {
    query <= n.id || n.name == query
  }

  /** `find` and `position`: the first record that the query selects, or the length. */
  function Position(networks: Networks, query: string): (k: nat)
    ensures k <= |networks|
    ensures k < |networks| ==> Selects(query, networks[k])
    ensures forall j :: 0 <= j < k ==> !Selects(query, networks[j])
  {
    if networks == [] then 0
    else if Selects(query, networks[0]) then 0
    else
      var r := Position(networks[1..], query);
      assert forall j :: 1 <= j < r + 1 ==> networks[j] == networks[1..][j - 1];
      r + 1
  }

  predicate NameTaken(networks: Networks, name: string) {
    exists k :: 0 <= k < |networks| && networks[k].name == name
  }

  predicate ValidName(name: string, isAlphanumeric: char -> bool) {
    name != "" && forall i :: 0 <= i < |name| ==> isAlphanumeric(name[i]) || name[i] == '_' || name[i] == '-'
  }

  lemma ValidNameMeaning(name: string, isAlphanumeric: char -> bool)
    ensures !ValidName(name, isAlphanumeric) <==>
            name == "" || exists c :: c in name && !isAlphanumeric(c) && c != '_' && c != '-'
  {
    if i :| 0 <= i < |name| && !isAlphanumeric(name[i]) && name[i] != '_' && name[i] != '-' {
      assert name[i] in name;
    }
  }

  /** The default subnet with number n is 172.n.0.0/16 and its gateway the first host address in it;
      both can be read while n fits an octet. */
  lemma PrivateNetworkMeaning(n: nat)
    ensures PrivateSubnet(n).Some? <==> n <= 255
    ensures PrivateGateway(n).Some? <==> n <= 255
    ensures n <= 255 ==>
              var s, g := PrivateSubnet(n).value, PrivateGateway(n).value;
              && s.prefix == 16 && MacOf(s.base) == Mac(172, n, 0, 0) && MacOf(g) == Mac(172, n, 0, 1)
              && IsHost(s, g) && forall h: nat :: IsHost(s, h) ==> g <= h
  {
    if n <= 255 {
      var s := PrivateSubnet(n).value;
      PrivateBlock(s, n);
      OctetsAre(s.base, 172, n, 0, 0);
      OctetsAre(s.base + 1, 172, n, 0, 1);
    }
  }

  lemma PrivateBlock(s: Subnet, n: nat)
    requires n <= 255 && s == Subnet(172 * 0x100_0000 + n * 0x1_0000, 16)
    ensures NetworkAddress(s) == s.base && Broadcast(s) == s.base + 0xFFFF
  {
    BlockBounds(s);
    Pow2Of16();
    assert s.base == (172 * 0x100 + n) * 0x1_0000;
    ModOf(s.base, 172 * 0x100 + n, 0, 0x1_0000);
  }

  lemma Pow2Of16()
    ensures Pow2(16) == 0x1_0000
  {
    assert Pow2(4) == 16;
    Pow2Add(4, 4);
    Pow2Add(8, 8);
  }

  // ---------------------------------------------------------------------------------------
  // Updating labels and name servers

  function AddServers(servers: seq<string>, add: seq<string>): seq<string> {
    if add == [] then servers
    else
      var before := AddServers(servers, add[..|add| - 1]);
      var dns := add[|add| - 1];
      if dns in before then before else before + [dns]
  }

  /** `retain(|d| d != dns)`. */
  function Without(servers: seq<string>, dns: string): (kept: seq<string>)
    ensures forall d :: d in kept <==> d in servers && d != dns
  {
    if servers == [] then []
    else if servers[0] == dns then Without(servers[1..], dns)
    else [servers[0]] + Without(servers[1..], dns)
  }

  function DropServers(servers: seq<string>, drop: seq<string>): seq<string> {
    if drop == [] then servers
    else Without(DropServers(servers, drop[..|drop| - 1]), drop[|drop| - 1])
  }

  /** `key=value`, or a key alone with an empty value. */
  function SplitLabel(l: string): (string, string) {
    var i := IndexOf(l, '=');
    if i == |l| then (l, "") else (l[..i], l[i + 1..])
  }

  function AddLabels(labels: map<string, string>, add: seq<string>): map<string, string> {
    if add == [] then labels
    else
      var (k, v) := SplitLabel(add[|add| - 1]);
      AddLabels(labels, add[..|add| - 1])[k := v]
  }

  function DropLabels(labels: map<string, string>, drop: seq<string>): map<string, string> {
    if drop == [] then labels
    else DropLabels(labels, drop[..|drop| - 1]) - {drop[|drop| - 1]}
  }

  // ---------------------------------------------------------------------------------------
  // What each operation may do to the store

  datatype Op =
    | EnsureDefault
    | Create(name: string, driver: string, subnet: Option<Option<Subnet>>, gateway: Option<Option<Ip>>,
             internal: bool, attachable: bool, labels: map<string, string>, id: string, isAlphanumeric: char -> bool)
    | Update(query: string, dnsAdd: seq<string>, dnsDrop: seq<string>, labelAdd: seq<string>, labelDrop: seq<string>)
    | RemoveOp(query: string, force: bool)
    | Connect(query: string, containerId: string, containerName: string)
    | Disconnect(query: string, containerId: string)

  function NewRecord(op: Op, count: nat): NetworkRecord
    requires op.Create?
  {
    NetworkRecord(op.id, Trim(op.name), op.driver,
                  if op.subnet.Some? then op.subnet.value else PrivateSubnet(29 + count),
                  if op.gateway.Some? then op.gateway.value else PrivateGateway(29 + count),
                  op.internal, op.attachable, op.labels, [], map[])
  }

  function Updated(n: NetworkRecord, op: Op): NetworkRecord
    requires op.Update?
  {
    n.(dnsServers := DropServers(AddServers(n.dnsServers, op.dnsAdd), op.dnsDrop),
       labels := DropLabels(AddLabels(n.labels, op.labelAdd), op.labelDrop))
  }

  /** The endpoint recorded for a container that gets an address. */
  function EndpointFor(id: string, name: string, ip: Ip): Endpoint {
    Endpoint(id, name, ip, MacOf(ip))
  }

  ghost predicate CanAllocate(n: NetworkRecord, ip: Ip) {
    && n.subnet.Some? && n.gateway.Some? && Supported(n.subnet.value)
    && IsLeastFree(n.subnet.value, n.gateway.value, n.containers, ip)
  }

  /** Why no address can be allocated. */
  ghost predicate Refuses(n: NetworkRecord, cause: AllocationError) {
    match cause
    case InvalidCidr => n.subnet.None?
    case InvalidGateway => n.subnet.Some? && n.gateway.None?
    case UnsupportedPrefix => n.subnet.Some? && n.gateway.Some? && !Supported(n.subnet.value)
    case Exhausted =>
      && n.subnet.Some? && n.gateway.Some? && Supported(n.subnet.value)
      && AllTaken(n.subnet.value, n.gateway.value, n.containers)
  }

  lemma RefusedCannotAllocate(n: NetworkRecord, cause: AllocationError)
    requires Refuses(n, cause)
    ensures forall ip: Ip :: !CanAllocate(n, ip)
  {
  }

  function WithContainers(networks: Networks, k: nat, containers: map<string, Endpoint>): Networks
    requires k < |networks|
  {
    networks[k := networks[k].(containers := containers)]
  }

  ghost predicate CreateEffect(before: Networks, op: Op, after: Networks)
    requires op.Create?
  {
    && ValidName(Trim(op.name), op.isAlphanumeric) && !NameTaken(before, Trim(op.name))
    && after == before + [NewRecord(op, |before|)]
  }

  ghost predicate UpdateEffect(before: Networks, op: Op, after: Networks)
    requires op.Update?
  {
    var k := Position(before, Trim(op.query));
    && Trim(op.query) != "" && k < |before|
    && after == before[k := Updated(before[k], op)]
  }

  predicate RemoveAllowed(before: Networks, query: string, force: bool) {
    var k := Position(before, Trim(query));
    && Trim(query) != "" && Trim(query) != DEFAULT_NETWORK && k < |before|
    && (force || before[k].containers == map[])
  }

  /** `remove(k)`. */
  function WithoutAt(networks: Networks, k: nat): Networks
    requires k < |networks|
  {
    networks[..k] + networks[k + 1..]
  }

  /** The store after a call that removes, allowed or not. */
  function AfterRemove(before: Networks, query: string, force: bool): Networks {
    if RemoveAllowed(before, query, force) then WithoutAt(before, Position(before, Trim(query))) else before
  }

  ghost predicate RemoveEffect(before: Networks, query: string, force: bool, after: Networks) {
    RemoveAllowed(before, query, force) && after == AfterRemove(before, query, force)
  }

  ghost predicate ConnectEffect(before: Networks, query: string, id: string, name: string, after: Networks) {
    var k := Position(before, query);
    && k < |before|
    && (if id in before[k].containers then after == before
        else exists ip: Ip ::
               && CanAllocate(before[k], ip)
               && after == WithContainers(before, k, before[k].containers[id := EndpointFor(id, name, ip)]))
  }

  ghost predicate DisconnectEffect(before: Networks, query: string, id: string, after: Networks) {
    var k := Position(before, query);
    && k < |before|
    && exists key :: && key in before[k].containers
                     && (key == id || (id !in before[k].containers && before[k].containers[key].containerName == id))
                     && after == WithContainers(before, k, before[k].containers - {key})
  }

  /** The store after a successful operation. */
  ghost predicate Effect(before: Networks, op: Op, after: Networks) {
    match op
    case EnsureDefault =>
      after == if NameTaken(before, DEFAULT_NETWORK) then before else before + [DefaultRecord()]
    case Create(_, _, _, _, _, _, _, _, _) => CreateEffect(before, op, after)
    case Update(_, _, _, _, _) => UpdateEffect(before, op, after)
    case RemoveOp(query, force) => RemoveEffect(before, query, force, after)
    case Connect(query, id, name) => ConnectEffect(before, query, id, name, after)
    case Disconnect(query, id) => DisconnectEffect(before, query, id, after)
  }

  /** One call: the effect of a success, and nothing on an error. */
  ghost predicate Step(before: Networks, op: Op, after: Networks) {
    after == before || Effect(before, op, after)
  }

  // ---------------------------------------------------------------------------------------
  // The store

  class NetworkStore {
    var networks: Networks

    constructor ()
      ensures networks == []
    {
      networks := [];
    }

    /** `ensure_default_network`. */
    method EnsureDefaultNetwork()
      modifies this
      ensures Effect(old(networks), EnsureDefault, networks)
      ensures networks != old(networks) ==>
                && networks[..|networks| - 1] == old(networks)
                && var n := networks[|networks| - 1];
                   && n.name == "boxr0" && n.id == "boxr00000000" && n.driver == "bridge"
                   && n.subnet == PrivateSubnet(28) && n.gateway == PrivateGateway(28)
                   && !n.internal && !n.attachable && n.labels == map[] && n.dnsServers == [] && n.containers == map[]
    {
      if !NameTaken(networks, DEFAULT_NETWORK) {
        networks := networks + [DefaultRecord()];
      }
    }

    /** `create_with_options`; the random id and the Unicode letter test are given. */
    method CreateWithOptions(name: string, driver: string, subnet: Option<Option<Subnet>>, gateway: Option<Option<Ip>>,
                             internal: bool, attachable: bool, labels: map<string, string>,
                             id: string, isAlphanumeric: char -> bool)
      returns (r: Result<NetworkRecord, NetworkError>)
      modifies this
      ensures var op := Create(name, driver, subnet, gateway, internal, attachable, labels, id, isAlphanumeric);
              if r.Ok? then Effect(old(networks), op, networks) && networks == old(networks) + [r.value]
              else networks == old(networks)
      ensures r.Ok? ==>
                && r.value.id == id && r.value.name == Trim(name) && r.value.driver == driver
                && r.value.internal == internal && r.value.attachable == attachable && r.value.labels == labels
                && r.value.subnet == (if subnet.Some? then subnet.value else PrivateSubnet(29 + |old(networks)|))
                && r.value.gateway == (if gateway.Some? then gateway.value else PrivateGateway(29 + |old(networks)|))
                && r.value.dnsServers == [] && r.value.containers == map[]
      ensures r == Err(InvalidName) <==>
                Trim(name) == "" || exists c :: c in Trim(name) && !isAlphanumeric(c) && c != '_' && c != '-'
      ensures r == Err(AlreadyExists) <==> ValidName(Trim(name), isAlphanumeric) && NameTaken(old(networks), Trim(name))
      ensures r.Ok? <==> ValidName(Trim(name), isAlphanumeric) && !NameTaken(old(networks), Trim(name))
    {
      var trimmed := Trim(name);
      ValidNameMeaning(trimmed, isAlphanumeric);
      if !ValidName(trimmed, isAlphanumeric) {
        return Err(InvalidName);
      }
      if NameTaken(networks, trimmed) {
        return Err(AlreadyExists);
      }
      var count := |networks|;
      var chosenSubnet := if subnet.Some? then subnet.value else PrivateSubnet(29 + count);
      var chosenGateway := if gateway.Some? then gateway.value else PrivateGateway(29 + count);
      var record := NetworkRecord(id, trimmed, driver, chosenSubnet, chosenGateway,
                                  internal, attachable, labels, [], map[]);
      ghost var op := Create(name, driver, subnet, gateway, internal, attachable, labels, id, isAlphanumeric);
      assert record == NewRecord(op, count);
      networks := networks + [record];
      r := Ok(record);
    }

    /** `update`. */
    method UpdateNetwork(query: string, dnsAdd: seq<string>, dnsDrop: seq<string>,
                         labelAdd: seq<string>, labelDrop: seq<string>)
      returns (r: Result<NetworkRecord, NetworkError>)
      modifies this
      ensures if r.Ok? then Effect(old(networks), Update(query, dnsAdd, dnsDrop, labelAdd, labelDrop), networks)
              else networks == old(networks)
      ensures r.Ok? <==> Trim(query) != "" && Position(old(networks), Trim(query)) < |old(networks)|
      ensures r.Err? ==> r.error == if Trim(query) == "" then EmptyQuery else NotFound
      ensures r.Ok? ==> r.value == networks[Position(old(networks), Trim(query))]
    {
      var q := Trim(query);
      if q == "" {
        return Err(EmptyQuery);
      }
      var k := Position(networks, q);
      if k == |networks| {
        return Err(NotFound);
      }
      var servers := UpdateServers(networks[k].dnsServers, dnsAdd, dnsDrop);
      var labels := UpdateLabels(networks[k].labels, labelAdd, labelDrop);
      var updated := networks[k].(dnsServers := servers, labels := labels);
      networks := networks[k := updated];
      r := Ok(updated);
    }

    /** The two name server loops of `update`. */
    static method UpdateServers(before: seq<string>, add: seq<string>, drop: seq<string>)
      returns (servers: seq<string>)
      ensures servers == DropServers(AddServers(before, add), drop)
    {
      servers := before;
      var i := 0;
      while i < |add|
        invariant 0 <= i <= |add| && servers == AddServers(before, add[..i])
      {
        assert add[..i + 1][..i] == add[..i];
        if add[i] !in servers {
          servers := servers + [add[i]];
        }
        i := i + 1;
      }
      assert add[..|add|] == add;
      ghost var added := servers;
      i := 0;
      while i < |drop|
        invariant 0 <= i <= |drop| && servers == DropServers(added, drop[..i])
      {
        assert drop[..i + 1][..i] == drop[..i];
        servers := Without(servers, drop[i]);
        i := i + 1;
      }
      assert drop[..|drop|] == drop;
    }

    /** The two label loops of `update`. */
    static method UpdateLabels(before: map<string, string>, add: seq<string>, drop: seq<string>)
      returns (labels: map<string, string>)
      ensures labels == DropLabels(AddLabels(before, add), drop)
    {
      labels := before;
      var i := 0;
      while i < |add|
        invariant 0 <= i <= |add| && labels == AddLabels(before, add[..i])
      {
        assert add[..i + 1][..i] == add[..i];
        var (k, v) := SplitLabel(add[i]);
        labels := labels[k := v];
        i := i + 1;
      }
      assert add[..|add|] == add;
      ghost var added := labels;
      i := 0;
      while i < |drop|
        invariant 0 <= i <= |drop| && labels == DropLabels(added, drop[..i])
      {
        assert drop[..i + 1][..i] == drop[..i];
        labels := labels - {drop[i]};
        i := i + 1;
      }
      assert drop[..|drop|] == drop;
    }

    /** `remove_with_force`. */
    method RemoveWithForce(query: string, force: bool) returns (r: Result<NetworkRecord, NetworkError>)
      modifies this
      ensures networks == AfterRemove(old(networks), query, force)
      ensures r.Ok? ==> Effect(old(networks), RemoveOp(query, force), networks)
      ensures r.Ok? ==> r.value == old(networks)[Position(old(networks), Trim(query))]
      ensures r.Ok? <==> RemoveAllowed(old(networks), query, force)
      ensures r == Err(DefaultNetwork) <==> Trim(query) == DEFAULT_NETWORK
      ensures r == Err(NotFound) <==>
                Trim(query) != DEFAULT_NETWORK &&
                (Trim(query) == "" || Position(old(networks), Trim(query)) == |old(networks)|)
      ensures r.Err? ==> r.error in {DefaultNetwork, NotFound, ActiveEndpoints}
    {
      var q := Trim(query);
      if q == "" {
        return Err(NotFound);
      }
      if q == DEFAULT_NETWORK {
        return Err(DefaultNetwork);
      }
      var k := Position(networks, q);
      if k == |networks| {
        return Err(NotFound);
      }
      if !force && networks[k].containers != map[] {
        return Err(ActiveEndpoints);
      }
      r := Ok(networks[k]);
      networks := WithoutAt(networks, k);
    }

    /** `connect_container`. */
    method ConnectContainer(query: string, containerId: string, containerName: string)
      returns (r: Result<Endpoint, NetworkError>)
      modifies this
      ensures if r.Ok? then Effect(old(networks), Connect(query, containerId, containerName), networks)
              else networks == old(networks)
      ensures r.Ok? ==>
                var k := Position(networks, query);
                && k == Position(old(networks), query) < |networks|
                && containerId in networks[k].containers && r.value == networks[k].containers[containerId]
                && (containerId !in old(networks)[k].containers ==>
                      && r.value.containerId == containerId && r.value.containerName == containerName
                      && r.value.mac == MacOf(r.value.ipv4) && CanAllocate(old(networks)[k], r.value.ipv4))
      ensures r == Err(NotFound) <==> Position(old(networks), query) == |old(networks)|
      ensures r.Ok? <==>
                var k := Position(old(networks), query);
                && k < |old(networks)|
                && (containerId in old(networks)[k].containers || exists ip: Ip :: CanAllocate(old(networks)[k], ip))
      ensures r.Err? && r.error != NotFound ==>
                r.error.Allocation? && Refuses(old(networks)[Position(old(networks), query)], r.error.cause)
    {
      var k := Position(networks, query);
      if k == |networks| {
        return Err(NotFound);
      }
      var net := networks[k];
      if containerId in net.containers {
        return Ok(net.containers[containerId]);
      }
      var granted := AllocateIp(net.subnet, net.gateway, net.containers);
      if granted.Err? {
        RefusedCannotAllocate(net, granted.error);
        return Err(Allocation(granted.error));
      }
      var endpoint := EndpointFor(containerId, containerName, granted.value);
      networks := WithContainers(networks, k, net.containers[containerId := endpoint]);
      assert CanAllocate(net, granted.value);
      PositionKept(old(networks), networks, query);
      r := Ok(endpoint);
    }

    /** `disconnect_container`: by id, or else any container of that name. */
    method DisconnectContainer(query: string, containerId: string) returns (r: Result<(), NetworkError>)
      modifies this
      ensures if r.Ok? then Effect(old(networks), Disconnect(query, containerId), networks)
              else networks == old(networks)
      ensures r == Err(NotFound) <==> Position(old(networks), query) == |old(networks)|
      ensures r == Err(NotConnected) <==>
                var k := Position(old(networks), query);
                && k < |old(networks)| && containerId !in old(networks)[k].containers
                && forall key :: key in old(networks)[k].containers ==>
                                   old(networks)[k].containers[key].containerName != containerId
      ensures r.Err? ==> r.error in {NotFound, NotConnected}
    {
      var k := Position(networks, query);
      if k == |networks| {
        return Err(NotFound);
      }
      var containers := networks[k].containers;
      if containerId in containers {
        networks := WithContainers(networks, k, containers - {containerId});
      } else if exists key :: key in containers && containers[key].containerName == containerId {
        var key :| key in containers && containers[key].containerName == containerId;
        networks := WithContainers(networks, k, containers - {key});
      } else {
        return Err(NotConnected);
      }
      r := Ok(());
    }
  }

  lemma {:induction false} PositionKept(before: Networks, after: Networks, query: string)
    requires |before| == |after|
    requires forall i :: 0 <= i < |before| ==> before[i].id == after[i].id && before[i].name == after[i].name
    ensures Position(before, query) == Position(after, query)
  {
    assert forall m :: 0 <= m < |before| ==> (Selects(query, before[m]) <==> Selects(query, after[m]));
  }

  // ---------------------------------------------------------------------------------------
  // What every run keeps

  ghost predicate EndpointFits(n: NetworkRecord, id: string)
    requires id in n.containers
  {
    var e := n.containers[id];
    && e.containerId == id && e.mac == MacOf(e.ipv4)
    && n.subnet.Some? && n.gateway.Some? && Supported(n.subnet.value)
    && IsHost(n.subnet.value, e.ipv4)
    && e.ipv4 != n.gateway.value
  }

  /** Every endpoint is within its subnet and off the gateway; no two share an IP or a MAC. */
  ghost predicate NetworkConsistent(n: NetworkRecord) {
    && (forall id :: id in n.containers ==> EndpointFits(n, id))
    && (forall a, b :: a in n.containers && b in n.containers && a != b ==>
          n.containers[a].ipv4 != n.containers[b].ipv4 && n.containers[a].mac != n.containers[b].mac)
  }

  ghost predicate Consistent(networks: Networks) {
    && (forall i, j :: 0 <= i < j < |networks| ==> networks[i].name != networks[j].name)
    && (forall i :: 0 <= i < |networks| ==> NetworkConsistent(networks[i]))
  }

  lemma ConnectKeepsConsistent(n: NetworkRecord, id: string, name: string, ip: Ip)
    requires NetworkConsistent(n) && id !in n.containers && CanAllocate(n, ip)
    ensures NetworkConsistent(n.(containers := n.containers[id := EndpointFor(id, name, ip)]))
  {
    var after := n.(containers := n.containers[id := EndpointFor(id, name, ip)]);
    forall x | x in after.containers ensures EndpointFits(after, x) {
      if x != id { assert EndpointFits(n, x); }
    }
    forall x | x in n.containers
      ensures n.containers[x].ipv4 != ip && n.containers[x].mac != MacOf(ip)
    {
      assert EndpointFits(n, x);
      MacOfInjective(n.containers[x].ipv4, ip);
    }
  }

  lemma DisconnectKeepsConsistent(n: NetworkRecord, key: string)
    requires NetworkConsistent(n)
    ensures NetworkConsistent(n.(containers := n.containers - {key}))
  {
    var after := n.(containers := n.containers - {key});
    forall x | x in after.containers ensures EndpointFits(after, x) {
      assert EndpointFits(n, x);
    }
  }

  lemma ReplaceKeepsConsistent(networks: Networks, k: nat, n: NetworkRecord)
    requires Consistent(networks) && k < |networks|
    requires n.name == networks[k].name && NetworkConsistent(n)
    ensures Consistent(networks[k := n])
  {
  }

  lemma UpdateKeepsConsistent(n: NetworkRecord, op: Op)
    requires op.Update? && NetworkConsistent(n)
    ensures NetworkConsistent(Updated(n, op))
  {
    forall x | x in n.containers ensures EndpointFits(Updated(n, op), x) {
      assert EndpointFits(n, x);
    }
  }

  lemma AppendKeepsConsistent(networks: Networks, n: NetworkRecord)
    requires Consistent(networks) && !NameTaken(networks, n.name) && n.containers == map[]
    ensures Consistent(networks + [n])
  {
    assert NetworkConsistent(n);
  }

  lemma RemoveKeepsConsistent(networks: Networks, k: nat)
    requires Consistent(networks) && k < |networks|
    ensures Consistent(WithoutAt(networks, k))
  {
    var after := WithoutAt(networks, k);
    assert forall i :: 0 <= i < |after| ==> after[i] == networks[if i < k then i else i + 1];
  }

  lemma CreateStep(before: Networks, op: Op, after: Networks)
    requires Consistent(before) && op.Create? && CreateEffect(before, op, after)
    ensures Consistent(after)
  {
    AppendKeepsConsistent(before, NewRecord(op, |before|));
  }

  lemma RemoveStep(before: Networks, query: string, force: bool, after: Networks)
    requires Consistent(before) && RemoveEffect(before, query, force, after)
    ensures Consistent(after)
  {
    RemoveKeepsConsistent(before, Position(before, Trim(query)));
  }

  lemma ConnectStep(before: Networks, query: string, id: string, name: string, after: Networks)
    requires Consistent(before) && ConnectEffect(before, query, id, name, after)
    ensures Consistent(after)
  {
    var k := Position(before, query);
    if id !in before[k].containers {
      var ip: Ip :| CanAllocate(before[k], ip)
                    && after == WithContainers(before, k, before[k].containers[id := EndpointFor(id, name, ip)]);
      ConnectKeepsConsistent(before[k], id, name, ip);
      ReplaceKeepsConsistent(before, k, after[k]);
    }
  }

  lemma DisconnectStep(before: Networks, query: string, id: string, after: Networks)
    requires Consistent(before) && DisconnectEffect(before, query, id, after)
    ensures Consistent(after)
  {
    var k := Position(before, query);
    var key :| key in before[k].containers && after == WithContainers(before, k, before[k].containers - {key});
    DisconnectKeepsConsistent(before[k], key);
    ReplaceKeepsConsistent(before, k, after[k]);
  }

  lemma UpdateStep(before: Networks, op: Op, after: Networks)
    requires Consistent(before) && op.Update? && UpdateEffect(before, op, after)
    ensures Consistent(after)
  {
    var k := Position(before, Trim(op.query));
    UpdateKeepsConsistent(before[k], op);
    ReplaceKeepsConsistent(before, k, Updated(before[k], op));
  }

  /** Every operation keeps the store consistent, whether it succeeds or fails. */
  lemma StepKeepsConsistent(before: Networks, op: Op, after: Networks)
    requires Consistent(before) && Step(before, op, after)
    ensures Consistent(after)
  {
    if after != before {
      match op
      case EnsureDefault => AppendKeepsConsistent(before, DefaultRecord());
      case Create(_, _, _, _, _, _, _, _, _) => CreateStep(before, op, after);
      case Update(_, _, _, _, _) => UpdateStep(before, op, after);
      case RemoveOp(query, force) => RemoveStep(before, query, force, after);
      case Connect(query, id, name) => ConnectStep(before, query, id, name, after);
      case Disconnect(query, id) => DisconnectStep(before, query, id, after);
    }
  }

  /** A run from the empty store: each state follows from the one before by one operation. */
  ghost predicate IsRun(states: seq<Networks>, ops: seq<Op>) {
    && |states| == |ops| + 1 && states[0] == []
    && forall i :: 0 <= i < |ops| ==> Step(states[i], ops[i], states[i + 1])
  }

  /** The main result: in every state of every run names are distinct, every endpoint lies
      strictly between network and broadcast address and off the gateway, and no two endpoints
      of a network share an IP or a MAC. */
  lemma {:induction false} EveryRunIsConsistent(states: seq<Networks>, ops: seq<Op>, i: nat)
    requires IsRun(states, ops) && i < |states|
    ensures Consistent(states[i])
  {
    if i == 0 {
    } else {
      EveryRunIsConsistent(states, ops, i - 1);
      assert Step(states[i - 1], ops[i - 1], states[i - 1 + 1]);
      StepKeepsConsistent(states[i - 1], ops[i - 1], states[i]);
    }
  }

  // ---------------------------------------------------------------------------------------
  // When subnets are shared

  /** No two records have the same readable subnet. */
  ghost predicate SubnetsApart(networks: Networks) {
    forall i, j :: 0 <= i < j < |networks| ==> networks[i].subnet.None? || networks[i].subnet != networks[j].subnet
  }

  /** The subnet of the record that an operation appends, None when it appends none. */
  function AddedSubnet(op: Op, count: nat): Option<Subnet> {
    match op
    case EnsureDefault => PrivateSubnet(28)
    case Create(_, _, _, _, _, _, _, _, _) => NewRecord(op, count).subnet
    case _ => None
  }

  predicate HasSubnet(networks: Networks, s: Option<Subnet>) {
    exists k :: 0 <= k < |networks| && networks[k].subnet == s
  }

  /** The operation appends no record, or one whose subnet no other has. */
  ghost predicate AddsFresh(before: Networks, op: Op, after: Networks) {
    |after| > |before| ==> AddedSubnet(op, |before|).None? || !HasSubnet(before, AddedSubnet(op, |before|))
  }

  lemma AppendKeepsApartIff(before: Networks, n: NetworkRecord)
    requires SubnetsApart(before)
    ensures SubnetsApart(before + [n]) <==> n.subnet.None? || !HasSubnet(before, n.subnet)
  {
    var after := before + [n];
    if k :| 0 <= k < |before| && before[k].subnet == n.subnet && n.subnet.Some? {
      assert after[k].subnet == after[|before|].subnet;
    }
  }

  lemma DropKeepsApart(before: Networks, k: nat)
    requires SubnetsApart(before) && k < |before|
    ensures SubnetsApart(WithoutAt(before, k))
  {
    var after := WithoutAt(before, k);
    assert forall i :: 0 <= i < |after| ==> after[i] == before[if i < k then i else i + 1];
  }

  /** One operation, of any kind: subnets stay apart exactly when it adds a fresh one or none. */
  lemma StepKeepsApartIff(before: Networks, op: Op, after: Networks)
    requires SubnetsApart(before) && Step(before, op, after)
    ensures SubnetsApart(after) <==> AddsFresh(before, op, after)
  {
    if after != before {
      match op
      case EnsureDefault => AppendKeepsApartIff(before, DefaultRecord());
      case Create(_, _, _, _, _, _, _, _, _) => AppendKeepsApartIff(before, NewRecord(op, |before|));
      case RemoveOp(query, force) => DropKeepsApart(before, Position(before, Trim(query)));
      case _ => SubnetsKept(before, op, after);
    }
  }

  lemma SubnetsKept(before: Networks, op: Op, after: Networks)
    requires Step(before, op, after) && (op.Update? || op.Connect? || op.Disconnect?)
    ensures |after| == |before|
    ensures forall i :: 0 <= i < |before| ==> after[i].name == before[i].name && after[i].subnet == before[i].subnet
  {
  }

  /** Hence for a network created with the default subnet: it is shared exactly when a record has the
      subnet that the number of networks gives. */
  lemma DefaultSubnetIsFreshIff(before: Networks, op: Op, after: Networks)
    requires SubnetsApart(before) && op.Create? && op.subnet.None? && CreateEffect(before, op, after)
    ensures SubnetsApart(after) <==>
            forall k :: 0 <= k < |before| && before[k].subnet.Some? ==> before[k].subnet != PrivateSubnet(29 + |before|)
  {
    StepKeepsApartIff(before, op, after);
  }

  /** In every run, removals and given subnets included, subnets are apart in every state exactly when
      no operation appends one that is there. */
  lemma {:induction false} EveryRunApartIff(states: seq<Networks>, ops: seq<Op>, n: nat)
    requires IsRun(states, ops) && n <= |ops|
    ensures (forall i :: 0 <= i <= n ==> SubnetsApart(states[i])) <==>
            forall i :: 0 <= i < n ==> AddsFresh(states[i], ops[i], states[i + 1])
  {
    if n == 0 {
    } else {
      EveryRunApartIff(states, ops, n - 1);
      assert Step(states[n - 1], ops[n - 1], states[n - 1 + 1]);
      if SubnetsApart(states[n - 1]) {
        StepKeepsApartIff(states[n - 1], ops[n - 1], states[n]);
      }
    }
  }

  /** Every network has the default subnet for its place, or is the default network. */
  ghost predicate DefaultSubnets(networks: Networks) {
    forall i :: 0 <= i < |networks| ==>
                  || networks[i].subnet == PrivateSubnet(29 + i)
                  || (networks[i].subnet == PrivateSubnet(28) && networks[i].name == DEFAULT_NETWORK)
  }

  lemma PrivateSubnetInjective(m: nat, n: nat)
    ensures PrivateSubnet(m).Some? && PrivateSubnet(m) == PrivateSubnet(n) ==> m == n
  {
  }

  lemma DefaultSubnetsApart(networks: Networks)
    requires DefaultSubnets(networks) && Consistent(networks)
    ensures SubnetsApart(networks)
    ensures |networks| <= 227 ==> forall i :: 0 <= i < |networks| ==> networks[i].subnet.Some?
  {
    forall i, j | 0 <= i < j < |networks|
      ensures networks[i].subnet.None? || networks[i].subnet != networks[j].subnet
    {
      PrivateSubnetInjective(29 + i, 29 + j);
      PrivateSubnetInjective(29 + i, 28);
      PrivateSubnetInjective(28, 29 + j);
    }
  }

  /** The operation removes nothing and gives no subnet of its own. */
  predicate KeepsPlaces(op: Op) {
    !op.RemoveOp? && (op.Create? ==> op.subnet.None?)
  }

  lemma StepKeepsDefaultSubnets(before: Networks, op: Op, after: Networks)
    requires DefaultSubnets(before) && KeepsPlaces(op) && Step(before, op, after)
    ensures DefaultSubnets(after)
  {
    if op.Update? || op.Connect? || op.Disconnect? {
      SubnetsKept(before, op, after);
    }
  }

  /** Without removals and given subnets no two networks ever share a subnet; each has one as long as
      there are at most 227 of them. */
  lemma {:induction false} DefaultSubnetsStayApart(states: seq<Networks>, ops: seq<Op>, n: nat)
    requires IsRun(states, ops) && n < |states|
    requires forall i :: 0 <= i < |ops| ==> KeepsPlaces(ops[i])
    ensures DefaultSubnets(states[n]) && SubnetsApart(states[n])
    ensures |states[n]| <= 227 ==> forall i :: 0 <= i < |states[n]| ==> states[n][i].subnet.Some?
  {
    EveryRunIsConsistent(states, ops, n);
    if n == 0 {
    } else {
      DefaultSubnetsStayApart(states, ops, n - 1);
      assert Step(states[n - 1], ops[n - 1], states[n - 1 + 1]);
      StepKeepsDefaultSubnets(states[n - 1], ops[n - 1], states[n]);
    }
    DefaultSubnetsApart(states[n]);
  }

  function PlainCreate(name: string, id: string): Op {
    Create(name, "bridge", None, None, false, false, map[], id, _ => true)
  }

  /** After the default network and two more, removing the first of the two makes room in the count,
      and the next network gets the subnet of the second. */
  lemma RemovalRepeatsSubnet(a: string, b: string, c: string, idA: string, idB: string, idC: string)
    returns (states: seq<Networks>, ops: seq<Op>)
    requires Trimmed(a) && Trimmed(b) && Trimmed(c) && "" !in {a, b, c}
    requires a != b && b != c && DEFAULT_NETWORK !in {a, b, c} && !(a <= DEFAULT_ID)
    ensures ops == [EnsureDefault, PlainCreate(a, idA), PlainCreate(b, idB), RemoveOp(a, false), PlainCreate(c, idC)]
    ensures IsRun(states, ops)
    ensures |states[5]| == 3 && states[5][1].name == b && states[5][2].name == c
    ensures states[5][1].subnet == states[5][2].subnet == PrivateSubnet(31)
  {
    ops := [EnsureDefault, PlainCreate(a, idA), PlainCreate(b, idB), RemoveOp(a, false), PlainCreate(c, idC)];
    var d, first, second := DefaultRecord(), NewRecord(ops[1], 1), NewRecord(ops[2], 2);
    var third := NewRecord(ops[4], 2);
    states := [[], [d], [d, first], [d, first, second], [d, second], [d, second, third]];
    PlainCreateStep([d], a, idA, first);
    PlainCreateStep([d, first], b, idB, second);
    PlainRemoveStep(d, first, second, a);
    PlainCreateStep([d, second], c, idC, third);
    assert [d] + [first] == states[2] && [d, first] + [second] == states[3] && [d, second] + [third] == states[5];
  }

  lemma PlainCreateStep(before: Networks, name: string, id: string, n: NetworkRecord)
    requires Trimmed(name) && name != "" && !NameTaken(before, name)
    requires n == NewRecord(PlainCreate(name, id), |before|)
    ensures n.name == name && n.containers == map[] && n.subnet == PrivateSubnet(29 + |before|)
    ensures Step(before, PlainCreate(name, id), before + [n])
  {
    TrimKeepsTrimmed(name);
    assert CreateEffect(before, PlainCreate(name, id), before + [n]);
  }

  lemma PlainRemoveStep(d: NetworkRecord, n: NetworkRecord, last: NetworkRecord, name: string)
    requires Trimmed(name) && name != "" && name != DEFAULT_NETWORK && !Selects(name, d)
    requires n.name == name && n.containers == map[]
    ensures Step([d, n, last], RemoveOp(name, false), [d, last])
  {
    TrimKeepsTrimmed(name);
    var before := [d, n, last];
    assert before[1..] == [n, last] && Position(before[1..], name) == 0;
    assert WithoutAt(before, 1) == [d, last];
  }

  /** For one: the networks `a`, `b` and `c`. */
  lemma RemovalRepeatsSubnetExample()
    ensures exists states, ops :: IsRun(states, ops) && |ops| == 5 && !SubnetsApart(states[5])
  {
    assert "a"[0] != DEFAULT_ID[0] && |DEFAULT_NETWORK| == 5;
    var states: seq<Networks>, ops: seq<Op> := RemovalRepeatsSubnet("a", "b", "c", "1", "2", "3");
    assert states[5][1].subnet == states[5][2].subnet;
  }

  // ---------------------------------------------------------------------------------------
  // What operations leave alone

  /** The records differ at most in their endpoints. */
  predicate SameSettings(a: NetworkRecord, b: NetworkRecord) {
    && a.id == b.id && a.name == b.name && a.driver == b.driver && a.subnet == b.subnet && a.gateway == b.gateway
    && a.internal == b.internal && a.attachable == b.attachable
    && a.labels == b.labels && a.dnsServers == b.dnsServers
  }

  /** Whatever is done to the store, short of an update, a record that stays keeps its settings: each
      record afterwards is one of before with the same settings, or the last and new. */
  lemma StepKeepsSettings(before: Networks, op: Op, after: Networks, i: nat)
    requires Step(before, op, after) && !op.Update? && i < |after|
    ensures (exists j :: 0 <= j < |before| && SameSettings(before[j], after[i])) || i == |before|
  {
    if after == before {
      assert SameSettings(before[i], after[i]);
    } else if op.RemoveOp? {
      RemovalKeepsSettings(before, Position(before, Trim(op.query)), i);
    } else if op.Connect? || op.Disconnect? {
      EndpointsOnly(before, op, after, i);
    } else if i < |before| {
      AppendKeepsSettings(before, op, after, i);
    }
  }

  lemma RemovalKeepsSettings(before: Networks, k: nat, i: nat)
    requires k < |before| && i < |before| - 1
    ensures exists j :: 0 <= j < |before| && SameSettings(before[j], WithoutAt(before, k)[i])
  {
    var j := if i < k then i else i + 1;
    assert WithoutAt(before, k)[i] == before[j];
    assert SameSettings(before[j], before[j]);
  }

  lemma AppendKeepsSettings(before: Networks, op: Op, after: Networks, i: nat)
    requires (op.EnsureDefault? || op.Create?) && Effect(before, op, after) && i < |before|
    ensures i < |after| && SameSettings(before[i], after[i])
  {
  }

  lemma EndpointsOnly(before: Networks, op: Op, after: Networks, i: nat)
    requires (op.Connect? || op.Disconnect?) && Effect(before, op, after) && i < |after|
    ensures |after| == |before| && SameSettings(before[i], after[i])
  {
  }

  /** An update changes one record, in its servers and labels alone: a server is there afterwards when
      it was or was added, and was not dropped; a label when it was not dropped. */
  lemma UpdateMeaning(before: Networks, op: Op, after: Networks, d: string, key: string)
    requires op.Update? && UpdateEffect(before, op, after)
    ensures var k := Position(before, Trim(op.query));
            && k < |before| && after == before[k := after[k]]
            && after[k] == before[k].(dnsServers := after[k].dnsServers, labels := after[k].labels)
            && (d in after[k].dnsServers <==> (d in before[k].dnsServers || d in op.dnsAdd) && d !in op.dnsDrop)
            && LabelAt(after[k].labels, key) ==
               if key in op.labelDrop then None else LabelAt(AddLabels(before[k].labels, op.labelAdd), key)
  {
    var k := Position(before, Trim(op.query));
    ServersMeaning(before[k].dnsServers, op.dnsAdd, [], d);
    ServersMeaning(AddServers(before[k].dnsServers, op.dnsAdd), [], op.dnsDrop, d);
    LabelsMeaning(AddLabels(before[k].labels, op.labelAdd), [], op.labelDrop, key);
  }

  /** Adding servers puts the new ones behind, and neither loop ever makes a server come twice. */
  lemma {:induction false} ServersStayInOrder(servers: seq<string>, add: seq<string>, drop: seq<string>)
    ensures servers <= AddServers(servers, add)
    ensures NoneTwice(servers) ==> NoneTwice(AddServers(servers, add)) && NoneTwice(DropServers(servers, drop))
    decreases |add| + |drop|
  {
    if add != [] {
      ServersStayInOrder(servers, add[..|add| - 1], drop);
    } else if drop != [] {
      var init := drop[..|drop| - 1];
      ServersStayInOrder(servers, add, init);
      if NoneTwice(servers) {
        WithoutKeepsApart(DropServers(servers, init), drop[|drop| - 1]);
      }
    }
  }

  predicate NoneTwice(servers: seq<string>) {
    forall i, j :: 0 <= i < j < |servers| ==> servers[i] != servers[j]
  }

  lemma {:induction false} WithoutKeepsApart(servers: seq<string>, dns: string)
    requires NoneTwice(servers)
    ensures NoneTwice(Without(servers, dns))
  {
    if servers == [] {
    } else {
      WithoutKeepsApart(servers[1..], dns);
      forall j | 0 <= j < |Without(servers[1..], dns)| ensures Without(servers[1..], dns)[j] in servers[1..] {
        assert Without(servers[1..], dns)[j] in Without(servers[1..], dns);
      }
    }
  }

  /** The loop that drops leaves the others in their order. */
  lemma {:induction false} WithoutConcat(a: seq<string>, b: seq<string>, dns: string)
    ensures Without(a + b, dns) == Without(a, dns) + Without(b, dns)
    ensures Without([dns], dns) == [] && forall d :: d != dns ==> Without([d], dns) == [d]
  {
    if a == [] {
      assert a + b == b;
    } else {
      assert (a + b)[1..] == a[1..] + b;
      WithoutConcat(a[1..], b, dns);
    }
  }

  /** A label's text is cut at its first equals sign; without one all of it is the key. */
  lemma LabelText(key: string, val: string)
    requires '=' !in key
    ensures SplitLabel(key + "=" + val) == (key, val) && SplitLabel(key) == (key, "")
  {
    var l := key + "=" + val;
    assert l[..|key|] == key && l[|key| + 1..] == val;
    IndexOfIs(l, '=', |key|);
  }

  /** An update leaves the servers that were there or added, and are not dropped. */
  lemma {:induction false} ServersMeaning(servers: seq<string>, add: seq<string>, drop: seq<string>, d: string)
    ensures d in AddServers(servers, add) <==> d in servers || d in add
    ensures d in DropServers(servers, drop) <==> d in servers && d !in drop
    decreases |add| + |drop|
  {
    if add != [] {
      var init := add[..|add| - 1];
      ServersMeaning(servers, init, drop, d);
      assert add == init + [add[|add| - 1]];
    } else if drop != [] {
      var init := drop[..|drop| - 1];
      ServersMeaning(servers, add, init, d);
      assert drop == init + [drop[|drop| - 1]];
    }
  }

  function LabelAt(labels: map<string, string>, key: string): Option<string> {
    if key in labels then Some(labels[key]) else None
  }

  /** The last of the added labels that is for this key. */
  ghost predicate LastLabelFor(add: seq<string>, key: string, i: int) {
    && 0 <= i < |add| && SplitLabel(add[i]).0 == key
    && forall j :: i < j < |add| ==> SplitLabel(add[j]).0 != key
  }

  /** The label loops leave for each key the value added last, or else the one that was there, and
      nothing for a dropped key. */
  lemma {:induction false} LabelsMeaning(labels: map<string, string>, add: seq<string>, drop: seq<string>, key: string)
    ensures forall i :: LastLabelFor(add, key, i) ==> LabelAt(AddLabels(labels, add), key) == Some(SplitLabel(add[i]).1)
    ensures (forall i :: !LastLabelFor(add, key, i)) ==> LabelAt(AddLabels(labels, add), key) == LabelAt(labels, key)
    ensures LabelAt(DropLabels(labels, drop), key) == if key in drop then None else LabelAt(labels, key)
    decreases |add| + |drop|
  {
    if add != [] {
      var init, n := add[..|add| - 1], |add| - 1;
      LabelsMeaning(labels, init, drop, key);
      if SplitLabel(add[n]).0 == key {
        assert LastLabelFor(add, key, n);
      } else {
        forall i ensures LastLabelFor(add, key, i) <==> LastLabelFor(init, key, i) {
          LastLabelSnoc(add, key, i);
        }
      }
    } else if drop != [] {
      var init := drop[..|drop| - 1];
      LabelsMeaning(labels, add, init, key);
      assert drop == init + [drop[|drop| - 1]];
    }
  }

  lemma LastLabelSnoc(add: seq<string>, key: string, i: int)
    requires add != [] && SplitLabel(add[|add| - 1]).0 != key
    ensures LastLabelFor(add, key, i) <==> LastLabelFor(add[..|add| - 1], key, i)
  {
    var init := add[..|add| - 1];
    assert forall j :: 0 <= j < |init| ==> init[j] == add[j];
    if LastLabelFor(init, key, i) {
      assert forall j :: i < j < |add| ==> SplitLabel(add[j]).0 != key by {
        forall j | i < j < |add| ensures SplitLabel(add[j]).0 != key {
          if j < |init| { assert SplitLabel(init[j]).0 != key; }
        }
      }
    }
  }

  /** After a disconnection the container has no endpoint under its id; exactly one endpoint is gone,
      under that id or of a container of that name, and every other is as it was. */
  lemma DisconnectMeaning(before: Networks, query: string, id: string, after: Networks)
    requires DisconnectEffect(before, query, id, after)
    ensures var k := Position(before, query);
            && k < |before| && after == before[k := after[k]] && SameSettings(before[k], after[k])
            && id !in after[k].containers
            && exists key :: && key in before[k].containers && after[k].containers == before[k].containers - {key}
                             && (key == id || before[k].containers[key].containerName == id)
  {
    var k := Position(before, query);
    var key :| && key in before[k].containers
               && (key == id || (id !in before[k].containers && before[k].containers[key].containerName == id))
               && after == WithContainers(before, k, before[k].containers - {key});
  }

  /** Connecting and disconnecting a new container leaves the store as it was. */
  lemma DisconnectUndoesConnect(before: Networks, query: string, id: string, name: string,
                                mid: Networks, after: Networks)
    requires Effect(before, Connect(query, id, name), mid)
    requires id !in before[Position(before, query)].containers
    requires Effect(mid, Disconnect(query, id), after)
    ensures after == before
  {
    var k := Position(before, query);
    PositionKept(before, mid, query);
    var ip: Ip :| CanAllocate(before[k], ip)
                  && mid == WithContainers(before, k, before[k].containers[id := EndpointFor(id, name, ip)]);
    assert mid[k].containers - {id} == before[k].containers;
    assert after == mid[k := mid[k].(containers := before[k].containers)];
    assert after[k] == before[k];
  }

  /** A record that alone has its name goes exactly when the call is allowed and the query finds it
      first. */
  lemma NameSurvivesIff(before: Networks, query: string, force: bool, d: nat)
    requires d < |before|
    requires forall j :: 0 <= j < |before| && j != d ==> before[j].name != before[d].name
    ensures NameTaken(AfterRemove(before, query, force), before[d].name) <==>
            !(RemoveAllowed(before, query, force) && Position(before, Trim(query)) == d)
  {
    if RemoveAllowed(before, query, force) {
      NameGoesAt(before, Position(before, Trim(query)), d);
    }
  }

  lemma NameGoesAt(before: Networks, k: nat, d: nat)
    requires d < |before| && k < |before|
    requires forall j :: 0 <= j < |before| && j != d ==> before[j].name != before[d].name
    ensures NameTaken(WithoutAt(before, k), before[d].name) <==> k != d
  {
    var after := WithoutAt(before, k);
    assert forall i :: 0 <= i < |after| ==> after[i] == before[if i < k then i else i + 1];
    if k != d {
      assert after[if d < k then d else d - 1].name == before[d].name;
    }
  }

  /** The guard on the default network knows only its name, so this holds for its record too. */
  lemma DefaultNetworkSurvivesIff(before: Networks, query: string, force: bool, d: nat)
    requires d < |before| && before[d].name == DEFAULT_NETWORK
    requires forall j :: 0 <= j < |before| && j != d ==> before[j].name != DEFAULT_NETWORK
    ensures NameTaken(AfterRemove(before, query, force), DEFAULT_NETWORK) <==>
            !(RemoveAllowed(before, query, force) && Position(before, Trim(query)) == d)
  {
    NameSurvivesIff(before, query, force, d);
  }

  /** When its record comes first, it is spared by an empty query, by its name, by what is no prefix
      of its id, and without force while it has endpoints. */
  lemma FirstDefaultNetworkSurvivesIff(before: Networks, query: string, force: bool)
    requires before != [] && before[0].name == DEFAULT_NETWORK
    requires forall j :: 0 < j < |before| ==> before[j].name != DEFAULT_NETWORK
    ensures NameTaken(AfterRemove(before, query, force), DEFAULT_NETWORK) <==>
            || Trim(query) == "" || Trim(query) == DEFAULT_NETWORK || !(Trim(query) <= before[0].id)
            || (!force && before[0].containers != map[])
  {
    DefaultNetworkSurvivesIff(before, query, force, 0);
    assert Position(before, Trim(query)) == 0 <==> Selects(Trim(query), before[0]);
  }

  /** A prefix of its id is enough, without force, to remove a default network that nothing uses. */
  lemma PrefixRemovesDefaultNetwork(n: NetworkRecord, query: string)
    requires n.name == DEFAULT_NETWORK && n.containers == map[]
    requires Trimmed(query) && query != "" && query != DEFAULT_NETWORK && query <= n.id
    ensures RemoveAllowed([n], query, false) && AfterRemove([n], query, false) == []
  {
    TrimKeepsTrimmed(query);
    assert Position([n], query) == 0;
  }

  /** For one: `b`, on the store as it is at first. */
  lemma PrefixRemovesDefaultExample()
    ensures AfterRemove([DefaultRecord()], "b", false) == []
  {
    assert "b"[0] == 'b' == DEFAULT_ID[0] && |"b"| == 1 && |DEFAULT_NETWORK| == 5;
    PrefixRemovesDefaultNetwork(DefaultRecord(), "b");
  }
}
