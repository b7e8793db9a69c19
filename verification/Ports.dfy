/** Host port admission (src/guardrails/mod.rs) before a container is run (src/lib.rs). */
module Ports {
  import opened Wrappers

  datatype PortMapping = PortMapping(hostIp: Option<string>, hostPort: nat, containerPort: nat, protocol: string)

  datatype Status = Created | Running | Paused | Exited(code: int) | Failed(reason: string)

  datatype Container = Container(id: string, name: string, status: Status, ports: seq<PortMapping>)

  const ANY_ADDRESS := "0.0.0.0"

  function Address(p: PortMapping): string {
    if p.hostIp.Some? then p.hostIp.value else ANY_ADDRESS
  }

  /** Two mappings claim the same host port: no given address means all of them. */
  predicate Overlap(a: PortMapping, b: PortMapping) {
    && a.protocol == b.protocol && a.hostPort == b.hostPort
    && (Address(a) == ANY_ADDRESS || Address(b) == ANY_ADDRESS || Address(a) == Address(b))
  }

  predicate Clash(a: PortMapping, b: PortMapping) {
    a.hostPort != 0 && Overlap(a, b)
  }

  predicate ClaimedBy(a: PortMapping, b: seq<PortMapping>) {
    exists j :: 0 <= j < |b| && Clash(a, b[j])
  }

  predicate PortsClash(a: seq<PortMapping>, b: seq<PortMapping>) {
    exists i :: 0 <= i < |a| && ClaimedBy(a[i], b)
  }

  /** A requested mapping is claimed by a running container. */
  predicate Conflict(requested: seq<PortMapping>, containers: seq<Container>) {
    exists k :: 0 <= k < |containers| && containers[k].status == Running && PortsClash(requested, containers[k].ports)
  }

  /** The index of the requested mapping, of the container and of its mapping. */
  datatype PortConflict = PortConflict(requested: nat, container: nat, mapping: nat)

  /** `ensure_no_conflicts_with_containers`. */
  method EnsureNoConflicts(requested: seq<PortMapping>, containers: seq<Container>)
    returns (result: Result<(), PortConflict>)
    ensures result.Ok? <==> !Conflict(requested, containers)
    ensures result.Err? <==>
            exists c, x, y :: c in containers && c.status == Running && x in requested && y in c.ports && SamePort(x, y)
    ensures result.Err? ==>
              var e := result.error;
              && e.requested < |requested| && e.container < |containers|
              && e.mapping < |containers[e.container].ports|
              && containers[e.container].status == Running
              && Clash(requested[e.requested], containers[e.container].ports[e.mapping])
  {
    ConflictMeaning(requested, containers);
    for i := 0 to |requested|
      invariant forall a, k :: 0 <= a < i && 0 <= k < |containers| && containers[k].status == Running ==>
                                 !ClaimedBy(requested[a], containers[k].ports)
    {
      if requested[i].hostPort == 0 {
        continue;
      }
      for k := 0 to |containers|
        invariant forall c :: 0 <= c < k && containers[c].status == Running ==>
                                !ClaimedBy(requested[i], containers[c].ports)
      {
        if containers[k].status != Running {
          continue;
        }
        var ports := containers[k].ports;
        for j := 0 to |ports|
          invariant forall b :: 0 <= b < j ==> !Clash(requested[i], ports[b])
        {
          if ports[j].protocol == requested[i].protocol && ports[j].hostPort == requested[i].hostPort {
            if Address(requested[i]) == ANY_ADDRESS || Address(ports[j]) == ANY_ADDRESS
               || Address(requested[i]) == Address(ports[j]) {
              assert Clash(requested[i], ports[j]);
              assert ClaimedBy(requested[i], ports);
              return Err(PortConflict(i, k, j));
            }
          }
        }
      }
    }
    result := Ok(());
  }

  /** Two mappings take the same host port: one protocol, one port other than zero, and one address or
      all addresses on either side. */
  predicate SamePort(a: PortMapping, b: PortMapping) {
    && a.protocol == b.protocol && a.hostPort == b.hostPort && a.hostPort > 0
    && (a.hostIp == b.hostIp || {a.hostIp, b.hostIp} * {None, Some("0.0.0.0")} != {})
  }

  lemma ClashIsSamePort(a: PortMapping, b: PortMapping)
    ensures Clash(a, b) <==> SamePort(a, b)
  {
    var both := {a.hostIp, b.hostIp} * {None, Some("0.0.0.0")};
    assert a.hostIp in {None, Some("0.0.0.0")} ==> a.hostIp in both;
    assert b.hostIp in {None, Some("0.0.0.0")} ==> b.hostIp in both;
  }

  lemma PortsClashMeaning(a: seq<PortMapping>, b: seq<PortMapping>)
    ensures PortsClash(a, b) <==> exists x, y :: x in a && y in b && SamePort(x, y)
  {
    if PortsClash(a, b) {
      var i :| 0 <= i < |a| && ClaimedBy(a[i], b);
      var j :| 0 <= j < |b| && Clash(a[i], b[j]);
      ClashIsSamePort(a[i], b[j]);
      assert a[i] in a && b[j] in b && SamePort(a[i], b[j]);
    }
    if x, y :| x in a && y in b && SamePort(x, y) {
      ClashIsSamePort(x, y);
      var i :| 0 <= i < |a| && a[i] == x;
      var j :| 0 <= j < |b| && b[j] == y;
      assert Clash(a[i], b[j]);
      assert ClaimedBy(a[i], b);
    }
  }

  /** A request is admitted exactly when none of its ports is that of a running container. */
  lemma ConflictMeaning(requested: seq<PortMapping>, containers: seq<Container>)
    ensures Conflict(requested, containers) <==>
            exists c, x, y :: c in containers && c.status == Running && x in requested && y in c.ports && SamePort(x, y)
  {
    if Conflict(requested, containers) {
      var k :| 0 <= k < |containers| && containers[k].status == Running && PortsClash(requested, containers[k].ports);
      PortsClashMeaning(requested, containers[k].ports);
      assert containers[k] in containers;
    }
    if c, x, y :| c in containers && c.status == Running && x in requested && y in c.ports && SamePort(x, y) {
      PortsClashMeaning(requested, c.ports);
      var k :| 0 <= k < |containers| && containers[k] == c;
      assert PortsClash(requested, containers[k].ports);
    }
  }

  // ---------------------------------------------------------------------------------------
  // Runs

  datatype Op =
    | RunContainer(container: Container)
    | CreateOnly(container: Container)
    | SetStatus(index: nat, status: Status)
    | Remove(index: nat)

  /** One operation: a run is admitted by the check; no status change makes a container run. */
  ghost predicate Step(before: seq<Container>, op: Op, after: seq<Container>) {
    match op
    case RunContainer(c) =>
      if Conflict(c.ports, before) then after == before else after == before + [c.(status := Running)]
    case CreateOnly(c) =>
      after == before + [c.(status := Created)]
    case SetStatus(k, status) =>
      k < |before| && status != Running && after == before[k := before[k].(status := status)]
    case Remove(k) =>
      k < |before| && after == before[..k] + before[k + 1..]
  }

  class ContainerStore {
    var containers: seq<Container>

    constructor ()
      ensures containers == []
    {
      containers := [];
    }

    /** The part of `run_container` that decides on the ports and records the container. */
    method RunContainer(container: Container) returns (result: Result<(), PortConflict>)
      modifies this
      ensures Step(old(containers), Op.RunContainer(container), containers)
      ensures result.Ok? <==> !Conflict(container.ports, old(containers))
      ensures result.Err? ==> containers == old(containers)
    {
      result := EnsureNoConflicts(container.ports, containers);
      if result.Ok? {
        containers := containers + [container.(status := Running)];
      }
    }
  }

  /** No two running containers claim the same host port. */
  ghost predicate Exclusive(containers: seq<Container>) {
    forall i, j :: 0 <= i < j < |containers| && containers[i].status == Running && containers[j].status == Running ==>
                     !PortsClash(containers[i].ports, containers[j].ports)
  }

  lemma ClashIsSymmetric(a: seq<PortMapping>, b: seq<PortMapping>)
    ensures PortsClash(a, b) <==> PortsClash(b, a)
  {
    if PortsClash(a, b) { ClashTurns(a, b); }
    if PortsClash(b, a) { ClashTurns(b, a); }
  }

  lemma ClashTurns(a: seq<PortMapping>, b: seq<PortMapping>)
    requires PortsClash(a, b)
    ensures PortsClash(b, a)
  {
    var i :| 0 <= i < |a| && ClaimedBy(a[i], b);
    var j :| 0 <= j < |b| && Clash(a[i], b[j]);
    assert Clash(b[j], a[i]);
    assert ClaimedBy(b[j], a);
  }

  lemma StepKeepsExclusive(before: seq<Container>, op: Op, after: seq<Container>)
    requires Exclusive(before) && Step(before, op, after)
    ensures Exclusive(after)
  {
    match op
    case RunContainer(c) =>
      if !Conflict(c.ports, before) {
        forall i | 0 <= i < |before| && before[i].status == Running
          ensures !PortsClash(before[i].ports, c.ports)
        {
          ClashIsSymmetric(before[i].ports, c.ports);
        }
      }
    case Remove(k) =>
      assert forall i :: 0 <= i < |after| ==> after[i] == before[if i < k then i else i + 1];
    case _ =>
  }

  ghost predicate IsRun(states: seq<seq<Container>>, ops: seq<Op>) {
    && |states| == |ops| + 1 && states[0] == []
    && forall i :: 0 <= i < |ops| ==> Step(states[i], ops[i], states[i + 1])
  }

  /** The main result: over every run without a start, unpause or restore, ports are exclusive. */
  lemma {:induction false} EveryRunIsExclusive(states: seq<seq<Container>>, ops: seq<Op>, i: nat)
    requires IsRun(states, ops) && i < |states|
    ensures Exclusive(states[i])
    ensures forall j, k, x, y ::
              (&& 0 <= j < k < |states[i]| && states[i][j].status == Running && states[i][k].status == Running
               && x in states[i][j].ports && y in states[i][k].ports) ==>
                !SamePort(x, y)
  {
    if i == 0 {
    } else {
      EveryRunIsExclusive(states, ops, i - 1);
      assert Step(states[i - 1], ops[i - 1], states[i - 1 + 1]);
      StepKeepsExclusive(states[i - 1], ops[i - 1], states[i]);
    }
    forall j, k, x, y |
      && 0 <= j < k < |states[i]| && states[i][j].status == Running && states[i][k].status == Running
      && x in states[i][j].ports && y in states[i][k].ports
      ensures !SamePort(x, y)
    {
      PortsClashMeaning(states[i][j].ports, states[i][k].ports);
    }
  }

  /** Starting, unpausing or restoring a container sets its status without the check. This keeps
      ports exclusive exactly when the check on the other containers would have admitted it. */
  lemma StartKeepsExclusiveIff(before: seq<Container>, k: nat)
    requires Exclusive(before) && k < |before|
    ensures Exclusive(before[k := before[k].(status := Running)]) <==>
            !Conflict(before[k].ports, before[..k] + before[k + 1..])
  {
    var after := before[k := before[k].(status := Running)];
    var others := before[..k] + before[k + 1..];
    assert forall i :: 0 <= i < |others| ==> others[i] == before[if i < k then i else i + 1];
    if Exclusive(after) {
      forall i | 0 <= i < |others| && others[i].status == Running
        ensures !PortsClash(before[k].ports, others[i].ports)
      {
        var n := if i < k then i else i + 1;
        assert after[n] == others[i];
        ClashIsSymmetric(before[k].ports, others[i].ports);
        assert if n < k then !PortsClash(after[n].ports, after[k].ports)
               else !PortsClash(after[k].ports, after[n].ports);
      }
    }
    if !Conflict(before[k].ports, others) {
      forall i, j | 0 <= i < j < |after| && after[i].status == Running && after[j].status == Running
        ensures !PortsClash(after[i].ports, after[j].ports)
      {
        if i == k {
          assert others[j - 1] == after[j];
        } else if j == k {
          assert others[i] == after[i];
          ClashIsSymmetric(after[i].ports, after[k].ports);
        }
      }
    }
  }

  /** A stopped container whose port another one has taken meanwhile: its start breaks the rule. */
  lemma StartTakesPortTwice()
    ensures var web := PortMapping(None, 8080, 80, "tcp");
            var before := [Container("1", "a", Running, [web]), Container("2", "b", Exited(0), [web])];
            Exclusive(before) && !Exclusive(before[1 := before[1].(status := Running)])
  {
    var web := PortMapping(None, 8080, 80, "tcp");
    var before := [Container("1", "a", Running, [web]), Container("2", "b", Exited(0), [web])];
    var after := before[1 := before[1].(status := Running)];
    assert Clash(after[0].ports[0], after[1].ports[0]);
    assert ClaimedBy(after[0].ports[0], after[1].ports);
    assert PortsClash(after[0].ports, after[1].ports);
  }
}
