/** The registration manager (`Bus`): the map from container id to the
    Avahi entry group that holds its hostnames, and the D-Bus calls that
    publish and withdraw those groups.

    The transport is abstracted away.  An operation returns the calls it
    issued, in order, together with its outcome and the manager's new state.
    How the daemon answers is an input: the group path `EntryGroupNew`
    returns, and the position of the first call that fails, if any.  The
    addresses of an interface come from a caller-supplied lookup that may
    fail, standing in for the operating system's interface list. */
module Registration {
  import opened Wrappers
  import opened Mdns

  newtype i32 = x: int | -0x8000_0000 <= x < 0x8000_0000
  newtype u32 = x: int | 0 <= x < 0x1_0000_0000

  /** `PROTO_UNSPEC`: let Avahi publish on both IPv4 and IPv6. */
  const ProtoUnspec: i32 := -1
  /** `FLAG_NO_REVERSE`: do not publish a reverse (PTR) record. */
  const FlagNoReverse: u32 := 16

  /** A D-Bus object path naming an entry group. */
  type GroupPath = string

  /** The daemon calls the manager issues. */
  datatype Call =
    | EntryGroupNew
    | AddAddress(group: GroupPath, index: i32, protocol: i32, flags: u32, host: string, address: string)
    | Commit(group: GroupPath)
    | Reset(group: GroupPath)
    | Free(group: GroupPath)

  datatype Bus = Bus(
    interfaceIndex: i32,                  // Avahi's index for the default interface, resolved once
    interfaceName: string,                // the default interface
    published: map<string, GroupPath>)    // container id to its committed group

  datatype Error = CallFailed(call: Call) | NoAddresses(interface: string)

  datatype Outcome = Ok | Err(error: Error)

  /** The daemon's side of one publish: the path `EntryGroupNew` hands back,
      and the index of the first call that fails, if one does. */
  datatype Reply = Reply(group: GroupPath, failAt: Option<nat>)

  /** What an operation did: its result, the manager afterwards, and the
      calls it issued in order (the failing call included). */
  datatype Step = Step(outcome: Outcome, bus: Bus, calls: seq<Call>)

  /** Address enumeration for a named interface; `None` when it fails. */
  type AddressLookup = string -> Option<seq<string>>

  /** A failure is scheduled among the first `n` calls. */
  predicate FailsWithin(failAt: Option<nat>, n: nat) {
    failAt.Some? && failAt.value < n
  }

  /** The interface whose addresses are published: the container's
      `docker-mdns.interface` if it has one, else the default. */
  function InterfaceFor(bus: Bus, config: Config): (name: string)
    ensures config.interface.Some? ==> name == config.interface.value
    ensures config.interface.None? ==> name == bus.interfaceName
  {
    if config.interface.Some? then config.interface.value else bus.interfaceName
  }

  /** The one `AddAddress` call for a host and an address. */
  function AddCall(bus: Bus, group: GroupPath, host: string, address: string): Call {
    AddAddress(group, bus.interfaceIndex, ProtoUnspec, FlagNoReverse, host, address)
  }

  /** The inner loop: one address, every host in order. */
  function HostCalls(bus: Bus, group: GroupPath, address: string, hosts: seq<string>): (cs: seq<Call>)
    ensures |cs| == |hosts|
  {
    seq(|hosts|, j requires 0 <= j < |hosts| => AddCall(bus, group, hosts[j], address))
  }

  /** The outer loop: every address in order, each with the inner loop. */
  function AddressCalls(bus: Bus, group: GroupPath, addresses: seq<string>, hosts: seq<string>): seq<Call>
    decreases |addresses|
  {
    if |addresses| == 0 then []
    else
      var n := |addresses| - 1;
      AddressCalls(bus, group, addresses[..n], hosts) + HostCalls(bus, group, addresses[n], hosts)
  }

  /** Every call a publish makes when nothing fails. */
  function Planned(bus: Bus, group: GroupPath, addresses: seq<string>, hosts: seq<string>): seq<Call> {
    [EntryGroupNew] + AddressCalls(bus, group, addresses, hosts) + [Commit(group)]
  }

  /** Every address-adding call in `calls` carries the cached interface
      index, `PROTO_UNSPEC`, `FLAG_NO_REVERSE`, the group, and one of the
      hosts and addresses. */
  ghost predicate WellFormedAdds(calls: seq<Call>, bus: Bus, group: GroupPath,
                                 addresses: seq<string>, hosts: seq<string>)
  {
    forall k :: 0 <= k < |calls| && calls[k].AddAddress? ==>
      && calls[k].group == group
      && calls[k].index == bus.interfaceIndex
      && calls[k].protocol == ProtoUnspec
      && calls[k].flags == FlagNoReverse
      && calls[k].host in hosts
      && calls[k].address in addresses
  }

  lemma {:induction false} AddressCallsShape(bus: Bus, group: GroupPath, addresses: seq<string>, hosts: seq<string>)
    ensures forall k :: 0 <= k < |AddressCalls(bus, group, addresses, hosts)| ==>
              AddressCalls(bus, group, addresses, hosts)[k].AddAddress?
    ensures WellFormedAdds(AddressCalls(bus, group, addresses, hosts), bus, group, addresses, hosts)
    decreases |addresses|
  {
    if |addresses| > 0 {
      var n := |addresses| - 1;
      AddressCallsShape(bus, group, addresses[..n], hosts);
      var a: seq<Call> := AddressCalls(bus, group, addresses[..n], hosts);
      var b: seq<Call> := HostCalls(bus, group, addresses[n], hosts);
      forall k | 0 <= k < |a + b|
        ensures (a + b)[k].AddAddress?
        ensures (a + b)[k].host in hosts && (a + b)[k].address in addresses
      {
        if k < |a| {
          assert (a + b)[k] == a[k];
          assert a[k].address in addresses[..n];
        } else {
          assert (a + b)[k] == b[k - |a|];
        }
      }
    }
  }

  /** `Bus::publish`, stated declaratively: nothing for a disabled config or
      one without a host label; otherwise the planned calls, cut short at the
      first failure, and the group recorded under the container id only when
      every call, `Commit` last, has succeeded. */
  function Publish(bus: Bus, config: Config, reply: Reply, addressesOf: AddressLookup): (s: Step)
    ensures s.bus.interfaceIndex == bus.interfaceIndex && s.bus.interfaceName == bus.interfaceName
    ensures !IsEnabled(config) || config.hosts.None? ==> s == Step(Ok, bus, [])
    ensures s.outcome.Err? ==> s.bus == bus && |s.calls| > 0
    ensures s.outcome.Err? && s.outcome.error.CallFailed? ==>
              s.outcome.error.call == s.calls[|s.calls| - 1]
    ensures s.calls != [] ==> s.calls[0] == EntryGroupNew
    ensures s.outcome.Ok? && s.calls != [] ==>
              && s.calls[|s.calls| - 1] == Commit(reply.group)
              && s.bus.published == bus.published[config.id := reply.group]
    ensures s.bus != bus ==> s.outcome.Ok? && s.calls != [] && s.calls[|s.calls| - 1] == Commit(reply.group)
    ensures forall k :: 0 <= k < |s.calls| ==> !s.calls[k].Reset? && !s.calls[k].Free?
    ensures s.outcome.Ok? ==> forall k :: 0 < k < |s.calls| - 1 ==> s.calls[k].AddAddress?
    ensures config.hosts.Some? && addressesOf(InterfaceFor(bus, config)).Some? ==>
              WellFormedAdds(s.calls, bus, reply.group,
                             addressesOf(InterfaceFor(bus, config)).value, config.hosts.value)
  {
    if !IsEnabled(config) || config.hosts.None? then
      Step(Ok, bus, [])
    else if FailsWithin(reply.failAt, 1) then
      Step(Err(CallFailed(EntryGroupNew)), bus, [EntryGroupNew])
    else
      var name := InterfaceFor(bus, config);
      match addressesOf(name)
      case None =>
        Step(Err(NoAddresses(name)), bus, [EntryGroupNew])
      case Some(addresses) =>
        var hosts := config.hosts.value;
        var planned := Planned(bus, reply.group, addresses, hosts);
        AddressCallsShape(bus, reply.group, addresses, hosts);
        var adds := AddressCalls(bus, reply.group, addresses, hosts);
        assert forall k :: 0 < k < |planned| - 1 ==> planned[k] == adds[k - 1];
        if FailsWithin(reply.failAt, |planned|) then
          var k := reply.failAt.value;
          Step(Err(CallFailed(planned[k])), bus, planned[..k + 1])
        else
          Step(Ok, bus.(published := bus.published[config.id := reply.group]), planned)
  }

  /** `Bus::unpublish`: the entry is taken out of the map first, whatever
      happens next; then the group is reset and freed, stopping at the first
      failure.  An id with no entry is a successful no-op. */
  function Unpublish(bus: Bus, config: Config, failAt: Option<nat>): (s: Step)
    ensures s.bus == bus.(published := bus.published - {config.id})
    ensures config.id !in bus.published ==> s.outcome.Ok? && s.calls == []
    ensures config.id in bus.published ==>
              && 0 < |s.calls|
              && s.calls <= [Reset(bus.published[config.id]), Free(bus.published[config.id])]
              && (s.outcome.Ok? <==> !FailsWithin(failAt, 2))
              && (s.outcome.Ok? ==> s.calls == [Reset(bus.published[config.id]), Free(bus.published[config.id])])
              && (FailsWithin(failAt, 2) ==> |s.calls| == failAt.value + 1)
    ensures s.outcome.Err? ==> s.outcome.error == CallFailed(s.calls[|s.calls| - 1])
  {
    if config.id !in bus.published then
      Step(Ok, bus, [])
    else
      var group := bus.published[config.id];
      var removed := bus.(published := bus.published - {config.id});
      var planned := [Reset(group), Free(group)];
      if FailsWithin(failAt, |planned|) then
        var k := failAt.value;
        Step(Err(CallFailed(planned[k])), removed, planned[..k + 1])
      else
        Step(Ok, removed, planned)
  }

  lemma {:induction false} AddressCallsPrefix(bus: Bus, group: GroupPath, addresses: seq<string>,
                                              hosts: seq<string>, i: nat)
    requires i <= |addresses|
    ensures AddressCalls(bus, group, addresses[..i], hosts) <= AddressCalls(bus, group, addresses, hosts)
    decreases |addresses|
  {
    if i < |addresses| {
      var n := |addresses| - 1;
      AddressCallsPrefix(bus, group, addresses[..n], hosts, i);
      assert addresses[..n][..i] == addresses[..i];
      var a := AddressCalls(bus, group, addresses[..i], hosts);
      var b := AddressCalls(bus, group, addresses[..n], hosts);
      var c := AddressCalls(bus, group, addresses, hosts);
      assert c == b + HostCalls(bus, group, addresses[n], hosts);
      assert a == b[..|a|];
      assert a == c[..|a|];
    } else {
      assert addresses[..i] == addresses;
    }
  }

  lemma AddressCallsNext(bus: Bus, group: GroupPath, addresses: seq<string>, hosts: seq<string>, i: nat)
    requires i < |addresses|
    ensures AddressCalls(bus, group, addresses[..i + 1], hosts)
            == AddressCalls(bus, group, addresses[..i], hosts) + HostCalls(bus, group, addresses[i], hosts)
  {
    assert addresses[..i + 1][..i] == addresses[..i];
  }

  lemma HostCallsNext(bus: Bus, group: GroupPath, address: string, hosts: seq<string>, j: nat)
    requires j < |hosts|
    ensures HostCalls(bus, group, address, hosts[..j + 1])
            == HostCalls(bus, group, address, hosts[..j]) + [AddCall(bus, group, hosts[j], address)]
  {
  }

  lemma HostCallsPrefix(bus: Bus, group: GroupPath, address: string, hosts: seq<string>, j: nat)
    requires j <= |hosts|
    ensures HostCalls(bus, group, address, hosts[..j]) <= HostCalls(bus, group, address, hosts)
  {
  }

  /** The inner loop of `Bus::publish`: one address, every host in order,
      each call appended to `issued`, stopping at the first failing call. */
  method HostLoop(bus: Bus, group: GroupPath, address: string, hosts: seq<string>,
                  issued: seq<Call>, failAt: Option<nat>)
    returns (calls: seq<Call>, failed: bool)
    requires !FailsWithin(failAt, |issued|)
    ensures var all := issued + HostCalls(bus, group, address, hosts);
            && (failed <==> FailsWithin(failAt, |all|))
            && (failed ==> calls == all[..failAt.value + 1])
            && (!failed ==> calls == all)
  {
    ghost var all := issued + HostCalls(bus, group, address, hosts);
    calls := issued;
    var j := 0;
    while j < |hosts|
      invariant j <= |hosts|
      invariant calls == issued + HostCalls(bus, group, address, hosts[..j])
      invariant !FailsWithin(failAt, |calls|)
    {
      var call := AddCall(bus, group, hosts[j], address);
      HostCallsNext(bus, group, address, hosts, j);
      calls := calls + [call];
      if failAt == Some(|calls| - 1) {
        HostCallsPrefix(bus, group, address, hosts, j + 1);
        assert calls <= all;
        return calls, true;
      }
      j := j + 1;
    }
    assert hosts[..j] == hosts;
    return calls, false;
  }

  /** `Bus::publish` as the source writes it: the early returns, one call
      for the group, the address-outer/host-inner loops, then `Commit`, each
      call's failure ending the operation at once.  It does exactly what the
      declarative `Publish` says. */
  method PublishLoop(bus: Bus, config: Config, reply: Reply, addressesOf: AddressLookup)
    returns (outcome: Outcome, after: Bus, calls: seq<Call>)
    ensures Step(outcome, after, calls) == Publish(bus, config, reply, addressesOf)
  {
    if !IsEnabled(config) {
      return Ok, bus, [];
    }
    if config.hosts.None? {
      return Ok, bus, [];
    }
    var hosts := config.hosts.value;

    if reply.failAt == Some(0) {
      return Err(CallFailed(EntryGroupNew)), bus, [EntryGroupNew];
    }

    var name := InterfaceFor(bus, config);
    var found := addressesOf(name);
    if found.None? {
      return Err(NoAddresses(name)), bus, [EntryGroupNew];
    }
    var addresses := found.value;
    outcome, after, calls := FillGroup(bus, config.id, reply.group, addresses, hosts, reply.failAt);
    if outcome.Ok? {
      PublishSucceeds(bus, config, reply, addressesOf, addresses);
    } else {
      PublishFailsAt(bus, config, reply, addressesOf, addresses, reply.failAt.value);
    }
  }

  /** The rest of `Bus::publish` once the group exists and the addresses are
      known: the loops, then `Commit`, and the group recorded under `id`
      when all of them succeed. */
  method FillGroup(bus: Bus, id: string, group: GroupPath, addresses: seq<string>, hosts: seq<string>,
                   failAt: Option<nat>)
    returns (outcome: Outcome, after: Bus, calls: seq<Call>)
    requires !FailsWithin(failAt, 1)
    ensures var planned := Planned(bus, group, addresses, hosts);
            if FailsWithin(failAt, |planned|) then
              && outcome == Err(CallFailed(planned[failAt.value]))
              && after == bus
              && calls == planned[..failAt.value + 1]
            else
              && outcome == Ok
              && after == bus.(published := bus.published[id := group])
              && calls == planned
  {
    ghost var all := [EntryGroupNew] + AddressCalls(bus, group, addresses, hosts);
    ghost var planned := Planned(bus, group, addresses, hosts);
    assert planned == all + [Commit(group)];
    var failed;
    calls, failed := AddressLoop(bus, group, addresses, hosts, failAt);
    if failed {
      assert planned[..|calls|] == calls;
      return Err(CallFailed(calls[|calls| - 1])), bus, calls;
    }
    calls := calls + [Commit(group)];
    if failAt == Some(|calls| - 1) {
      return Err(CallFailed(Commit(group))), bus, calls;
    }
    return Ok, bus.(published := bus.published[id := group]), calls;
  }

  /** The outer loop of `Bus::publish`, after the group's creation: every
      address in order, each with the inner loop, stopping at the first
      failing call. */
  method AddressLoop(bus: Bus, group: GroupPath, addresses: seq<string>, hosts: seq<string>, failAt: Option<nat>)
    returns (calls: seq<Call>, failed: bool)
    requires !FailsWithin(failAt, 1)
    ensures var all := [EntryGroupNew] + AddressCalls(bus, group, addresses, hosts);
            && (failed <==> FailsWithin(failAt, |all|))
            && (failed ==> calls == all[..failAt.value + 1])
            && (!failed ==> calls == all)
  {
    ghost var all := [EntryGroupNew] + AddressCalls(bus, group, addresses, hosts);
    calls := [EntryGroupNew];
    var i := 0;
    while i < |addresses|
      invariant i <= |addresses|
      invariant calls == [EntryGroupNew] + AddressCalls(bus, group, addresses[..i], hosts)
      invariant !FailsWithin(failAt, |calls|)
    {
      AddressCallsNext(bus, group, addresses, hosts, i);
      ghost var done := AddressCalls(bus, group, addresses[..i], hosts);
      ghost var row := HostCalls(bus, group, addresses[i], hosts);
      assert [EntryGroupNew] + done + row == [EntryGroupNew] + AddressCalls(bus, group, addresses[..i + 1], hosts);
      calls, failed := HostLoop(bus, group, addresses[i], hosts, calls, failAt);
      if failed {
        AddressCallsPrefix(bus, group, addresses, hosts, i + 1);
        assert calls <= all;
        return calls, true;
      }
      i := i + 1;
    }
    assert addresses[..i] == addresses;
    return calls, false;
  }

  /** Where the inner iteration `j` of the outer iteration `i` lands when
      every outer iteration runs `width` inner ones: `i * width + j`
      (`SlotIsProduct`), counted without multiplication so that the solver
      never has to reason about products. */
  function Slot(i: nat, j: nat, width: nat): nat {
    if i == 0 then j else width + Slot(i - 1, j, width)
  }

  lemma {:induction false} SlotIsProduct(i: nat, j: nat, width: nat)
    ensures Slot(i, j, width) == i * width + j
  {
    if i > 0 {
      SlotIsProduct(i - 1, j, width);
    }
  }

  lemma {:induction false} SlotShift(i: nat, j: nat, width: nat)
    ensures Slot(i, j, width) == Slot(i, 0, width) + j
  {
    if i > 0 {
      SlotShift(i - 1, j, width);
    }
  }

  /** `adds` is the nested loop unrolled: the call in slot `(i, j)` adds
      host `j` at address `i`, and there is one call per slot. */
  ghost predicate InLoopOrder(adds: seq<Call>, bus: Bus, group: GroupPath,
                              addresses: seq<string>, hosts: seq<string>)
  {
    && |adds| == Slot(|addresses|, 0, |hosts|)
    && forall i, j :: 0 <= i < |addresses| && 0 <= j < |hosts| ==>
         && Slot(i, j, |hosts|) < |adds|
         && adds[Slot(i, j, |hosts|)] == AddCall(bus, group, hosts[j], addresses[i])
  }

  lemma {:induction false} AddressCallsOrder(bus: Bus, group: GroupPath, addresses: seq<string>, hosts: seq<string>)
    ensures InLoopOrder(AddressCalls(bus, group, addresses, hosts), bus, group, addresses, hosts)
    decreases |addresses|
  {
    if |addresses| > 0 {
      var n := |addresses| - 1;
      var init := addresses[..n];
      AddressCallsOrder(bus, group, init, hosts);
      var a := AddressCalls(bus, group, init, hosts);
      var b := HostCalls(bus, group, addresses[n], hosts);
      var all := AddressCalls(bus, group, addresses, hosts);
      var h := |hosts|;
      assert all == a + b;
      forall i, j | 0 <= i < |addresses| && 0 <= j < h
        ensures Slot(i, j, h) < |all| && all[Slot(i, j, h)] == AddCall(bus, group, hosts[j], addresses[i])
      {
        if i < n {
          assert init[i] == addresses[i];
          assert all[Slot(i, j, h)] == a[Slot(i, j, h)];
        } else {
          SlotShift(i, j, h);
          assert all[Slot(i, j, h)] == b[j];
        }
      }
    }
  }

  /** A successful publish issues one `EntryGroupNew`, then one `AddAddress`
      per (address, host) pair with addresses in the outer loop and hosts in
      the inner one, then one `Commit`. */
  lemma PublishOrder(bus: Bus, config: Config, reply: Reply, addressesOf: AddressLookup, addresses: seq<string>)
    requires IsEnabled(config) && config.hosts.Some?
    requires addressesOf(InterfaceFor(bus, config)) == Some(addresses)
    requires Publish(bus, config, reply, addressesOf).outcome.Ok?
    ensures var calls := Publish(bus, config, reply, addressesOf).calls;
            && |calls| == |addresses| * |config.hosts.value| + 2
            && calls[0] == EntryGroupNew
            && calls[|calls| - 1] == Commit(reply.group)
            && InLoopOrder(calls[1..|calls| - 1], bus, reply.group, addresses, config.hosts.value)
  {
    var calls := Publish(bus, config, reply, addressesOf).calls;
    var all := AddressCalls(bus, reply.group, addresses, config.hosts.value);
    PublishOkCalls(bus, config, reply, addressesOf, addresses);
    AddressCallsOrder(bus, reply.group, addresses, config.hosts.value);
    SlotIsProduct(|addresses|, 0, |config.hosts.value|);
    assert calls[1..|calls| - 1] == all;
  }

  lemma PublishOkCalls(bus: Bus, config: Config, reply: Reply, addressesOf: AddressLookup, addresses: seq<string>)
    requires IsEnabled(config) && config.hosts.Some?
    requires addressesOf(InterfaceFor(bus, config)) == Some(addresses)
    requires Publish(bus, config, reply, addressesOf).outcome.Ok?
    ensures Publish(bus, config, reply, addressesOf).calls == Planned(bus, reply.group, addresses, config.hosts.value)
  {
  }

  /** The happy path: an enabled config with hosts, an interface with
      addresses and a daemon that accepts every call gives exactly the
      planned calls and the group recorded under the container id. */
  lemma PublishSucceeds(bus: Bus, config: Config, reply: Reply, addressesOf: AddressLookup, addresses: seq<string>)
    requires IsEnabled(config) && config.hosts.Some?
    requires addressesOf(InterfaceFor(bus, config)) == Some(addresses)
    requires !FailsWithin(reply.failAt, |Planned(bus, reply.group, addresses, config.hosts.value)|)
    ensures Publish(bus, config, reply, addressesOf)
            == Step(Ok, bus.(published := bus.published[config.id := reply.group]),
                    Planned(bus, reply.group, addresses, config.hosts.value))
  {
  }

  /** When `EntryGroupNew` itself fails, publish stops there: that one call,
      its error, and the map unchanged, whatever the interface holds. */
  lemma PublishGroupNewFails(bus: Bus, config: Config, reply: Reply, addressesOf: AddressLookup)
    requires IsEnabled(config) && config.hosts.Some?
    requires reply.failAt == Some(0)
    ensures Publish(bus, config, reply, addressesOf) == Step(Err(CallFailed(EntryGroupNew)), bus, [EntryGroupNew])
  {
  }

  /** When the interface's addresses cannot be listed, publish fails after
      creating the group: the one call `EntryGroupNew`, the interface named in
      the error, and the map unchanged.  The group is left behind. */
  lemma PublishNoAddresses(bus: Bus, config: Config, reply: Reply, addressesOf: AddressLookup)
    requires IsEnabled(config) && config.hosts.Some?
    requires !FailsWithin(reply.failAt, 1)
    requires addressesOf(InterfaceFor(bus, config)).None?
    ensures Publish(bus, config, reply, addressesOf)
            == Step(Err(NoAddresses(InterfaceFor(bus, config))), bus, [EntryGroupNew])
  {
  }

  /** A publish whose `k`-th planned call fails, after the interface's
      addresses were found, issues the planned calls up to that one. */
  lemma PublishFailsAt(bus: Bus, config: Config, reply: Reply, addressesOf: AddressLookup,
                       addresses: seq<string>, k: nat)
    requires IsEnabled(config) && config.hosts.Some?
    requires addressesOf(InterfaceFor(bus, config)) == Some(addresses)
    requires k < |Planned(bus, reply.group, addresses, config.hosts.value)|
    requires reply.failAt == Some(k)
    ensures var planned := Planned(bus, reply.group, addresses, config.hosts.value);
            Publish(bus, config, reply, addressesOf) == Step(Err(CallFailed(planned[k])), bus, planned[..k + 1])
  {
  }

  /** A present but blank host label is not a no-op: the group is still
      created, committed (with no addresses in it) and recorded. */
  lemma BlankHostsStillCommit(bus: Bus, config: Config, reply: Reply, addressesOf: AddressLookup)
    requires IsEnabled(config) && config.hosts == Some([])
    requires addressesOf(InterfaceFor(bus, config)).Some?
    requires !FailsWithin(reply.failAt, 2)
    ensures Publish(bus, config, reply, addressesOf)
            == Step(Ok, bus.(published := bus.published[config.id := reply.group]),
                    [EntryGroupNew, Commit(reply.group)])
  {
    var addresses := addressesOf(InterfaceFor(bus, config)).value;
    AddressCallsOrder(bus, reply.group, addresses, []);
    SlotIsProduct(|addresses|, 0, 0);
    assert AddressCalls(bus, reply.group, addresses, []) == [];
  }

  /** A second unpublish of the same id issues nothing and succeeds, however
      the first one ended. */
  lemma UnpublishTwice(bus: Bus, config: Config, first: Option<nat>, second: Option<nat>)
    ensures var s := Unpublish(bus, config, first);
            Unpublish(s.bus, config, second) == Step(Ok, s.bus, [])
  {
  }

  /** Publishing an id that already has a group replaces the entry (one entry
      per id, the newest group) and never resets or frees the group it
      replaces: that group stays registered with the daemon. */
  lemma RepublishReplaces(bus: Bus, config: Config, r1: Reply, r2: Reply, look1: AddressLookup, look2: AddressLookup)
    requires Publish(bus, config, r1, look1).outcome.Ok?
    requires Publish(bus, config, r1, look1).calls != []
    requires Publish(Publish(bus, config, r1, look1).bus, config, r2, look2).outcome.Ok?
    ensures var s1 := Publish(bus, config, r1, look1);
            var s2 := Publish(s1.bus, config, r2, look2);
            && s2.bus.published == bus.published[config.id := r2.group]
            && s2.bus.published.Keys == s1.bus.published.Keys
            && Reset(r1.group) !in s1.calls + s2.calls
            && Free(r1.group) !in s1.calls + s2.calls
  {
    var s1 := Publish(bus, config, r1, look1);
    var s2 := Publish(s1.bus, config, r2, look2);
    assert s2.calls != [];
    var both := s1.calls + s2.calls;
    forall k | 0 <= k < |both| ensures !both[k].Reset? && !both[k].Free? {
      if k < |s1.calls| {
        assert both[k] == s1.calls[k];
      } else {
        assert both[k] == s2.calls[k - |s1.calls|];
      }
    }
  }

  /** Absent, Published, Absent: a committed group is the one later reset and
      freed, and the map returns to what it was without that id. */
  lemma PublishThenUnpublish(bus: Bus, config: Config, reply: Reply, addressesOf: AddressLookup,
                             failAt: Option<nat>)
    requires Publish(bus, config, reply, addressesOf).outcome.Ok?
    requires Publish(bus, config, reply, addressesOf).calls != []
    ensures var s1 := Publish(bus, config, reply, addressesOf);
            var s2 := Unpublish(s1.bus, config, failAt);
            && s2.bus.published == bus.published - {config.id}
            && s2.calls != []
            && s2.calls <= [Reset(reply.group), Free(reply.group)]
            && (s2.outcome.Ok? <==> !FailsWithin(failAt, 2))
            && |s2.calls| == (if FailsWithin(failAt, 2) then failAt.value + 1 else 2)
  {
  }

  /** Every recorded group has a `Commit` somewhere in `log`.  The log holds
      the calls issued, failed ones included, so this says a `Commit` was
      sent for the group; that it succeeded is `Publish`'s own promise that
      the map changes only after a successful `Commit`. */
  ghost predicate Committed(bus: Bus, log: seq<Call>) {
    forall id :: id in bus.published ==> Commit(bus.published[id]) in log
  }

  /** Publishing and unpublishing keep every recorded group a committed one:
      a failed publish records nothing, a successful one records the group it
      has just committed, and unpublish only removes. */
  lemma OperationsKeepCommitted(bus: Bus, log: seq<Call>, config: Config, reply: Reply,
                                addressesOf: AddressLookup, failAt: Option<nat>)
    requires Committed(bus, log)
    ensures var s := Publish(bus, config, reply, addressesOf);
            Committed(s.bus, log + s.calls)
    ensures var s := Unpublish(bus, config, failAt);
            Committed(s.bus, log + s.calls)
  {
    var s := Publish(bus, config, reply, addressesOf);
    if s.bus != bus {
      assert s.calls[|s.calls| - 1] in log + s.calls;
    }
  }
}
