/** The event dispatcher: the handler that turns one lifecycle event into a
    publish or an unpublish, and the startup pass that publishes the
    containers already running, in listing order, stopping at the first
    error. */
module Dispatch {
  import opened Wrappers
  import opened Bollard
  import opened Mdns
  import opened Actions
  import opened Registration
  import MdnsLegacy

  /** The handler panics only when an event it acts on has an actor without
      an id; every other event is handled. */
  predicate Handleable(event: EventMessage) {
    Classify(event.action) == Other || event.actor.None? || event.actor.value.id.Some?
  }

  /** `handler`: ignore other actions and actor-less events, build the
      config with the legacy interpreter, and hand it to the bus.  The bus's
      result is returned unchanged.  `reply` is how the daemon answers the
      publish or unpublish, whichever it is. */
  function Handle(bus: Bus, event: EventMessage, reply: Reply, addressesOf: AddressLookup): (s: Step)
    requires Handleable(event)
    ensures Classify(event.action) == Other ==> s == Step(Ok, bus, [])
    ensures event.actor.None? ==> s == Step(Ok, bus, [])
    ensures Classify(event.action) == Die && event.actor.Some? ==>
              s == Unpublish(bus, FromActor(event.actor.value), reply.failAt)
    ensures Classify(event.action) == Start && event.actor.Some? ==>
              s == Publish(bus, FromActor(event.actor.value), reply, addressesOf)
  {
    var action := Classify(event.action);
    if action == Other then
      Step(Ok, bus, [])
    else
      match event.actor
      case None =>
        Step(Ok, bus, [])
      case Some(actor) =>
        var config := MdnsLegacy.ToConfig(MdnsLegacy.FromActor(actor));
        MdnsLegacy.AgreesWithMdns(actor);
        if action == Die then Unpublish(bus, config, reply.failAt)
        else Publish(bus, config, reply, addressesOf)
  }

  /** The handler keeps every recorded group a committed one. */
  lemma HandleKeepsCommitted(bus: Bus, log: seq<Call>, event: EventMessage, reply: Reply,
                             addressesOf: AddressLookup)
    requires Handleable(event)
    requires Committed(bus, log)
    ensures Committed(Handle(bus, event, reply, addressesOf).bus,
                      log + Handle(bus, event, reply, addressesOf).calls)
  {
    if Classify(event.action) != Other && event.actor.Some? {
      OperationsKeepCommitted(bus, log, FromActor(event.actor.value), reply, addressesOf, reply.failAt);
    } else {
      assert log + [] == log;
    }
  }

  /** `s` with `calls` issued before it. */
  function After(calls: seq<Call>, s: Step): Step {
    s.(calls := calls + s.calls)
  }

  /** What the outside world answers during one publish of the startup
      pass: the daemon's reply and the interface addresses, which the source
      looks up afresh on every publish because they may change in between. */
  datatype Answers = Answers(reply: Reply, addressesOf: AddressLookup)

  /** The publish of `config` against the answers for its turn. */
  function PublishWith(bus: Bus, config: Config, answers: Answers): Step {
    Publish(bus, config, answers.reply, answers.addressesOf)
  }

  /** The startup loop, `for config in startup_configs { bus.publish(&config)? }`:
      publish each config in order, each against its own answers, threading
      the manager through, and stop at the first error, which is returned. */
  function PublishAll(bus: Bus, configs: seq<Config>, answers: seq<Answers>): (s: Step)
    requires |answers| == |configs|
    ensures s.bus.interfaceIndex == bus.interfaceIndex && s.bus.interfaceName == bus.interfaceName
    ensures bus.published.Keys <= s.bus.published.Keys
    ensures s.bus.published.Keys <= bus.published.Keys + set k | 0 <= k < |configs| :: configs[k].id
    ensures s.outcome.Ok? ==>
              forall k :: 0 <= k < |configs| && IsEnabled(configs[k]) && configs[k].hosts.Some? ==>
                configs[k].id in s.bus.published
    decreases |configs|
  {
    if |configs| == 0 then
      Step(Ok, bus, [])
    else
      var first := PublishWith(bus, configs[0], answers[0]);
      if first.outcome.Err? then
        first
      else
        var rest := PublishAll(first.bus, configs[1..], answers[1..]);
        assert forall k :: 0 < k < |configs| ==> configs[k] == configs[1..][k - 1];
        After(first.calls, rest)
  }

  /** The loop as written, with each publish done by the loop-level
      `PublishLoop`; it computes exactly `PublishAll`. */
  method StartupPublish(bus: Bus, configs: seq<Config>, answers: seq<Answers>)
    returns (outcome: Outcome, after: Bus, calls: seq<Call>)
    requires |answers| == |configs|
    ensures Step(outcome, after, calls) == PublishAll(bus, configs, answers)
  {
    after := bus;
    calls := [];
    var k := 0;
    while k < |configs|
      invariant k <= |configs|
      invariant PublishAll(bus, configs, answers)
                == After(calls, PublishAll(after, configs[k..], answers[k..]))
    {
      var result, next, issued := PublishLoop(after, configs[k], answers[k].reply, answers[k].addressesOf);
      StartupStep(PublishAll(bus, configs, answers), calls, after, configs, answers, k);
      if result.Err? {
        return result, next, calls + issued;
      }
      calls := calls + issued;
      after := next;
      k := k + 1;
    }
    assert configs[k..] == [];
    assert calls + [] == calls;
    return Ok, after, calls;
  }

  /** One turn of the startup loop: the publish at position `k` either ends
      the run with its error or hands its manager to the rest of the run. */
  lemma StartupStep(total: Step, calls: seq<Call>, after: Bus, configs: seq<Config>, answers: seq<Answers>, k: nat)
    requires |answers| == |configs| && k < |configs|
    requires total == After(calls, PublishAll(after, configs[k..], answers[k..]))
    ensures var first := PublishWith(after, configs[k], answers[k]);
            if first.outcome.Err? then total == Step(first.outcome, first.bus, calls + first.calls)
            else total == After(calls + first.calls, PublishAll(first.bus, configs[k + 1..], answers[k + 1..]))
  {
    var first := PublishWith(after, configs[k], answers[k]);
    assert configs[k..][0] == configs[k] && answers[k..][0] == answers[k];
    assert configs[k..][1..] == configs[k + 1..];
    assert answers[k..][1..] == answers[k + 1..];
    if first.outcome.Ok? {
      var rest := PublishAll(first.bus, configs[k + 1..], answers[k + 1..]);
      assert calls + (first.calls + rest.calls) == (calls + first.calls) + rest.calls;
    }
  }

  /** Running the startup loop over `xs + ys` runs it over `xs` and, only if
      that succeeded, carries on over `ys` from where it left the manager. */
  lemma {:induction false} PublishAllAppend(bus: Bus, xs: seq<Config>, xa: seq<Answers>,
                                            ys: seq<Config>, ya: seq<Answers>)
    requires |xa| == |xs| && |ya| == |ys|
    ensures var p := PublishAll(bus, xs, xa);
            PublishAll(bus, xs + ys, xa + ya)
            == if p.outcome.Err? then p else After(p.calls, PublishAll(p.bus, ys, ya))
    decreases |xs|
  {
    if |xs| == 0 {
      assert xs + ys == ys && xa + ya == ya;
      var q := PublishAll(bus, ys, ya);
      assert [] + q.calls == q.calls;
    } else {
      assert (xs + ys)[1..] == xs[1..] + ys;
      assert (xa + ya)[1..] == xa[1..] + ya;
      assert (xs + ys)[0] == xs[0] && (xa + ya)[0] == xa[0];
      var first := PublishWith(bus, xs[0], xa[0]);
      if first.outcome.Ok? {
        PublishAllAppend(first.bus, xs[1..], xa[1..], ys, ya);
        var p := PublishAll(first.bus, xs[1..], xa[1..]);
        if p.outcome.Ok? {
          var q := PublishAll(p.bus, ys, ya);
          assert first.calls + (p.calls + q.calls) == (first.calls + p.calls) + q.calls;
        }
      }
    }
  }

  /** The startup loop stops at the first failing publish: if the configs
      before position `k` publish cleanly and the one at `k` fails, the loop
      returns that error with the manager as the failure left it, and the
      configs after `k` are never touched. */
  lemma StopsAtFirstError(bus: Bus, configs: seq<Config>, answers: seq<Answers>, k: nat)
    requires |answers| == |configs| && k < |configs|
    requires PublishAll(bus, configs[..k], answers[..k]).outcome.Ok?
    requires PublishWith(PublishAll(bus, configs[..k], answers[..k]).bus, configs[k], answers[k]).outcome.Err?
    ensures var p := PublishAll(bus, configs[..k], answers[..k]);
            var failed := PublishWith(p.bus, configs[k], answers[k]);
            PublishAll(bus, configs, answers) == Step(failed.outcome, p.bus, p.calls + failed.calls)
  {
    PublishAllAppend(bus, configs[..k], answers[..k], configs[k..], answers[k..]);
    assert configs[..k] + configs[k..] == configs;
    assert answers[..k] + answers[k..] == answers;
    assert configs[k..][0] == configs[k] && answers[k..][0] == answers[k];
  }

  /** A `start` event for a container labelled to publish `foo.local` and
      `bar.local`, on a default interface with the one address 10.0.0.5:
      two address calls, one per host, between the group's creation and its
      commit, and the group recorded under the container id. */
  lemma StartScenario(bus: Bus, group: GroupPath, addressesOf: AddressLookup)
    requires bus.interfaceName == "eth0" && addressesOf("eth0") == Some(["10.0.0.5"])
    ensures var labels := map[EnableLabel := "true", HostLabel := "foo.local bar.local"];
            var event := EventMessage(Some("start"), Some(EventActor(Some("c1"), Some(labels))));
            Handle(bus, event, Reply(group, None), addressesOf)
            == Step(Ok, bus.(published := bus.published["c1" := group]),
                    [EntryGroupNew,
                     AddAddress(group, bus.interfaceIndex, -1, 16, "foo.local", "10.0.0.5"),
                     AddAddress(group, bus.interfaceIndex, -1, 16, "bar.local", "10.0.0.5"),
                     Commit(group)])
  {
    var labels := map[EnableLabel := "true", HostLabel := "foo.local bar.local"];
    var actor := EventActor(Some("c1"), Some(labels));
    ScenarioHosts();
    var config := FromActor(actor);
    assert config == Config(Some(["foo.local", "bar.local"]), "c1", None, Enabled);
    ScenarioPublish(bus, config, group, addressesOf);
  }

  lemma ScenarioHosts()
    ensures Words.SplitWhitespace("foo.local bar.local") == ["foo.local", "bar.local"]
  {
    ScenarioWords();
    Words.TwoWords("foo.local", "bar.local");
    assert "foo.local" + " " + "bar.local" == "foo.local bar.local";
  }

  lemma ScenarioWords()
    ensures Words.IsWord("foo.local") && Words.IsWord("bar.local")
  {
  }

  lemma ScenarioPublish(bus: Bus, config: Config, group: GroupPath, addressesOf: AddressLookup)
    requires config == Config(Some(["foo.local", "bar.local"]), "c1", None, Enabled)
    requires bus.interfaceName == "eth0" && addressesOf("eth0") == Some(["10.0.0.5"])
    ensures Publish(bus, config, Reply(group, None), addressesOf)
            == Step(Ok, bus.(published := bus.published["c1" := group]),
                    [EntryGroupNew,
                     AddAddress(group, bus.interfaceIndex, -1, 16, "foo.local", "10.0.0.5"),
                     AddAddress(group, bus.interfaceIndex, -1, 16, "bar.local", "10.0.0.5"),
                     Commit(group)])
  {
    ScenarioCalls(bus, group);
    PublishSucceeds(bus, config, Reply(group, None), addressesOf, ["10.0.0.5"]);
  }

  lemma ScenarioCalls(bus: Bus, group: GroupPath)
    ensures Planned(bus, group, ["10.0.0.5"], ["foo.local", "bar.local"])
            == [EntryGroupNew,
                AddAddress(group, bus.interfaceIndex, -1, 16, "foo.local", "10.0.0.5"),
                AddAddress(group, bus.interfaceIndex, -1, 16, "bar.local", "10.0.0.5"),
                Commit(group)]
  {
    var addresses := ["10.0.0.5"];
    var adds := HostCalls(bus, group, "10.0.0.5", ["foo.local", "bar.local"]);
    assert adds == [AddAddress(group, bus.interfaceIndex, -1, 16, "foo.local", "10.0.0.5"),
                    AddAddress(group, bus.interfaceIndex, -1, 16, "bar.local", "10.0.0.5")];
    assert addresses[..0] == [];
    assert AddressCalls(bus, group, addresses, ["foo.local", "bar.local"]) == [] + adds;
  }

  /** A `die` event for a container that was never published succeeds
      without a single call. */
  lemma DieScenario(bus: Bus, id: string, labels: Option<Labels>, reply: Reply, addressesOf: AddressLookup)
    requires id !in bus.published
    ensures Handle(bus, EventMessage(Some("die"), Some(EventActor(Some(id), labels))), reply, addressesOf)
            == Step(Ok, bus, [])
  {
  }
}
