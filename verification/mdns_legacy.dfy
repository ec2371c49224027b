/** The older copy of the label interpreter (`MdnsState`, `MdnsConfig`),
    which the event handler still uses.  It is modelled separately, as the
    source keeps it separately, and then proved to agree with `Mdns` on every
    input, so either copy can stand for the other. */
module MdnsLegacy {
  import opened Wrappers
  import opened Words
  import opened Bollard
  import Mdns

  /** This copy declares its own label names, with the same spelling. */
  const EnableLabel: string := "docker-mdns.enable"
  const HostLabel: string := "docker-mdns.host"
  const InterfaceLabel: string := "docker-mdns.interface"

  datatype MdnsState = Disabled | Enabled

  /** `MdnsState::default()`. */
  function DefaultState(): (s: MdnsState)
    ensures s != Enabled
  {
    Disabled
  }

  /** `MdnsState::from`: enabled exactly on the value "true". */
  function StateFrom(value: Option<string>): (s: MdnsState)
    ensures s == Enabled <==> value == Some("true")
  {
    if value == Some("true") then Enabled else Disabled
  }

  datatype MdnsConfig = MdnsConfig(
    hosts: Option<seq<string>>,
    id: string,
    interface: Option<string>,
    state: MdnsState)

  /** `MdnsConfig::default()`, as derived by Rust. */
  function DefaultConfig(): (c: MdnsConfig)
    ensures c.hosts.None? && c.id == [] && c.interface.None? && !IsEnabled(c)
  {
    MdnsConfig(None, "", None, DefaultState())
  }

  /** `MdnsConfig::enabled`: the state is not the default one. */
  predicate IsEnabled(c: MdnsConfig)
    ensures IsEnabled(c) <==> c.state != DefaultState()
  {
    c.state == Enabled
  }

  /** `From<&EventActor> for MdnsConfig`; panics without an actor id. */
  function FromActor(actor: EventActor): (c: MdnsConfig)
    requires actor.id.Some?
    ensures c.id == actor.id.value
    ensures actor.attributes.None? ==> !IsEnabled(c) && c.hosts.None? && c.interface.None?
    ensures IsEnabled(c) <==>
              actor.attributes.Some? && Get(actor.attributes.value, EnableLabel) == Some("true")
    ensures c.hosts.Some? <==> actor.attributes.Some? && HostLabel in actor.attributes.value
    ensures c.hosts.Some? ==> c.hosts.value == SplitWhitespace(actor.attributes.value[HostLabel])
    ensures c.interface.Some? <==> actor.attributes.Some? && InterfaceLabel in actor.attributes.value
    ensures c.interface.Some? ==> c.interface.value == actor.attributes.value[InterfaceLabel]
  {
    var id := actor.id.value;
    match actor.attributes
    case None =>
      DefaultConfig().(id := id)
    case Some(attributes) =>
      var enable := Get(attributes, EnableLabel);
      var hosts := Get(attributes, HostLabel);
      var interface := Get(attributes, InterfaceLabel);
      MdnsConfig(
        if hosts.Some? then Some(SplitWhitespace(hosts.value)) else None,
        id,
        interface,
        StateFrom(enable))
  }

  /** `From<&ContainerSummary> for MdnsConfig`: the same interpretation of
      the summary's id and labels. */
  function FromSummary(summary: ContainerSummary): (c: MdnsConfig)
    requires summary.id.Some?
    ensures c == FromActor(EventActor(summary.id, summary.labels))
  {
    FromActor(EventActor(summary.id, summary.labels))
  }

  /** `MdnsState` and `State` identified. */
  function ToState(s: MdnsState): Mdns.State {
    match s
    case Disabled => Mdns.Disabled
    case Enabled => Mdns.Enabled
  }

  function ToConfig(c: MdnsConfig): Mdns.Config {
    Mdns.Config(c.hosts, c.id, c.interface, ToState(c.state))
  }

  /** The two copies agree: on every actor, and hence every summary, the
      legacy interpretation is the current one with the state renamed. */
  lemma AgreesWithMdns(actor: EventActor)
    requires actor.id.Some?
    ensures ToConfig(FromActor(actor)) == Mdns.FromActor(actor)
    ensures Mdns.IsEnabled(ToConfig(FromActor(actor))) <==> IsEnabled(FromActor(actor))
  {
  }

  lemma SummaryAgreesWithMdns(summary: ContainerSummary)
    requires summary.id.Some?
    ensures ToConfig(FromSummary(summary)) == Mdns.FromSummary(summary)
  {
    AgreesWithMdns(EventActor(summary.id, summary.labels));
  }
}
