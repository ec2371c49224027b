/** The label interpreter: the `mdns` module's `State` and `Config`, built
    from a container's id and labels.  A config says whether the container
    wants publishing, under which hostnames, and on which interface. */
module Mdns {
  import opened Wrappers
  import opened Words
  import opened Bollard

  /** The three labels the interpreter reads; every other label is ignored. */
  const EnableLabel: string := "docker-mdns.enable"
  const HostLabel: string := "docker-mdns.host"
  const InterfaceLabel: string := "docker-mdns.interface"

  datatype State = Disabled | Enabled

  /** `State::default()`: a container is not published unless it asks. */
  function DefaultState(): (s: State)
    ensures s != Enabled
  {
    Disabled
  }

  /** `State::from`: only the exact, case-sensitive value "true" enables. */
  function StateFrom(value: Option<string>): (s: State)
    ensures s == Enabled <==> value == Some("true")
  {
    if value == Some("true") then Enabled else Disabled
  }

  datatype Config = Config(
    hosts: Option<seq<string>>,   // from docker-mdns.host, the names to announce
    id: string,                   // the container this config is for
    interface: Option<string>,    // from docker-mdns.interface, if given
    state: State)                 // from docker-mdns.enable

  /** `Config::default()`, as derived by Rust: every field at its own
      default, so no hosts, no id, no interface, and not enabled. */
  function DefaultConfig(): (c: Config)
    ensures c.hosts.None? && c.id == [] && c.interface.None? && !IsEnabled(c)
  {
    Config(None, "", None, DefaultState())
  }

  /** `Config::enabled`: the state is not the default one. */
  predicate IsEnabled(c: Config)
    ensures IsEnabled(c) <==> c.state != DefaultState()
  {
    c.state == Enabled
  }

  /** `From<&EventActor> for Config`.  A missing actor id is a panic in the
      source, so it is a precondition here. */
  function FromActor(actor: EventActor): (c: Config)
    requires actor.id.Some?
    ensures c.id == actor.id.value
    ensures IsEnabled(c) <==>
              actor.attributes.Some? && Get(actor.attributes.value, EnableLabel) == Some("true")
    ensures c.hosts.Some? <==> actor.attributes.Some? && HostLabel in actor.attributes.value
    ensures c.hosts.Some? ==> c.hosts.value == SplitWhitespace(actor.attributes.value[HostLabel])
    ensures c.hosts.Some? ==> AllWords(c.hosts.value)
    ensures c.interface.Some? <==> actor.attributes.Some? && InterfaceLabel in actor.attributes.value
    ensures c.interface.Some? ==> c.interface.value == actor.attributes.value[InterfaceLabel]
  {
    var id := actor.id.value;
    match actor.attributes
    case None =>
      DefaultConfig().(id := id)
    case Some(attributes) =>
      var enable := Get(attributes, EnableLabel);
      var hosts := Get(attributes, HostLabel);
      var interface := Get(attributes, InterfaceLabel);
      Config(
        if hosts.Some? then Some(SplitWhitespace(hosts.value)) else None,
        id,
        interface,
        StateFrom(enable))
  }

  /** `From<&ContainerSummary> for Config`: wraps the summary's id and labels
      in an actor and interprets that.  A missing id panics here too. */
  function FromSummary(summary: ContainerSummary): (c: Config)
    requires summary.id.Some?
    ensures c == FromActor(EventActor(summary.id, summary.labels))
  {
    FromActor(EventActor(summary.id, summary.labels))
  }

  /** With no attributes at all the container is left alone: disabled, no
      hosts, no interface, only the id carried over. */
  lemma NoAttributesIsDefault(id: string)
    ensures FromActor(EventActor(Some(id), None)) == DefaultConfig().(id := id)
    ensures !IsEnabled(FromActor(EventActor(Some(id), None)))
  {
  }

  /** Only the three recognised labels matter: two label maps that agree on
      them give the same config. */
  lemma OnlyRecognisedLabels(id: string, a: Labels, b: Labels)
    requires Get(a, EnableLabel) == Get(b, EnableLabel)
    requires Get(a, HostLabel) == Get(b, HostLabel)
    requires Get(a, InterfaceLabel) == Get(b, InterfaceLabel)
    ensures FromActor(EventActor(Some(id), Some(a))) == FromActor(EventActor(Some(id), Some(b)))
  {
  }

  /** A label map that neither enables publishing nor names hosts or an
      interface yields the default config with the container's id, whichever
      route (event or listing) it arrives by.  The source's own unit test,
      `docker-mdns.enable = "false"`, is the instance below. */
  lemma InertLabelsGiveDefault(id: string, labels: Labels)
    requires Get(labels, EnableLabel) != Some("true")
    requires HostLabel !in labels && InterfaceLabel !in labels
    ensures FromSummary(ContainerSummary(Some(id), Some(labels))) == DefaultConfig().(id := id)
    ensures FromActor(EventActor(Some(id), Some(labels))) == DefaultConfig().(id := id)
  {
  }

  lemma EnableFalseIsDefault()
    ensures FromSummary(ContainerSummary(Some("abc123"), Some(map[EnableLabel := "false"])))
            == DefaultConfig().(id := "abc123")
  {
    InertLabelsGiveDefault("abc123", map[EnableLabel := "false"]);
  }

  /** Spelling matters: "True", "TRUE", "1" and the empty value all disable. */
  lemma EnableIsCaseSensitive()
    ensures StateFrom(Some("True")) == Disabled
    ensures StateFrom(Some("TRUE")) == Disabled
    ensures StateFrom(Some("1")) == Disabled
    ensures StateFrom(Some("")) == Disabled
    ensures StateFrom(None) == Disabled
  {
  }
}
