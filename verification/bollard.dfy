/** The two shapes in which the container runtime hands over a container:
    the actor of a lifecycle event and an entry of a container listing.
    Only the fields the label interpreter reads are kept. */
module Bollard {
  import opened Wrappers

  /** Container labels, `HashMap<String, String>`. */
  type Labels = map<string, string>

  /** `bollard::models::EventActor`: the container id and its attributes. */
  datatype EventActor = EventActor(id: Option<string>, attributes: Option<Labels>)

  /** `bollard::models::ContainerSummary`, reduced to its id and labels. */
  datatype ContainerSummary = ContainerSummary(id: Option<string>, labels: Option<Labels>)

  /** `bollard::models::EventMessage`, reduced to its action and actor. */
  datatype EventMessage = EventMessage(action: Option<string>, actor: Option<EventActor>)
}
