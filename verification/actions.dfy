/** The action classifier: a lifecycle event's action string becomes one of
    three cases.  Unknown actions are not errors; they are `Other`. */
module Actions {
  import opened Wrappers

  datatype Action = Die | Other | Start

  /** `From<&Option<String>> for Action`: total and case-sensitive. */
  function Classify(action: Option<string>): (a: Action)
    ensures a == Die <==> action == Some("die")
    ensures a == Start <==> action == Some("start")
    ensures a == Other <==> action != Some("die") && action != Some("start")
  {
    match action
    case Some(s) =>
      if s == "die" then Die else if s == "start" then Start else Other
    case None => Other
  }

  /** Actions the handler does not act on, including near misses. */
  lemma OtherActions()
    ensures Classify(None) == Other
    ensures Classify(Some("")) == Other
    ensures Classify(Some("pause")) == Other
    ensures Classify(Some("stop")) == Other
    ensures Classify(Some("Start")) == Other
  {
  }
}
