/** The configuration `PHPFeature` reads through `hasKey` and
    `getKey`: a dictionary from feature names to either one requirement
    string or a list of them. */
module Registry {
  /** The value stored under a feature name. */
  datatype Entry = OneRequirement(requirement: string) | Requirements(list: seq<string>)

  type Config = map<string, Entry>

  /** The requirement list of an entry: a single requirement is wrapped in a
      one-element list. */
  function RequirementsOf(e: Entry): seq<string> {
    match e
    case OneRequirement(r) => [r]
    case Requirements(list) => list
  }
}
