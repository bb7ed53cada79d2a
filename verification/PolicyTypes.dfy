/** What the rule translation and the packet decision have in common. */
module PolicyTypes {
  import opened Bytes

  datatype Direction = Ingress | Egress

  // NetPolicyRule
  const DENY := 0
  const ALLOW := 1
  const MARK := 2
  const ALLOW_RSP := 3
  const ALLOW_REQ := 4
  const DEFAULT := 5

  type Key = Text

  datatype HttpRule = HttpRule(action: nat, dir: Direction, host: Text, verb: Text, path: Text)

  /** The HTTP rules of one direction, by policy name. */
  type Table = map<Key, seq<HttpRule>>
}
