/** Identifiers shared by both clocks and the router. */
module Identifiers {

  /** A node identifier: the 128-bit integer value of a UUID. */
  type NodeId = nat

}
