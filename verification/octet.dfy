/** The one-octet identifiers that both EAP and RADIUS packets carry. */
module Octet {

  /** The largest identifier an octet holds. */
  const MaxId: int := 255

  predicate IsOctet(v: int) {
    0 <= v <= MaxId
  }
}
