// The participants of the exchange and the classes they put prefixes into.
module Participants {

  type Part = nat
  type Group = set<Part>

  // The prefixes that lead to one participant and are advertised by the same ones.
  datatype ForwardingClass = ForwardingClass(id: nat, nextHopPart: Part, partAdvertising: Group)
}
