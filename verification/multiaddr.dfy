/** Multiaddresses belong to a foreign library. The model keeps an address opaque and takes
    its text parser and printer as parameters wherever they are used. Nothing assumes that
    they are inverses of each other. */
module Multiaddr {
  import opened Wrappers

  /** A parsed multiaddress, known only by its binary form. */
  datatype Multiaddr = Multiaddr(bytes: seq<bv8>)

  /** `ma.NewMultiaddr`: `None` stands for the parse error. */
  type Parser = string -> Option<Multiaddr>

  /** `Multiaddr.String()`. */
  type Printer = Multiaddr -> string

  /** The addresses of a list, as a set. */
  function Elems(s: seq<Multiaddr>): (r: set<Multiaddr>)
    ensures forall x :: x in r <==> x in s
  {
    set x | x in s
  }
}
