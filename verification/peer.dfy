/** Peer identities, peer handles and the peerstore. The peerstore is the single owner of
    address records; everything else refers to a record by its identity. */
module Peer {
  import opened Wrappers
  import opened Multiaddr

  /** `peer.ID`: the raw bytes of an identity, carried as a string. */
  type ID = string

  /** A peer handle as it is written to the wire: its identity and the addresses it reports,
      in the order it reports them. */
  datatype Peer = Peer(id: ID, addresses: seq<Multiaddr>)

  /** The peerstore: the set of known addresses of every known identity. */
  datatype Peerstore = Peerstore(records: map<ID, set<Multiaddr>>)

  /** `ps'` keeps every record of `ps`, with at least the same addresses. */
  ghost predicate Extends(ps: Peerstore, ps': Peerstore) {
    forall id :: id in ps.records ==> id in ps'.records && ps.records[id] <= ps'.records[id]
  }

  lemma ExtendsTransitive(a: Peerstore, b: Peerstore, c: Peerstore)
    requires Extends(a, b) && Extends(b, c)
    ensures Extends(a, c)
  {
  }

  /** The addresses `ps` holds for `id`, empty when there is no record. */
  function Known(ps: Peerstore, id: ID): set<Multiaddr> {
    if id in ps.records then ps.records[id] else {}
  }

  /** `Peerstore.FindOrCreate`: returns the store holding a record for `id`, creating an empty
      one when there is none. The store's own failure conditions are not part of this model;
      `refuses` says for which identities it fails, and `None` is that failure. */
  function FindOrCreate(ps: Peerstore, id: ID, refuses: ID -> bool): (r: Option<Peerstore>)
    ensures r.None? <==> refuses(id)
    ensures r.Some? ==> r.value.records.Keys == ps.records.Keys + {id}
    ensures r.Some? ==> r.value.records[id] == Known(ps, id)
    ensures r.Some? ==> forall k :: k in ps.records ==> r.value.records[k] == ps.records[k]
  {
    if refuses(id) then None
    else if id in ps.records then Some(ps)
    else Some(Peerstore(ps.records[id := {}]))
  }

  /** `Peer.AddAddress` applied to each address in turn: the record of `id` gains exactly
      the given addresses and no other record changes. */
  function AddAddresses(ps: Peerstore, id: ID, addrs: seq<Multiaddr>): (r: Peerstore)
    requires id in ps.records
    ensures r.records.Keys == ps.records.Keys
    ensures r.records[id] == ps.records[id] + Elems(addrs)
    ensures forall k :: k in ps.records && k != id ==> r.records[k] == ps.records[k]
    decreases |addrs|
  {
    if |addrs| == 0 then ps
    else
      var next := Peerstore(ps.records[id := ps.records[id] + {addrs[0]}]);
      assert Elems(addrs) == {addrs[0]} + Elems(addrs[1..]) by {
        assert forall x :: x in addrs <==> x == addrs[0] || x in addrs[1..];
      }
      AddAddresses(next, id, addrs[1..])
  }
}
