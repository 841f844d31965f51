/** Properties that relate several of the message helpers: what set-then-get does to the
    cluster level, the connectivity mapping and its inverse, the peer round trip through
    the wire, and how failures inside a batch are counted. */
module DhtPbProperties {
  import opened Wrappers
  import opened GoInts
  import opened Multiaddr
  import Net
  import Peer
  import opened DhtPb

  function Max(a: int, b: int): int {
    if a >= b then a else b
  }

  /* ---------------------------------------------------------------------------------- */
  /* Cluster level                                                                       */
  /* ---------------------------------------------------------------------------------- */

  /** Setting a non-negative level and reading it back yields one less than the level, and
      0 for level 0: the stored value carries no bias, so the getter's -1 is not undone. */
  lemma SetThenGet(m: Message, level: int64)
    requires 0 <= level as int <= MAX_INT32
    ensures GetClusterLevel(SetClusterLevel(m, level)) == Max(level as int - 1, 0)
  {
  }

  /** Negative levels that fit in an int32 all read back as 0, except the smallest one,
      whose decrement wraps round to the largest int32. */
  lemma SetThenGetNegative(m: Message, level: int64)
    requires MIN_INT32 <= level as int < 0
    ensures level as int > MIN_INT32 ==> GetClusterLevel(SetClusterLevel(m, level)) == 0
    ensures level as int == MIN_INT32 ==> GetClusterLevel(SetClusterLevel(m, level)) == MAX_INT32
  {
  }

  /** Levels 0 and 1 are stored differently but read back the same, so a reader cannot tell
      them apart. */
  lemma LevelsZeroAndOneCollide(m: Message)
    ensures SetClusterLevel(m, 0) != SetClusterLevel(m, 1)
    ensures GetClusterLevel(SetClusterLevel(m, 0)) == GetClusterLevel(SetClusterLevel(m, 1)) == 0
  {
    assert SetClusterLevel(m, 0).clusterLevelRaw != SetClusterLevel(m, 1).clusterLevelRaw;
  }

  /** A new message reports the level it was built with minus one (0 for level 0). */
  lemma NewMessageLevel(typ: MessageType, key: string, level: int64)
    requires 0 <= level as int <= MAX_INT32
    ensures GetClusterLevel(NewMessage(typ, key, level)) == Max(level as int - 1, 0)
    ensures NewMessage(typ, key, level) == SetClusterLevel(NewMessage(typ, key, 0), level)
  {
  }

  /* ---------------------------------------------------------------------------------- */
  /* Connectivity                                                                        */
  /* ---------------------------------------------------------------------------------- */

  /** `Connectedness` undoes `ConnectionType` on the four named states. */
  lemma ConnectionTypeInverse(c: Net.Connectedness)
    requires c.Known()
    ensures Connectedness(ConnectionType(c)) == c
  {
  }

  /** `ConnectionType` undoes `Connectedness` on the four named wire values. */
  lemma ConnectednessInverse(t: MessageConnectionType)
    requires t.Known()
    ensures ConnectionType(Connectedness(t)) == t
  {
  }

  /** The two mappings collapse every unnamed value onto "not connected". */
  lemma UnknownIsNotConnected(c: Net.Connectedness, t: MessageConnectionType)
    ensures !c.Known() ==> ConnectionType(c) == NotConnected
    ensures !t.Known() ==> Connectedness(t) == Net.NotConnected
    ensures ConnectionType(c) == NotConnected <==> (c == Net.NotConnected || !c.Known())
    ensures Connectedness(t) == Net.NotConnected <==> (t == NotConnected || !t.Known())
  {
  }

  /* ---------------------------------------------------------------------------------- */
  /* The peer round trip                                                                 */
  /* ---------------------------------------------------------------------------------- */

  /** The parser reads back every address of `p` that the printer writes. */
  ghost predicate ReadsBack(p: Peer.Peer, show: Printer, parse: Parser) {
    forall j :: 0 <= j < |p.addresses| ==> parse(show(p.addresses[j])) == Some(p.addresses[j])
  }

  /** When the parser reads back what the printer writes, the addresses of a peer's own
      descriptor are the peer's addresses, in order. */
  lemma AddressesOfPeer(p: Peer.Peer, show: Printer, parse: Parser)
    requires ReadsBack(p, show, parse)
    ensures Addresses(Some(PeerToPBPeer(p, show)), parse) == Success(p.addresses)
  {
    var d := PeerToPBPeer(p, show);
    assert AllParse(d.addrs, parse);
    var r := Addresses(Some(d), parse);
    assert |r.value| == |p.addresses|;
    forall j | 0 <= j < |p.addresses|
      ensures r.value[j] == p.addresses[j]
    {
      assert d.addrs[j] == show(p.addresses[j]);
      assert parse(d.addrs[j]) == Some(r.value[j]);
    }
    assert r.value == p.addresses;
  }

  /** One peer written to the wire and read back: the conversion yields the same identity
      and records all of the peer's addresses. */
  lemma PeerRoundTrip(ps: Peer.Peerstore, p: Peer.Peer, show: Printer, parse: Parser, refuses: Peer.ID -> bool)
    requires ReadsBack(p, show, parse)
    requires !refuses(p.id)
    ensures var c := PBPeerToPeer(ps, Some(PeerToPBPeer(p, show)), parse, refuses);
      && c.peer == Success(p.id)
      && c.store.records[p.id] == Peer.Known(ps, p.id) + Elems(p.addresses)
  {
    AddressesOfPeer(p, show, parse);
  }

  /** When every entry converts, the converted peers are the entries' identities in order. */
  lemma {:induction false} SucceededIdsAllOk(pbps: seq<Option<MessagePeer>>, parse: Parser, refuses: Peer.ID -> bool)
    requires forall i :: 0 <= i < |pbps| ==> EntryOk(pbps[i], parse, refuses)
    ensures SucceededIds(pbps, parse, refuses) == seq(|pbps|, i requires 0 <= i < |pbps| => GetId(pbps[i]))
    decreases |pbps|
  {
    if |pbps| > 0 {
      assert forall i :: 1 <= i < |pbps| ==> pbps[i] == pbps[1..][i - 1];
      SucceededIdsAllOk(pbps[1..], parse, refuses);
    }
  }

  /** Error slots that are all empty count no errors. */
  lemma {:induction false} NoErrorsCounted(errs: seq<Option<Error>>)
    requires forall i :: 0 <= i < |errs| ==> errs[i].None?
    ensures CountErrors(errs) == 0
    decreases |errs|
  {
    if |errs| > 0 {
      assert forall i :: 1 <= i < |errs| ==> errs[i] == errs[1..][i - 1];
      NoErrorsCounted(errs[1..]);
    }
  }

  /** Entry i of an encoded batch names peer i and parses back to its addresses. */
  lemma EncodedEntry(net: Peer.Peer -> Net.Connectedness, peers: seq<Peer.Peer>, show: Printer, parse: Parser, i: nat)
    requires i < |peers| && ReadsBack(peers[i], show, parse)
    ensures var pbps := PeersToPBPeers(net, peers, show);
      && GetId(pbps[i]) == peers[i].id
      && Addresses(pbps[i], parse) == Success(peers[i].addresses)
  {
    var pbps := PeersToPBPeers(net, peers, show);
    var raw := RawPeersToPBPeers(peers, show);
    assert raw[i] == Some(PeerToPBPeer(peers[i], show));
    assert pbps[i].value.addrs == raw[i].value.addrs;
    AddressesOfPeer(peers[i], show, parse);
  }

  /** A batch of peers written to the wire (with their connectivity) and read back: every
      entry converts, no error is reported, and the peers come back by identity in the
      same order. */
  lemma BatchRoundTrip(ps: Peer.Peerstore, net: Peer.Peer -> Net.Connectedness, peers: seq<Peer.Peer>,
                       show: Printer, parse: Parser, refuses: Peer.ID -> bool)
    requires forall i :: 0 <= i < |peers| ==> ReadsBack(peers[i], show, parse)
    requires forall i :: 0 <= i < |peers| ==> !refuses(peers[i].id)
    ensures var r := PBPeersToPeers(ps, PeersToPBPeers(net, peers, show), parse, refuses);
      && r.peers == seq(|peers|, i requires 0 <= i < |peers| => peers[i].id)
      && (forall i :: 0 <= i < |peers| ==> r.errs[i].None?)
      && CountErrors(r.errs) == 0
  {
    var pbps := PeersToPBPeers(net, peers, show);
    var r := PBPeersToPeers(ps, pbps, parse, refuses);
    EncodedEntriesConvert(net, peers, show, parse, refuses);
    SucceededIdsAllOk(pbps, parse, refuses);
    assert r.peers == seq(|peers|, i requires 0 <= i < |peers| => peers[i].id);
    NoErrorsCounted(r.errs);
  }

  /** A batch of peers written to the wire and read back leaves every address of every
      peer recorded under that peer's identity. */
  lemma BatchRoundTripRecords(ps: Peer.Peerstore, net: Peer.Peer -> Net.Connectedness, peers: seq<Peer.Peer>,
                              show: Printer, parse: Parser, refuses: Peer.ID -> bool)
    requires forall i :: 0 <= i < |peers| ==> ReadsBack(peers[i], show, parse)
    requires forall i :: 0 <= i < |peers| ==> !refuses(peers[i].id)
    ensures var r := PBPeersToPeers(ps, PeersToPBPeers(net, peers, show), parse, refuses);
      forall i :: 0 <= i < |peers| ==>
        peers[i].id in r.store.records && Elems(peers[i].addresses) <= r.store.records[peers[i].id]
  {
    var pbps := PeersToPBPeers(net, peers, show);
    EncodedEntriesConvert(net, peers, show, parse, refuses);
    PBPeersToPeersAddsAddresses(ps, pbps, parse, refuses);
  }

  /** Every entry of an encoded batch converts, naming its peer and parsing back to that
      peer's addresses. */
  lemma EncodedEntriesConvert(net: Peer.Peer -> Net.Connectedness, peers: seq<Peer.Peer>,
                              show: Printer, parse: Parser, refuses: Peer.ID -> bool)
    requires forall i :: 0 <= i < |peers| ==> ReadsBack(peers[i], show, parse)
    requires forall i :: 0 <= i < |peers| ==> !refuses(peers[i].id)
    ensures var pbps := PeersToPBPeers(net, peers, show);
      forall i :: 0 <= i < |peers| ==>
        && GetId(pbps[i]) == peers[i].id
        && Addresses(pbps[i], parse) == Success(peers[i].addresses)
        && EntryOk(pbps[i], parse, refuses)
  {
    var pbps := PeersToPBPeers(net, peers, show);
    forall i | 0 <= i < |peers|
      ensures GetId(pbps[i]) == peers[i].id
      ensures Addresses(pbps[i], parse) == Success(peers[i].addresses)
      ensures EntryOk(pbps[i], parse, refuses)
    {
      EncodedEntry(net, peers, show, parse, i);
    }
  }

  /* ---------------------------------------------------------------------------------- */
  /* Partial failure                                                                     */
  /* ---------------------------------------------------------------------------------- */

  /** Error slots with exactly one error count one error. */
  lemma {:induction false} OneErrorCounted(errs: seq<Option<Error>>, bad: nat)
    requires bad < |errs| && errs[bad].Some?
    requires forall i :: 0 <= i < |errs| && i != bad ==> errs[i].None?
    ensures CountErrors(errs) == 1
    decreases |errs|
  {
    assert forall i :: 1 <= i < |errs| ==> errs[i] == errs[1..][i - 1];
    if bad == 0 {
      NoErrorsCounted(errs[1..]);
    } else {
      OneErrorCounted(errs[1..], bad - 1);
    }
  }

  /** One failing entry in a batch costs exactly that entry: its own slot holds the error,
      it is the only error, and every other entry comes back as a peer. */
  lemma SingleBadEntry(ps: Peer.Peerstore, pbps: seq<Option<MessagePeer>>, parse: Parser, refuses: Peer.ID -> bool, bad: nat)
    requires bad < |pbps| && !EntryOk(pbps[bad], parse, refuses)
    requires forall i :: 0 <= i < |pbps| && i != bad ==> EntryOk(pbps[i], parse, refuses)
    ensures var r := PBPeersToPeers(ps, pbps, parse, refuses);
      && r.errs[bad] == Some(EntryError(pbps[bad], refuses))
      && CountErrors(r.errs) == 1
      && |r.peers| == |pbps| - 1
  {
    var r := PBPeersToPeers(ps, pbps, parse, refuses);
    OneErrorCounted(r.errs, bad);
  }

  /** The parser used by the example below: it rejects exactly the text "garbage". */
  function RejectGarbage(s: string): Option<Multiaddr> {
    if s == "garbage" then None else Some(Multiaddr([]))
  }

  /** A good descriptor for the example below. */
  function Descriptor(id: string, addr: string): Option<MessagePeer> {
    Some(MessagePeer(Some(id), [addr], None))
  }

  /** Seven closer-peer descriptors, one of them with a malformed address, give six peers
      and one error, recorded in the malformed entry's slot. */
  lemma SevenEntriesOneMalformed(ps: Peer.Peerstore)
    ensures var pbps := [Descriptor("a", "/ip4/1"), Descriptor("b", "/ip4/2"), Descriptor("c", "/ip4/3"),
                         Descriptor("d", "garbage"), Descriptor("e", "/ip4/5"), Descriptor("f", "/ip4/6"),
                         Descriptor("g", "/ip4/7")];
      var r := PBPeersToPeers(ps, pbps, RejectGarbage, _ => false);
      && |r.peers| == 6
      && CountErrors(r.errs) == 1
      && r.errs[3] == Some(BadOrMissingAddresses(["garbage"]))
  {
    var pbps := [Descriptor("a", "/ip4/1"), Descriptor("b", "/ip4/2"), Descriptor("c", "/ip4/3"),
                 Descriptor("d", "garbage"), Descriptor("e", "/ip4/5"), Descriptor("f", "/ip4/6"),
                 Descriptor("g", "/ip4/7")];
    var refuses: Peer.ID -> bool := _ => false;
    assert !EntryOk(pbps[3], RejectGarbage, refuses) by {
      assert pbps[3].value.addrs[0] == "garbage";
      assert RejectGarbage(pbps[3].value.addrs[0]).None?;
    }
    forall i | 0 <= i < 7 && i != 3
      ensures EntryOk(pbps[i], RejectGarbage, refuses)
    {
      assert AllParse(pbps[i].value.addrs, RejectGarbage);
    }
    SingleBadEntry(ps, pbps, RejectGarbage, refuses, 3);
  }
}
