/** The DHT protocol message helpers: building messages, the cluster-level field, the
    connectivity enum and its wire form, and the conversions between live peers and the
    peer descriptors carried in messages. */
module DhtPb {
  import opened Wrappers
  import opened GoInts
  import opened Multiaddr
  import Net
  import Peer

  /** `Message_MessageType`. Being a protobuf enum it can carry codes other than the six
      named ones, and `NewMessage` stores whatever it is given. `UnknownMessageType` stands
      for one such code; its `code` is an opaque tag telling such codes apart, not the wire
      number, so every `UnknownMessageType` is distinct from the six named values. */
  datatype MessageType =
    | PutValue
    | GetValue
    | AddProvider
    | GetProviders
    | FindNode
    | Ping
    | UnknownMessageType(code: int32)

  /** `Message_ConnectionType`, the wire form of a connectivity state. Being a protobuf enum
      it can carry codes other than the four named ones. `UnknownConnectionType` stands for
      one such code; its `code` is an opaque tag telling such codes apart, not the wire
      number, so every `UnknownConnectionType` is distinct from the four named values. */
  datatype MessageConnectionType =
    | NotConnected
    | Connected
    | CanConnect
    | CannotConnect
    | UnknownConnectionType(code: int32)
  {
    /** True for the four named values. */
    predicate Known() {
      !UnknownConnectionType?
    }
  }

  /** `Message_Peer`: a peer descriptor on the wire. `id` and `connection` are optional. */
  datatype MessagePeer = MessagePeer(
    id: Option<string>,
    addrs: seq<string>,
    connection: Option<MessageConnectionType>)

  /** `Message`. Optional fields may be unset; a nil entry of `closerPeers` is `None`. The
      raw cluster level is the wire field behind `GetClusterLevel`/`SetClusterLevel`. */
  datatype Message = Message(
    msgType: Option<MessageType>,
    key: Option<string>,
    value: Option<seq<bv8>>,
    closerPeers: seq<Option<MessagePeer>>,
    clusterLevelRaw: Option<int32>)

  /** The errors the helpers return. */
  datatype Error =
    | NilMessagePeer                          // `Addresses` on a nil descriptor
    | MultiaddrParse(addr: string)            // the parser rejected this address
    | PeerstoreFailure(id: Peer.ID)           // `FindOrCreate` failed for this identity
    | BadOrMissingAddresses(addrs: seq<string>)

  /* ---------------------------------------------------------------------------------- */
  /* Messages and the cluster level                                                      */
  /* ---------------------------------------------------------------------------------- */

  /** `NewMessage`: a message with the given type and key and the cluster level stored by
      `SetClusterLevel`; no other field is set. */
  function NewMessage(typ: MessageType, key: string, level: int64): (m: Message)
    ensures m.msgType == Some(typ) && m.key == Some(key)
    ensures m.value.None? && m.closerPeers == []
    ensures m.clusterLevelRaw == Some(ToInt32(level as int))
  {
    SetClusterLevel(Message(Some(typ), Some(key), None, [], None), level)
  }

  /** `SetClusterLevel` as the code writes it: the level, truncated to 32 bits, is stored
      as the raw field with no +1 bias. Every other field is left alone. */
  function SetClusterLevel(m: Message, level: int64): (r: Message)
    ensures r.clusterLevelRaw.Some?
    ensures (r.clusterLevelRaw.value as int - level as int) % TWO_32 == 0
    ensures MIN_INT32 <= level as int <= MAX_INT32 ==> r.clusterLevelRaw.value as int == level as int
    ensures r.(clusterLevelRaw := m.clusterLevelRaw) == m
  {
    m.(clusterLevelRaw := Some(ToInt32(level as int)))
  }

  /** The generated getter: the raw field, or 0 when it is unset. */
  function GetClusterLevelRaw(m: Message): (r: int32)
    ensures m.clusterLevelRaw.Some? ==> r == m.clusterLevelRaw.value
    ensures m.clusterLevelRaw.None? ==> r == 0
  {
    m.clusterLevelRaw.GetOr(0)
  }

  /** `GetClusterLevel`: the raw field minus one, or 0 when that is negative. The
      subtraction is int32 arithmetic, so the smallest raw value wraps round to the largest
      int32 instead of being clamped. */
  function GetClusterLevel(m: Message): (r: int)
    ensures 0 <= r <= MAX_INT32
    ensures m.clusterLevelRaw.None? ==> r == 0
    ensures GetClusterLevelRaw(m) >= 1 ==> r == GetClusterLevelRaw(m) as int - 1
    ensures MIN_INT32 < GetClusterLevelRaw(m) as int <= 0 ==> r == 0
    ensures GetClusterLevelRaw(m) as int == MIN_INT32 ==> r == MAX_INT32
  {
    var level := ToInt32(GetClusterLevelRaw(m) as int - 1);
    if level < 0 then 0 else level as int
  }

  /* ---------------------------------------------------------------------------------- */
  /* Connectivity                                                                        */
  /* ---------------------------------------------------------------------------------- */

  /** The pairing of each named connectivity state with its wire name. */
  predicate Mirrors(c: Net.Connectedness, t: MessageConnectionType) {
    || (c == Net.NotConnected && t == NotConnected)
    || (c == Net.Connected && t == Connected)
    || (c == Net.CanConnect && t == CanConnect)
    || (c == Net.CannotConnect && t == CannotConnect)
  }

  /** `ConnectionType`: the wire name of a connectivity state; anything unnamed is sent as
      not connected. */
  function ConnectionType(c: Net.Connectedness): (r: MessageConnectionType)
    ensures r.Known()
    ensures c.Known() ==> Mirrors(c, r)
    ensures !c.Known() ==> r == NotConnected
  {
    match c
    case NotConnected => NotConnected
    case Connected => Connected
    case CanConnect => CanConnect
    case CannotConnect => CannotConnect
    case UnknownConnectedness(_) => NotConnected
  }

  /** `Connectedness`: the connectivity state a wire name stands for; an unnamed code is
      read as not connected. */
  function Connectedness(t: MessageConnectionType): (r: Net.Connectedness)
    ensures r.Known()
    ensures t.Known() ==> Mirrors(r, t)
    ensures !t.Known() ==> r == Net.NotConnected
  {
    match t
    case NotConnected => Net.NotConnected
    case Connected => Net.Connected
    case CanConnect => Net.CanConnect
    case CannotConnect => Net.CannotConnect
    case UnknownConnectionType(_) => Net.NotConnected
  }

  /* ---------------------------------------------------------------------------------- */
  /* From the wire to peers                                                              */
  /* ---------------------------------------------------------------------------------- */

  /** The generated getter `GetId`: "" for a nil descriptor or an unset id. */
  function GetId(pbp: Option<MessagePeer>): (r: Peer.ID)
    ensures pbp.Some? && pbp.value.id.Some? ==> r == pbp.value.id.value
    ensures pbp.None? || pbp.value.id.None? ==> r == ""
  {
    match pbp
    case None => ""
    case Some(d) => d.id.GetOr("")
  }

  /** Every address of `addrs` parses. */
  ghost predicate AllParse(addrs: seq<string>, parse: Parser) {
    forall i :: 0 <= i < |addrs| ==> parse(addrs[i]).Some?
  }

  /** `k` is the first position of `addrs` that does not parse. */
  ghost predicate FirstUnparsable(addrs: seq<string>, parse: Parser, k: int) {
    && 0 <= k < |addrs|
    && parse(addrs[k]).None?
    && forall j :: 0 <= j < k ==> parse(addrs[j]).Some?
  }

  /** The loop of `Addresses`: parse each address in order, stopping at the first that
      fails and reporting that one. */
  function ParseAll(addrs: seq<string>, parse: Parser): (r: Result<seq<Multiaddr>, Error>)
    ensures r.Success? <==> AllParse(addrs, parse)
    ensures r.Success? ==>
      && |r.value| == |addrs|
      && forall i :: 0 <= i < |addrs| ==> parse(addrs[i]) == Some(r.value[i])
    ensures r.Failure? ==>
      exists k :: FirstUnparsable(addrs, parse, k) && r.error == MultiaddrParse(addrs[k])
    decreases |addrs|
  {
    if |addrs| == 0 then Success([])
    else
      match parse(addrs[0])
      case None =>
        assert FirstUnparsable(addrs, parse, 0);
        Failure(MultiaddrParse(addrs[0]))
      case Some(a) =>
        var rest := ParseAll(addrs[1..], parse);
        match rest
        case Success(tail) =>
          assert forall i :: 1 <= i < |addrs| ==> addrs[i] == addrs[1..][i - 1];
          Success([a] + tail)
        case Failure(e) =>
          assert exists k :: FirstUnparsable(addrs, parse, k) && e == MultiaddrParse(addrs[k]) by {
            var k :| FirstUnparsable(addrs[1..], parse, k) && e == MultiaddrParse(addrs[1..][k]);
            assert forall j :: 1 <= j < k + 1 ==> addrs[j] == addrs[1..][j - 1];
            assert FirstUnparsable(addrs, parse, k + 1);
          }
          Failure(e)
  }

  /** `Message_Peer.Addresses`: the parsed addresses of a descriptor, in order, or an error
      when the descriptor is nil or any one of its addresses does not parse. */
  function Addresses(pbp: Option<MessagePeer>, parse: Parser): (r: Result<seq<Multiaddr>, Error>)
    ensures pbp.None? ==> r == Failure(NilMessagePeer)
    ensures pbp.Some? ==> (r.Success? <==> AllParse(pbp.value.addrs, parse))
    ensures r.Success? ==>
      && pbp.Some?
      && |r.value| == |pbp.value.addrs|
      && forall i :: 0 <= i < |r.value| ==> parse(pbp.value.addrs[i]) == Some(r.value[i])
    ensures pbp.Some? && r.Failure? ==>
      exists k :: FirstUnparsable(pbp.value.addrs, parse, k) && r.error == MultiaddrParse(pbp.value.addrs[k])
  {
    match pbp
    case None => Failure(NilMessagePeer)
    case Some(d) => ParseAll(d.addrs, parse)
  }

  /** The address strings a descriptor's error message reports; a nil descriptor has none. */
  function AddrsOf(pbp: Option<MessagePeer>): seq<string> {
    match pbp
    case None => []
    case Some(d) => d.addrs
  }

  /** Converting `pbp` succeeds: the peerstore accepts its identity and all its addresses
      parse. Because the model's `refuses` depends on the identity alone, this never depends
      on what the peerstore holds. */
  ghost predicate EntryOk(pbp: Option<MessagePeer>, parse: Parser, refuses: Peer.ID -> bool) {
    !refuses(GetId(pbp)) && Addresses(pbp, parse).Success?
  }

  /** The error reported for a descriptor whose conversion fails. */
  function EntryError(pbp: Option<MessagePeer>, refuses: Peer.ID -> bool): Error {
    if refuses(GetId(pbp)) then PeerstoreFailure(GetId(pbp)) else BadOrMissingAddresses(AddrsOf(pbp))
  }

  /** The peerstore after a conversion and the peer (by identity) or the error. */
  datatype Conversion = Conversion(store: Peer.Peerstore, peer: Result<Peer.ID, Error>)

  /** `PBPeerToPeer`: find or create the record of the descriptor's identity, then add every
      parsed address to it. The record is created before the addresses are parsed, so it
      survives an address failure; in that case no address is added. A nil descriptor is
      reported as an error (see Findings in README.md for what the code does instead). */
  function PBPeerToPeer(ps: Peer.Peerstore, pbp: Option<MessagePeer>, parse: Parser, refuses: Peer.ID -> bool): (r: Conversion)
    ensures r.peer.Success? <==> EntryOk(pbp, parse, refuses)
    ensures r.peer.Success? ==> r.peer.value == GetId(pbp)
    ensures r.peer.Failure? ==> r.peer.error == EntryError(pbp, refuses)
    ensures refuses(GetId(pbp)) ==> r.store == ps
    ensures !refuses(GetId(pbp)) ==> r.store.records.Keys == ps.records.Keys + {GetId(pbp)}
    ensures !refuses(GetId(pbp)) && r.peer.Failure? ==> r.store.records[GetId(pbp)] == Peer.Known(ps, GetId(pbp))
    ensures r.peer.Success? ==>
      r.store.records[GetId(pbp)] == Peer.Known(ps, GetId(pbp)) + Elems(Addresses(pbp, parse).value)
    ensures forall k :: k in ps.records && k != GetId(pbp) ==> r.store.records[k] == ps.records[k]
    ensures Peer.Extends(ps, r.store)
  {
    var id := GetId(pbp);
    match Peer.FindOrCreate(ps, id, refuses)
    case None => Conversion(ps, Failure(PeerstoreFailure(id)))
    case Some(found) =>
      match Addresses(pbp, parse)
      case Failure(_) => Conversion(found, Failure(BadOrMissingAddresses(AddrsOf(pbp))))
      case Success(maddrs) => Conversion(Peer.AddAddresses(found, id, maddrs), Success(id))
  }

  /** The identities of the descriptors that convert, in input order. */
  ghost function SucceededIds(pbps: seq<Option<MessagePeer>>, parse: Parser, refuses: Peer.ID -> bool): (r: seq<Peer.ID>)
    decreases |pbps|
  {
    if |pbps| == 0 then []
    else
      (if EntryOk(pbps[0], parse, refuses) then [GetId(pbps[0])] else [])
      + SucceededIds(pbps[1..], parse, refuses)
  }

  /** The number of error slots that hold an error. */
  function CountErrors(errs: seq<Option<Error>>): nat
    decreases |errs|
  {
    if |errs| == 0 then 0 else (if errs[0].Some? then 1 else 0) + CountErrors(errs[1..])
  }

  /** The identities named by a batch of descriptors. */
  ghost function Ids(pbps: seq<Option<MessagePeer>>): set<Peer.ID> {
    set i | 0 <= i < |pbps| :: GetId(pbps[i])
  }

  /** The identities of a batch the peerstore accepts. */
  ghost function Created(pbps: seq<Option<MessagePeer>>, refuses: Peer.ID -> bool): set<Peer.ID> {
    set i | 0 <= i < |pbps| && !refuses(GetId(pbps[i])) :: GetId(pbps[i])
  }

  lemma CreatedSplit(pbps: seq<Option<MessagePeer>>, refuses: Peer.ID -> bool)
    requires |pbps| > 0
    ensures Created(pbps, refuses)
      == (if refuses(GetId(pbps[0])) then {} else {GetId(pbps[0])}) + Created(pbps[1..], refuses)
  {
    var head: set<Peer.ID> := if refuses(GetId(pbps[0])) then {} else {GetId(pbps[0])};
    forall id | id in Created(pbps, refuses)
      ensures id in head + Created(pbps[1..], refuses)
    {
      var i :| 0 <= i < |pbps| && !refuses(GetId(pbps[i])) && id == GetId(pbps[i]);
      if i > 0 {
        assert pbps[1..][i - 1] == pbps[i];
      }
    }
    forall id | id in Created(pbps[1..], refuses)
      ensures id in Created(pbps, refuses)
    {
      var i :| 0 <= i < |pbps[1..]| && !refuses(GetId(pbps[1..][i])) && id == GetId(pbps[1..][i]);
      assert pbps[i + 1] == pbps[1..][i];
    }
  }

  /** The result of a batch conversion: the peerstore after it, the peers that converted,
      and one error slot per input descriptor. */
  datatype Batch = Batch(store: Peer.Peerstore, peers: seq<Peer.ID>, errs: seq<Option<Error>>)

  /** `PBPeersToPeers`: convert each descriptor in turn, threading the peerstore. A failing
      entry fills its own error slot and is left out of the peers; it never fails the batch
      (a nil entry: see Findings in README.md for what the code does instead). */
  function PBPeersToPeers(ps: Peer.Peerstore, pbps: seq<Option<MessagePeer>>, parse: Parser, refuses: Peer.ID -> bool): (r: Batch)
    ensures |r.errs| == |pbps|
    ensures forall i :: 0 <= i < |pbps| ==> (r.errs[i].None? <==> EntryOk(pbps[i], parse, refuses))
    ensures forall i :: 0 <= i < |pbps| && r.errs[i].Some? ==> r.errs[i].value == EntryError(pbps[i], refuses)
    ensures r.peers == SucceededIds(pbps, parse, refuses)
    ensures |r.peers| + CountErrors(r.errs) == |pbps|
    decreases |pbps|
  {
    if |pbps| == 0 then Batch(ps, [], [])
    else
      var c := PBPeerToPeer(ps, pbps[0], parse, refuses);
      var rest := PBPeersToPeers(c.store, pbps[1..], parse, refuses);
      assert forall i :: 1 <= i < |pbps| ==> pbps[i] == pbps[1..][i - 1];
      match c.peer
      case Success(id) => Batch(rest.store, [id] + rest.peers, [None] + rest.errs)
      case Failure(e) => Batch(rest.store, rest.peers, [Some(e)] + rest.errs)
  }

  /* ---------------------------------------------------------------------------------- */
  /* From peers to the wire                                                              */
  /* ---------------------------------------------------------------------------------- */

  /** `peerToPBPeer`: a descriptor carrying the peer's identity and the text of each of its
      addresses, in order; the connection field is left unset. */
  function PeerToPBPeer(p: Peer.Peer, show: Printer): (r: MessagePeer)
    ensures r.id == Some(p.id) && r.connection.None?
    ensures |r.addrs| == |p.addresses|
    ensures forall i :: 0 <= i < |p.addresses| ==> r.addrs[i] == show(p.addresses[i])
  {
    MessagePeer(Some(p.id), seq(|p.addresses|, i requires 0 <= i < |p.addresses| => show(p.addresses[i])), None)
  }

  /** `RawPeersToPBPeers`: one non-nil descriptor per peer, in order, each carrying that
      peer's identity and address texts and no connection. */
  function RawPeersToPBPeers(peers: seq<Peer.Peer>, show: Printer): (r: seq<Option<MessagePeer>>)
    ensures |r| == |peers|
    ensures forall i :: 0 <= i < |peers| ==>
      && r[i].Some?
      && r[i].value.id == Some(peers[i].id)
      && r[i].value.connection.None?
      && |r[i].value.addrs| == |peers[i].addresses|
      && (forall j :: 0 <= j < |peers[i].addresses| ==> r[i].value.addrs[j] == show(peers[i].addresses[j]))
  {
    seq(|peers|, i requires 0 <= i < |peers| => Some(PeerToPBPeer(peers[i], show)))
  }

  /** `PeersToPBPeers`: the descriptors of `RawPeersToPBPeers`, each also carrying the wire
      name of the network's current connectivity to that peer; nothing else differs. */
  function PeersToPBPeers(net: Peer.Peer -> Net.Connectedness, peers: seq<Peer.Peer>, show: Printer): (r: seq<Option<MessagePeer>>)
    ensures |r| == |peers|
    ensures forall i :: 0 <= i < |peers| ==>
      && r[i].Some?
      && r[i].value.connection.Some?
      && r[i].value.connection.value.Known()
      && (net(peers[i]).Known() ==> Mirrors(net(peers[i]), r[i].value.connection.value))
      && (!net(peers[i]).Known() ==> r[i].value.connection.value == NotConnected)
      && Some(r[i].value.(connection := None)) == RawPeersToPBPeers(peers, show)[i]
  {
    var raw := RawPeersToPBPeers(peers, show);
    seq(|raw|, i requires 0 <= i < |raw| => Some(raw[i].value.(connection := Some(ConnectionType(net(peers[i]))))))
  }

  /** A batch conversion only adds to the peerstore. */
  lemma {:induction false} PBPeersToPeersGrows(ps: Peer.Peerstore, pbps: seq<Option<MessagePeer>>, parse: Parser, refuses: Peer.ID -> bool)
    ensures Peer.Extends(ps, PBPeersToPeers(ps, pbps, parse, refuses).store)
    decreases |pbps|
  {
    if |pbps| > 0 {
      var c := PBPeerToPeer(ps, pbps[0], parse, refuses);
      var rest := PBPeersToPeers(c.store, pbps[1..], parse, refuses);
      assert PBPeersToPeers(ps, pbps, parse, refuses).store == rest.store;
      PBPeersToPeersGrows(c.store, pbps[1..], parse, refuses);
      Peer.ExtendsTransitive(ps, c.store, rest.store);
    }
  }

  /** After a batch conversion the peerstore holds a record for exactly the identities it
      held before and those of the batch it accepted, whether or not their addresses
      parsed. */
  lemma {:induction false} PBPeersToPeersRecords(ps: Peer.Peerstore, pbps: seq<Option<MessagePeer>>, parse: Parser, refuses: Peer.ID -> bool)
    ensures PBPeersToPeers(ps, pbps, parse, refuses).store.records.Keys == ps.records.Keys + Created(pbps, refuses)
    decreases |pbps|
  {
    if |pbps| > 0 {
      var c := PBPeerToPeer(ps, pbps[0], parse, refuses);
      var rest := PBPeersToPeers(c.store, pbps[1..], parse, refuses);
      assert PBPeersToPeers(ps, pbps, parse, refuses).store == rest.store;
      PBPeersToPeersRecords(c.store, pbps[1..], parse, refuses);
      CreatedSplit(pbps, refuses);
    }
  }

  /** Every entry of a batch that converts has all its parsed addresses in the peerstore
      afterwards. */
  lemma {:induction false} PBPeersToPeersAddsAddresses(ps: Peer.Peerstore, pbps: seq<Option<MessagePeer>>, parse: Parser, refuses: Peer.ID -> bool)
    ensures var r := PBPeersToPeers(ps, pbps, parse, refuses);
      forall i :: 0 <= i < |pbps| && EntryOk(pbps[i], parse, refuses) ==>
        && GetId(pbps[i]) in r.store.records
        && Elems(Addresses(pbps[i], parse).value) <= r.store.records[GetId(pbps[i])]
    decreases |pbps|
  {
    if |pbps| > 0 {
      var c := PBPeerToPeer(ps, pbps[0], parse, refuses);
      var rest := PBPeersToPeers(c.store, pbps[1..], parse, refuses);
      assert PBPeersToPeers(ps, pbps, parse, refuses).store == rest.store;
      PBPeersToPeersAddsAddresses(c.store, pbps[1..], parse, refuses);
      PBPeersToPeersGrows(c.store, pbps[1..], parse, refuses);
      forall i | 0 <= i < |pbps| && EntryOk(pbps[i], parse, refuses)
        ensures GetId(pbps[i]) in rest.store.records
        ensures Elems(Addresses(pbps[i], parse).value) <= rest.store.records[GetId(pbps[i])]
      {
        if i == 0 {
          assert Elems(Addresses(pbps[0], parse).value) <= c.store.records[GetId(pbps[0])];
        } else {
          assert pbps[i] == pbps[1..][i - 1];
        }
      }
    }
  }

  /** A batch conversion leaves the record of every identity it does not name unchanged. */
  lemma {:induction false} PBPeersToPeersUntouched(ps: Peer.Peerstore, pbps: seq<Option<MessagePeer>>, parse: Parser, refuses: Peer.ID -> bool)
    ensures var r := PBPeersToPeers(ps, pbps, parse, refuses);
      forall k :: k in ps.records && k !in Ids(pbps) ==> k in r.store.records && r.store.records[k] == ps.records[k]
    decreases |pbps|
  {
    if |pbps| > 0 {
      var c := PBPeerToPeer(ps, pbps[0], parse, refuses);
      var rest := PBPeersToPeers(c.store, pbps[1..], parse, refuses);
      assert PBPeersToPeers(ps, pbps, parse, refuses).store == rest.store;
      PBPeersToPeersUntouched(c.store, pbps[1..], parse, refuses);
      assert forall i :: 1 <= i < |pbps| ==> pbps[i] == pbps[1..][i - 1];
      assert Ids(pbps) == {GetId(pbps[0])} + Ids(pbps[1..]);
    }
  }

  /** The addresses a batch adds under identity `k`: the parsed addresses of every entry
      that converts and names `k`, and nothing from an entry that fails. */
  ghost function Gained(pbps: seq<Option<MessagePeer>>, parse: Parser, refuses: Peer.ID -> bool, k: Peer.ID): set<Multiaddr>
    decreases |pbps|
  {
    if |pbps| == 0 then {}
    else
      (if EntryOk(pbps[0], parse, refuses) && GetId(pbps[0]) == k
       then Elems(Addresses(pbps[0], parse).value) else {})
      + Gained(pbps[1..], parse, refuses, k)
  }

  /** One conversion changes the addresses held for `k` by exactly what that entry gains:
      nothing when it fails, its parsed addresses when it converts and names `k`. */
  lemma PBPeerToPeerKnown(ps: Peer.Peerstore, pbp: Option<MessagePeer>, parse: Parser, refuses: Peer.ID -> bool, k: Peer.ID)
    ensures Peer.Known(PBPeerToPeer(ps, pbp, parse, refuses).store, k)
      == Peer.Known(ps, k)
         + (if EntryOk(pbp, parse, refuses) && GetId(pbp) == k then Elems(Addresses(pbp, parse).value) else {})
  {
    var c := PBPeerToPeer(ps, pbp, parse, refuses);
    if k != GetId(pbp) && k !in ps.records {
      assert k !in c.store.records;
    }
  }

  /** The exact addresses held for every identity after a batch: what the store held before
      plus what the converting entries naming that identity parsed. No failing entry adds an
      address, and no address comes from anywhere else. */
  lemma {:induction false} PBPeersToPeersRecordContents(ps: Peer.Peerstore, pbps: seq<Option<MessagePeer>>, parse: Parser, refuses: Peer.ID -> bool, k: Peer.ID)
    ensures Peer.Known(PBPeersToPeers(ps, pbps, parse, refuses).store, k)
      == Peer.Known(ps, k) + Gained(pbps, parse, refuses, k)
    decreases |pbps|
  {
    if |pbps| > 0 {
      var c := PBPeerToPeer(ps, pbps[0], parse, refuses);
      var rest := PBPeersToPeers(c.store, pbps[1..], parse, refuses);
      assert PBPeersToPeers(ps, pbps, parse, refuses).store == rest.store;
      PBPeersToPeersRecordContents(c.store, pbps[1..], parse, refuses, k);
      PBPeerToPeerKnown(ps, pbps[0], parse, refuses, k);
    }
  }

  /** A batch in which no entry converts adds no address to any record. */
  lemma NoConversionAddsNothing(ps: Peer.Peerstore, pbps: seq<Option<MessagePeer>>, parse: Parser, refuses: Peer.ID -> bool, k: Peer.ID)
    requires forall i :: 0 <= i < |pbps| ==> !EntryOk(pbps[i], parse, refuses)
    ensures Peer.Known(PBPeersToPeers(ps, pbps, parse, refuses).store, k) == Peer.Known(ps, k)
  {
    PBPeersToPeersRecordContents(ps, pbps, parse, refuses, k);
    NothingGained(pbps, parse, refuses, k);
  }

  lemma {:induction false} NothingGained(pbps: seq<Option<MessagePeer>>, parse: Parser, refuses: Peer.ID -> bool, k: Peer.ID)
    requires forall i :: 0 <= i < |pbps| ==> !EntryOk(pbps[i], parse, refuses)
    ensures Gained(pbps, parse, refuses, k) == {}
    decreases |pbps|
  {
    if |pbps| > 0 {
      assert forall i :: 1 <= i < |pbps| ==> pbps[i] == pbps[1..][i - 1];
      NothingGained(pbps[1..], parse, refuses, k);
    }
  }

  /** A descriptor with an empty address list is accepted: the parse loop never runs, so its
      address list parses to nothing, although the error text speaks of "missing" addresses. */
  lemma EmptyAddressListAccepted(id: Option<string>, c: Option<MessageConnectionType>, parse: Parser, refuses: Peer.ID -> bool)
    ensures Addresses(Some(MessagePeer(id, [], c)), parse) == Success([])
    ensures EntryOk(Some(MessagePeer(id, [], c)), parse, refuses) <==> !refuses(GetId(Some(MessagePeer(id, [], c))))
  {
  }
}
