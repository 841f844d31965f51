/** Three places where the message helpers do not do what their comments and callers
    expect. Each comes in two halves: the code as written, with a lemma exhibiting the
    discrepancy, and a corrected definition with the intended property proved. */
module DhtPbFindings {
  import opened Wrappers
  import opened GoInts
  import opened Multiaddr
  import Peer
  import opened DhtPb

  /* ---------------------------------------------------------------------------------- */
  /* 1. SetClusterLevel stores the level without the +1 bias                             */
  /* ---------------------------------------------------------------------------------- */

  /** As written, level 1 is stored as raw 1 and read back as 0: set-then-get does not
      return the level that was set. */
  lemma SetThenGetLosesLevel(m: Message)
    ensures GetClusterLevel(SetClusterLevel(m, 1)) == 0
    ensures exists level: int64 :: 0 <= level && GetClusterLevel(SetClusterLevel(m, level)) != level as int
  {
    assert GetClusterLevel(SetClusterLevel(m, 1)) != 1;
  }

  /** The setter the comments describe: the level plus one is stored, so that an unset
      field (raw 0) can be told apart from level 0. Every other field is left alone. */
  function SetClusterLevelBiased(m: Message, level: int64): (r: Message)
    ensures r.clusterLevelRaw.Some?
    ensures (r.clusterLevelRaw.value as int - (level as int + 1)) % TWO_32 == 0
    ensures MIN_INT32 <= level as int + 1 <= MAX_INT32 ==> r.clusterLevelRaw.value as int == level as int + 1
    ensures r.(clusterLevelRaw := m.clusterLevelRaw) == m
  {
    m.(clusterLevelRaw := Some(ToInt32(level as int + 1)))
  }

  /* ---------------------------------------------------------------------------------- */
  /* 2. GetClusterLevel's decrement wraps for the smallest raw value                     */
  /* ---------------------------------------------------------------------------------- */

  /** As written, a raw value of -2^31 (which any peer can put on the wire) is read as the
      largest int32, not clamped to 0 like every other non-positive raw value. */
  lemma SmallestRawWraps(m: Message)
    requires m.clusterLevelRaw == Some(MIN_INT32 as int32)
    ensures GetClusterLevel(m) == MAX_INT32
    ensures GetClusterLevel(m.(clusterLevelRaw := Some(-1))) == 0
  {
  }

  /** The getter as intended: the raw value minus one in unbounded arithmetic, clamped at
      0, so every non-positive raw value (and an unset field) reads as level 0. */
  function GetClusterLevelClamped(m: Message): (r: int)
    ensures 0 <= r < MAX_INT32
    ensures GetClusterLevelRaw(m) <= 0 ==> r == 0
    ensures GetClusterLevelRaw(m) >= 1 ==> r == GetClusterLevelRaw(m) as int - 1
  {
    var level := GetClusterLevelRaw(m) as int - 1;
    if level < 0 then 0 else level
  }

  /** With both corrections, every level whose biased form fits in an int32 survives
      set-then-get, and levels 0 and 1 stay distinct from each other and from "unset". */
  lemma BiasedRoundTrip(m: Message, level: int64)
    requires 0 <= level as int < MAX_INT32
    ensures GetClusterLevelClamped(SetClusterLevelBiased(m, level)) == level as int
    ensures SetClusterLevelBiased(m, level).clusterLevelRaw != Some(0)
  {
  }

  /* ---------------------------------------------------------------------------------- */
  /* 3. PBPeerToPeer dereferences a nil descriptor to build its error                    */
  /* ---------------------------------------------------------------------------------- */

  /** What a conversion does in the code as written: it returns, or it panics (a nil
      pointer dereference) after changing the peerstore to `store`. */
  datatype Outcome = Returned(conversion: Conversion) | Panicked(store: Peer.Peerstore)

  /** `PBPeerToPeer` as written: for a nil descriptor `GetId` yields "", the record for ""
      is found or created, `Addresses` reports the nil descriptor, and formatting the error
      message then reads the nil descriptor's address field, which panics. */
  function PBPeerToPeerAsWritten(ps: Peer.Peerstore, pbp: Option<MessagePeer>, parse: Parser, refuses: Peer.ID -> bool): (r: Outcome)
    ensures r.Panicked? <==> pbp.None? && !refuses("")
    ensures r.Panicked? ==> r.store.records.Keys == ps.records.Keys + {""}
    ensures r.Panicked? ==> Peer.Extends(ps, r.store)
    ensures r.Returned? ==> r.conversion == PBPeerToPeer(ps, pbp, parse, refuses)
  {
    var id := GetId(pbp);
    match Peer.FindOrCreate(ps, id, refuses)
    case None => Returned(Conversion(ps, Failure(PeerstoreFailure(id))))
    case Some(found) =>
      match Addresses(pbp, parse)
      case Failure(_) =>
        (match pbp
         case None => Panicked(found)
         case Some(d) => Returned(Conversion(found, Failure(BadOrMissingAddresses(d.addrs)))))
      case Success(maddrs) => Returned(Conversion(Peer.AddAddresses(found, id, maddrs), Success(id)))
  }

  /** What a batch conversion does in the code as written: it returns, or it panics after
      changing the shared peerstore to `store`. */
  datatype BatchOutcome = Completed(batch: Batch) | BatchPanicked(store: Peer.Peerstore)

  /** `PBPeersToPeers` as written: nothing recovers from a panic, so the first panicking
      entry ends the whole batch. The peerstore is shared, so what the entries before it
      (and the panicking entry's find-or-create) stored stays in it. */
  function PBPeersToPeersAsWritten(ps: Peer.Peerstore, pbps: seq<Option<MessagePeer>>, parse: Parser, refuses: Peer.ID -> bool): (r: BatchOutcome)
    ensures r.BatchPanicked? <==> !refuses("") && exists i :: 0 <= i < |pbps| && pbps[i].None?
    ensures r.BatchPanicked? ==> "" in r.store.records && Peer.Extends(ps, r.store)
    ensures r.Completed? ==> r.batch == PBPeersToPeers(ps, pbps, parse, refuses)
    decreases |pbps|
  {
    if |pbps| == 0 then Completed(Batch(ps, [], []))
    else
      match PBPeerToPeerAsWritten(ps, pbps[0], parse, refuses)
      case Panicked(store) => BatchPanicked(store)
      case Returned(c) =>
        assert forall i :: 1 <= i < |pbps| ==> pbps[i] == pbps[1..][i - 1];
        match PBPeersToPeersAsWritten(c.store, pbps[1..], parse, refuses)
        case BatchPanicked(store) =>
          Peer.ExtendsTransitive(ps, c.store, store);
          BatchPanicked(store)
        case Completed(rest) =>
          match c.peer
          case Success(id) => Completed(Batch(rest.store, [id] + rest.peers, [None] + rest.errs))
          case Failure(e) => Completed(Batch(rest.store, rest.peers, [Some(e)] + rest.errs))
  }

  /** One nil entry among good ones: the code as written panics, leaving the good peer's
      record and the "" record in the store but returning nothing, while the corrected
      conversion keeps the good peer and reports the nil entry in its slot. */
  lemma NilEntryPoisonsBatch(ps: Peer.Peerstore)
    ensures var pbps := [Some(MessagePeer(Some("a"), [], None)), None];
      && PBPeersToPeersAsWritten(ps, pbps, _ => None, _ => false).BatchPanicked?
      && "a" in PBPeersToPeersAsWritten(ps, pbps, _ => None, _ => false).store.records
      && PBPeersToPeers(ps, pbps, _ => None, _ => false).peers == ["a"]
      && PBPeersToPeers(ps, pbps, _ => None, _ => false).errs == [None, Some(BadOrMissingAddresses([]))]
  {
    var pbps := [Some(MessagePeer(Some("a"), [], None)), None];
    var parse: Parser := _ => None;
    var refuses: Peer.ID -> bool := _ => false;
    assert pbps[1].None?;
    assert EntryOk(pbps[0], parse, refuses) by {
      assert AllParse(pbps[0].value.addrs, parse);
    }
    assert !EntryOk(pbps[1], parse, refuses);
    var r := PBPeersToPeers(ps, pbps, parse, refuses);
    assert r.errs == [None, Some(BadOrMissingAddresses([]))] by {
      assert |r.errs| == 2 && r.errs[0].None? && r.errs[1] == Some(EntryError(pbps[1], refuses));
    }
    assert r.peers == ["a"] by {
      assert pbps[1..] == [None];
      assert SucceededIds(pbps[1..], parse, refuses) == [];
    }
  }
}
