/** The server's view of its clients: a peer record per client, keyed by the client's unique id,
    and the list the server keeps them in. A peer is identified by its position in that list,
    which only ever grows, so a position stands for the Java object reference. */
module Peers {
  import opened Wrappers
  import opened JavaInts

  /** The transport a connection runs over. */
  datatype ConnectionType = Bluetooth | WifiDirect

  /** Port the Wi-Fi Direct server listens on. */
  const WIFI_DIRECT_SERVER_PORT := 8888
  /** Port a Wi-Fi Direct client listens on for the server's pushes. */
  const WIFI_DIRECT_CLIENT_PORT := 8889

  /** Where the server reaches the peer: a paired Bluetooth device, or an IP address and port. */
  datatype Endpoint = BluetoothDevice(device: string) | SocketAddress(ip: string, port: int)

  /** `Peer`: the unique id (a null id is possible, see `GetPeer`), the transport, the endpoint
      of the concrete subclass, the last-update time in UNIX seconds and the active flag. */
  datatype Peer = Peer(uniqueId: Option<string>, connectionType: ConnectionType, endpoint: Endpoint,
                       lastUpdateTime: int, active: bool)

  /** What the server knows of an accepted connection: the type it reports (null for an unknown
      one) and the remote end of the concrete connection class. */
  datatype Link = Link(reported: Option<ConnectionType>, remote: Endpoint)

  /** The constructor of a peer subclass: active, never updated. */
  function NewPeer(id: Option<string>, t: ConnectionType, endpoint: Endpoint): (p: Peer)
    ensures p.active && p.lastUpdateTime == 0
    ensures p.uniqueId == id && p.connectionType == t && p.endpoint == endpoint
  {
    Peer(id, t, endpoint, 0, true)
  }

  /** `Peer.getPeer`: the subclass follows the reported type. A Wi-Fi Direct peer is reached on the
      client port at the connection's remote IP. A connection whose class does not match the type
      it reports fails the cast; an unknown type is rejected. */
  function PeerFor(id: Option<string>, link: Link): (r: Result<Peer>)
    ensures r.Ok? ==> r.value.uniqueId == id && r.value.active && r.value.lastUpdateTime == 0
    ensures r.Ok? ==> Some(r.value.connectionType) == link.reported
    ensures link.reported == Some(Bluetooth) && link.remote.BluetoothDevice? ==> r.Ok? && r.value.endpoint == link.remote
    ensures link.reported == Some(WifiDirect) && link.remote.SocketAddress? ==>
              r.Ok? && r.value.endpoint == SocketAddress(link.remote.ip, WIFI_DIRECT_CLIENT_PORT)
    ensures link.reported.None? ==> r == Err(IllegalArgumentException)
    ensures r.Err? && link.reported.Some? ==> r.error == ClassCastException
  {
    match link.reported
    case Some(Bluetooth) =>
      if link.remote.BluetoothDevice? then Ok(NewPeer(id, Bluetooth, link.remote))
      else Err(ClassCastException)
    case Some(WifiDirect) =>
      if link.remote.SocketAddress? then Ok(NewPeer(id, WifiDirect, SocketAddress(link.remote.ip, WIFI_DIRECT_CLIENT_PORT)))
      else Err(ClassCastException)
    case None => Err(IllegalArgumentException)
  }

  /** `setActive`: only the flag changes. */
  function SetActive(p: Peer, b: bool): (r: Peer)
    ensures r.active == b
    ensures r.uniqueId == p.uniqueId && r.connectionType == p.connectionType && r.endpoint == p.endpoint
    ensures r.lastUpdateTime == p.lastUpdateTime
  {
    p.(active := b)
  }

  /** `setLastUpdateTime`: only the time changes. */
  function SetLastUpdateTime(p: Peer, t: int): (r: Peer)
    ensures r.lastUpdateTime == t
    ensures r.uniqueId == p.uniqueId && r.connectionType == p.connectionType && r.endpoint == p.endpoint
    ensures r.active == p.active
  {
    p.(lastUpdateTime := t)
  }

  /** `setLastUpdateTimeNow`: the clock's milliseconds divided down to whole seconds, then cast to
      an int. */
  function SetLastUpdateTimeNow(p: Peer, nowMillis: int): (r: Peer)
    requires IsLong(nowMillis)
    ensures IsInt(r.lastUpdateTime)
    ensures 0 <= nowMillis && IsInt(nowMillis / 1000) ==> r.lastUpdateTime == nowMillis / 1000
    ensures r == SetLastUpdateTime(p, r.lastUpdateTime)
  {
    SetLastUpdateTime(p, ToInt(Div(nowMillis, 1000)))
  }

  /** The peer an id-equality test in `getPeer` stops at: one with exactly this id. A peer with a
      null id is dereferenced before the comparison and throws. */
  predicate Matches(p: Peer, id: Option<string>) {
    p.uniqueId.Some? && p.uniqueId == id
  }

  /** The lookup `getPeer` performs, as a reference definition: the position of the first peer
      whose id equals `id`, `None` when there is none, and a `NullPointerException` when the scan
      reaches a peer with a null id first. */
  function Lookup(peers: seq<Peer>, id: Option<string>): (r: Result<Option<nat>>)
    ensures r.Ok? && r.value.Some? ==> r.value.value < |peers| && Matches(peers[r.value.value], id)
    ensures r.Ok? && r.value.Some? ==> forall j :: 0 <= j < r.value.value ==> peers[j].uniqueId.Some? && !Matches(peers[j], id)
    ensures r == Ok(None) <==> forall j :: 0 <= j < |peers| ==> peers[j].uniqueId.Some? && !Matches(peers[j], id)
    ensures r.Err? ==> r.error == NullPointerException
    decreases |peers|
  {
    if |peers| == 0 then Ok(None)
    else if peers[0].uniqueId.None? then Err(NullPointerException)
    else if Matches(peers[0], id) then Ok(Some(0))
    else match Lookup(peers[1..], id)
      case Err(e) => Err(e)
      case Ok(None) => Ok(None)
      case Ok(Some(i)) => Ok(Some(i + 1))
  }

  /** `PeerList.getPeer`: the list scan with its early return. */
  method GetPeer(peers: seq<Peer>, id: Option<string>) returns (r: Result<Option<nat>>)
    ensures r == Lookup(peers, id)
  {
    var i := 0;
    assert peers[0..] == peers;
    while i < |peers|
      invariant 0 <= i <= |peers|
      invariant Lookup(peers, id) == Shift(Lookup(peers[i..], id), i)
    {
      if peers[i].uniqueId.None? {
        LookupSkips(peers, id, i);
        return Err(NullPointerException);
      }
      if Matches(peers[i], id) {
        LookupSkips(peers, id, i);
        return Ok(Some(i));
      }
      LookupSkips(peers, id, i);
      i := i + 1;
    }
    assert peers[i..] == [];
    return Ok(None);
  }

  /** A lookup result for a suffix, as a position in the whole list. */
  function Shift(r: Result<Option<nat>>, n: nat): Result<Option<nat>> {
    match r
    case Ok(Some(i)) => Ok(Some(i + n))
    case _ => r
  }

  /** One step of the scan: the lookup in the suffix from `i` is decided by `peers[i]` or by the
      suffix from `i + 1`. */
  lemma LookupSkips(peers: seq<Peer>, id: Option<string>, i: nat)
    requires i < |peers|
    ensures peers[i].uniqueId.None? ==> Lookup(peers[i..], id) == Err(NullPointerException)
    ensures Matches(peers[i], id) ==> Lookup(peers[i..], id) == Ok(Some(0))
    ensures peers[i].uniqueId.Some? && !Matches(peers[i], id) ==>
              Shift(Lookup(peers[i..], id), i) == Shift(Lookup(peers[i + 1..], id), i + 1)
  {
    assert peers[i..][1..] == peers[i + 1..];
  }

  /** `PeerList.add`: the list is a plain list, and appending never checks for a duplicate id. */
  function AddPeer(peers: seq<Peer>, p: Peer): (r: seq<Peer>)
    ensures |r| == |peers| + 1 && r[|peers|] == p && r[..|peers|] == peers
  {
    peers + [p]
  }

  /** The unique ids of the peers with an id are pairwise distinct. */
  predicate DistinctIds(peers: seq<Peer>) {
    forall i, j :: 0 <= i < j < |peers| && peers[i].uniqueId.Some? ==> peers[i].uniqueId != peers[j].uniqueId
  }

  /** The list itself would take a second peer with an id already present. */
  lemma AddAllowsDuplicates(p: Peer)
    requires p.uniqueId.Some?
    ensures !DistinctIds(AddPeer([p], p))
  {
    assert AddPeer([p], p)[0] == AddPeer([p], p)[1];
  }

  /** Callers that add only after a lookup found nothing keep the ids distinct. */
  lemma AddAfterMissKeepsDistinct(peers: seq<Peer>, p: Peer)
    requires DistinctIds(peers)
    requires Lookup(peers, p.uniqueId) == Ok(None)
    ensures DistinctIds(AddPeer(peers, p))
  {
  }

  /** A lookup that found nothing, repeated after one more peer is appended: the new peer decides
      it, and a peer without an id makes every later lookup of a new id throw. */
  lemma {:induction false} LookupAppend(peers: seq<Peer>, id: Option<string>, p: Peer)
    requires Lookup(peers, id) == Ok(None)
    ensures Lookup(AddPeer(peers, p), id) ==
              if p.uniqueId.None? then Err(NullPointerException)
              else if Matches(p, id) then Ok(Some(|peers|)) else Ok(None)
    decreases |peers|
  {
    var q := AddPeer(peers, p);
    if |peers| == 0 {
      assert q[1..] == [];
    } else {
      assert q[1..] == AddPeer(peers[1..], p);
      LookupAppend(peers[1..], id, p);
    }
  }

  /** A lookup reads only the ids, so lists with the same ids at the same positions answer alike. */
  lemma {:induction false} LookupReadsIds(peers: seq<Peer>, other: seq<Peer>, id: Option<string>)
    requires |other| == |peers|
    requires forall j :: 0 <= j < |peers| ==> other[j].uniqueId == peers[j].uniqueId
    ensures Lookup(other, id) == Lookup(peers, id)
    decreases |peers|
  {
    if |peers| > 0 {
      LookupReadsIds(peers[1..], other[1..], id);
    }
  }

  /** Replacing the peer at one position, as a mutation through the reference `getPeer` returned;
      the other peers are untouched. */
  function UpdateAt(peers: seq<Peer>, i: nat, p: Peer): (r: seq<Peer>)
    requires i < |peers|
    ensures |r| == |peers| && r[i] == p
    ensures forall j :: 0 <= j < |peers| && j != i ==> r[j] == peers[j]
  {
    peers[i := p]
  }
}
