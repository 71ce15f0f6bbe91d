/** The Wi-Fi Direct sync manager: the role this device takes once a group has formed, the
    services it asks for in that role, and the messages it reports for failed discovery and
    connection attempts. What the manager does is given as the list of calls it makes, in order. */
module WiFiDirect {
  import opened Wrappers
  import opened Peers

  /** The role reported to the listener. */
  datatype SyncRole = Server | Client

  /** `WifiP2pInfo`: whether a group formed, whether this device owns it, and the owner's IP. */
  datatype Info = Info(groupFormed: bool, isGroupOwner: bool, groupOwnerAddress: string)

  /** The calls the manager makes: stopping the running sync, starting the server service with a
      listener on a port, starting the client service with the connection to the owner, a
      listener on a port and this device's unique id, and the listener callbacks. */
  datatype Effect =
    | StopSync(awaitTermination: bool)
    | StartServerService(listenerPort: int)
    | StartClientService(server: Endpoint, listenerPort: int, uniqueId: string)
    | ReportConnected(role: SyncRole)
    | ReportDiscoverFailure(message: Option<string>)
    | ReportConnectFailure(message: Option<string>)

  /** `startSyncClient`: whatever sync runs is stopped first, waiting for it to end; then the
      client service is started towards the owner, listening for pushes on the client port. */
  function StartSyncClient(owner: Endpoint, uniqueId: string): (r: seq<Effect>)
    ensures |r| == 2 && r[0] == StopSync(true)
    ensures r[1].StartClientService? && r[1].server == owner && r[1].uniqueId == uniqueId
    ensures r[1].listenerPort == WIFI_DIRECT_CLIENT_PORT
  {
    [StopSync(true), StartClientService(owner, WIFI_DIRECT_CLIENT_PORT, uniqueId)]
  }

  /** `onConnectionInfoAvailable`: the group owner becomes the server, any other member becomes a
      client of the owner's server port, and nothing happens before a group has formed. */
  function OnConnectionInfo(info: Info, uniqueId: string): (r: seq<Effect>)
    ensures !info.groupFormed <==> r == []
    ensures info.groupFormed && info.isGroupOwner ==>
              r == [StartServerService(WIFI_DIRECT_SERVER_PORT), ReportConnected(Server)]
    ensures info.groupFormed && !info.isGroupOwner ==>
              |r| == 3 && r[0] == StopSync(true) && r[2] == ReportConnected(Client) &&
              r[1] == StartClientService(SocketAddress(info.groupOwnerAddress, WIFI_DIRECT_SERVER_PORT),
                                         WIFI_DIRECT_CLIENT_PORT, uniqueId)
  {
    if info.groupFormed && info.isGroupOwner then
      [StartServerService(WIFI_DIRECT_SERVER_PORT), ReportConnected(Server)]
    else if info.groupFormed then
      StartSyncClient(SocketAddress(info.groupOwnerAddress, WIFI_DIRECT_SERVER_PORT), uniqueId) + [ReportConnected(Client)]
    else []
  }

  /** The roles reported to the listener, in order. */
  function ReportedRoles(effects: seq<Effect>): (r: seq<SyncRole>)
    ensures |r| <= |effects|
    ensures forall i :: 0 <= i < |r| ==> ReportConnected(r[i]) in effects
  {
    if |effects| == 0 then []
    else (if effects[0].ReportConnected? then [effects[0].role] else []) + ReportedRoles(effects[1..])
  }

  /** The role a formed group gives: exactly one role is reported, and it is the server role
      exactly when this device owns the group. */
  lemma {:induction false} RoleFollowsOwnership(info: Info, uniqueId: string)
    ensures info.groupFormed ==>
              ReportedRoles(OnConnectionInfo(info, uniqueId)) == [if info.isGroupOwner then Server else Client]
    ensures !info.groupFormed ==> ReportedRoles(OnConnectionInfo(info, uniqueId)) == []
  {
    var r := OnConnectionInfo(info, uniqueId);
    if info.groupFormed && info.isGroupOwner {
      assert r[1..][1..] == [];
      assert ReportedRoles(r[1..]) == [Server];
    } else if info.groupFormed {
      assert r[1..][1..][1..] == [];
      assert ReportedRoles(r[1..][1..]) == [Client];
      assert ReportedRoles(r[1..]) == [Client];
    }
  }

  /** `WifiP2pManager`'s failure reasons. */
  const ERROR := 0
  const P2P_UNSUPPORTED := 1
  const BUSY := 2

  /** The message table: a fixed text for each known reason, null for any other. */
  function ErrorMessage(reason: int): (r: Option<string>)
    ensures r.Some? <==> reason in {ERROR, P2P_UNSUPPORTED, BUSY}
  {
    if reason == ERROR then Some("INTERNAL ERROR")
    else if reason == P2P_UNSUPPORTED then Some("P2P_UNSUPPORTED")
    else if reason == BUSY then Some("BUSY")
    else None
  }

  /** Different known reasons give different messages, so the listener can tell them apart. */
  lemma ErrorMessagesDistinct(a: int, b: int)
    requires ErrorMessage(a).Some? && ErrorMessage(a) == ErrorMessage(b)
    ensures a == b
  {
  }

  /** `discoverPeers`' failure callback. */
  function OnDiscoverFailure(reason: int): (r: Effect)
    ensures r.ReportDiscoverFailure? && r.message == ErrorMessage(reason)
  {
    ReportDiscoverFailure(ErrorMessage(reason))
  }

  /** `connectTo`'s failure callback. */
  function OnConnectFailure(reason: int): (r: Effect)
    ensures r.ReportConnectFailure? && r.message == ErrorMessage(reason)
  {
    ReportConnectFailure(ErrorMessage(reason))
  }
}
