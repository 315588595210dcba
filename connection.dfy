/**
 * SmbConnection: the server name, share name, credentials and configuration are fixed at
 * construction; the transport and the bound share are two nullable handles that connecting
 * replaces. What the network does when a connection is attempted is a parameter.
 */
module Connections {
  import opened Outcomes

  /**
   * What happens when connectToServer runs: the server cannot be reached (an IOException
   * from connect), the credentials or the share are refused after the transport is up (an
   * unchecked SMB exception from authenticate or connectShare), or the share is bound.
   */
  datatype ConnectOutcome = Unreachable | Refused | Connected

  /** The credentials the connection authenticates with. */
  datatype AuthenticationContext = AuthenticationContext(user: string, password: string, domain: string)

  /** The smbj client configuration: the library default, or one with a custom socket time-out. */
  datatype SmbConfig = DefaultConfig | CustomConfig(soTimeoutMillis: nat)

  const UnreachableServer := "The server could not be reached"
  const RefusedSession := "The credentials or the share were refused"

  /** The message of the RuntimeException getDiskShare raises when it cannot make the connection alive. */
  const DelayedConnectionFailure := "Unable to initialize the delayed connection"

  /** The transport to the server (an smbj Connection). */
  class Transport {
    var connected: bool

    constructor ()
      ensures connected
    {
      connected := true;
    }

    /** close(true); the server closing an idle transport has the same effect. */
    method Close()
      modifies this
      ensures !connected
    {
      connected := false;
    }
  }

  /** The bound share (an smbj DiskShare); it is connected while its tree connect and its transport are. */
  class ShareHandle {
    const transport: Transport
    var treeConnected: bool

    constructor (transport: Transport)
      ensures this.transport == transport && treeConnected
    {
      this.transport := transport;
      treeConnected := true;
    }

    predicate IsConnected()
      reads this, transport
    {
      treeConnected && transport.connected
    }
  }

  class SmbConnection {
    const serverName: string
    const shareName: string
    const authenticationContext: AuthenticationContext
    const smbConfig: SmbConfig
    var connection: Transport?
    var diskShare: ShareHandle?

    /** The constructor with delayedInitialization set: it only records its arguments. */
    constructor Delayed(serverName: string, shareName: string, authenticationContext: AuthenticationContext, smbConfig: SmbConfig)
      ensures this.serverName == serverName && this.shareName == shareName
      ensures this.authenticationContext == authenticationContext && this.smbConfig == smbConfig
      ensures connection == null && diskShare == null
      ensures !IsConnectionAlive()
    {
      this.serverName := serverName;
      this.shareName := shareName;
      this.authenticationContext := authenticationContext;
      this.smbConfig := smbConfig;
      connection := null;
      diskShare := null;
    }

    /** isConnectionAlive: both handles exist and both are connected. */
    predicate IsConnectionAlive()
      reads this, connection, diskShare, if diskShare != null then {diskShare.transport} else {}
    {
      connection != null && diskShare != null && connection.connected && diskShare.IsConnected()
    }

    /**
     * connectToServer: connect to the server, then authenticate and bind the share. A failure
     * of connect leaves both handles as they were; a refusal after it leaves the new transport
     * in place and the old share handle.
     */
    method ConnectToServer(outcome: ConnectOutcome) returns (s: Status)
      modifies this
      ensures outcome == Unreachable ==>
        s == Fail(IOFailure(UnreachableServer)) && connection == old(connection) && diskShare == old(diskShare)
      ensures outcome == Refused ==>
        s == Fail(ConnectionFailure(RefusedSession)) && connection != null && fresh(connection) &&
        connection.connected && diskShare == old(diskShare)
      ensures outcome == Connected ==>
        s == Pass && connection != null && diskShare != null && fresh(connection) && fresh(diskShare) &&
        diskShare.transport == connection && IsConnectionAlive()
    {
      if outcome == Unreachable {
        s := Fail(IOFailure(UnreachableServer));
        return;
      }
      var transport := new Transport();
      connection := transport;
      if outcome == Refused {
        s := Fail(ConnectionFailure(RefusedSession));
        return;
      }
      var share := new ShareHandle(transport);
      diskShare := share;
      s := Pass;
    }

    /** close: closes the transport only when there is one and it is connected; otherwise it does nothing. */
    method Close()
      modifies connection
      ensures connection == old(connection) && diskShare == old(diskShare)
      ensures connection != null ==> !connection.connected
      ensures !IsConnectionAlive()
    {
      if connection != null && connection.connected {
        connection.Close();
      }
    }

    /**
     * ensureConnectionIsAlive: nothing happens on a live connection; otherwise the old
     * transport is closed and a new connection is made, which is alive when it succeeds.
     */
    method EnsureConnectionIsAlive(outcome: ConnectOutcome) returns (s: Status)
      modifies this, connection
      ensures old(IsConnectionAlive()) ==>
        s == Pass && connection == old(connection) && diskShare == old(diskShare) && connection.connected
      ensures !old(IsConnectionAlive()) ==> (s.Pass? <==> outcome == Connected)
      ensures !old(IsConnectionAlive()) && old(connection) != null ==> !old(connection).connected
      ensures !old(IsConnectionAlive()) && outcome == Connected ==>
        connection != null && diskShare != null && fresh(connection) && fresh(diskShare)
      ensures !old(IsConnectionAlive()) && outcome == Unreachable ==>
        s == Fail(IOFailure(UnreachableServer)) && connection == old(connection) && diskShare == old(diskShare)
      ensures !old(IsConnectionAlive()) && outcome == Refused ==>
        s == Fail(ConnectionFailure(RefusedSession)) && connection != null && fresh(connection) &&
        connection.connected && diskShare == old(diskShare)
      ensures s.Pass? ==> IsConnectionAlive()
    {
      if !IsConnectionAlive() {
        Close();
        s := ConnectToServer(outcome);
      } else {
        s := Pass;
      }
    }

    /**
     * getDiskShare: makes the connection alive first when it is not. An IOException from
     * that attempt becomes the RuntimeException "Unable to initialize the delayed
     * connection"; an unchecked exception passes through. A share handle is only returned
     * from a live connection.
     */
    method GetDiskShare(outcome: ConnectOutcome) returns (r: Result<ShareHandle>)
      modifies this, connection
      ensures old(IsConnectionAlive()) ==>
        r == Ok(old(diskShare)) && connection == old(connection) && diskShare == old(diskShare)
      ensures r.Ok? <==> old(IsConnectionAlive()) || outcome == Connected
      ensures r.Ok? ==> IsConnectionAlive() && r.value == diskShare
      ensures !old(IsConnectionAlive()) && old(connection) != null ==> !old(connection).connected
      ensures !old(IsConnectionAlive()) && outcome == Connected ==>
        connection != null && diskShare != null && fresh(connection) && fresh(diskShare)
      ensures !old(IsConnectionAlive()) && outcome == Unreachable ==>
        r == Err(ConnectionFailure(DelayedConnectionFailure)) && connection == old(connection) && diskShare == old(diskShare)
      ensures !old(IsConnectionAlive()) && outcome == Refused ==>
        r == Err(ConnectionFailure(RefusedSession)) && connection != null && fresh(connection) &&
        connection.connected && diskShare == old(diskShare)
    {
      if !IsConnectionAlive() {
        var s := EnsureConnectionIsAlive(outcome);
        if s.Fail? {
          r := Err(if s.error.IOFailure? then ConnectionFailure(DelayedConnectionFailure) else s.error);
          return;
        }
      }
      r := Ok(diskShare);
    }
  }

  /**
   * The five-argument constructor: records its arguments and, unless the initialization is
   * delayed, connects at once; a failed connect means no connection object is produced.
   */
  method Create(serverName: string, shareName: string, authenticationContext: AuthenticationContext,
                smbConfig: SmbConfig, delayedInitialization: bool, outcome: ConnectOutcome)
    returns (r: Result<SmbConnection>)
    ensures r.Ok? ==> fresh(r.value)
    ensures r.Ok? ==> r.value.serverName == serverName && r.value.shareName == shareName
    ensures r.Ok? ==> r.value.authenticationContext == authenticationContext && r.value.smbConfig == smbConfig
    ensures delayedInitialization ==> r.Ok? && r.value.connection == null && r.value.diskShare == null
    ensures !delayedInitialization ==> (r.Ok? <==> outcome == Connected)
    ensures !delayedInitialization && r.Ok? ==> r.value.IsConnectionAlive()
    ensures r.Err? ==> r.error == if outcome == Unreachable then IOFailure(UnreachableServer) else ConnectionFailure(RefusedSession)
  {
    var c := new SmbConnection.Delayed(serverName, shareName, authenticationContext, smbConfig);
    if !delayedInitialization {
      var s := c.ConnectToServer(outcome);
      if s.Fail? {
        r := Err(s.error);
        return;
      }
    }
    r := Ok(c);
  }

  /** The three- and four-argument constructors: connect at once, with the default or a given configuration. */
  method Connect(serverName: string, shareName: string, authenticationContext: AuthenticationContext,
                 smbConfig: SmbConfig, outcome: ConnectOutcome)
    returns (r: Result<SmbConnection>)
    ensures r.Ok? <==> outcome == Connected
    ensures r.Ok? ==> fresh(r.value) && r.value.IsConnectionAlive() && r.value.smbConfig == smbConfig
  {
    r := Create(serverName, shareName, authenticationContext, smbConfig, false, outcome);
  }

  /**
   * A delayed connection made alive, dropped by the server while idle, and made alive again:
   * not alive before the first call, alive after it, not alive after the drop, alive again
   * after the second call, and then a share handle is handed out without reconnecting.
   */
  method ReconnectAfterIdleTimeout(serverName: string, shareName: string, authenticationContext: AuthenticationContext)
    returns (before: bool, first: bool, dropped: bool, second: bool, handed: bool)
    ensures !before && first && !dropped && second && handed
  {
    var r := Create(serverName, shareName, authenticationContext, CustomConfig(3000), true, Unreachable);
    var c := r.value;
    before := c.IsConnectionAlive();
    var s := c.EnsureConnectionIsAlive(Connected);
    first := c.IsConnectionAlive();
    c.connection.Close();
    dropped := c.IsConnectionAlive();
    s := c.EnsureConnectionIsAlive(Connected);
    second := c.IsConnectionAlive();
    var share := c.GetDiskShare(Unreachable);
    handed := share.Ok?;
  }
}
