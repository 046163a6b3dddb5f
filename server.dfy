/*
 * The server object: its configuration (port, address, the two host names
 * the handshake check reads), whether it listens, the Flash access-policy
 * server it starts beside itself, the count of clients being served, and
 * the two callbacks that drive one client: RunClient, which sets a context
 * up and tears it down, and DoReceive, which hands each receive to the
 * context's handler.
 *
 * A TCP listener is reduced to whether its constructor succeeded and what
 * it was given; the accept loop, the receive loop and the semaphores are
 * not modelled. One receive is an input event: the bytes the socket wrote
 * at the start of the buffer, or None when EndReceive throws.
 */
module Server {
  import opened Prelude
  import opened Frames
  import opened Handshakes
  import opened Connection

  /** `WebsocketServer.DefaultBufferSize`. */
  const DefaultBufferSize: nat := 512

  /** The port a server listens on when none is given. */
  const DefaultPort: int := 81

  /** The port the Flash access-policy server listens on. */
  const PolicyPort: int := 843

  /** `IPEndPoint.MinPort` and `IPEndPoint.MaxPort`, the range TcpListener accepts. */
  const MinPort: int := 0
  const MaxPort: int := 65535

  /** An `IPAddress`: `IPAddress.Any` or a specific address. */
  datatype IPAddress = AnyAddress | Address(octets: seq<byte>)

  /** A TcpListener that was constructed: the endpoint it was given. */
  datatype Listener = Listener(address: IPAddress, port: int)

  /**
   * `new TcpListener(address, port)`: None where the constructor throws,
   * that is for a null address or a port outside MinPort..MaxPort.
   */
  function OpenListener(address: Option<IPAddress>, port: int): Option<Listener>
  {
    if address.Some? && MinPort <= port <= MaxPort then Some(Listener(address.value, port)) else None
  }

  /** The fields of an AccessPolicyServer that the server sets or starts. */
  datatype PolicyServer = PolicyServer(address: Option<IPAddress>, allowedHost: string, allowedPort: int,
                                       listener: Option<Listener>)

  /** `new AccessPolicyServer(address, originDomain, allowedPort)`: an empty origin allows every domain. */
  function NewPolicyServer(address: Option<IPAddress>, originDomain: string, allowedPort: int): PolicyServer
  {
    PolicyServer(address, if originDomain != "" then originDomain else "*", allowedPort, None)
  }

  /** `AccessPolicyServer.Start()`: a listener on the policy port, unless one exists; a failure is swallowed. */
  function PolicyStarted(p: PolicyServer): PolicyServer
  {
    if p.listener.Some? then p else p.(listener := OpenListener(p.address, PolicyPort))
  }

  /**
   * The fields of a WebsocketServer. `auth` stands for the static
   * `WebSocketAuthentication.Origin` and `.Location`, `defaults` for the
   * four `DefaultOn*` delegates.
   */
  datatype ServerView = ServerView(
    port: int, listenerAddress: Option<IPAddress>, originHost: string, destinationHost: string,
    auth: AuthConfig, listener: Option<Listener>, policyServer: Option<PolicyServer>,
    flashAPEnabled: bool, clientCount: int, defaults: Hooks)

  /** `new WebsocketServer(listenPort, listenIp)`. */
  function Constructed(listenPort: int, listenIp: Option<IPAddress>): ServerView
  {
    ServerView(if listenPort > 0 then listenPort else DefaultPort, Some(listenIp.GetOr(AnyAddress)), "", "",
               DefaultAuth, None, None, true, 0, Hooks(Ignore, Ignore, Ignore, Ignore))
  }

  /**
   * A new server listens on the given port when it is positive and on port
   * 81 otherwise, on the given address or on any address; it does not
   * listen yet and serves nobody.
   */
  lemma ConstructedDefaults(listenPort: int, listenIp: Option<IPAddress>)
    ensures var s := Constructed(listenPort, listenIp);
      s.port > 0 && (listenPort > 0 ==> s.port == listenPort) && (listenPort <= 0 ==> s.port == DefaultPort) &&
      s.listenerAddress.Some? && (listenIp.Some? ==> s.listenerAddress == listenIp) &&
      (listenIp.None? ==> s.listenerAddress == Some(AnyAddress)) &&
      s.listener.None? && s.policyServer.None? && s.clientCount == 0 && s.flashAPEnabled &&
      s.auth == AuthConfig(s.originHost, s.destinationHost)
  {
  }

  /**
   * `Start()`: when there is no listener, a new policy server (started if
   * Flash support is on) and then the listener; the first constructor that
   * throws ends the attempt, keeping what was assigned before it.
   */
  function Started(s: ServerView): ServerView
  {
    if s.listener.Some? then s
    else
      var p := NewPolicyServer(s.listenerAddress, s.originHost, s.port);
      s.(policyServer := Some(if s.flashAPEnabled then PolicyStarted(p) else p),
         listener := OpenListener(s.listenerAddress, s.port))
  }

  /** `Stop()`: the listener and the policy server are dropped, whether or not they were there. */
  function Stopped(s: ServerView): ServerView
  {
    s.(listener := None, policyServer := None)
  }

  /** `Restart()`. */
  function Restarted(s: ServerView): ServerView
  {
    Started(Stopped(s))
  }

  /** After Start the server listens exactly when it already did or its address and port are usable. */
  lemma StartListensIff(s: ServerView)
    ensures Started(s).listener.Some? <==>
      s.listener.Some? || (s.listenerAddress.Some? && MinPort <= s.port <= MaxPort)
    ensures Started(s).listener.Some? && s.listener.None? ==>
      Started(s).listener == Some(Listener(s.listenerAddress.value, s.port))
  {
  }

  /** A server that listens is left as it is by Start, and a second Start changes nothing. */
  lemma StartIdempotent(s: ServerView)
    ensures s.listener.Some? ==> Started(s) == s
    ensures Started(Started(s)) == Started(s)
  {
  }

  /**
   * The policy server Start creates allows the origin host, or every host
   * when none is set, on the server's port, and listens on the policy port
   * exactly when Flash support is on and there is an address.
   */
  lemma StartPolicyServer(s: ServerView)
    requires s.listener.None?
    ensures var p := Started(s).policyServer;
      p.Some? && p.value.allowedPort == s.port &&
      p.value.allowedHost == (if s.originHost == "" then "*" else s.originHost) &&
      (p.value.listener.Some? <==> s.flashAPEnabled && s.listenerAddress.Some?) &&
      (p.value.listener.Some? ==> p.value.listener.value.port == PolicyPort)
  {
  }

  /** Stop leaves neither listener nor policy server, keeps the configuration and the count, and is idempotent. */
  lemma StopClears(s: ServerView)
    ensures var t := Stopped(s);
      t.listener.None? && t.policyServer.None? &&
      t.port == s.port && t.listenerAddress == s.listenerAddress && t.auth == s.auth &&
      t.originHost == s.originHost && t.destinationHost == s.destinationHost &&
      t.clientCount == s.clientCount && t.defaults == s.defaults &&
      Stopped(t) == t
  {
  }

  /**
   * Restart does not depend on the listener or policy server it finds: two
   * servers that differ only there restart to the same state, which is a
   * fresh Start from the current configuration.
   */
  lemma RestartForgetsListener(s: ServerView, t: ServerView)
    requires s.(listener := None, policyServer := None) == t.(listener := None, policyServer := None)
    ensures Restarted(s) == Restarted(t)
    ensures Restarted(s).listener == OpenListener(s.listenerAddress, s.port)
  {
    assert Stopped(s) == Stopped(t);
  }

  // ---------------------------------------------------------------------
  // One client

  /**
   * The context RunClient builds before its receive loop: the connection
   * attached, a buffer of DefaultBufferSize bytes, the server's default
   * hooks, and OnConnect fired.
   */
  function Accepted(hooks: Hooks): ContextView
  {
    Fire(NewContext.(socketOpen := true, bufferSize := DefaultBufferSize, hooks := hooks), ConnectEvent)
  }

  /**
   * An accepted client is connected with only its connect hook fired; the
   * end of the `using` block then fires its disconnect hook, once.
   */
  lemma AcceptedLifecycle(hooks: Hooks)
    ensures var a := Accepted(hooks);
      a.connected && a.socketOpen && !a.isSetup && a.handler == DefaultRole && a.hooks == hooks &&
      a.bufferSize == DefaultBufferSize && a.events == [Fired(ConnectEvent, hooks.onConnect)] &&
      var d := Disposed(a);
      !d.connected && !d.socketOpen &&
      d.events == [Fired(ConnectEvent, hooks.onConnect), Fired(DisconnectEvent, hooks.onDisconnect)]
  {
  }

  /** The receive buffer after the socket wrote an input event at its start. */
  function Filled(buf: seq<byte>, input: Option<seq<byte>>): (r: seq<byte>)
    requires input.Some? ==> |input.value| <= |buf|
  {
    match input
    case None => buf
    case Some(d) => d + buf[|d|..]
  }

  /**
   * `DoReceive`: Reset, then ReceivedByteCount from EndReceive (a throwing
   * EndReceive leaves the 0 of Reset); more than 0 bytes go to the
   * context's handler, anything else disposes the context. `buf` is the
   * buffer before the socket wrote into it.
   */
  function Received(v: ContextView, buf: seq<byte>, input: Option<seq<byte>>, auth: AuthConfig, port: int, policy: bool,
                    sha1: seq<byte> -> seq<byte>): Outcome
    requires input.Some? ==> |input.value| <= |buf|
  {
    var count := match input case Some(d) => |d| case None => 0;
    var u := ResetView(v).(receivedByteCount := count);
    if count > 0 then Dispatch(u, Filled(buf, input), auth, port, policy, sha1) else Outcome(Disposed(u), true)
  }

  /**
   * A receive that fails or brings no bytes disposes the context: the
   * disconnect hook fires if it was connected, nothing is sent, and the set
   * up state and handler stay.
   */
  lemma ReceiveNothingDisposes(v: ContextView, buf: seq<byte>, input: Option<seq<byte>>, auth: AuthConfig,
                               port: int, policy: bool, sha1: seq<byte> -> seq<byte>)
    requires input.None? || input == Some([])
    ensures var o := Received(v, buf, input, auth, port, policy, sha1);
      o.ok && !o.view.connected && !o.view.socketOpen && o.view.receivedByteCount == 0 &&
      o.view.sent == v.sent && o.view.isSetup == v.isSetup && o.view.handler == v.handler &&
      o.view.events == v.events + (if v.connected then [Fired(DisconnectEvent, v.hooks.onDisconnect)] else [])
  {
  }

  /** A set-up connection stays set up whatever a receive brings. */
  lemma ReceiveKeepsSetup(v: ContextView, buf: seq<byte>, input: Option<seq<byte>>, auth: AuthConfig,
                          port: int, policy: bool, sha1: seq<byte> -> seq<byte>)
    requires input.Some? ==> |input.value| <= |buf|
    requires v.isSetup
    ensures Received(v, buf, input, auth, port, policy, sha1).view.isSetup
  {
    var count := match input case Some(d) => |d| case None => 0;
    var u := ResetView(v).(receivedByteCount := count);
    if count > 0 {
      SetupIsFinal(u, Filled(buf, input), auth, port, policy, sha1);
    }
  }

  /**
   * On a set-up WebSocket connection a non-empty receive is appended to the
   * frame, read from the whole buffer, and OnReceive fires exactly when the
   * frame is then Complete.
   */
  lemma ReceiveFeedsFrame(v: ContextView, buf: seq<byte>, d: seq<byte>, auth: AuthConfig, port: int, policy: bool,
                          sha1: seq<byte> -> seq<byte>)
    requires 0 < |d| <= |buf| && v.isSetup && v.handler == WebSocketRole
    ensures var o := Received(v, buf, Some(d), auth, port, policy, sha1);
      var a := AppendSpec(ResetView(v).frame, d + buf[|d|..], |d|);
      o.ok == a.ok && o.view.frame == a.frame && o.view.sent == v.sent && o.view.connected == v.connected &&
      o.view.events == v.events + (if a.ok && a.frame.state == Complete then [Fired(ReceiveEvent, v.hooks.onReceive)] else [])
  {
    var u := ResetView(v).(receivedByteCount := |d|);
    SetupFeedsFrame(u, d + buf[|d|..], auth, port, sha1);
  }

  /** Before set-up only the bytes of the receive itself matter, not what an earlier receive left behind them. */
  lemma HandshakeReadsOnlyInput(v: ContextView, buf: seq<byte>, other: seq<byte>, d: seq<byte>, auth: AuthConfig,
                                port: int, policy: bool, sha1: seq<byte> -> seq<byte>)
    requires |d| <= |buf| && |d| <= |other| && v.handler == DefaultRole
    ensures Received(v, buf, Some(d), auth, port, policy, sha1) == Received(v, other, Some(d), auth, port, policy, sha1)
  {
    if |d| > 0 {
      var u := ResetView(v).(receivedByteCount := |d|);
      var b1, b2 := d + buf[|d|..], d + other[|d|..];
      assert b1[..|d|] == d == b2[..|d|];
      DefaultReadsOnlyReceived(u, b1, b2, auth, port, policy, sha1);
    }
  }

  // ---------------------------------------------------------------------
  // The disconnect hook fires once per connection

  /** How many times the disconnect hook has been invoked. */
  function Disconnects(events: seq<Event>): nat
  {
    if events == [] then 0
    else Disconnects(events[..|events| - 1]) + (if events[|events| - 1].occasion == DisconnectEvent then 1 else 0)
  }

  lemma DisconnectsSnoc(events: seq<Event>, e: Event)
    ensures Disconnects(events + [e]) == Disconnects(events) + (if e.occasion == DisconnectEvent then 1 else 0)
  {
    assert (events + [e])[..|events|] == events;
  }

  /** Connected until the disconnect hook has fired, and it has fired at most once. */
  predicate DisconnectedOnce(v: ContextView)
  {
    Disconnects(v.events) == if v.connected then 0 else 1
  }

  lemma FireKeeps(v: ContextView, o: Occasion)
    requires DisconnectedOnce(v) && o != DisconnectEvent
    ensures DisconnectedOnce(Fire(v, o))
  {
    DisconnectsSnoc(v.events, Fired(o, HookFor(v.hooks, o)));
  }

  lemma DisposedKeeps(v: ContextView)
    requires DisconnectedOnce(v)
    ensures DisconnectedOnce(Disposed(v))
  {
    DisconnectsSnoc(v.events, Fired(DisconnectEvent, v.hooks.onDisconnect));
  }

  lemma TransmitKeeps(v: ContextView, data: seq<byte>, close: bool)
    requires DisconnectedOnce(v)
    ensures DisconnectedOnce(Transmit(v, data, close))
  {
    if v.socketOpen {
      var begun := v.(sendGate := v.sendGate - 1).(sent := v.sent + [Bytes(data)]);
      FireKeeps(begun.(sendGate := begun.sendGate + 1), SendEvent);
      if close {
        DisposedKeeps(SendDone(begun));
      }
    }
  }

  lemma SendViaKeeps(v: ContextView, data: seq<byte>, close: bool)
    requires DisconnectedOnce(v)
    ensures DisconnectedOnce(SendVia(v, data, close).view)
  {
    TransmitKeeps(v, data, close);
    DefaultsWellFormed(NewFrame);
    match FrameBytes(OutgoingFrame(data))
    case None =>
    case Some(b) => TransmitKeeps(v, b, close);
  }

  lemma AuthenticatedKeeps(v: ContextView, auth: AuthConfig, port: int, sha1: seq<byte> -> seq<byte>)
    requires DisconnectedOnce(v)
    ensures DisconnectedOnce(Authenticated(v, auth, port, sha1).view)
  {
    if Verdict(v, auth, port) == Some(true) {
      TransmitKeeps(v, HandshakeReply(v.header.value, sha1), false);
    }
    DisposedKeeps(v);
  }

  lemma DispatchKeeps(v: ContextView, buf: seq<byte>, auth: AuthConfig, port: int, policy: bool, sha1: seq<byte> -> seq<byte>)
    requires 0 <= v.receivedByteCount <= |buf|
    requires DisconnectedOnce(v)
    ensures DisconnectedOnce(Dispatch(v, buf, auth, port, policy, sha1).view)
  {
    var text := ReceivedText(v, buf);
    var w := v.(header := Some(Headers.Parse(text)));
    if v.handler == WebSocketRole {
      if v.isSetup {
        FireKeeps(v.(frame := AppendSpec(v.frame, buf, v.receivedByteCount).frame), ReceiveEvent);
      } else {
        AuthenticatedKeeps(v, auth, port, sha1);
      }
    } else if v.isSetup {
      DisposedKeeps(v);
    } else if text == PolicyRequest {
      DisposedKeeps(PolicyAnswered(v, policy));
    } else if w.header.value.protocol != Headers.NoProtocol {
      AuthenticatedKeeps(w.(handler := WebSocketRole), auth, port, sha1);
    } else {
      SendViaKeeps(w, NotImplementedBytes(), true);
    }
  }

  /**
   * Every receive keeps the disconnect hook honest: it has fired exactly
   * when the context is no longer connected, and never twice. An accepted
   * context starts that way.
   */
  lemma ReceivedKeeps(v: ContextView, buf: seq<byte>, input: Option<seq<byte>>, auth: AuthConfig, port: int, policy: bool,
                      sha1: seq<byte> -> seq<byte>)
    requires input.Some? ==> |input.value| <= |buf|
    requires DisconnectedOnce(v)
    ensures DisconnectedOnce(Received(v, buf, input, auth, port, policy, sha1).view)
  {
    var count := match input case Some(d) => |d| case None => 0;
    var u := ResetView(v).(receivedByteCount := count);
    if count > 0 {
      DispatchKeeps(u, Filled(buf, input), auth, port, policy, sha1);
    } else {
      DisposedKeeps(u);
    }
  }

  lemma AcceptedDisconnectedOnce(hooks: Hooks)
    ensures DisconnectedOnce(Accepted(hooks))
    ensures !DisconnectedOnce(Accepted(hooks).(connected := false))
  {
    DisconnectsSnoc([], Fired(ConnectEvent, hooks.onConnect));
  }

  // ---------------------------------------------------------------------
  // The server object

  class WebsocketServer {
    var port: int
    var listenerAddress: Option<IPAddress>
    var originHost: string
    var destinationHost: string
    var auth: AuthConfig
    var listener: Option<Listener>
    var accessPolicyServer: Option<PolicyServer>
    var flashAPEnabled: bool
    var clientCount: int
    var defaultOnConnect: Hook
    var defaultOnDisconnect: Hook
    var defaultOnSend: Hook
    var defaultOnReceive: Hook

    function View(): ServerView
      reads this
    {
      ServerView(port, listenerAddress, originHost, destinationHost, auth, listener, accessPolicyServer,
                 flashAPEnabled, clientCount, Hooks(defaultOnConnect, defaultOnDisconnect, defaultOnSend, defaultOnReceive))
    }

    /** The handshake check reads the host names this server was given. */
    ghost predicate Valid()
      reads this
    {
      auth == AuthConfig(originHost, destinationHost)
    }

    /** `new WebsocketServer(listenPort, listenIp)`; a null `listenIp` is None. */
    constructor (listenPort: int, listenIp: Option<IPAddress>)
      ensures View() == Constructed(listenPort, listenIp) && Valid()
    {
      listenerAddress := Some(AnyAddress);
      port := DefaultPort;
      if listenPort > 0 {
        port := listenPort;
      }
      if listenIp.Some? {
        listenerAddress := listenIp;
      }
      originHost, destinationHost, auth := "", "", DefaultAuth;
      listener, accessPolicyServer := None, None;
      flashAPEnabled, clientCount := true, 0;
      defaultOnConnect, defaultOnDisconnect, defaultOnSend, defaultOnReceive := Ignore, Ignore, Ignore, Ignore;
    }

    /** The OriginHost setter, which also sets `WebSocketAuthentication.Origin`. */
    method SetOriginHost(value: string)
      modifies this
      ensures View() == old(View()).(originHost := value, auth := old(auth).(origin := value))
      ensures old(Valid()) ==> Valid()
    {
      originHost := value;
      auth := auth.(origin := originHost);
    }

    /** The DestinationHost setter, which also sets `WebSocketAuthentication.Location`. */
    method SetDestinationHost(value: string)
      modifies this
      ensures View() == old(View()).(destinationHost := value, auth := old(auth).(location := value))
      ensures old(Valid()) ==> Valid()
    {
      destinationHost := value;
      auth := auth.(location := destinationHost);
    }

    method Start()
      modifies this
      ensures View() == Started(old(View()))
    {
      if listener.None? {
        var policy := NewPolicyServer(listenerAddress, originHost, port);
        accessPolicyServer := Some(policy);
        if flashAPEnabled {
          accessPolicyServer := Some(PolicyStarted(policy));
        }
        listener := OpenListener(listenerAddress, port);
      }
    }

    method Stop()
      modifies this
      ensures View() == Stopped(old(View()))
    {
      listener := None;
      accessPolicyServer := None;
    }

    method Restart()
      modifies this
      ensures View() == Restarted(old(View()))
    {
      Stop();
      Start();
    }

    /**
     * `RunClient`, the accept callback. `accepts` is whether
     * EndAcceptTcpClient yields a connection. Without one nothing changes;
     * with one the count goes up, the context is set up and OnConnect runs,
     * and at the end of the `using` block the context is disposed and the
     * count goes down again.
     */
    method RunClient(accepts: bool) returns (context: Option<Context>)
      modifies this
      ensures View() == old(View())
      ensures context.Some? <==> old(listener).Some? && accepts
      ensures context.Some? ==> fresh(context.value) && context.value.View() == Disposed(Accepted(old(View()).defaults))
    {
      if listener.None? || !accepts {
        return None;
      }
      clientCount := clientCount + 1;
      var c := new Context();
      c.socketOpen := true;
      var sized := c.SetBufferSize(DefaultBufferSize);
      c.SetOnConnect(defaultOnConnect);
      c.SetOnDisconnect(defaultOnDisconnect);
      c.SetOnSend(defaultOnSend);
      c.SetOnReceive(defaultOnReceive);
      c.OnConnect();
      c.Dispose();
      clientCount := clientCount - 1;
      context := Some(c);
    }

    /**
     * `DoReceive`, the receive callback. `input` is what the receive
     * brought: the bytes the socket wrote at the start of the buffer, or
     * None when EndReceive throws.
     */
    method DoReceive(context: Context, input: Option<seq<byte>>, sha1: seq<byte> -> seq<byte>) returns (ok: bool)
      requires input.Some? ==> |input.value| <= context.buffer.Length
      modifies context, context.frame, context.buffer
      ensures context.buffer == old(context.buffer)
      ensures context.buffer[..] == Filled(old(context.buffer[..]), input)
      ensures Outcome(context.View(), ok) ==
        Received(old(context.View()), old(context.buffer[..]), input, auth, port, accessPolicyServer.Some?, sha1)
    {
      ghost var v, buf := context.View(), context.buffer[..];
      if input.Some? {
        var d := input.value;
        forall i | 0 <= i < |d| {
          context.buffer[i] := d[i];
        }
        assert context.buffer[..] == d + buf[|d|..];
      }
      assert context.View() == v;
      context.Reset();
      if input.Some? {
        context.receivedByteCount := |input.value|;
      }
      if context.receivedByteCount > 0 {
        if context.handler == DefaultRole {
          ok := DefaultHandler.HandleRequest(context, auth, port, accessPolicyServer.Some?, sha1);
        } else {
          ok := WebSocketHandler.HandleRequest(context, auth, port, sha1);
        }
      } else {
        context.Dispose();
        ok := true;
      }
    }
  }
}
