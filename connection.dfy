/*
 * One client connection: the per-connection record (`Context` together
 * with the `UserContext` it exports), the two request handlers that
 * `Context.Handler` switches between, and the handshake check they use.
 *
 * The socket is reduced to what the handlers observe of it: whether the
 * connection object is still there, the buffers handed to it for sending
 * (in order), and the bytes of the last receive. A user hook is a value
 * that is recorded, with its occasion, each time the context invokes it.
 * A send completes within the call that starts it: the completion callback
 * (EndSend or EndSendAndClose) runs at the end of Send.
 */
module Connection {
  import opened Prelude
  import opened Headers
  import opened Frames
  import Utf8
  import opened Handshakes

  /** Which singleton `Context.Handler` refers to. */
  datatype Role = DefaultRole | WebSocketRole

  /** A delegate stored in a hook slot; `Ignore` is the `x => {}` every slot starts with. */
  datatype Hook = Ignore | Delegate(id: nat)

  /** The four hook slots of a UserContext. */
  datatype Occasion = ConnectEvent | DisconnectEvent | SendEvent | ReceiveEvent

  datatype Hooks = Hooks(onConnect: Hook, onDisconnect: Hook, onSend: Hook, onReceive: Hook)

  /** One invocation of a hook: which slot, and the delegate that was in it. */
  datatype Event = Fired(occasion: Occasion, hook: Hook)

  /** What reaches the client: a buffer passed to BeginSend, or the policy server's answer. */
  datatype Output = Bytes(data: seq<byte>) | PolicyAnswer

  /** `Response.NotImplemented`. */
  const NotImplemented: string := "HTTP/1.1 501 Not Implemented"

  /** The UTF-8 bytes of NotImplemented, which is ASCII text. */
  function NotImplementedBytes(): seq<byte>
  {
    assert Utf8.IsAscii(NotImplemented);
    Utf8.AsciiBytes(NotImplemented)
  }

  lemma NotImplementedEncoding()
    ensures Utf8.Encode(NotImplemented) == NotImplementedBytes()
  {
    assert Utf8.IsAscii(NotImplemented);
    Utf8.EncodeAsciiBytes(NotImplemented);
  }

  /** The request a Flash client sends for its socket policy (NUL-terminated). */
  const PolicyRequest: string := "<policy-file-request/>\0"

  /** `Context._bufferSize` before anyone sets BufferSize. */
  const InitialBufferSize: nat := 512

  /**
   * Every field of a Context and its UserContext except the receive buffer:
   * `socketOpen` is `Connection != null`, `sendGate` is the count of the
   * SendReady semaphore, `header` is `Context.Header`, `frame` is the
   * fields of `UserContext.DataFrame`.
   */
  datatype ContextView = ContextView(
    connected: bool, socketOpen: bool, bufferSize: int, receivedByteCount: int,
    isSetup: bool, handler: Role, header: Option<HeaderView>, sendGate: int,
    frame: FrameView, requestPath: string, protocol: Protocol, hooks: Hooks,
    sent: seq<Output>, events: seq<Event>)

  /** `new Context()`: connected, not set up, default handler, no connection object yet. */
  const NewContext: ContextView :=
    ContextView(true, false, InitialBufferSize, 0, false, DefaultRole, None, 1, NewFrame, "/", NoProtocol,
                Hooks(Ignore, Ignore, Ignore, Ignore), [], [])

  /** The result of an operation, and false when the source lets an exception escape. */
  datatype Outcome = Outcome(view: ContextView, ok: bool)

  // ---------------------------------------------------------------------
  // Hooks

  function HookFor(h: Hooks, o: Occasion): Hook
  {
    match o
    case ConnectEvent => h.onConnect
    case DisconnectEvent => h.onDisconnect
    case SendEvent => h.onSend
    case ReceiveEvent => h.onReceive
  }

  /** `SetOnConnect` and its three siblings. */
  function WithHook(h: Hooks, o: Occasion, d: Hook): Hooks
  {
    match o
    case ConnectEvent => h.(onConnect := d)
    case DisconnectEvent => h.(onDisconnect := d)
    case SendEvent => h.(onSend := d)
    case ReceiveEvent => h.(onReceive := d)
  }

  /** Setting one slot replaces that slot and no other. */
  lemma WithHookOnlyThatSlot(h: Hooks, o: Occasion, d: Hook, q: Occasion)
    ensures HookFor(WithHook(h, o, d), q) == if q == o then d else HookFor(h, q)
  {
  }

  /** `OnConnect()` and its siblings: the delegate in that slot is invoked with this UserContext. */
  function Fire(v: ContextView, o: Occasion): ContextView
  {
    v.(events := v.events + [Fired(o, HookFor(v.hooks, o))])
  }

  // ---------------------------------------------------------------------
  // Dispose and Reset

  /**
   * `Dispose()`: the connection is closed and dropped (an already dropped one
   * only logs), then, if still Connected, Connected is cleared and
   * `OnDisconnect` runs, which clears it (already cleared) and invokes the hook.
   */
  function Disposed(v: ContextView): ContextView
  {
    var closed := v.(socketOpen := false);
    if closed.connected then Fire(closed.(connected := false), DisconnectEvent) else closed
  }

  /** Dispose fires the disconnect hook once if the context was connected and never otherwise. */
  lemma DisposeFiresAtMostOnce(v: ContextView)
    ensures var d := Disposed(v);
      !d.connected && !d.socketOpen &&
      d.events == v.events + (if v.connected then [Fired(DisconnectEvent, v.hooks.onDisconnect)] else [])
  {
  }

  /** A second Dispose changes nothing: in particular no second disconnect event. */
  lemma DisposeTwice(v: ContextView)
    ensures Disposed(Disposed(v)) == Disposed(v)
  {
  }

  /** `Reset()`: a Complete frame is cleared, a partial one kept; the byte count goes to 0. */
  function ResetView(v: ContextView): ContextView
  {
    v.(frame := if v.frame.state == Complete then v.frame.(rawFrame := [], state := Empty) else v.frame,
       receivedByteCount := 0)
  }

  /** Reset keeps a frame that is still being received and empties a complete one. */
  lemma ResetKeepsPartialFrame(v: ContextView)
    ensures var r := ResetView(v);
      r.receivedByteCount == 0 &&
      (v.frame.state != Complete ==> r.frame == v.frame) &&
      (v.frame.state == Complete ==> Length(r.frame) == 0 && r.frame.state == Empty &&
                                     r.frame.payload == v.frame.payload && r.frame.opcode == v.frame.opcode)
  {
  }

  /** Resetting twice is resetting once. */
  lemma ResetTwice(v: ContextView)
    ensures ResetView(ResetView(v)) == ResetView(v)
  {
  }

  // ---------------------------------------------------------------------
  // Sending

  /** The callback `EndSend`: the gate is released (also when EndSend throws) and OnSend runs. */
  function SendDone(v: ContextView): ContextView
  {
    Fire(v.(sendGate := v.sendGate + 1), SendEvent)
  }

  /** The callback `EndSendAndClose`: as EndSend, then Dispose. */
  function SendDoneAndClose(v: ContextView): ContextView
  {
    Disposed(SendDone(v))
  }

  /**
   * `DefaultHandler.Send(data, context, close)`: take the gate; without a
   * connection BeginSend throws and the gate is released at once;
   * otherwise the buffer goes out and its callback completes the send.
   */
  function Transmit(v: ContextView, data: seq<byte>, close: bool): ContextView
  {
    var waited := v.(sendGate := v.sendGate - 1);
    if !waited.socketOpen then waited.(sendGate := waited.sendGate + 1)
    else
      var begun := waited.(sent := waited.sent + [Bytes(data)]);
      if close then SendDoneAndClose(begun) else SendDone(begun)
  }

  /**
   * A send releases the gate it took on every path; the data goes out
   * verbatim and OnSend runs exactly when there is a connection; with
   * `close` the context is then disposed.
   */
  lemma TransmitBalanced(v: ContextView, data: seq<byte>, close: bool)
    ensures var t := Transmit(v, data, close);
      t.sendGate == v.sendGate &&
      t.sent == v.sent + (if v.socketOpen then [Bytes(data)] else []) &&
      (!v.socketOpen ==> t == v) &&
      (v.socketOpen && !close ==> t.events == v.events + [Fired(SendEvent, v.hooks.onSend)] && t.connected == v.connected) &&
      (v.socketOpen && close ==>
         !t.connected && !t.socketOpen &&
         t.events == v.events + [Fired(SendEvent, v.hooks.onSend)] +
                     (if v.connected then [Fired(DisconnectEvent, v.hooks.onDisconnect)] else []))
  {
  }

  /** The frame `new DataFrame(data)` builds: defaults, payload the data read as UTF-8. */
  function OutgoingFrame(data: seq<byte>): FrameView
  {
    NewFrame.(payload := Some(Utf8.Decode(data)))
  }

  /**
   * `WebSocketHandler.Send`: the data is wrapped in a frame first; when
   * ToBytes throws (a payload over 255 bytes) nothing happens and the
   * exception escapes.
   */
  function FramedSend(v: ContextView, data: seq<byte>, close: bool): Outcome
  {
    DefaultsWellFormed(NewFrame);
    match FrameBytes(OutgoingFrame(data))
    case None => Outcome(v, false)
    case Some(b) => Outcome(Transmit(v, b, close), true)
  }

  /**
   * A framed send of the UTF-8 bytes of a text under 126 bytes puts on the
   * wire a frame that reads back as a final text frame carrying that text.
   */
  lemma FramedSendReadsBack(v: ContextView, text: string, close: bool)
    requires |Utf8.Encode(text)| < 126 && v.socketOpen
    ensures var o := FramedSend(v, Utf8.Encode(text), close);
      o.ok && |o.view.sent| == |v.sent| + 1 && o.view.sent[|v.sent|].Bytes? &&
      var back := AppendSpec(NewFrame, o.view.sent[|v.sent|].data, |o.view.sent[|v.sent|].data|);
      back.ok && back.frame.payload == Some(text) && back.frame.isFinished && back.frame.opcode == 1 &&
      back.frame.state == Complete
  {
    var f := OutgoingFrame(Utf8.Encode(text));
    FromBytesPayload(text);
    DefaultsWellFormed(NewFrame);
    RoundTrip(f);
    var b := FrameBytes(f).value;
    TransmitBalanced(v, b, close);
    AppendDecodesHeader(NewFrame, b, |b|);
  }

  /** A payload of more than 255 bytes makes the framed send throw before anything is sent. */
  lemma FramedSendTooLong(v: ContextView, data: seq<byte>, close: bool)
    requires |Utf8.Encode(Utf8.Decode(data))| > 255
    ensures FramedSend(v, data, close) == Outcome(v, false)
  {
  }

  /** `UserContext.Send(byte[], close)`: through whichever handler the context has now. */
  function SendVia(v: ContextView, data: seq<byte>, close: bool): Outcome
  {
    if v.handler == DefaultRole then Outcome(Transmit(v, data, close), true) else FramedSend(v, data, close)
  }

  // ---------------------------------------------------------------------
  // The handshake check

  /** The bytes `SendServerHandshake` passes to SendRaw: the response to the header's handshake, as UTF-8. */
  function HandshakeReply(h: HeaderView, sha1: seq<byte> -> seq<byte>): seq<byte>
  {
    Utf8.Encode(ServerText(Response(FromHeader(h), sha1)))
  }

  /**
   * The verdict of `CheckHandshake`; None when it throws, which happens when
   * more than 8 bytes arrived but there is no header to read.
   */
  function Verdict(v: ContextView, auth: AuthConfig, port: int): Option<bool>
  {
    if v.receivedByteCount <= 8 then Some(false)
    else match v.header
      case None => None
      case Some(h) => Some(Admits(v.receivedByteCount, FromHeader(h), auth, port))
  }

  /** `CheckHandshake`: the response is sent, unframed, exactly on the path that admits. */
  function Checked(v: ContextView, auth: AuthConfig, port: int, sha1: seq<byte> -> seq<byte>): ContextView
  {
    if Verdict(v, auth, port) == Some(true) then Transmit(v, HandshakeReply(v.header.value, sha1), false) else v
  }

  /**
   * `WebSocketHandler.Authenticate`: on success the protocol and path move
   * to the UserContext, the header is dropped and the context is set up;
   * otherwise the context is disposed.
   */
  function Authenticated(v: ContextView, auth: AuthConfig, port: int, sha1: seq<byte> -> seq<byte>): Outcome
  {
    match Verdict(v, auth, port)
    case None => Outcome(v, false)
    case Some(admitted) =>
      if admitted then
        var h := v.header.value;
        var w := Checked(v, auth, port, sha1);
        Outcome(w.(protocol := h.protocol, requestPath := h.requestPath, header := None, isSetup := true), true)
      else Outcome(Disposed(v), true)
  }

  lemma CheckedKeepsHeader(v: ContextView, auth: AuthConfig, port: int, sha1: seq<byte> -> seq<byte>)
    ensures Checked(v, auth, port, sha1).header == v.header
    ensures Verdict(v, auth, port) != Some(true) ==> Checked(v, auth, port, sha1) == v
  {
  }

  /**
   * Authentication sets the context up exactly when the handshake is
   * admitted; the response goes out once, and only then; a rejected
   * context is disposed and stays not set up.
   */
  lemma AuthenticateOutcome(v: ContextView, auth: AuthConfig, port: int, sha1: seq<byte> -> seq<byte>)
    requires v.header.Some? && !v.isSetup
    ensures var o := Authenticated(v, auth, port, sha1);
      var admitted := Admits(v.receivedByteCount, FromHeader(v.header.value), auth, port);
      o.ok && o.view.isSetup == admitted && o.view.frame == v.frame &&
      o.view.sent == v.sent + (if admitted && v.socketOpen then [Bytes(HandshakeReply(v.header.value, sha1))] else []) &&
      (admitted ==> o.view.header.None? && o.view.protocol == v.header.value.protocol &&
                    o.view.requestPath == v.header.value.requestPath && o.view.sendGate == v.sendGate) &&
      (!admitted ==> !o.view.socketOpen && !o.view.connected && o.view.header == v.header)
  {
    var h := v.header.value;
    if Verdict(v, auth, port) == Some(true) {
      TransmitBalanced(v, HandshakeReply(h, sha1), false);
    }
  }

  // ---------------------------------------------------------------------
  // The handlers

  /**
   * `WebSocketHandler.HandleRequest`: a set-up context feeds the receive
   * buffer to the frame and raises OnReceive when the frame is Complete;
   * any other context is authenticated. `buf` is the whole receive buffer.
   */
  function WebSocketRequest(v: ContextView, buf: seq<byte>, auth: AuthConfig, port: int,
                            sha1: seq<byte> -> seq<byte>): Outcome
  {
    if v.isSetup then
      var a := AppendSpec(v.frame, buf, v.receivedByteCount);
      var w := v.(frame := a.frame);
      if !a.ok then Outcome(w, false)
      else if a.frame.state == Complete then Outcome(Fire(w, ReceiveEvent), true)
      else Outcome(w, true)
    else Authenticated(v, auth, port, sha1)
  }

  /**
   * On a set-up context the bytes go to the frame and nowhere else, and
   * OnReceive fires exactly when the frame is then Complete.
   */
  lemma SetupFeedsFrame(v: ContextView, buf: seq<byte>, auth: AuthConfig, port: int, sha1: seq<byte> -> seq<byte>)
    requires v.isSetup
    ensures var o := WebSocketRequest(v, buf, auth, port, sha1);
      var a := AppendSpec(v.frame, buf, v.receivedByteCount);
      o.ok == a.ok && o.view.frame == a.frame && o.view.isSetup && o.view.sent == v.sent &&
      o.view.header == v.header && o.view.connected == v.connected &&
      o.view.events == v.events + (if a.ok && a.frame.state == Complete then [Fired(ReceiveEvent, v.hooks.onReceive)] else [])
  {
  }

  /** A context that is not set up never reaches the frame codec. */
  lemma HandshakeNeverFramed(v: ContextView, buf: seq<byte>, auth: AuthConfig, port: int, sha1: seq<byte> -> seq<byte>)
    requires !v.isSetup
    ensures WebSocketRequest(v, buf, auth, port, sha1).view.frame == v.frame
  {
  }

  /** A 512-byte receive buffer never makes the frame codec throw. */
  lemma SetupNeverThrowsOnDefaultBuffer(v: ContextView, buf: seq<byte>, auth: AuthConfig, port: int,
                                        sha1: seq<byte> -> seq<byte>)
    requires v.isSetup && |buf| == InitialBufferSize
    ensures WebSocketRequest(v, buf, auth, port, sha1).ok
  {
    AppendNeverFailsOnLongBuffer(v.frame, buf, v.receivedByteCount);
  }

  /** The text `ProcessHeader` reads: the first ReceivedByteCount bytes of the buffer as UTF-8. */
  function ReceivedText(v: ContextView, buf: seq<byte>): string
    requires 0 <= v.receivedByteCount <= |buf|
  {
    Utf8.Decode(buf[..v.receivedByteCount])
  }

  /**
   * `DefaultHandler.ProcessHeader`: the policy request is passed to the
   * policy server and the context disposed (`policy` is whether the
   * context's server still has a policy server); anything else is parsed into
   * the header, and a WebSocket or FlashSocket path switches the handler to
   * WebSocketHandler and hands it the same context, while any other gets
   * `501 Not Implemented` sent through the current handler with close.
   */
  function HeaderProcessed(v: ContextView, buf: seq<byte>, auth: AuthConfig, port: int, policy: bool,
                           sha1: seq<byte> -> seq<byte>): Outcome
    requires 0 <= v.receivedByteCount <= |buf|
  {
    var text := ReceivedText(v, buf);
    if text == PolicyRequest then Outcome(Disposed(PolicyAnswered(v, policy)), true)
    else
      var h := Parse(text);
      var w := v.(header := Some(h));
      if h.protocol == WebSocket || h.protocol == FlashSocket then
        WebSocketRequest(w.(handler := WebSocketRole), buf, auth, port, sha1)
      else Rejected(w)
  }

  /**
   * `AccessPolicyServer.SendResponse(context.Connection)` inside its
   * `try`: the answer goes out only when the server still has a policy
   * server and the connection is there; otherwise the null dereference is
   * swallowed and nothing is sent.
   */
  function PolicyAnswered(v: ContextView, policy: bool): ContextView
  {
    if policy && v.socketOpen then v.(sent := v.sent + [PolicyAnswer]) else v
  }

  /** `context.Send(Response.NotImplemented, true)` through the context's current handler. */
  function Rejected(v: ContextView): Outcome
  {
    SendVia(v, NotImplementedBytes(), true)
  }

  /** `DefaultHandler.HandleRequest`: a set-up context is disposed, any other has its header processed. */
  function DefaultRequest(v: ContextView, buf: seq<byte>, auth: AuthConfig, port: int, policy: bool,
                          sha1: seq<byte> -> seq<byte>): Outcome
    requires 0 <= v.receivedByteCount <= |buf|
  {
    if v.isSetup then Outcome(Disposed(v), true) else HeaderProcessed(v, buf, auth, port, policy, sha1)
  }

  /** `context.Handler.HandleRequest(context)`. */
  function Dispatch(v: ContextView, buf: seq<byte>, auth: AuthConfig, port: int, policy: bool,
                    sha1: seq<byte> -> seq<byte>): Outcome
    requires 0 <= v.receivedByteCount <= |buf|
  {
    if v.handler == DefaultRole then DefaultRequest(v, buf, auth, port, policy, sha1)
    else WebSocketRequest(v, buf, auth, port, sha1)
  }

  /**
   * The policy request is answered by the policy server when there is one
   * and the connection is open, and the context is disposed; no header is
   * made and the handler stays.
   */
  lemma PolicyRequestDisposes(v: ContextView, buf: seq<byte>, auth: AuthConfig, port: int, policy: bool, sha1: seq<byte> -> seq<byte>)
    requires 0 <= v.receivedByteCount <= |buf| && !v.isSetup
    requires ReceivedText(v, buf) == PolicyRequest
    ensures var o := DefaultRequest(v, buf, auth, port, policy, sha1);
      o.ok && o.view.sent == v.sent + (if policy && v.socketOpen then [PolicyAnswer] else []) &&
      o.view.header == v.header && o.view.events == Disposed(v).events &&
      o.view.handler == v.handler && !o.view.socketOpen && !o.view.connected && !o.view.isSetup
  {
  }

  /**
   * A header whose path names no protocol keeps the default handler and
   * gets `501 Not Implemented` sent unframed, after which the context is
   * disposed.
   */
  lemma UnknownProtocolRejected(v: ContextView, buf: seq<byte>, auth: AuthConfig, port: int, policy: bool, sha1: seq<byte> -> seq<byte>)
    requires 0 <= v.receivedByteCount <= |buf| && !v.isSetup && v.handler == DefaultRole
    requires ReceivedText(v, buf) != PolicyRequest && Parse(ReceivedText(v, buf)).protocol == NoProtocol
    ensures var o := DefaultRequest(v, buf, auth, port, policy, sha1);
      o.ok && o.view.handler == DefaultRole && o.view.header == Some(Parse(ReceivedText(v, buf))) &&
      o.view.sent == v.sent + (if v.socketOpen then [Bytes(NotImplementedBytes())] else []) &&
      !o.view.isSetup && (v.socketOpen ==> !o.view.socketOpen && !o.view.connected)
  {
    var w := v.(header := Some(Parse(ReceivedText(v, buf))));
    TransmitBalanced(w, NotImplementedBytes(), true);
  }

  /**
   * A WebSocket or FlashSocket header switches the handler and is
   * authenticated in the same call: the context ends set up exactly when
   * the handshake it carries is admitted.
   */
  lemma UpgradeAuthenticates(v: ContextView, buf: seq<byte>, auth: AuthConfig, port: int, policy: bool, sha1: seq<byte> -> seq<byte>)
    requires 0 <= v.receivedByteCount <= |buf| && !v.isSetup
    requires var text := ReceivedText(v, buf);
      text != PolicyRequest && Parse(text).protocol != NoProtocol
    ensures var h := Parse(ReceivedText(v, buf));
      var o := DefaultRequest(v, buf, auth, port, policy, sha1);
      o.ok && o.view.handler == WebSocketRole &&
      o.view.isSetup == Admits(v.receivedByteCount, FromHeader(h), auth, port) &&
      (o.view.isSetup ==> o.view.protocol == h.protocol && o.view.requestPath == h.requestPath)
  {
    var h := Parse(ReceivedText(v, buf));
    var w := v.(header := Some(h), handler := WebSocketRole);
    AuthenticateOutcome(w, auth, port, sha1);
  }

  /** Only the first ReceivedByteCount bytes of the buffer decide what the default handler does. */
  lemma DefaultReadsOnlyReceived(v: ContextView, buf: seq<byte>, other: seq<byte>, auth: AuthConfig, port: int, policy: bool,
                                 sha1: seq<byte> -> seq<byte>)
    requires 0 <= v.receivedByteCount <= |buf| && v.receivedByteCount <= |other|
    requires buf[..v.receivedByteCount] == other[..v.receivedByteCount]
    ensures DefaultRequest(v, buf, auth, port, policy, sha1) == DefaultRequest(v, other, auth, port, policy, sha1)
  {
  }

  /** Once set up, a context stays set up whatever it receives. */
  lemma SetupIsFinal(v: ContextView, buf: seq<byte>, auth: AuthConfig, port: int, policy: bool, sha1: seq<byte> -> seq<byte>)
    requires 0 <= v.receivedByteCount <= |buf| && v.isSetup
    ensures Dispatch(v, buf, auth, port, policy, sha1).view.isSetup
    ensures ResetView(v).isSetup && Disposed(v).isSetup && SendVia(v, buf, true).view.isSetup
  {
  }

  // ---------------------------------------------------------------------
  // The context object

  class Context {
    var connected: bool
    var socketOpen: bool
    var buffer: array<byte>
    var bufferSize: int
    var receivedByteCount: int
    var isSetup: bool
    var handler: Role
    var header: Option<HeaderView>
    var sendGate: int
    const frame: DataFrame
    var requestPath: string
    var protocol: Protocol
    var onConnect: Hook
    var onDisconnect: Hook
    var onSend: Hook
    var onReceive: Hook
    var sent: seq<Output>
    var events: seq<Event>

    function View(): ContextView
      reads this, frame
    {
      ContextView(connected, socketOpen, bufferSize, receivedByteCount, isSetup, handler, header, sendGate,
                  frame.View(), requestPath, protocol, Hooks(onConnect, onDisconnect, onSend, onReceive), sent, events)
    }

    /** `new Context()`, which also builds its UserContext with a new DataFrame. */
    constructor ()
      ensures View() == NewContext
      ensures fresh(frame) && fresh(buffer) && buffer.Length == InitialBufferSize
    {
      connected, socketOpen := true, false;
      bufferSize := InitialBufferSize;
      buffer := new byte[InitialBufferSize](_ => 0);
      receivedByteCount, isSetup, handler, header, sendGate := 0, false, DefaultRole, None, 1;
      frame := new DataFrame();
      requestPath, protocol := "/", NoProtocol;
      onConnect, onDisconnect, onSend, onReceive := Ignore, Ignore, Ignore, Ignore;
      sent, events := [], [];
    }

    /** The BufferSize setter: a fresh buffer of exactly that length; a negative size throws after the field is set. */
    method SetBufferSize(value: int) returns (ok: bool)
      modifies this
      ensures View() == old(View()).(bufferSize := value)
      ensures ok == (value >= 0)
      ensures ok ==> fresh(buffer) && buffer.Length == value
      ensures !ok ==> buffer == old(buffer)
    {
      bufferSize := value;
      if value < 0 {
        return false;
      }
      buffer := new byte[value](_ => 0);
      ok := true;
    }

    method Dispose()
      modifies this
      ensures View() == Disposed(old(View())) && buffer == old(buffer)
    {
      socketOpen := false;
      if connected {
        connected := false;
        OnDisconnect();
      }
    }

    method Reset()
      modifies this, frame
      ensures View() == ResetView(old(View())) && buffer == old(buffer)
    {
      if frame.state == Complete {
        frame.Clear();
      }
      receivedByteCount := 0;
    }

    method OnConnect()
      modifies this
      ensures View() == Fire(old(View()), ConnectEvent) && buffer == old(buffer)
    {
      events := events + [Fired(ConnectEvent, onConnect)];
    }

    method OnDisconnect()
      modifies this
      ensures View() == Fire(old(View()).(connected := false), DisconnectEvent) && buffer == old(buffer)
    {
      connected := false;
      events := events + [Fired(DisconnectEvent, onDisconnect)];
    }

    method OnSend()
      modifies this
      ensures View() == Fire(old(View()), SendEvent) && buffer == old(buffer)
    {
      events := events + [Fired(SendEvent, onSend)];
    }

    method OnReceive()
      modifies this
      ensures View() == Fire(old(View()), ReceiveEvent) && buffer == old(buffer)
    {
      events := events + [Fired(ReceiveEvent, onReceive)];
    }

    method SetOnConnect(d: Hook)
      modifies this
      ensures View() == old(View()).(hooks := WithHook(old(View()).hooks, ConnectEvent, d))
    {
      onConnect := d;
    }

    method SetOnDisconnect(d: Hook)
      modifies this
      ensures View() == old(View()).(hooks := WithHook(old(View()).hooks, DisconnectEvent, d))
    {
      onDisconnect := d;
    }

    method SetOnSend(d: Hook)
      modifies this
      ensures View() == old(View()).(hooks := WithHook(old(View()).hooks, SendEvent, d))
    {
      onSend := d;
    }

    method SetOnReceive(d: Hook)
      modifies this
      ensures View() == old(View()).(hooks := WithHook(old(View()).hooks, ReceiveEvent, d))
    {
      onReceive := d;
    }

    /** `UserContext.Send(byte[], close)`. */
    method Send(data: seq<byte>, close: bool) returns (ok: bool)
      modifies this
      ensures Outcome(View(), ok) == SendVia(old(View()), data, close) && buffer == old(buffer)
    {
      if handler == DefaultRole {
        DefaultHandler.Send(data, this, close);
        ok := true;
      } else {
        ok := WebSocketHandler.Send(data, this, close);
      }
    }

    /** `UserContext.Send(string, close)`: the UTF-8 bytes of the text. */
    method SendText(data: string, close: bool) returns (ok: bool)
      modifies this
      ensures Outcome(View(), ok) == SendVia(old(View()), Utf8.Encode(data), close) && buffer == old(buffer)
    {
      ok := Send(Utf8.Encode(data), close);
    }

    /** `UserContext.SendRaw`: always the default handler, unframed, never closing. */
    method SendRaw(data: seq<byte>)
      modifies this
      ensures View() == Transmit(old(View()), data, false) && buffer == old(buffer)
    {
      DefaultHandler.Send(data, this, false);
    }
  }

  // ---------------------------------------------------------------------
  // The handler singletons

  class DefaultHandler {
    static method HandleRequest(context: Context, auth: AuthConfig, port: int, policy: bool,
                                sha1: seq<byte> -> seq<byte>)
      returns (ok: bool)
      requires 0 <= context.receivedByteCount <= context.buffer.Length
      modifies context, context.frame
      ensures context.buffer == old(context.buffer)
      ensures Outcome(context.View(), ok) ==
        DefaultRequest(old(context.View()), context.buffer[..], auth, port, policy, sha1)
    {
      if context.isSetup {
        context.Dispose();
        ok := true;
      } else {
        ok := ProcessHeader(context, auth, port, policy, sha1);
      }
    }

    static method ProcessHeader(context: Context, auth: AuthConfig, port: int, policy: bool,
                                sha1: seq<byte> -> seq<byte>)
      returns (ok: bool)
      requires 0 <= context.receivedByteCount <= context.buffer.Length && !context.isSetup
      modifies context, context.frame
      ensures context.buffer == old(context.buffer)
      ensures Outcome(context.View(), ok) == HeaderProcessed(old(context.View()), context.buffer[..], auth, port, policy, sha1)
    {
      ghost var v, buf := context.View(), context.buffer[..];
      var data := Utf8.Decode(context.buffer[..context.receivedByteCount]);
      assert data == ReceivedText(v, buf);
      if data == PolicyRequest {
        if policy && context.socketOpen {
          context.sent := context.sent + [PolicyAnswer];
        }
        context.Dispose();
        ok := true;
      } else {
        var protocol := StoreHeader(context, data);
        if protocol != NoProtocol {
          ok := WebSocketHandler.HandleRequest(context, auth, port, sha1);
        } else {
          ok := Reject(context);
        }
      }
    }

    /** Answers a request for no known protocol with `501 Not Implemented`, closing the connection. */
    static method Reject(context: Context) returns (ok: bool)
      modifies context
      ensures context.buffer == old(context.buffer)
      ensures Outcome(context.View(), ok) == Rejected(old(context.View()))
    {
      ok := context.SendText(NotImplemented, true);
      NotImplementedEncoding();
    }

    /** The else branch of ProcessHeader up to the dispatch: a new Header from the text, and the handler switch. */
    static method StoreHeader(context: Context, data: string) returns (protocol: Protocol)
      modifies context
      ensures protocol == Parse(data).protocol
      ensures context.View() == old(context.View()).(header := Some(Parse(data)),
                handler := if protocol != NoProtocol then WebSocketRole else old(context.handler))
      ensures context.buffer == old(context.buffer)
    {
      var h := new Header(data);
      context.header := Some(h.View());
      if h.protocol == WebSocket || h.protocol == FlashSocket {
        context.handler := WebSocketRole;
      }
      protocol := h.protocol;
    }

    static method Send(data: seq<byte>, context: Context, close: bool)
      modifies context
      ensures context.View() == Transmit(old(context.View()), data, close) && context.buffer == old(context.buffer)
    {
      context.sendGate := context.sendGate - 1;
      if !context.socketOpen {
        context.sendGate := context.sendGate + 1;
        return;
      }
      context.sent := context.sent + [Bytes(data)];
      if close {
        EndSendAndClose(context);
      } else {
        EndSend(context);
      }
    }

    static method EndSend(context: Context)
      modifies context
      ensures context.View() == SendDone(old(context.View())) && context.buffer == old(context.buffer)
    {
      context.sendGate := context.sendGate + 1;
      context.OnSend();
    }

    static method EndSendAndClose(context: Context)
      modifies context
      ensures context.View() == SendDoneAndClose(old(context.View())) && context.buffer == old(context.buffer)
    {
      context.sendGate := context.sendGate + 1;
      context.OnSend();
      context.Dispose();
    }
  }

  class WebSocketHandler {
    static method HandleRequest(context: Context, auth: AuthConfig, port: int, sha1: seq<byte> -> seq<byte>)
      returns (ok: bool)
      modifies context, context.frame
      ensures context.buffer == old(context.buffer)
      ensures Outcome(context.View(), ok) == WebSocketRequest(old(context.View()), context.buffer[..], auth, port, sha1)
    {
      if context.isSetup {
        ok := context.frame.Append(context.buffer, context.receivedByteCount);
        if ok && context.frame.state == Complete {
          context.OnReceive();
        }
      } else {
        ok := Authenticate(context, auth, port, sha1);
      }
    }

    static method Authenticate(context: Context, auth: AuthConfig, port: int, sha1: seq<byte> -> seq<byte>)
      returns (ok: bool)
      modifies context
      ensures Outcome(context.View(), ok) == Authenticated(old(context.View()), auth, port, sha1)
      ensures context.buffer == old(context.buffer)
    {
      ghost var v := context.View();
      var admitted;
      admitted, ok := WebSocketAuthentication.CheckHandshake(context, auth, port, sha1);
      if !ok {
        return;
      }
      CheckedKeepsHeader(v, auth, port, sha1);
      if admitted {
        context.protocol := context.header.value.protocol;
        context.requestPath := context.header.value.requestPath;
        context.header := None;
        context.isSetup := true;
      } else {
        context.Dispose();
      }
    }

    /** Sends `new DataFrame(data).ToBytes()`; false when ToBytes throws. */
    static method Send(data: seq<byte>, context: Context, close: bool) returns (ok: bool)
      modifies context
      ensures Outcome(context.View(), ok) == FramedSend(old(context.View()), data, close)
      ensures context.buffer == old(context.buffer)
    {
      var f := new DataFrame.FromBytes(data);
      DefaultsWellFormed(NewFrame);
      var dataFrameBytes := f.ToBytes();
      if dataFrameBytes.None? {
        return false;
      }
      context.sendGate := context.sendGate - 1;
      if !context.socketOpen {
        context.sendGate := context.sendGate + 1;
        return true;
      }
      context.sent := context.sent + [Bytes(dataFrameBytes.value)];
      if close {
        EndSendAndClose(context);
      } else {
        EndSend(context);
      }
      ok := true;
    }

    static method EndSend(context: Context)
      modifies context
      ensures context.View() == SendDone(old(context.View())) && context.buffer == old(context.buffer)
    {
      context.sendGate := context.sendGate + 1;
      context.OnSend();
    }

    static method EndSendAndClose(context: Context)
      modifies context
      ensures context.View() == SendDoneAndClose(old(context.View())) && context.buffer == old(context.buffer)
    {
      context.sendGate := context.sendGate + 1;
      context.OnSend();
      context.Dispose();
    }
  }

  class WebSocketAuthentication {
    /**
     * `CheckHandshake(context)`: whether the handshake is admitted, and false
     * in `ok` when it throws; the response is sent only when admitted.
     */
    static method CheckHandshake(context: Context, auth: AuthConfig, port: int, sha1: seq<byte> -> seq<byte>)
      returns (admitted: bool, ok: bool)
      modifies context
      ensures ok == Verdict(old(context.View()), auth, port).Some?
      ensures ok ==> admitted == Verdict(old(context.View()), auth, port).value
      ensures context.View() == Checked(old(context.View()), auth, port, sha1)
      ensures context.buffer == old(context.buffer)
    {
      if context.receivedByteCount > 8 {
        if context.header.None? {
          // new ClientHandshake(null) dereferences the missing header
          return false, false;
        }
        var handshake := FromHeader(context.header.value);
        if IsValid(handshake) {
          if auth.origin != "" && handshake.origin != Some("http://" + auth.origin) {
            return false, true;
          }
          if auth.location != "" && handshake.host != Some(auth.location + ":" + Text.IntToString(port)) {
            return false, true;
          }
          var serverShake := Response(handshake, sha1);
          SendServerHandshake(serverShake, context);
          return true, true;
        }
      }
      return false, true;
    }

    static method SendServerHandshake(handshake: ServerHandshake, context: Context)
      modifies context
      ensures context.View() == Transmit(old(context.View()), Utf8.Encode(ServerText(handshake)), false)
      ensures context.buffer == old(context.buffer)
    {
      var handshakeBytes := Utf8.Encode(ServerText(handshake));
      context.SendRaw(handshakeBytes);
    }
  }
}
