/**
 * The per-socket relay of server/index.js: the `client` variable that
 * `node-connect` overwrites and the disconnect handlers destroy, the
 * handshake that the first peer `data` event carries, the reassembler
 * that takes every later event, and the reply to a `getPeers` frame.
 * Socket and codec calls are recorded as effects in a log.
 */
module Bridge {

  import opened Base
  import opened Reassembly
  import opened Address

  /** The content kinds the handler tells apart; the codec's other kinds carry their number. */
  datatype ContentId = GetPeers | Peers | OtherKind(code: nat)

  /** Messages the relay writes to a peer, each encoded by the codec. */
  datatype OutMsg = HandshakeMsg | GetPeersMsg | EmptyPeersMsg

  /** What the relay sends back over the session socket. */
  datatype Relay = Hello | HandshakeInfo(raw: seq<byte>) | MessageInfo(kind: ContentId, frame: seq<byte>)

  /** A peer connection made by net.createConnection. */
  class PeerLink {
    const endpoint: Endpoint

    constructor (e: Endpoint)
      ensures endpoint == e
    {
      endpoint := e;
    }
  }

  /** The observable effects of the handlers, in the order they happen. */
  datatype Effect =
    | Send(relay: Relay)
    | Connect(link: PeerLink)
    | Write(link: PeerLink, msg: OutMsg)
    | Destroy(link: PeerLink)

  /** Lines 46-55: only a `getPeers` frame is answered, and the answer is an empty peer list. */
  function Reply(kind: ContentId): (r: Option<OutMsg>)
    ensures r.Some? <==> kind == GetPeers
    ensures r.Some? ==> r.value == EmptyPeersMsg
  {
    match kind
    case GetPeers => Some(EmptyPeersMsg)
    case _ => None
  }

  /**
   * Lines 44-55 for one emitted frame: it is relayed to the session exactly
   * once, then answered on `target` when, and only when, it asks for peers.
   */
  function FrameEffects(target: PeerLink, kind: ContentId, frame: seq<byte>): (r: seq<Effect>)
    ensures 1 <= |r| <= 2
    ensures r[0] == Send(MessageInfo(kind, frame))
    ensures |r| == 2 <==> kind == GetPeers
    ensures forall i :: 1 <= i < |r| ==> r[i] == Write(target, EmptyPeersMsg)
  {
    [Send(MessageInfo(kind, frame))] + OptionToSeq(match Reply(kind) case Some(m) => Some(Write(target, m)) case None => None)
  }

  /** The connections opened and not destroyed since, according to a log. */
  function Live(log: seq<Effect>): (r: set<PeerLink>)
    ensures forall l :: l in r ==> Connect(l) in log
    decreases |log|
  {
    if log == [] then {}
    else
      var prefix := log[..|log| - 1];
      var prev := Live(prefix);
      assert forall l :: l in prev ==> Connect(l) in log by {
        forall l | l in prev ensures Connect(l) in log {
          var i :| 0 <= i < |prefix| && prefix[i] == Connect(l);
          assert log[i] == Connect(l);
        }
      }
      match log[|log| - 1]
      case Connect(l) => prev + {l}
      case Destroy(l) => prev - {l}
      case _ => prev
  }

  /** One session socket (lines 13-81). */
  class Session {
    /** The `client` variable of line 14: the connection made by the latest `node-connect`. */
    var client: PeerLink?
    /** The reassembler the handshake handler set up for `client`; null while its handshake is awaited. */
    var reader: Reassembler?
    /** Everything the handlers have done so far. */
    var log: seq<Effect>

    /** Lines 13-15: no connection yet, and the greeting is sent. */
    constructor ()
      ensures client == null && reader == null
      ensures log == [Send(Hello)] && Live(log) == {}
    {
      client := null;
      reader := null;
      log := [Send(Hello)];
    }

    /**
     * Lines 16-18 and 30: split the address, open a new connection and make
     * it `client`, whose first data event will be its handshake. The previous
     * connection is not destroyed: it stays live beside the new one.
     * net.createConnection throws at once when the port is missing or is
     * one `net` rejects; `portAccepted` stands for that check inside `net`.
     * The throw comes before the assignment, so then nothing changes.
     */
    method NodeConnect(data: string, portAccepted: string -> bool) returns (threw: bool)
      modifies this
      ensures var e := ParseEndpoint(data);
        threw <==> e.port.None? || !portAccepted(e.port.value)
      ensures threw ==> client == old(client) && reader == old(reader) && log == old(log)
      ensures !threw ==> client != null && fresh(client) && client.endpoint == ParseEndpoint(data)
      ensures !threw ==> reader == null
      ensures !threw ==> log == old(log) + [Connect(client)]
      ensures !threw ==> Live(log) == Live(old(log)) + {client}
      ensures !threw && old(client) != null && old(client) in Live(old(log)) ==> old(client) in Live(log)
    {
      var e := ParseEndpoint(data);
      if e.port.None? || !portAccepted(e.port.value) {
        return true;
      }
      var link := new PeerLink(e);
      client := link;
      reader := null;
      log := log + [Connect(link)];
      return false;
    }

    /** Lines 20-28: once connected, say hello and ask for known peers, both on `client`. */
    method OnReady()
      requires client != null
      modifies this`log
      ensures log == old(log) + [Write(client, HandshakeMsg), Write(client, GetPeersMsg)]
    {
      log := log + [Write(client, HandshakeMsg), Write(client, GetPeersMsg)];
    }

    /**
     * Lines 30-57: a data event of `client`. The first one is the handshake:
     * it is relayed as such, never reaches a reassembler, and leaves a fresh
     * one behind. Every later one goes through the reassembler; a frame it
     * emits is decoded, relayed once and answered as Reply says. `threw`
     * reports that readInt32BE threw; nothing has changed then.
     */
    method OnPeerData(chunk: seq<byte>, decode: seq<byte> -> ContentId) returns (threw: bool)
      requires client != null
      modifies this, reader
      ensures client == old(client)
      ensures old(reader) == null ==>
        && !threw && reader != null && fresh(reader) && reader.State() == Fresh
        && log == old(log) + [Send(HandshakeInfo(chunk))]
      ensures old(reader) != null ==>
        var st := Step(old(reader.State()), chunk);
        && reader == old(reader)
        && (threw <==> st.Threw?)
        && (threw ==> reader.State() == old(reader.State()) && log == old(log))
        && (!threw && st.frame.None? ==> reader.State() == st.next && log == old(log))
        && (!threw && st.frame.Some? ==>
              reader.State() == st.next
              && log == old(log) + FrameEffects(client, decode(st.frame.value), st.frame.value))
    {
      if reader == null {
        log := log + [Send(HandshakeInfo(chunk))];
        reader := new Reassembler();
        return false;
      }
      var frame;
      threw, frame := reader.OnData(chunk);
      if frame.Some? {
        var kind := decode(frame.value);
        log := log + [Send(MessageInfo(kind, frame.value))];
        match Reply(kind) {
          case Some(m) => log := log + [Write(client, m)];
          case None =>
        }
      }
    }

    /**
     * Lines 74-80, the `disconnect` and `node-disconnect` handlers: destroy
     * `client` if there is one, otherwise do nothing. `client` keeps its
     * value, so a second call destroys the same connection again, which
     * leaves the set of live connections as it was.
     */
    method DestroyClient()
      modifies this`log
      ensures old(client) == null ==> log == old(log)
      ensures old(client) != null ==> log == old(log) + [Destroy(client)]
      ensures Live(log) == Live(old(log)) - (if client != null then {client} else {})
    {
      if client != null {
        log := log + [Destroy(client)];
      }
    }
  }
}
