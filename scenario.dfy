/**
 * A whole session driven through its handlers, using only their
 * contracts: a peer answers the handshake and then sends two frames in
 * one chunk.
 */
module Scenario {

  import opened Base
  import opened Reassembly
  import opened FrameStream
  import opened Address
  import opened Bridge

  /**
   * After the handshake, a chunk holding two frames f and g relays f only
   * (answered when it asks for peers); g waits in the reassembler, already
   * measured, for the next data event.
   */
  method TwoFramesInOneChunk(address: string, portAccepted: string -> bool,
                             h: seq<byte>, f: seq<byte>, g: seq<byte>, decode: seq<byte> -> ContentId)
    returns (s: Session)
    requires ParseEndpoint(address).port.Some? && portAccepted(ParseEndpoint(address).port.value)
    requires WellFormed(f) && WellFormed(g)
    ensures s.client != null && s.reader != null
    ensures s.log == [Send(Hello), Connect(s.client), Send(HandshakeInfo(h))]
                     + FrameEffects(s.client, decode(f), f)
    ensures s.reader.State() == ReaderState(g, |g|)
  {
    s := new Session();
    var threw := s.NodeConnect(address, portAccepted);
    var link := s.client;
    assert s.log == [Send(Hello), Connect(link)] && s.reader == null;
    threw := s.OnPeerData(h, decode);
    var reader := s.reader;
    assert s.log == [Send(Hello), Connect(link), Send(HandshakeInfo(h))];
    assert reader.State() == Fresh && s.client == link;
    var both := f + g;
    SecondFrameWaits(f, g);
    ghost var st := Step(Fresh, both);
    assert st == Stepped(ReaderState(g, |g|), Some(f));
    threw := s.OnPeerData(both, decode);
  }
}
