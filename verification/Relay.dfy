/** The relay frame: a 16-byte chain id followed by an opaque payload. */
module Relay {
  import opened Base

  const RELAY_FRAME_PREFIX_LEN: nat := 16

  /** A ULID, held as the 16 bytes it travels as. */
  type ChainId = Octets16

  datatype DecodeError = UnexpectedEnd

  datatype RelayFrame = RelayFrame(chainId: ChainId, wgPayload: Bytes) {

    function Encode(): Bytes {
      chainId + wgPayload
    }
  }

  function Decode(buf: Bytes): (r: Result<RelayFrame, DecodeError>)
    ensures r.Err? <==> |buf| < RELAY_FRAME_PREFIX_LEN
    ensures r.Ok? ==> r.value.Encode() == buf
  {
    if |buf| < RELAY_FRAME_PREFIX_LEN then
      Err(UnexpectedEnd)
    else
      Ok(RelayFrame(buf[..RELAY_FRAME_PREFIX_LEN], buf[RELAY_FRAME_PREFIX_LEN..]))
  }

  function PeekChainId(payload: Bytes): Option<ChainId> {
    if |payload| < RELAY_FRAME_PREFIX_LEN then None else Some(payload[..RELAY_FRAME_PREFIX_LEN])
  }

  /** Decoding undoes encoding, so equal wire bytes mean equal frames. */
  lemma FrameRoundTrip(frame: RelayFrame)
    ensures Decode(frame.Encode()) == Ok(frame)
    ensures PeekChainId(frame.Encode()) == Some(frame.chainId)
    ensures |frame.Encode()| == RELAY_FRAME_PREFIX_LEN + |frame.wgPayload|
  {
    var buf := frame.Encode();
    assert buf[..RELAY_FRAME_PREFIX_LEN] == frame.chainId;
    assert buf[RELAY_FRAME_PREFIX_LEN..] == frame.wgPayload;
  }

  /** The forwarder's cheap peek sees the chain the endpoint's decoder sees. */
  lemma PeekAgreesWithDecode(buf: Bytes)
    ensures PeekChainId(buf).Some? <==> Decode(buf).Ok?
    ensures Decode(buf).Ok? ==> PeekChainId(buf) == Some(Decode(buf).value.chainId)
  {
  }
}
