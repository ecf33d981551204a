/** The client's single end-to-end session: one cipher engine, wrapped in relay
    frames when the assignment goes through forwarders. */
module ClientSession {
  import opened Base
  import opened Relay

  const USIZE_MAX: nat := 0xFFFF_FFFF_FFFF_FFFF

  /** What the cipher engine reports for one outbound frame. */
  datatype EncapOutcome =
    | WriteToNetwork(datagram: Bytes)
    | EncapDone
    | EncapToTunnel
    | EncapError

  /** What the cipher engine reports for one inbound datagram. */
  datatype DecapOutcome =
    | WriteToTunnel(plain: Bytes)
    | DecapDone
    | DecapToNetwork
    | DecapError

  datatype TunnelError = BufferTooSmall(have: nat, need: nat) | WireGuard

  datatype SessionError = Cipher(tunnel: TunnelError) | RelayFrameTooShort | ChainIdMismatch

  datatype AssignmentMode = SingleHop | MultiHop(chainId: ChainId)

  /** The smallest output buffer the engine accepts for `plainLen` bytes. */
  function EncapBufferFloor(plainLen: nat): nat {
    Max(SaturatingAdd(plainLen, 32, USIZE_MAX), 148)
  }

  /** The engine never writes past the sizes it documents: 32 bytes more than the
      plaintext, or the 148 of a handshake message. */
  ghost predicate FitsBuffers(encap: Bytes -> EncapOutcome, decap: Bytes -> DecapOutcome) {
    && (forall plain: Bytes ::
          encap(plain).WriteToNetwork? ==>
            |encap(plain).datagram| <= 148 || |encap(plain).datagram| <= Min(|plain| + 32, USIZE_MAX))
    && (forall data: Bytes ::
          decap(data).WriteToTunnel? ==> |decap(data).plain| <= |data|)
  }

  /** The cipher law: a datagram that seals its plaintext is opened to it by the other
      end; one that does not, a handshake message sent while there is no session, is
      taken in without yielding any plaintext. */
  ghost predicate Opens(encap: Bytes -> EncapOutcome, decap: Bytes -> DecapOutcome, seals: Bytes -> bool) {
    forall plain: Bytes ::
      encap(plain).WriteToNetwork? ==>
        var outcome := decap(encap(plain).datagram);
        if seals(encap(plain).datagram) then outcome == WriteToTunnel(plain) else !outcome.WriteToTunnel?
  }

  class WgTunnel {
    const encap: Bytes -> EncapOutcome
    const decap: Bytes -> DecapOutcome

    constructor (encap: Bytes -> EncapOutcome, decap: Bytes -> DecapOutcome)
      ensures this.encap == encap && this.decap == decap
    {
      this.encap := encap;
      this.decap := decap;
    }

    method Encapsulate(plain: Bytes, out: array<byte>) returns (r: Result<nat, TunnelError>)
      requires FitsBuffers(encap, decap)
      modifies out
      ensures r.Err? && r.error.BufferTooSmall? <==> out.Length < 148 || out.Length < Min(|plain| + 32, USIZE_MAX)
      ensures r.Err? && r.error.BufferTooSmall? ==> r.error.have == out.Length < r.error.need
      ensures r.Ok? ==> r.value <= out.Length
      ensures out.Length >= 148 && out.Length >= Min(|plain| + 32, USIZE_MAX) ==>
                match encap(plain)
                case WriteToNetwork(datagram) => r == Ok(|datagram|) && out[..|datagram|] == datagram
                case EncapError => r == Err(WireGuard)
                case _ => r == Ok(0)
    {
      var needed := Max(SaturatingAdd(|plain|, 32, USIZE_MAX), 148);
      if out.Length < needed {
        return Err(BufferTooSmall(out.Length, needed));
      }
      match encap(plain) {
        case WriteToNetwork(datagram) =>
          forall i | 0 <= i < |datagram| { out[i] := datagram[i]; }
          return Ok(|datagram|);
        case EncapError => return Err(WireGuard);
        case _ => return Ok(0);
      }
    }

    method Decapsulate(data: Bytes, out: array<byte>) returns (r: Result<Option<nat>, TunnelError>)
      requires FitsBuffers(encap, decap)
      modifies out
      ensures r == Err(BufferTooSmall(out.Length, |data|)) <==> out.Length < |data|
      ensures r.Ok? && r.value.Some? ==> r.value.value <= out.Length
      ensures out.Length >= |data| ==>
                match decap(data)
                case WriteToTunnel(plain) => r == Ok(Some(|plain|)) && out[..|plain|] == plain
                case DecapError => r == Err(WireGuard)
                case _ => r == Ok(None)
    {
      if out.Length < |data| {
        return Err(BufferTooSmall(out.Length, |data|));
      }
      match decap(data) {
        case WriteToTunnel(plain) =>
          forall i | 0 <= i < |plain| { out[i] := plain[i]; }
          return Ok(Some(|plain|));
        case DecapError => return Err(WireGuard);
        case _ => return Ok(None);
      }
    }
  }

  /** The UDP body for one plaintext, empty when the engine has nothing to send. */
  function OutboundBody(mode: AssignmentMode, outcome: EncapOutcome): Result<Bytes, SessionError> {
    match outcome
    case EncapError => Err(Cipher(WireGuard))
    case WriteToNetwork(datagram) =>
      if mode.MultiHop? && datagram != [] then
        Ok(RelayFrame(mode.chainId, datagram).Encode())
      else
        Ok(datagram)
    case _ => Ok([])
  }

  /** The plaintext an inbound UDP body carries, if any. */
  function InboundPlain(mode: AssignmentMode, decap: Bytes -> DecapOutcome, udp: Bytes)
    : Result<Option<Bytes>, SessionError>
  {
    match mode
    case SingleHop => Opened(decap(udp))
    case MultiHop(chainId) =>
      if |udp| < RELAY_FRAME_PREFIX_LEN then Err(RelayFrameTooShort)
      else if udp[..RELAY_FRAME_PREFIX_LEN] != chainId then Err(ChainIdMismatch)
      else Opened(decap(udp[RELAY_FRAME_PREFIX_LEN..]))
  }

  function Opened(outcome: DecapOutcome): Result<Option<Bytes>, SessionError> {
    match outcome
    case WriteToTunnel(plain) => Ok(Some(plain))
    case DecapError => Err(Cipher(WireGuard))
    case _ => Ok(None)
  }

  /** What is sent, by what the engine did: nothing if it has nothing to send, its own
      failure if it failed, else its datagram, after the chain id on a multi-hop path. */
  ghost predicate Sends(mode: AssignmentMode, outcome: EncapOutcome, sent: Result<Bytes, SessionError>) {
    && (outcome.EncapError? <==> sent == Err(Cipher(WireGuard)))
    && (outcome.EncapError? <==> sent.Err?)
    && (outcome.EncapDone? || outcome.EncapToTunnel? ==> sent == Ok([]))
    && (outcome.WriteToNetwork? && outcome.datagram == [] ==> sent == Ok([]))
    && (outcome.WriteToNetwork? && outcome.datagram != [] ==>
          match mode
          case SingleHop => sent == Ok(outcome.datagram)
          case MultiHop(chainId) =>
            sent.Ok? && |sent.value| > 16 && sent.value[..16] == chainId && sent.value[16..] == outcome.datagram)
  }

  /** What is received, by the body's shape and what the engine did with what is its own. */
  ghost predicate Receives(mode: AssignmentMode, decap: Bytes -> DecapOutcome, udp: Bytes,
                           received: Result<Option<Bytes>, SessionError>)
  {
    if mode.MultiHop? && |udp| < 16 then received == Err(RelayFrameTooShort)
    else if mode.MultiHop? && udp[..16] != mode.chainId then received == Err(ChainIdMismatch)
    else
      match decap(if mode.MultiHop? then udp[16..] else udp)
      case WriteToTunnel(plain) => received == Ok(Some(plain))
      case DecapDone => received == Ok(None)
      case DecapToNetwork => received == Ok(None)
      case DecapError => received == Err(Cipher(WireGuard))
  }

  /** The specification functions say just that. */
  lemma BodiesByOutcome(mode: AssignmentMode, outcome: EncapOutcome, decap: Bytes -> DecapOutcome, udp: Bytes)
    ensures Sends(mode, outcome, OutboundBody(mode, outcome))
    ensures Receives(mode, decap, udp, InboundPlain(mode, decap, udp))
  {
    if mode.MultiHop? && outcome.WriteToNetwork? && outcome.datagram != [] {
      FrameRoundTrip(RelayFrame(mode.chainId, outcome.datagram));
    }
  }

  class Session {
    const tunnel: WgTunnel
    const nextHop: SocketAddr
    const mode: AssignmentMode

    constructor (tunnel: WgTunnel, nextHop: SocketAddr, mode: AssignmentMode)
      ensures this.tunnel == tunnel && this.nextHop == nextHop && this.mode == mode
    {
      this.tunnel := tunnel;
      this.nextHop := nextHop;
      this.mode := mode;
    }

    /** Never reports a short buffer: the floor covers what the engine needs. */
    method EncodeOutbound(plain: Bytes) returns (r: Result<Bytes, SessionError>)
      requires FitsBuffers(tunnel.encap, tunnel.decap)
      ensures r == OutboundBody(mode, tunnel.encap(plain))
      ensures Sends(mode, tunnel.encap(plain), r)
    {
      BodiesByOutcome(mode, tunnel.encap(plain), tunnel.decap, []);
      var encapsulated := EncapsulateToBytes(plain);
      if encapsulated.Err? {
        return encapsulated;
      }
      var wgPayload := encapsulated.value;
      if wgPayload == [] {
        return Ok([]);
      }
      match mode {
        case SingleHop => return Ok(wgPayload);
        case MultiHop(chainId) => return Ok(RelayFrame(chainId, wgPayload).Encode());
      }
    }

    method DecodeInbound(udp: Bytes) returns (r: Result<Option<Bytes>, SessionError>)
      requires FitsBuffers(tunnel.encap, tunnel.decap)
      ensures r == InboundPlain(mode, tunnel.decap, udp)
      ensures Receives(mode, tunnel.decap, udp, r)
    {
      BodiesByOutcome(mode, EncapDone, tunnel.decap, udp);
      match mode {
        case SingleHop =>
          r := DecapsulateOwned(udp);
        case MultiHop(chainId) =>
          var decoded := Decode(udp);
          if decoded.Err? {
            return Err(RelayFrameTooShort);
          }
          var frame := decoded.value;
          if frame.chainId != chainId {
            return Err(ChainIdMismatch);
          }
          r := DecapsulateOwned(frame.wgPayload);
      }
    }

    method EncapsulateToBytes(plain: Bytes) returns (r: Result<Bytes, SessionError>)
      requires FitsBuffers(tunnel.encap, tunnel.decap)
      ensures match tunnel.encap(plain)
              case WriteToNetwork(datagram) => r == Ok(datagram)
              case EncapError => r == Err(Cipher(WireGuard))
              case _ => r == Ok([])
    {
      var buf := new byte[EncapBufferFloor(|plain|)](_ => 0);
      var written := tunnel.Encapsulate(plain, buf);
      if written.Err? {
        return Err(Cipher(written.error));
      }
      r := Ok(buf[..written.value]);
    }

    method DecapsulateOwned(wgPayload: Bytes) returns (r: Result<Option<Bytes>, SessionError>)
      requires FitsBuffers(tunnel.encap, tunnel.decap)
      ensures r == Opened(tunnel.decap(wgPayload))
    {
      var out := new byte[Max(|wgPayload|, 1)](_ => 0);
      var outcome := tunnel.Decapsulate(wgPayload, out);
      match outcome {
        case Err(error) => r := Err(Cipher(error));
        case Ok(None) => r := Ok(None);
        case Ok(Some(plainLen)) => r := Ok(Some(out[..plainLen]));
      }
    }
  }

  /** What one end encodes, the other end of the same assignment decodes: the wrapping is
      transparent to the engine, so a sealed plaintext arrives, a handshake message reaches
      the engine as it is, and no other plaintext ever comes out. */
  lemma SessionRoundTrip(mode: AssignmentMode, encap: Bytes -> EncapOutcome, decap: Bytes -> DecapOutcome,
                         seals: Bytes -> bool, plain: Bytes)
    requires Opens(encap, decap, seals)
    requires encap(plain).WriteToNetwork? && encap(plain).datagram != []
    ensures var datagram := encap(plain).datagram;
            var body := OutboundBody(mode, encap(plain));
            && body.Ok? && |body.value| == |datagram| + (if mode.MultiHop? then 16 else 0)
            && InboundPlain(mode, decap, body.value) == Opened(decap(datagram))
            && (InboundPlain(mode, decap, body.value) == Ok(Some(plain)) <==> seals(datagram))
            && (!seals(datagram) ==> forall other :: InboundPlain(mode, decap, body.value) != Ok(Some(other)))
  {
    if mode.MultiHop? {
      FrameRoundTrip(RelayFrame(mode.chainId, encap(plain).datagram));
      var body := OutboundBody(mode, encap(plain)).value;
      assert body[..RELAY_FRAME_PREFIX_LEN] == mode.chainId;
      assert body[RELAY_FRAME_PREFIX_LEN..] == encap(plain).datagram;
    }
  }

  /** A multi-hop session opens a body only if its first 16 bytes are its own chain id. */
  lemma ForeignChainRejected(mode: AssignmentMode, decap: Bytes -> DecapOutcome, udp: Bytes)
    requires mode.MultiHop?
    ensures InboundPlain(mode, decap, udp) == Err(ChainIdMismatch)
            <==> PeekChainId(udp).Some? && PeekChainId(udp) != Some(mode.chainId)
    ensures InboundPlain(mode, decap, udp) == Err(RelayFrameTooShort) <==> PeekChainId(udp).None?
  {
  }
}
