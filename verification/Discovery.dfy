/** The discovery layer's one error type and its retry rule. */
module Discovery {
  import opened Base

  datatype WsError = Io | Tls | ConnectionClosed | AlreadyClosed | Handshake | Protocol | MessageCodec

  datatype DiscoveryError =
    | HttpTransport(timeout: bool, connect: bool, request: bool)
    | HttpStatus(status: u16, body: string)
    | Json
    | Ws(kind: WsError)
    | Url(message: string)
  {
    /** Whether another coordinator might answer differently. */
    predicate IsRetriable() {
      match this
      case HttpTransport(timeout, connect, request) => timeout || connect || request
      case HttpStatus(status, _) => status >= 500
      case Ws(kind) => kind.Io? || kind.Tls?
      case Json => false
      case Url(_) => false
    }
  }

  /** The failures that may pass, by what they are: a transport that timed out or could not
      connect or send, a server's own failure, a socket's or a TLS failure. */
  ghost predicate Transient(error: DiscoveryError) {
    || (error.HttpTransport? && (error.timeout || error.connect || error.request))
    || (error.HttpStatus? && error.status >= 500)
    || (error.Ws? && error.kind in {Io, Tls})
  }

  lemma RetriableIsTransient(error: DiscoveryError)
    ensures error.IsRetriable() <==> Transient(error)
  {
  }
}
