/**
 Choosing the Socket.IO server to connect to (`lookup_socket_address`). The
 HTTP fetch of the socket configuration document and its JSON parsing are
 foreign code; the model starts from their outcome.
 */
module Socket {
  import opened Wrappers

  /** One entry of the configuration document's `servers` list. */
  datatype SocketConfigServer = SocketConfigServer(url: string)

  datatype SocketConfig = SocketConfig(servers: seq<SocketConfigServer>)

  datatype SocketAddressError = NotFound | Parse(reason: string) | Request(reason: string)

  /** What fetching and parsing the configuration document produced. */
  datatype ConfigFetch =
    | RequestFailed(reason: string)
    | ParseFailed(reason: string)
    | Fetched(config: SocketConfig)

  /**
   The URL of the first listed server; `NotFound` when the list is empty;
   fetch and parse failures are passed on as `Request` and `Parse`.
   */
  method LookupSocketAddress(fetch: ConfigFetch) returns (r: Result<string, SocketAddressError>)
    ensures fetch.RequestFailed? ==> r == Err(Request(fetch.reason))
    ensures fetch.ParseFailed? ==> r == Err(Parse(fetch.reason))
    ensures fetch.Fetched? ==> (r.Ok? <==> |fetch.config.servers| > 0)
    ensures fetch.Fetched? && r.Ok? ==> r.value == fetch.config.servers[0].url
    ensures fetch.Fetched? && r.Err? ==> r.error == NotFound
  {
    match fetch
    case RequestFailed(reason) =>
      return Err(Request(reason));
    case ParseFailed(reason) =>
      return Err(Parse(reason));
    case Fetched(config) =>
      // The source's loop returns on its first turn.
      if |config.servers| == 0 {
        return Err(NotFound);
      }
      return Ok(config.servers[0].url);
  }
}
