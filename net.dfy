/**
 * The network as `new URL(url).openStream()` sees it: every url either
 * yields a body or fails (a malformed url, an unreachable host, an HTTP
 * error). Every attempt to open a url is recorded.
 */
module Net {
  import opened Wrappers
  import opened Files

  class Network {
    /** The body each reachable url returns; an absent url fails. */
    const responses: map<string, Bytes>
    /** The urls opened so far, oldest first. */
    var requests: seq<string>

    constructor (responses: map<string, Bytes>)
      ensures this.responses == responses && requests == []
    {
      this.responses := responses;
      requests := [];
    }

    method OpenStream(url: string) returns (body: Option<Bytes>)
      modifies this
      ensures requests == old(requests) + [url]
      ensures body == if url in responses then Some(responses[url]) else None
    {
      requests := requests + [url];
      body := if url in responses then Some(responses[url]) else None;
    }
  }
}
