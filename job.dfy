/**
 * Values the download jobs of both revisions share: the parsed playlist, the answer
 * to the playlist request, the ways a job ends, and the key gate.
 */
module Job {
  import opened Common
  import Retry
  import Crawler
  import Reassembly
  import Pipeline

  /** An `#EXT-X-KEY` entry of the playlist. */
  datatype Key = Key(uri: string)

  /**
   * The parsed playlist: its segment URIs in order and its key list, where `None`
   * stands for a segment that declares no key.
   */
  datatype Playlist = Playlist(segmentUris: seq<string>, keys: seq<Option<Key>>)

  /** Answer to the playlist request; `parsed == None` is the ValueError of the parser. */
  datatype PlaylistResponse =
    | Received(status: int, parsed: Option<Playlist>)
    | PlaylistRequestFailed

  /** Why a job stopped. */
  datatype Failure =
    | RequestError
    | HttpStatusError
    | ValueError
    | NoDecryptionKey
    | KeyError
    | IndexError
    | TypeError
    | InvalidUrl

  /** How a job ends: `sys.exit(status)` after a log line, an uncaught exception, or done. */
  datatype End = Exited(status: int, failure: Failure) | Raised(failure: Failure) | Finished

  function FromLookup(e: Crawler.LookupError): Failure {
    match e
    case KeyError => KeyError
    case IndexError => IndexError
    case TypeError => TypeError
  }

  /** The key gate: the first key, when the playlist has keys and the first one is present. */
  function FirstKey(p: Playlist): (r: Option<Key>)
    ensures r.None? <==> |p.keys| == 0 || p.keys[0].None?
    ensures r.Some? ==> r == p.keys[0]
  {
    if |p.keys| == 0 then None else p.keys[0]
  }

  /** Key lengths AES accepts; `AES.new` raises ValueError for any other. */
  predicate ValidAesKeyLength(key: Bytes) {
    |key| == 16 || |key| == 24 || |key| == 32
  }

  /**
   * The key request is `httpx.get(key_uri).content` with no status check: any reply's
   * body is the key, and only a request error (uncaught) yields no key.
   */
  function KeyBytes(reply: Retry.Attempt): (r: Option<Bytes>)
    ensures r.Some? <==> reply.Reply?
    ensures r.Some? ==> r.value == reply.body
  {
    match reply
    case Reply(_, body) => Some(body)
    case RequestFailed => None
  }

  /**
   * What the segment phase needs once a playlist is parsed: one environment per
   * segment URI, a completion order that is a permutation of the segment indices,
   * and enough planned attempts for each segment.
   */
  predicate SegmentsReady(response: PlaylistResponse, envs: seq<Pipeline.SegmentEnv>, completion: seq<nat>,
                          retries: nat)
  {
    response.Received? && response.parsed.Some? ==>
      && |envs| == |response.parsed.value.segmentUris|
      && Reassembly.IsPermutation(completion, |envs|)
      && Pipeline.Covers(envs, retries)
  }
}
