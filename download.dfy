/**
 * The current downloader's `download`, from the selected stream on: errors reading
 * the stream or the playlist end the process with status 1, the key gate stops the
 * job before the key or any segment is requested, and otherwise every segment is
 * fetched, decrypted and written in order.
 */
module Download {
  import opened Common
  import opened Job
  import Retry
  import Crawler
  import Reassembly
  import Segment
  import Pipeline

  predicate StatusOk(status: int) {
    200 <= status < 300
  }

  /** The key URI the job requests, once the playlist is parsed and has a first key. */
  function KeyUri(response: PlaylistResponse): Option<string> {
    if response.Received? && StatusOk(response.status) && response.parsed.Some? &&
       FirstKey(response.parsed.value).Some?
    then Some(FirstKey(response.parsed.value).value.uri)
    else None
  }

  /**
   * `download` after stream selection. `selected` is the stream the selection
   * returned, `response` answers the request for its URL, `keyReply(uri)` answers the
   * key request and `aes(key)` is the decryptor built from the key bytes.
   * `keyRequests` lists the key URIs requested and `collected` the segments whose
   * results the pool handed back.
   */
  method Download(selected: Crawler.Json, response: PlaylistResponse, keyReply: string -> Retry.Attempt,
                  aes: Bytes -> (Bytes -> Bytes), envs: seq<Pipeline.SegmentEnv>, completion: seq<nat>,
                  file: Bytes)
    returns (end: End, keyRequests: seq<string>, written: Bytes, collected: set<nat>)
    requires SegmentsReady(response, envs, completion, Segment.DefaultRetries)
    ensures end != Finished ==> written == file && collected == {}
    ensures Crawler.Field(selected, "url") == Err(Crawler.KeyError) ==> end == Exited(1, KeyError)
    ensures Crawler.Field(selected, "url") == Err(Crawler.TypeError) ==> end == Raised(TypeError)
    ensures Crawler.Field(selected, "url").Ok? ==>
              && (response.PlaylistRequestFailed? ==> end == Exited(1, RequestError))
              && (response.Received? && !StatusOk(response.status) ==> end == Raised(HttpStatusError))
              && (response.Received? && StatusOk(response.status) && response.parsed.None? ==>
                    end == Exited(1, ValueError))
              && ((response.Received? && StatusOk(response.status) && response.parsed.Some? &&
                   FirstKey(response.parsed.value).None?) ==> end == Exited(1, NoDecryptionKey))
    ensures Crawler.Field(selected, "url").Ok? && KeyUri(response).Some? ==>
              && (KeyBytes(keyReply(KeyUri(response).value)).None? ==> end == Raised(RequestError))
              && ((KeyBytes(keyReply(KeyUri(response).value)).Some? &&
                   !ValidAesKeyLength(KeyBytes(keyReply(KeyUri(response).value)).value)) ==> end == Raised(ValueError))
    ensures keyRequests == if Crawler.Field(selected, "url").Ok? && KeyUri(response).Some?
                           then [KeyUri(response).value] else []
    ensures end == Finished <==>
              && Crawler.Field(selected, "url").Ok?
              && KeyUri(response).Some?
              && KeyBytes(keyReply(KeyUri(response).value)).Some?
              && ValidAesKeyLength(KeyBytes(keyReply(KeyUri(response).value)).value)
    ensures end == Finished ==>
              var key := KeyBytes(keyReply(KeyUri(response).value)).value;
              && written == file + Reassembly.Assemble(Pipeline.Results(envs, aes(key), Segment.AesBlockSize))
              && collected == Reassembly.Below(|envs|)
  {
    written, collected, keyRequests := file, {}, [];
    var streamUrl := Crawler.Field(selected, "url");
    if streamUrl.Err? {
      if streamUrl.error == Crawler.KeyError {
        return Exited(1, KeyError), keyRequests, written, collected;
      }
      return Raised(FromLookup(streamUrl.error)), keyRequests, written, collected;
    }
    if response.PlaylistRequestFailed? {
      return Exited(1, RequestError), keyRequests, written, collected;
    }
    if !StatusOk(response.status) {
      return Raised(HttpStatusError), keyRequests, written, collected;
    }
    if response.parsed.None? {
      return Exited(1, ValueError), keyRequests, written, collected;
    }
    var playlist := response.parsed.value;
    if |playlist.keys| == 0 || playlist.keys[0].None? {
      return Exited(1, NoDecryptionKey), keyRequests, written, collected;
    }
    var keyUri := playlist.keys[0].value.uri;
    keyRequests := [keyUri];
    var keyData := KeyBytes(keyReply(keyUri));
    if keyData.None? {
      return Raised(RequestError), keyRequests, written, collected;
    }
    if !ValidAesKeyLength(keyData.value) {
      return Raised(ValueError), keyRequests, written, collected;
    }
    var decryptor := aes(keyData.value);
    var progress, missing;
    written, progress, missing, collected := Pipeline.DownloadAndDecryptSegments(file, envs, completion, decryptor,
                                                                                Segment.AesBlockSize);
    end := Finished;
  }
}
