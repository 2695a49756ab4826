/**
 * The older downloader's job: `EpisodeDownloader.__init__` checks the URL, reads the
 * stream list and the title from the episode information and computes the download
 * directory; `download` names the file, picks the stream, reads the playlist (without
 * checking the HTTP status), applies the key gate and hands the segments to the
 * older pipeline, whose decryption error escapes the job.
 */
module LegacyDownload {
  import opened Common
  import opened Job
  import Retry
  import Crawler
  import Url
  import FileUtils
  import Reassembly
  import Segment
  import LegacySegment
  import LegacyPipeline
  import Pipeline

  /** The fields `__init__` sets that the download depends on. */
  datatype EpisodeDownloader = EpisodeDownloader(
    episodeId: string,
    streams: Crawler.Json,
    hanimeTitle: string,
    downloadPath: seq<string>)

  /**
   * `EpisodeDownloader(url, ...)` given the episode information the API returned for
   * it. An invalid URL exits with status 0; a failing stream or title lookup, or a
   * title that is not a string (which the directory-name substitution rejects), raises.
   */
  function NewEpisodeDownloader(os: FileUtils.OsName, url: string, info: Crawler.Json): (r: Result<EpisodeDownloader, End>)
    ensures !Url.Matches(url) ==> r == Err(Exited(Url.InvalidUrlExitStatus, InvalidUrl))
    ensures Url.Matches(url) && Crawler.FetchStreams(info).Err? ==>
              r == Err(Raised(FromLookup(Crawler.FetchStreams(info).error)))
    ensures Url.Matches(url) && Crawler.FetchStreams(info).Ok? && Crawler.GetHanimeTitle(info).Err? ==>
              r == Err(Raised(FromLookup(Crawler.GetHanimeTitle(info).error)))
    ensures (Url.Matches(url) && Crawler.FetchStreams(info).Ok? && Crawler.GetHanimeTitle(info).Ok? &&
             !Crawler.GetHanimeTitle(info).value.JStr?) ==> r == Err(Raised(TypeError))
    ensures r.Ok? <==>
              && Url.Matches(url) && Crawler.FetchStreams(info).Ok?
              && Crawler.GetHanimeTitle(info).Ok? && Crawler.GetHanimeTitle(info).value.JStr?
    ensures r.Ok? ==>
              && Url.ValidateUrl(url) == Ok(r.value.episodeId) && '/' !in r.value.episodeId
              && r.value.streams == Crawler.FetchStreams(info).value
              && r.value.hanimeTitle == Crawler.GetHanimeTitle(info).value.s
              && r.value.downloadPath == FileUtils.LegacyDownloadPath(os, r.value.hanimeTitle)
  {
    match Url.ValidateUrl(url)
    case Err(status) => Err(Exited(status, InvalidUrl))
    case Ok(episodeId) =>
      match Crawler.FetchStreams(info)
      case Err(e) => Err(Raised(FromLookup(e)))
      case Ok(streams) =>
        match Crawler.GetHanimeTitle(info)
        case Err(e) => Err(Raised(FromLookup(e)))
        case Ok(title) =>
          if !title.JStr? then Err(Raised(TypeError))
          else
            Ok(EpisodeDownloader(episodeId, streams, title.s, FileUtils.LegacyDownloadPath(os, title.s)))
  }

  /** `streams[choice]["url"]`. */
  function StreamUrl(job: EpisodeDownloader, resolutionChoice: int): Result<Crawler.Json, Crawler.LookupError> {
    Crawler.Then(Crawler.Item(job.streams, resolutionChoice), s => Crawler.Field(s, "url"))
  }

  /** The file name is formed and the stream URL looked up: the playlist is requested. */
  predicate PlaylistRequested(job: EpisodeDownloader, resolutionChoice: int) {
    Crawler.FormatFilename(job.streams, job.episodeId, resolutionChoice).Ok? &&
    StreamUrl(job, resolutionChoice).Ok?
  }

  /** The key URI the older job requests: the status of the playlist reply is not checked. */
  function KeyUri(response: PlaylistResponse): Option<string> {
    if response.Received? && response.parsed.Some? && FirstKey(response.parsed.value).Some?
    then Some(FirstKey(response.parsed.value).value.uri)
    else None
  }

  /**
   * `download`. `resolutionChoice` is the configured stream index; the other
   * parameters play the same parts as in the current job. `finalPath` is the output
   * path, once the job computes it.
   */
  method Download(job: EpisodeDownloader, resolutionChoice: int, response: PlaylistResponse,
                  keyReply: string -> Retry.Attempt, aes: Bytes -> (Bytes -> Bytes),
                  envs: seq<Pipeline.SegmentEnv>, completion: seq<nat>, file: Bytes)
    returns (end: End, finalPath: Option<seq<string>>, keyRequests: seq<string>, written: Bytes,
             collected: set<nat>)
    requires SegmentsReady(response, envs, completion, LegacySegment.DefaultRetries)
    requires Crawler.FormatFilename(job.streams, job.episodeId, resolutionChoice) != Err(Crawler.HeightNotScalar)
    ensures end != Finished ==> written == file
    ensures Crawler.FormatFilename(job.streams, job.episodeId, resolutionChoice).Err? ==>
              && Crawler.FormatFilename(job.streams, job.episodeId, resolutionChoice).error.Lookup?
              && end == Raised(FromLookup(Crawler.FormatFilename(job.streams, job.episodeId, resolutionChoice).error.error))
    ensures Crawler.FormatFilename(job.streams, job.episodeId, resolutionChoice).Ok? &&
            StreamUrl(job, resolutionChoice).Err? ==>
              end == if StreamUrl(job, resolutionChoice).error == Crawler.KeyError then Exited(1, KeyError)
                     else Raised(FromLookup(StreamUrl(job, resolutionChoice).error))
    ensures PlaylistRequested(job, resolutionChoice) ==>
              && (response.PlaylistRequestFailed? ==> end == Exited(1, RequestError))
              && (response.Received? && response.parsed.None? ==> end == Exited(1, ValueError))
              && ((response.Received? && response.parsed.Some? && FirstKey(response.parsed.value).None?) ==>
                    end == Exited(1, NoDecryptionKey))
    ensures finalPath == if PlaylistRequested(job, resolutionChoice) && response.Received? && response.parsed.Some?
                         then Some(FileUtils.Join(job.downloadPath,
                                                  Crawler.FormatFilename(job.streams, job.episodeId, resolutionChoice).value))
                         else None
    ensures keyRequests == if PlaylistRequested(job, resolutionChoice) && KeyUri(response).Some?
                           then [KeyUri(response).value] else []
    ensures |keyRequests| == 0 ==> collected == {}
    ensures PlaylistRequested(job, resolutionChoice) && KeyUri(response).Some? ==>
              && (KeyBytes(keyReply(KeyUri(response).value)).None? ==> end == Raised(RequestError))
              && ((KeyBytes(keyReply(KeyUri(response).value)).Some? &&
                   !ValidAesKeyLength(KeyBytes(keyReply(KeyUri(response).value)).value)) ==> end == Raised(ValueError))
              && ((KeyBytes(keyReply(KeyUri(response).value)).Some? &&
                   ValidAesKeyLength(KeyBytes(keyReply(KeyUri(response).value)).value) &&
                   LegacyPipeline.AnyRaised(envs, aes(KeyBytes(keyReply(KeyUri(response).value)).value),
                                            Segment.AesBlockSize)) ==> end == Raised(ValueError))
    ensures end == Finished <==>
              && PlaylistRequested(job, resolutionChoice)
              && KeyUri(response).Some?
              && KeyBytes(keyReply(KeyUri(response).value)).Some?
              && ValidAesKeyLength(KeyBytes(keyReply(KeyUri(response).value)).value)
              && !LegacyPipeline.AnyRaised(envs, aes(KeyBytes(keyReply(KeyUri(response).value)).value),
                                           Segment.AesBlockSize)
    ensures end == Raised(ValueError) && PlaylistRequested(job, resolutionChoice) && KeyUri(response).Some? &&
            KeyBytes(keyReply(KeyUri(response).value)).Some? ==>
              !ValidAesKeyLength(KeyBytes(keyReply(KeyUri(response).value)).value) ||
              LegacyPipeline.AnyRaised(envs, aes(KeyBytes(keyReply(KeyUri(response).value)).value),
                                       Segment.AesBlockSize)
    ensures end == Finished ==>
              var key := KeyBytes(keyReply(KeyUri(response).value)).value;
              && written == file + Reassembly.Assemble(LegacyPipeline.Results(envs, aes(key), Segment.AesBlockSize))
              && collected == Reassembly.Below(|envs|)
  {
    written, collected, keyRequests, finalPath := file, {}, [], None;
    var filename := Crawler.FormatFilename(job.streams, job.episodeId, resolutionChoice);
    if filename.Err? {
      return Raised(FromLookup(filename.error.error)), finalPath, keyRequests, written, collected;
    }
    var streamUrl := StreamUrl(job, resolutionChoice);
    if streamUrl.Err? {
      if streamUrl.error == Crawler.KeyError {
        return Exited(1, KeyError), finalPath, keyRequests, written, collected;
      }
      return Raised(FromLookup(streamUrl.error)), finalPath, keyRequests, written, collected;
    }
    if response.PlaylistRequestFailed? {
      return Exited(1, RequestError), finalPath, keyRequests, written, collected;
    }
    if response.parsed.None? {
      return Exited(1, ValueError), finalPath, keyRequests, written, collected;
    }
    finalPath := Some(FileUtils.Join(job.downloadPath, filename.value));
    var playlist := response.parsed.value;
    if |playlist.keys| == 0 || playlist.keys[0].None? {
      return Exited(1, NoDecryptionKey), finalPath, keyRequests, written, collected;
    }
    var keyUri := playlist.keys[0].value.uri;
    keyRequests := [keyUri];
    var keyData := KeyBytes(keyReply(keyUri));
    if keyData.None? {
      return Raised(RequestError), finalPath, keyRequests, written, collected;
    }
    if !ValidAesKeyLength(keyData.value) {
      return Raised(ValueError), finalPath, keyRequests, written, collected;
    }
    var decryptor := aes(keyData.value);
    var raised, progress, missing;
    raised, written, progress, missing, collected :=
      LegacyPipeline.DownloadAndDecryptSegments(file, envs, completion, decryptor, Segment.AesBlockSize);
    end := if raised then Raised(ValueError) else Finished;
  }
}
