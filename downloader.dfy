/**
 * The download handler of the subtitle window: it reads the URL, extracts
 * the video identifier, asks the caption provider for a transcript, shows
 * it, and offers to save it. The two pieces of window state it updates are
 * the transcript display and the status line.
 *
 * The provider call and the save dialog are outside the model: their
 * outcomes are parameters of `DownloadSubtitles`, and the `Effects` it
 * returns says which of those external calls the handler made.
 */
module Downloader {
  import opened Wrappers
  import opened VideoId
  import opened Transcript

  /** The language preference list passed to the provider: Korean, then English. */
  const Languages: seq<string> := ["ko", "en"]

  /** What the provider's `get_transcript` call ends in. */
  datatype FetchOutcome =
    | Fetched(entries: seq<CaptionEntry>)
    | TranscriptsDisabled
    | NoTranscriptFound
    | VideoUnavailable
    | FetchFailed(message: string)   // any other exception; its message is opaque

  /** What writing the chosen file ends in. */
  datatype WriteOutcome = WriteOk | WriteFailed(message: string)

  /** One value per text the status line can show. */
  datatype Status =
    | Ready                          // initial text of the label
    | InvalidUrl
    | NoCaptions
    | VideoNotFound
    | FetchError(message: string)
    | SavedTo(path: string)
    | SaveFailed(message: string)
    | SaveCancelled

  datatype FetchRequest = FetchRequest(videoId: string, languages: seq<string>)
  datatype FileWrite = FileWrite(path: string, contents: string)

  /**
   * The external calls one run of the handler made, in the order they happen.
   * `write` records the attempt to open and write the chosen file; whether it
   * succeeded is the `WriteOutcome` the handler was given.
   */
  datatype Effects = Effects(fetch: Option<FetchRequest>, dialogShown: bool, write: Option<FileWrite>)

  const NoEffects := Effects(None, false, None)

  class SubtitleDownloader {
    /** The text last handed to the read-only transcript display (`setText`), not its rendering. */
    var display: string
    /** The status line. */
    var status: Status
    /** Entries of the most recent successful fetch, if any. */
    ghost var lastFetched: Option<seq<CaptionEntry>>

    /** The display is empty before any successful fetch and shows the latest successful one after. */
    ghost predicate Valid()
      reads this
    {
      display == (if lastFetched.Some? then TranscriptText(lastFetched.value) else "")
    }

    constructor ()
      ensures Valid()
      ensures display == "" && status == Ready && lastFetched == None
    {
      display := "";
      status := Ready;
      lastFetched := None;
    }

    /**
     * `download_subtitles`, with the provider's answer given as `fetch`,
     * the file name the save dialog returns as `fileName` (empty when the
     * user cancels) and the result of writing that file as `write`.
     */
    method DownloadSubtitles(url: string, fetch: FetchOutcome, fileName: string, write: WriteOutcome)
      returns (effects: Effects)
      requires Valid()
      modifies this
      ensures Valid()
      // no identifier: only the status changes, and nothing external is called
      ensures ExtractVideoId(url).None? ==>
        status == InvalidUrl && display == old(display) && lastFetched == old(lastFetched) &&
        effects == NoEffects
      // an identifier: the provider is asked for it with the fixed language list
      ensures ExtractVideoId(url).Some? ==>
        effects.fetch == Some(FetchRequest(ExtractVideoId(url).value, Languages))
      // a failed fetch leaves the display as it was and shows no save dialog
      ensures ExtractVideoId(url).Some? && !fetch.Fetched? ==>
        display == old(display) && lastFetched == old(lastFetched) &&
        !effects.dialogShown && effects.write == None
      ensures ExtractVideoId(url).Some? && (fetch.TranscriptsDisabled? || fetch.NoTranscriptFound?) ==>
        status == NoCaptions
      ensures ExtractVideoId(url).Some? && fetch.VideoUnavailable? ==> status == VideoNotFound
      ensures ExtractVideoId(url).Some? && fetch.FetchFailed? ==> status == FetchError(fetch.message)
      // a successful fetch replaces the display, whatever happens to the save
      ensures ExtractVideoId(url).Some? && fetch.Fetched? ==>
        display == TranscriptText(fetch.entries) && lastFetched == Some(fetch.entries) &&
        effects.dialogShown
      ensures ExtractVideoId(url).Some? && fetch.Fetched? && fileName == "" ==>
        status == SaveCancelled && effects.write == None
      ensures ExtractVideoId(url).Some? && fetch.Fetched? && fileName != "" ==>
        effects.write == Some(FileWrite(fileName, display)) &&
        status == (if write.WriteOk? then SavedTo(fileName) else SaveFailed(write.message))
    {
      effects := NoEffects;
      var videoId := ExtractVideoId(url);
      if videoId.None? {
        status := InvalidUrl;
        return;
      }

      effects := effects.(fetch := Some(FetchRequest(videoId.value, Languages)));
      var text: string;
      match fetch {
        case Fetched(entries) =>
          text := TranscriptText(entries);
          display := text;
          lastFetched := Some(entries);
        case TranscriptsDisabled =>
          status := NoCaptions;
          return;
        case NoTranscriptFound =>
          status := NoCaptions;
          return;
        case VideoUnavailable =>
          status := VideoNotFound;
          return;
        case FetchFailed(message) =>
          status := FetchError(message);
          return;
      }

      effects := effects.(dialogShown := true);
      if fileName != "" {
        effects := effects.(write := Some(FileWrite(fileName, text)));
        match write {
          case WriteOk => status := SavedTo(fileName);
          case WriteFailed(message) => status := SaveFailed(message);
        }
      } else {
        status := SaveCancelled;
      }
    }
  }

  /**
   * A session on a fresh window: a successful fetch whose save is cancelled,
   * then a fetch of a video that is not found. The second run reports its
   * failure on the status line and leaves the first transcript displayed.
   */
  method FetchThenFailSession() returns (shown: string, firstStatus: Status, lastStatus: Status)
    ensures shown == "Hello\nworld"
    ensures firstStatus == SaveCancelled
    ensures lastStatus == VideoNotFound
  {
    var w := new SubtitleDownloader();
    var entries := [CaptionEntry("Hello"), CaptionEntry("world")];
    ShortLinkExample();
    HelloWorldExample();
    var _ := w.DownloadSubtitles("youtu.be/dQw4w9WgXcQ", Fetched(entries), "", WriteOk);
    firstStatus := w.status;
    var _ := w.DownloadSubtitles("youtu.be/dQw4w9WgXcQ", VideoUnavailable, "", WriteOk);
    shown, lastStatus := w.display, w.status;
  }
}
