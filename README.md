# YouTube subtitle downloader: verified model of its core

The program is a one-window desktop tool (`youtubscrptforweb.py`). The user pastes a video URL. The tool pulls an
11-character video identifier out of it and asks a captioning library for that video's transcript. It then shows the
transcript and offers to save it to a text file. This project models the two pieces of original logic in that file:

- `extract_video_id`, a search for the fixed pattern `(?:v=|/)([0-9A-Za-z_-]{11})`. It is modelled as pure
  functions in module `VideoId` (`video_id.dfy`). `MatchAt` says what the pattern means at one index, and
  `LeftmostMatch` says what `re.search` reports. `SearchFrom` is the index-by-index scan, which tries `v=` before
  `/`. `ExtractVideoId` is proved to return the group of the leftmost match, or `None` exactly when nothing
  matches.
- The newline join of caption texts (line 94). It is modelled as `Texts`/`Join` in module `Transcript`
  (`transcript.dfy`). `Split` (Python's `str.split('\n')`) is its partner. `JoinSplit` proves that joining the
  pieces of any text gives the text back. `SplitJoin` proves that splitting the joined text recovers any non-empty
  list of newline-free texts.
- `download_subtitles`, modelled as the class `Downloader.SubtitleDownloader` (`downloader.dfy`). Its fields are
  `display` (the transcript text box) and `status` (the status label). The method `DownloadSubtitles` takes three
  inputs besides the URL: the provider's answer (`FetchOutcome`), the file name the save dialog returns (empty on
  cancel), and the result of writing the file (`WriteOutcome`). Its `ensures` give the final state for every
  branch. It also returns `Effects`, which records the external calls it made: the fetch request with the language
  list `["ko", "en"]`, whether the save dialog was shown, and the file write it attempted (path and contents). A ghost
  field `lastFetched` and the invariant `Valid()` tie the display to the most recent successful fetch.

Two behaviours of the code are easy to miss:

- The identifier pattern has no end anchor. A `/` or `v=` followed by 12 or more class characters still matches
  and yields the first 11 (`SlashRunIsNotAnchored`, `VRunIsNotAnchored`).
- A failed fetch does not clear the display. The display keeps the text of the last successful fetch, and only the
  status line reports the failure (`DownloadSubtitles`, `FetchThenFailSession`).

## Model

| member | source | states |
|---|---|---|
| `VideoId.ExtractVideoId` | youtubscrptforweb.py:75-79 | The result is `None` exactly when no index matches the pattern. Otherwise it is 11 characters of `[0-9A-Za-z_-]`, and it is the group of a match at an index before which nothing matches. |
| `VideoId.SearchFrom` | youtubscrptforweb.py:77-78 | Scanning from index `i`: `None` means no index from `i` on matches. A result is the group of a match at some `k >= i` with no match in `[i, k)`. |
| `VideoId.ReadRun` | youtubscrptforweb.py:77 | Reading `n` class characters succeeds exactly when the `n` characters from `j` exist and are all in `[0-9A-Za-z_-]`, and then returns those characters. |
| `VideoId.GroupAt` | youtubscrptforweb.py:77 | The captured group of any match has exactly 11 characters, all in the class. |
| `VideoId.LeftmostUnique` | youtubscrptforweb.py:78 | At most one index is the leftmost match. |
| `VideoId.ExtractIsLeftmost` | youtubscrptforweb.py:77-79 | If `i` is the leftmost match, the result is exactly `Some` of the group at `i`. This is the converse of `ExtractVideoId`'s contract. |
| `VideoId.GroupOccurs` | youtubscrptforweb.py:77 | The group of a match at `i` occurs at `i` as `"v=" + group` or `"/" + group`. |
| `VideoId.ExtractedIdOccurs` | youtubscrptforweb.py:77-79 | A returned identifier `id` occurs in the URL as the contiguous piece `"v=" + id` or `"/" + id`. |
| `VideoId.OccurrenceGivesSome` | youtubscrptforweb.py:77-79 | Any occurrence of `"v=" + id` or `"/" + id`, with `id` 11 class characters, makes the result `Some`. |
| `VideoId.ShortInputGivesNone` | youtubscrptforweb.py:77-79 | Inputs shorter than 12 characters, the empty string included, give `None`. |
| `VideoId.SlashRunIsNotAnchored` | youtubscrptforweb.py:77 | `"/" + id + more`, where `more` is further class characters, yields `id`. No end anchor applies. |
| `VideoId.VRunIsNotAnchored` | youtubscrptforweb.py:77 | `"v=" + id + more` yields `id` in the same way. |
| `VideoId.ShortLinkExample` | youtubscrptforweb.py:77-79 | `youtu.be/dQw4w9WgXcQ` yields `dQw4w9WgXcQ`. |
| `VideoId.WatchUrlExample` | youtubscrptforweb.py:77-79 | `youtube.com/watch?v=dQw4w9WgXcQ` yields `dQw4w9WgXcQ`. The `/` before `watch` does not match. |
| `VideoId.PathSegmentWinsExample` | youtubscrptforweb.py:77-79 | An earlier path segment of 11 class characters wins over a later `v=`. The host is never checked. |
| `Transcript.Texts` | youtubscrptforweb.py:94 | The list of texts has one element per entry, in order: element `k` is entry `k`'s text. |
| `Transcript.JoinAppend` | youtubscrptforweb.py:94 | Joining `ts + [t]`, for non-empty `ts`, is the join of `ts`, a newline, then `t`. So `[t1..tn]` gives `t1 + "\n" + ... + "\n" + tn`. |
| `Transcript.JoinEmptyIsAmbiguous` | youtubscrptforweb.py:94 | `[]` and `[""]` both join to `""`. This is why the round trip below needs a non-empty list. |
| `Transcript.SplitNoNewline` | youtubscrptforweb.py:94 | A newline-free piece splits to the one-element list of itself. |
| `Transcript.SplitSegment` | youtubscrptforweb.py:94 | Splitting `t + "\n" + rest`, with `t` newline-free, gives `t` followed by the pieces of `rest`. |
| `Transcript.SplitJoin` | youtubscrptforweb.py:94 | For a non-empty list of newline-free texts, splitting the joined text on `'\n'` recovers the list. |
| `Transcript.JoinSplit` | youtubscrptforweb.py:94 | For every text, joining its `'\n'`-pieces gives the text back. |
| `Transcript.HelloWorldExample` | youtubscrptforweb.py:94 | Entries `Hello` and `world` give the transcript `Hello\nworld`. |
| `Downloader.SubtitleDownloader.constructor` | youtubscrptforweb.py:60-66 | A new window shows an empty transcript and the ready status, and the display invariant holds. |
| `Downloader.SubtitleDownloader.DownloadSubtitles` | youtubscrptforweb.py:81-122 | With no identifier: status becomes invalid-URL, the display is unchanged, and nothing is fetched, shown or written. Otherwise the provider is asked for the identifier with `["ko", "en"]`. On a fetch failure the display is unchanged, no dialog is shown and nothing is written. Disabled and not-found captions give no-captions, an unavailable video gives video-not-found, and any other failure gives the error status with its message. On success the display becomes the joined transcript whatever the save does. An empty file name gives cancelled. For a chosen name, a write of the displayed text to that name is attempted, and the status is success with the path or save-failed with the message. The invariant `Valid()` is kept. |
| `Downloader.FetchThenFailSession` | youtubscrptforweb.py:81-122 | A fresh window runs a successful fetch with a cancelled save, then a fetch of an unavailable video. The first run reports cancellation. The second reports video-not-found, and the display still shows `Hello\nworld`. |

## Left out

- Widget construction, styling and layout (lines 17-73) and the application entry point (lines 124-127). They contain no logic, apart from the initial display and status (lines 60-66), which the constructor models.
- `display` is the text handed to `QTextEdit.setText` (line 97), not the rendered contents of the widget. `setText` guesses between rich and plain text, so a transcript that looks like HTML is rendered as HTML; the file written at line 117 still receives the plain text.
- The network call `YouTubeTranscriptApi.get_transcript` (lines 91-93) is into a library that is not part of this model. Its answer is the `fetch` parameter, and the request it would receive is recorded in `Effects.fetch`.
- The save dialog `QFileDialog.getSaveFileName` and the file `open`/`write` (lines 110-117) are file-system I/O. They are the `fileName` and `write` parameters, and the attempted write (path and contents) is recorded in `Effects.write`, whether or not it succeeds.
- The literal (Korean) status texts and the `str(e)` message formatting (lines 87-122). Each status text is a constructor of `Status`, and exception messages are opaque strings.
- Caption entries carry only their text. A provider entry without a `text` key would raise inside the `try` and end in the generic error status. The model does not represent such entries.
- The URL is passed to `DownloadSubtitles` as a parameter instead of being read from the input widget (line 83).
- General regular-expression semantics. Only this one fixed pattern is modelled.
