# Video annotation pipeline: a Dafny model

This project models the logic at the centre of a small Streamlit app. The
app downloads a short YouTube video, saves one still frame per whole second
into a static directory for display, and gets time-coded Japanese subtitles
for the video's audio from Whisper. The model covers the pure parts of
`main.py`:

- **Download policy** (`MatchFilter`). This is the match filter given to the
  downloader. It refuses a video whose metadata reports a duration over
  `60 * 2` seconds.
- **Audio file name** (`AudioName`). The path is cut at its last dot and
  ".mp3" is appended. The cut is made on the whole path string.
- **Stem derivation** (`PosixPath`, `Screenshots.Stem`). This is
  `os.path.basename(os.path.splitext(p)[0])`. `splitext` is modelled with
  its leading-dot rule.
- **Artifact reset** (`Artifacts`). From a directory listing, the files are
  deleted and the directories are kept.
- **Frame loop and gallery** (`Screenshots`). For each whole second `i`,
  the frame is saved as `static/{i}_{stem}.jpg`. Then
  `./app/static/{i}_{stem}.jpg` is appended to the module-wide list `apps`.
  `create_screanshots` never clears `apps`; it extends whatever the list
  holds, so repeated calls on one module instance accumulate. Under
  Streamlit the whole script, and with it `apps = []`, runs again on every
  rerun.
- **Transcription step** (`Transcript`). A stale audio file is deleted
  before encoding. The freshly encoded file is then submitted with fixed
  request parameters.
- **Names for one download** (`MovieFiles`). For a video under `./movie/`,
  this relates the frame stem and the audio path to each other.

Python's `str(i)` is `Decimal.Str`, with its inverse `Decimal.Parse`.
`str.rfind` and `str.rsplit(c, 1)[0]` are `PyStr.RFind` and
`PyStr.RSplitHead`. The file store is a `map<Path, Node>` keyed by resolved
paths (`PosixPath.Norm`), which drop leading "." components together with
the slashes that end them. The glob
spells a frame "./static/0_a.jpg" while `save_frame` writes
"static/0_a.jpg", and both name the same entry. `Artifacts.InResolvedForm`
says every key is in resolved form; the reset, the frame loop and the
transcription keep it. A node is a directory or a
file with abstract content. The content records which
video and second a frame came from, or which video an mp3 was encoded
from. `apps` is a `seq<string>`. The methods take it in and return it
extended.

These values outside the code are inputs to the model:

- the video's whole-second duration;
- the glob listing used by the reset;
- whether the ffmpeg run succeeds;
- the transcription service's answer.

## Model

| member | source | states |
|---|---|---|
| MatchFilter.DurationReadsUpdate | main.py:24 | `info.get('duration')` returns the value the `duration` field was last set to, `None` included |
| MatchFilter.DurationIgnoresOtherFields | main.py:24 | setting any field other than `duration` does not change what `info.get('duration')` returns |
| MatchFilter.ShorterThanTenMinute | main.py:22-26 | refuses, with the message "The video is too longer", exactly when a `duration` field is present, not `None`, and greater than 120; otherwise returns `None` (accept) |
| MatchFilter.UnknownOrZeroDurationAccepted | main.py:24-26 | a missing, `None` or zero duration is always accepted |
| MatchFilter.CeilingIsInclusive | main.py:25-26 | a duration of exactly 120 is accepted and every duration above 120 is refused |
| MatchFilter.RefusalMonotone | main.py:25 | if a video is refused, every longer video is refused too |
| MatchFilter.OnlyDurationMatters | main.py:22-24 | the verdict depends only on the duration field, not on other metadata or the `incomplete` flag |
| PyStr.RFindBefore | main.py:38 | searching the first `end` characters gives -1 or an index below `end` holding the character, with no occurrence after it before `end` |
| PyStr.RFind | main.py:38 | `rfind` returns -1 exactly when the character is absent, and otherwise the index of its last occurrence |
| PyStr.RSplitHead | main.py:38 | `rsplit(c, 1)[0]` is the whole string when `c` is absent, and otherwise everything before the last `c` |
| AudioName.GetAudioFilename | main.py:37-39 | the audio name always ends in ".mp3"; a name without a dot gets ".mp3" appended; otherwise everything before the last dot is kept and only the final extension is replaced |
| AudioName.GetAudioFilenameIdempotent | main.py:38 | deriving the audio name of an audio name returns it unchanged |
| AudioName.ReplacesOnlyLastExtension | main.py:38 | "./movie/clip.v1.mp4" gives "./movie/clip.v1.mp3": earlier dots are kept |
| AudioName.DotlessNameUnderRelativeDirectory | main.py:38 | the cut is made on the whole path: "./movie/clip" gives ".mp3" |
| PosixPath.Basename | main.py:43 | `basename` is the suffix after the last slash: it has no slash and is the whole path or follows a slash |
| PosixPath.BasenameUnique | main.py:43 | any suffix with those properties is the basename |
| PosixPath.SplitExt | main.py:43 | `root + ext` is the path; an extension exists exactly when some dot in the last component follows a non-dot character of that component; when it exists it starts at the path's last dot and holds no slash |
| PosixPath.Join | main.py:130 | `join` yields an absolute second part unchanged, and otherwise a result ending in the second part: the plain concatenation when the first part is empty or ends in a slash, and the two parts joined by one slash otherwise |
| PosixPath.Norm | main.py:46-50 | the resolved form of a path is no longer than the path and does not start with "./" |
| PosixPath.NormKeepsRelative | main.py:46-50 | resolving never turns a relative path into an absolute one |
| PosixPath.NormDropsDotSlash | main.py:46-50 | a leading "./" does not change which entry a relative path resolves to |
| PosixPath.DotSlashSlashIsRelative | main.py:46-50 | ".//x" resolves to the relative "x", not to the absolute "/x" |
| PosixPath.NormOfPlain | main.py:59 | a path that does not start with "./" resolves to itself |
| PosixPath.NormDotSlash | main.py:46-50 | for any path, a leading "./" and every slash after it are dropped |
| PosixPath.NormIdempotent | main.py:46-50 | resolving a resolved path changes nothing |
| Decimal.Str | main.py:57 | the decimal spelling of an index has at least one digit, only digits, and a leading zero only for zero itself |
| Decimal.ParseStr | main.py:57 | reading back the decimal spelling of `n` gives `n` |
| Decimal.StrInjective | main.py:57 | distinct indices have distinct spellings |
| Artifacts.IsFileIgnoresDotSlash | main.py:46-49 | whether a relative path is a file does not depend on a leading "./" |
| Artifacts.GlobSpellingNamesSavedFrame | main.py:46-50 | the glob's spelling "./static/0_a.jpg" resolves to the frame written as "static/0_a.jpg", and that frame counts as a file |
| Artifacts.ResetArtifacts | main.py:46-50 | after the reset no listed path is a file, however the listing spells it; every file entry some listed path resolves to is gone; directories are all kept; entries no listed path resolves to are untouched; nothing is created or changed; a store whose keys are all resolved stays so |
| Screenshots.Stem | main.py:43 | the stem has no slash; it is the basename when the path has no extension, and the basename minus the extension otherwise |
| Screenshots.BasenameOfExtended | main.py:43 | appending a slash-free extension to a path extends its basename by that extension |
| Screenshots.WholeSeconds | main.py:54 | the whole-second count `n` of a non-negative duration `d` satisfies `n <= d < n + 1` |
| Screenshots.SevenPointEightSeconds | main.py:54-56 | a 7.8 second video yields 7 whole seconds, so frames 0 to 6 |
| Screenshots.FrameFile | main.py:57 | the frame name decodes back: the digits before its first underscore read as the second, and the stem and ".jpg" follow |
| Screenshots.FrameFileInjective | main.py:57 | a frame file name determines both its second and the stem, so different seconds or different stems never share a frame file |
| Screenshots.FrameFileDistinct | main.py:56-57 | different seconds of one video never share a frame file |
| Screenshots.SavePathResolved | main.py:46-59 | the save path is already in resolved form, and the glob's "./" spelling of it resolves to it |
| Screenshots.AppPath | main.py:61 | each gallery reference is "./app/" followed by the path the frame was saved to |
| Screenshots.AppendApps | main.py:29-30 | `append_apps` grows the list by one, at the end, and moves nothing already in it |
| Screenshots.FramePaths | main.py:56-61 | the paths of one run are `n` in number, in ascending second order, entry `k` being the directory followed by `{k}_{stem}.jpg` |
| Screenshots.FrameEntriesDistinct | main.py:56-61 | one run never lists the same frame twice |
| Screenshots.WithFramesKeys | main.py:56-59 | saving the frames adds exactly the saved paths to the store |
| Screenshots.WithFramesKeepsOthers | main.py:56-59 | saving the frames leaves every entry it does not write as it was |
| Screenshots.WithFramesHoldsFrames | main.py:56-59 | after the loop each saved path holds the frame of its own second; no later write of the run overwrote it |
| Screenshots.SavePathFresh | main.py:57-59 | the path written at second `i` differs from every path written earlier in the run |
| Screenshots.SaveFrames | main.py:56-61 | the loop leaves the gallery list as the old list followed by the run's entries, returns the saved paths in order, and leaves the store as the saved frames written one after another |
| Screenshots.CreateScreenshots | main.py:42-61 | with `D` whole seconds, exactly `D` entries are appended after the untouched old `apps`, entry `k` being `./app/static/{k}_{stem}.jpg` = "./app/" + its save path `static/{k}_{stem}.jpg`; the store after the call holds every saved frame with the still of its own second, has lost exactly the files some listed path resolves to, and is otherwise unchanged; a store whose keys are all resolved stays so |
| Transcript.TranscribeKeepsPromises | main.py:66-85 | for any audio path, the call keeps every promise listed for `CreateTranscript` below |
| Transcript.TranscribeStepsInOrder | main.py:66-85 | the steps of a call are in the order listed for `CreateTranscript` below |
| Transcript.RemovalComesFirst | main.py:69-73 | an optional removal of the audio path followed by steps that remove nothing is the only removal, made first, and precedes the encoding |
| Transcript.StagesFollowRemoval | main.py:73-85 | after at most one removal, the encoding and then the request with this video's audio end the steps exactly when ffmpeg succeeds, with nothing but the removal before them |
| Transcript.OneEncodingOneRequest | main.py:73-85 | under the promised order, ffmpeg runs at most once and the service is asked at most once, and only when the call got past the removal and ffmpeg succeeded |
| Transcript.TranscribeKeepsResolvedForm | main.py:66-73 | a store whose keys are all resolved stays so after a call |
| Transcript.TranscribeStoreEffect | main.py:66-73 | a call changes the store only at the entry the audio path resolves to, which ends up freshly encoded or absent; a directory there leaves the store unchanged |
| Transcript.CreateTranscript | main.py:64-85 | the stale audio file is deleted before anything else, at most once, and no removal follows the encoding; when the audio path is not a directory and ffmpeg succeeds, the steps are the optional removal, then exactly one encoding, then exactly one request, which carries this video's freshly encoded audio with model "whisper-1", the fixed prompt, format "srt" and language "ja"; when ffmpeg fails, nothing but the removal happens; a directory at the audio path fails with the removal error and does nothing, an ffmpeg failure fails with the encoding error, and otherwise the result is the service's text or the service's error; the call succeeds exactly when every stage does; only the entry the audio path resolves to changes, and it ends up fresh or absent |
| Transcript.CreateTranscriptRetrySafe | main.py:66-73 | calling again on the store a call left behind, with the same outcomes, yields the same store and result |
| Transcript.TranscribeRetrySafe | main.py:66-73 | the same, for any audio path |
| MovieFiles.MoviePath | main.py:130 | a video's path under `./movie/` has the video's file name as its basename |
| MovieFiles.LastDotOfMp4 | main.py:38 | the last dot of a path ending in ".mp4" is the dot of ".mp4" |
| MovieFiles.Mp4Extension | main.py:43 | a path ending in ".mp4" whose name has an extension splits off exactly ".mp4" |
| MovieFiles.Mp4AudioName | main.py:38 | a path ending in ".mp4" gets ".mp3" in place of ".mp4" |
| MovieFiles.NameHasExtension | main.py:43 | a video name with a non-dot character before ".mp4" has an extension |
| MovieFiles.MoviePathEndsWithName | main.py:19 | a video's path is `./movie/` followed by its name, and ends in ".mp4" |
| MovieFiles.StemOfMp4 | main.py:43 | the stem of such a path is its name without ".mp4" |
| MovieFiles.MovieAudioPath | main.py:37-39 | every `*.mp4` video under `./movie/` gets its audio beside it, with ".mp3" in place of ".mp4" |
| MovieFiles.OrdinaryMovieStem | main.py:43 | for an ordinary `*.mp4` name the frame stem is the name without ".mp4" |
| MovieFiles.OrdinaryMovieNames | main.py:37-43 | for an ordinary `*.mp4` name, frames and audio are named after the same stem |
| MovieFiles.DotOnlyMovieStem | main.py:43 | a name made only of dots before ".mp4" has no extension for `splitext`, so its frames carry the whole name |
| MovieFiles.DotOnlyNameHasNoExtension | main.py:43 | such a name has no extension |
| MovieFiles.GlobbedNameIsOrdinary | main.py:114 | a `*.mp4` name that does not start with a dot, which is every name the glob returns, has a non-dot before ".mp4" |
| MovieFiles.DistinctMoviesDistinctFrames | main.py:43-57 | two different ordinary `*.mp4` names have different stems, so their frames never share a file name |

## Left out

- The Streamlit UI in `main` (main.py:88-159) is not modelled. This covers
  the URL input and the `URLS` list, the buttons, the video choice, the
  DataFrame and the video display. `os.path.join` is modelled only to name
  the path the core functions receive.
- The downloader call and `sanitize_info` (main.py:99-108) are left out.
  They are network and library calls. Only the match-filter predicate is
  modelled.
- moviepy is not modelled. Opening the clip and reading its float duration
  (main.py:53) is replaced by the whole-second count, which is an input.
  `save_frame` (main.py:59) is an abstract write of a `Still` file. Failures
  are not modelled: a missing `static` directory, an unreadable video, or a
  directory at a frame path.
- The ffmpeg conversion (main.py:33-34) is reduced to an input: either it
  succeeds and writes the mp3, or it fails and writes nothing. What a
  failing ffmpeg run leaves on disk is not modelled.
- The Whisper request (main.py:76-84) is not modelled as a service. Its
  answer is an input, and its fixed parameters are recorded in the
  request.
- Loading the dotenv file and the API key (main.py:13-14) is I/O and is
  left out.
- The glob pattern `./static**/*` (main.py:46) is not evaluated. The reset
  takes its result as a listing. Without a slash between `static` and
  `**`, the pattern only reaches entries directly inside directories whose
  names begin with "static". It does not reach nested contents.
- PosixPath.Norm: identifies only spellings that differ by leading "."
  components. Other spellings of one file, such as "static//a.jpg",
  "static/./a.jpg", "x/../static/a.jpg" or a symbolic link, remain distinct
  keys. The current directory itself has two keys, "." and "" (the
  resolution of "./"). The pipeline's own paths never use these spellings.
- The `MovieFiles` lemmas about ordinary names require a non-dot before
  ".mp4". `glob` does not match names that start with a dot against `*`
  (main.py:114), so every name the app passes meets that requirement
  (`MovieFiles.GlobbedNameIsOrdinary`).
- MatchFilter.ShorterThanTenMinute: durations are `real`. A float NaN and
  non-numeric metadata values are not representable.
- Screenshots.WholeSeconds: only covers non-negative durations. Python's
  `int` truncates toward zero, which equals the floor there.
- Transcript.CreateTranscript: `os.path.exists` followed by `os.remove` on
  a directory is modelled as a failure that changes nothing. Platform
  differences in that error are not distinguished.
