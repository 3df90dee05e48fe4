# ytmd-obs-output: track synchronisation core

ytmd-obs-output polls the remote API of YouTube Music Desktop at a fixed
interval. When the reported track differs from the last one it applied, it
mirrors that track to disk for a broadcasting overlay. The text file gets the
output pattern with `%author%`, `%title%` and `%album%` filled in, and the
album art is downloaded next to its final path. This project models and
proves the decision part of that loop, all of it in `index.js`:

- `Tracks` (tracks.dfy) holds the track record, the change detector
  `HasTrackChanged` and `IsTrackNonEmpty`. The last applied track is an
  `Option<Track>`, and `None` stands for the initial `{}`, whose four fields
  are all `undefined`.
- `Template` (template.dfy) models JavaScript's `s.replace(/tok/gi, v)` as a
  left-to-right scan. A match is replaced and the scan resumes after it.
  The replacement value goes through ECMAScript's GetSubstitution, so `$$`,
  `$&`, `` $` `` and `$'` are interpreted as JavaScript interprets them.
  `Render` chains the author, title and album passes in that order. A
  reference description cuts the text into literal characters and
  placeholder occurrences. `ReplaceFillsHoles` proves that a pass replaces
  exactly those occurrences, in any letter case, and keeps every other
  character.
- `Files` (files.dfy) holds the abstract file operations `Write`, `Delete`
  and `Download` and their effect on a filesystem modelled as a map from
  path to contents. Deleting a missing file is a no-op. The file proves that
  running an operation sequence means "the last operation on each path
  decides it", and that running it twice is the same as running it once.
- `Sync` (sync.dfy) holds the plan of `outputTrackInfo`, the pure step of
  one tick, `Step`, and the class `Synchroniser`. The class has a `current`
  field and a `Tick` method that updates it and returns the operations to
  issue. `Run` chains ticks: the applied track is always the last one
  fetched successfully, and a track reported many times in a row is synced
  once.

Four facts about `index.js` shape the model:

- It has one output file and one pattern, `trackFilePath` and
  `outputPattern` (index.js:9, 12).
- Only the empty string means "no cover" (index.js:111).
- A failure to decode the downloaded cover deletes nothing
  (index.js:66-72).
- `currentTrack` is set before the cover download starts (index.js:102,
  112). A download that fails is therefore not retried until the track
  changes.

## Model

| member | source | states |
|---|---|---|
| `Tracks.HasTrackChanged` | index.js:23-29 | the fetched track counts as changed exactly when it is not the applied one; before any track is applied every track counts as changed |
| `Tracks.IsTrackNonEmpty` | index.js:31-32 | a track is non-empty exactly when, with its cover cleared, it is not the blank track (author, title or album non-empty) |
| `Tracks.CoverIrrelevantToEmptiness` | index.js:31-32 | changing the cover never changes emptiness |
| `Template.Fold` | index.js:49-51 | the case folding of the `i` flag maps every lower-case ASCII letter to its upper-case letter and leaves every other character alone, so no folded character is lower-case |
| `Template.Substitution` | index.js:49-51 | how `replace` reads its replacement value: a value without `$` is inserted verbatim, and `$&` stands for the matched text |
| `Template.ReplaceFrom` | index.js:49-51 | the global scan from a position: for a value without `$`, the output is the scanned text's cut with every placeholder occurrence replaced by the value |
| `Template.ReplaceAllCI` | index.js:49-51 | `s.replace(/tok/gi, v)`: for a value without `$`, the fill of the cut the scan finds; text with no occurrence of the token comes back unchanged, for any value |
| `Template.Render` | index.js:48-51 | a pattern without `%author%`, `%title%` or `%album%`, in any case, is written out unchanged |
| `Template.RenderFillsEachPass` | index.js:48-51 | for values without `$`, the output is the author, then title, then album pass, each filling the cut of the previous output |
| `Template.Tokenize` | index.js:48-51 | the global case-insensitive scan cuts its input into literals and placeholder occurrences that spell the input back, with no occurrence left starting at a literal |
| `Template.TokenizeUnique` | index.js:48-51 | the cut is unique: any cut whose holes are occurrences and whose literals start none is the one the scan finds |
| `Template.ReplaceFillsHoles` | index.js:48-51 | for any such cut of the input, a pass replaces every hole (an occurrence in any letter case) with the value and keeps every literal character |
| `Template.ReplaceWithoutMatch` | index.js:48-51 | text with no occurrence of the token is returned unchanged, whatever the value |
| `Template.ReplaceWithMatchIsIdentity` | index.js:48-51 | with the value `$&` each match is put back as written, so the pass returns its input |
| `Template.ReplaceWholeToken` | index.js:48-51 | for a value without `$`, a pattern that is one placeholder, in any letter case, becomes the value |
| `Template.RenderRescansAuthor` | index.js:48-51 | for an author without `$`, the author value is inserted first and then scanned by the title and album passes |
| `Template.AuthorNamingTitlePlaceholder` | index.js:48-51 | an author `%title%` renders as the title, for any title without `$` and without `%album%` |
| `Template.RenderKeepsAlbumVerbatim` | index.js:48-51 | for an album without `$`, the album value is inserted by the last pass and never re-scanned |
| `Template.RenderIgnoresPlaceholderCase` | index.js:48-51 | for an author without `$`, `%AUTHOR%` renders as `%author%` does |
| `Files.ApplyOp` | index.js:34-35 | a write sets the file's contents; a delete leaves no file and is a no-op when the file is missing; a download has no synchronous effect; other files keep their contents |
| `Files.Apply` | index.js:105-116 | running the issued operations in order leaves each path as the last operation on it decided, and every other path untouched |
| `Files.ApplyIdempotent` | index.js:34-35 | running the same operations twice leaves the files as running them once |
| `Sync.AlbumArtTmpPath` | index.js:17 | the temporary cover path is the final path with a suffix, so the two are distinct |
| `Sync.Plan` | index.js:105-116 | the plan has two operations with a cover and three without; the first is the rendered write for a non-empty track and the deletion of the track file for an empty one, and that write is the only one; a download of the cover happens exactly for a non-empty cover; an empty cover ends with deleting the temporary and then the final cover file; with a non-empty cover only the track file can be deleted |
| `Sync.PlanEffect` | index.js:105-116 | the plan decides the track file (rendered text or deleted) and, for an empty cover only, deletes both cover files |
| `Sync.PlanTrackFileOutcome` | index.js:105-109 | after the plan the track file holds the rendered pattern for a non-empty track and does not exist for an empty one |
| `Sync.PlanCoverFilesOutcome` | index.js:111-116 | an empty cover leaves neither cover file; a non-empty cover leaves both as they were for the download to replace |
| `Sync.PlanOtherFilesUntouched` | index.js:99-117 | no file other than the track file and the two cover files is touched |
| `Sync.PlanIdempotent` | index.js:99-117 | applying a track's plan again leaves the files as the first application |
| `Sync.Step` | index.js:119-134 | a failed fetch changes nothing and issues nothing; a successful fetch always becomes the applied track; operations are issued exactly when the fetched track differs from the applied one, and they are that track's plan |
| `Sync.StepRepeatIsQuiet` | index.js:125-127 | fetching the track just applied issues no operation and keeps the state |
| `Sync.Run` | index.js:119-134 | after any run of ticks the applied track is the last successfully fetched one, or the initial state if none succeeded |
| `Sync.RunSameTrackSyncsOnce` | index.js:119-134 | a track reported on n >= 1 ticks in a row ends applied; the operations are those of the first tick alone, which are its plan if it differs from the applied track and nothing otherwise |
| `Sync.RunAppliedIsQuiet` | index.js:125-127 | ticks that keep reporting the applied track issue nothing |
| `Sync.Synchroniser.constructor` | index.js:23 | nothing is applied initially |
| `Sync.Synchroniser.Tick` | index.js:99-134 | the new `current` and the returned operations are those of `Step` on the old `current`; after a successful fetch `current` equals the fetched track |
| `Sync.Session` | index.js:99-134 | a fresh loop writes and downloads a track with text and cover, then issues nothing for the same track, nothing for a failed fetch, and deletes the track file and both cover files for the blank track |
| `Sync.FirstTickAlwaysApplies` | index.js:23-29 | the first fetched track is always applied, even the blank one, which deletes the track file and both cover files |

## Left out

- The HTTP request to the player's API and the destructuring of its body
  (index.js:121-123) are not modelled. Their outcome enters `Tick` as a
  parameter, and `None` stands for any thrown error.
- The cover download through axios and the resize through Jimp
  (index.js:65-97) are not modelled. `Download(url)` is an opaque operation
  with no modelled effect on the temporary or final cover file. This also
  leaves out the Jimp error path, which logs the error and then uses an
  undefined image instead of deleting anything.
- The timer and overlapping ticks (index.js:119) are not modelled. One tick
  is one sequential `Tick` call, and `Run` is a sequence of such calls.
- Asynchronous `fs` callbacks, stream events and the race between
  `existsSync` and `unlink` (index.js:34-45, 53-62, 81-93) are not
  modelled. A write always succeeds, and a failed write or delete, which the
  source only logs, is not represented.
- Console logging and loading `./config` (index.js:7-21, 100, 103) are not
  modelled. The configuration values this core reads form the `Config`
  parameter.
- Template.Fold: case folding covers ASCII letters only. The `i` flag never
  folds a character at or above 128 onto one below it, so this is exact for
  the three ASCII placeholders.
- Template.ReplaceFillsHoles: proved only for values without `$`. The same
  limit applies to the fill clauses of `ReplaceFrom`, `ReplaceAllCI` and
  `RenderFillsEachPass`, and to `ReplaceWholeToken`, `RenderRescansAuthor`,
  `RenderKeepsAlbumVerbatim` and `RenderIgnoresPlaceholderCase`. With a `$`
  in the value these do not hold: `$&` puts the match back as written and
  `$$` inserts one `$`. A value with `$` is still modelled through
  `Substitution`, and `ReplaceWithMatchIsIdentity` covers `$&`.
- Track fields are strings. A body whose fields have other types is not
  modelled. Dafny strings are sequences of Unicode scalar values, whereas
  JavaScript strings are UTF-16 code units. The output is the same on
  well-formed text, since the placeholders are ASCII, but a lone surrogate
  cannot be represented.
