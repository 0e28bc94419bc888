# Flac Music playlist cursor, in Dafny

A model of the small piece of logic in the Flac Music desktop player
(`src/main.rs`) that is not widget-tree or audio glue:

- **The playlist cursor.** `prev_song` and `next_song` take the current
  playlist (a vector of `Song` records, each with a `playing` flag). Both
  scan the list, clear every flag and remember the index of the last
  flagged song (0 if none). Then they either report that the cursor is
  already at the first or last song by returning `None`, or they flag the
  neighbouring song and return a copy of it. Module `Cursor` models the
  in-place update as methods on an `array<Song>` (`NextSong`, `PrevSong`,
  and the shared scan `ClearPlaying`). Each method is proved equal to a
  pure reference function (`NextStep`, `PrevStep`) whose contract states
  the outcome in terms of `LastPlaying`, the index the scan settles on.
- **The playing-flag sync.** When the player window is clicked, every song
  is flagged exactly when its title equals the current song's title.
  Module `PlayingSync` models this loop as `SyncPlaying` on an array.
- **File-name helpers.** `is_music_file` is the import filter. The title
  fallback in `get_song_meta` takes the last `/`-separated segment of a
  path and trims `.flac`, `.mp3`, `.wav` and `.m4a`, in that order, each
  with `trim_end_matches`. Module `FileNames` models both, plus
  `trim_end_matches` itself (repeated removal of a trailing pattern).

Module `Songs` holds the `Song` record and `Option`. The `duration` field
is a `real` that no modelled operation computes with. The `Modes` argument
of both cursor operations is dropped: both match it with `_`.

## Model

| member | source | states |
|---|---|---|
| Cursor.LastPlaying | src/main.rs:617-625 | `this_index` after the scan is the index of the last flagged song: no later song is flagged, and if the song at that index is not flagged then no song is flagged and the index is 0 |
| Cursor.LastPlayingOfOnlyFlag | src/main.rs:617-625 | with exactly one song flagged, the scan settles on that song |
| Cursor.ClearPlaying | src/main.rs:620-625 | the in-place scan returns `LastPlaying` of the old list and leaves the list with every flag cleared and every other field unchanged |
| Cursor.NextStep | src/main.rs:642-667 | `next_song` returns None exactly when the last flagged song is the last song, and then no song stays flagged; otherwise it returns the following song with `playing` set, and that song is the only flagged one; length, order and all fields other than `playing` are unchanged |
| Cursor.PrevStep | src/main.rs:614-639 | `prev_song` returns None exactly when the scan index is 0 (first song flagged, or none), and then no song stays flagged; otherwise it returns the preceding song with `playing` set, and that song is the only flagged one; nothing but `playing` changes |
| Cursor.NextSong | src/main.rs:642-667 | the in-place `next_song` on a non-empty playlist leaves the array holding `NextStep(old).playList` and returns `NextStep(old).picked`, so it inherits every property stated of `NextStep` |
| Cursor.PrevSong | src/main.rs:614-639 | the in-place `prev_song` on a non-empty playlist leaves the array holding `PrevStep(old).playList` and returns `PrevStep(old).picked`, so it inherits every property stated of `PrevStep` |
| Cursor.PrevUndoesNext | src/main.rs:614-667 | with exactly one song flagged and not the last, `next_song` then `prev_song` restores the original list and returns the originally current song |
| Cursor.NextUndoesPrev | src/main.rs:614-667 | with exactly one song flagged and not the first, `prev_song` then `next_song` restores the original list and returns the originally current song |
| Cursor.NextWithNoFlagPicksSecond | src/main.rs:645-664 | with no song flagged, `next_song` skips the first song and flags the second |
| Cursor.PrevWithNoFlagIsNone | src/main.rs:617-629 | with no song flagged, `prev_song` returns None and leaves the list unchanged |
| Cursor.NextPastEndRestartsAtSecond | src/main.rs:645-664 | at the last song `next_song` returns None and clears the marker, so a second `next_song` flags the second song of the list |
| PlayingSync.Synced | src/main.rs:508-514 | after the sync each song is flagged exactly when its title equals the current title, and nothing but `playing` changes |
| PlayingSync.SyncPlaying | src/main.rs:508-514 | the in-place loop leaves the list equal to `Synced` of the old list |
| PlayingSync.SyncFlagsOnlySelected | src/main.rs:508-514 | with distinct titles, syncing to the title of song `j` leaves `j` as the only flagged song, so the next cursor move starts from `j` |
| PlayingSync.SyncOfOnlyFlagIsIdentity | src/main.rs:508-514 | with distinct titles and exactly one song flagged, syncing to that song's title changes nothing |
| PlayingSync.SyncAfterMoveIsIdentity | src/main.rs:506-516 | with distinct titles, when the current song is the one `next_song` or `prev_song` returned, the sync leaves the moved list unchanged |
| FileNames.EndsWithAny | src/main.rs:190-196 | the extension loop returns true exactly when some listed extension is a suffix of the name |
| FileNames.IsMusicFile | src/main.rs:189-197 | a file is a music file exactly when its name ends with `.flac`, `.mp3`, `.wav` or `.m4a` |
| FileNames.TrimEndMatches | src/main.rs:171 | `trim_end_matches` returns a prefix of its input that no longer ends with the (non-empty) pattern |
| FileNames.TrimRemovesCopies | src/main.rs:171 | what `trim_end_matches` removes is a run of whole copies of the pattern |
| FileNames.LastSegment | src/main.rs:167-168 | the last `/`-separated segment holds no `/`, is a suffix of the path, and is preceded by a `/` unless it is the whole path |
| FileNames.StripExtensions | src/main.rs:169-173 | the fold of `trim_end_matches` over the extensions yields a prefix of the name that does not end with the last extension tried |
| FileNames.TrimExtensions | src/main.rs:169-173 | the loop over the extensions computes that fold |
| FileNames.FallbackTitle | src/main.rs:166-174 | the fallback title is a prefix of the last path segment, holds no `/` and does not end with `.m4a` |
| FileNames.StripFirstMatch | src/main.rs:169-173 | a name ending with one extension and with none tried before it comes out of the fold strictly shorter |
| FileNames.SegmentEndsWithOnly | src/main.rs:167-168 | for an extension list of non-empty entries without `/` that end in distinct characters, a path's extension is also the extension of its last segment, and the segment ends with no other extension of the list |
| FileNames.TitleDropsExtension | src/main.rs:166-174 | for an extension list of non-empty entries without `/` that end in distinct characters, a path that ends with one of them gets a title shorter than its last segment |
| FileNames.MusicExtsDisjoint | src/main.rs:169 | the four extensions contain no `/` and end in four different characters |
| FileNames.MusicFileTitleDropsExtension | src/main.rs:166-174 | every file the import filter accepts gets a fallback title strictly shorter than its last path segment |
| FileNames.ExtensionCanRemain | src/main.rs:169-172 | the extensions are trimmed once each in a fixed order, so `x.flac.m4a` gives the title `x.flac` |

## Left out

- Cursor.NextSong and Cursor.PrevSong require a non-empty playlist. On an empty list `play_list.len() - 1` underflows `usize`, which panics in a debug build. In a release build the subtraction wraps instead: `prev_song` then returns None, and `next_song` panics when it indexes position 1. The model does not cover the release-build case.
- The playlist is an `im::Vector` with structural sharing in the source. The model uses an `array<Song>`, because the operations never change its length.
- The console messages printed when the cursor is already at an end are output only and are left out.
- The druid user interface is left out: `main`, `make_menu`, the `ui_builder` layout, `make_item`, the `MenuDelegate` hooks and the theme setup. It is widget construction with no behaviour to state. The sync loop is the only part of it that is modelled.
- PlayingSync.SyncPlaying: the source locks the shared current song afresh for every song of the list (src/main.rs:509). The playback thread holds a clone of that handle (src/main.rs:311) and replaces the song at src/main.rs:328, 343, 360 and 375. A track change between two iterations can therefore leave the first part of the list synced to the old title and the rest to the new one. The model reads one title for the whole loop, as a parameter, and does not capture that interleaving. Druid's `same` on strings is modelled as string equality.
- The rodio audio calls are foreign code and are left out: `add_paly_song`, `paly_song`, and the sink's play, pause, stop and `set_volume`.
- The spawned playback thread (src/main.rs:315-409) and the `Status` transitions it polls are left out. It coordinates threads through a mutex and `sleep`, and it depends on sink state that rodio reports.
- `load_files` reads directories and is left out. The album sort is a library sort over data produced by that I/O. Only its filter, `is_music_file`, is modelled.
- The ffmpeg metadata extraction in `get_song_meta` is left out, and so is the duration, which is float division and rounding. The model covers the title it falls back to, not the metadata iteration that decides whether the fallback is used.
- Float fields (`volume`, `progress_rate`, `duration` arithmetic), and the unused `PlayList`, `Current` and `Modes` types, are left out.
