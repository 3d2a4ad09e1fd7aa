# Kenmei notifier: the reconcile core in Dafny

`kenmei.py` logs in to Kenmei and downloads the user's reading list page by page. It
compares each unread title's latest chapter with the map saved by the previous run,
pushes a Pushover message for every chapter that changed, and writes a fresh
`unread.json`. This project models the deterministic part of one run. HTTP, files and
the environment are replaced by inputs and outputs.

- `wrappers.dfy` (`Wrappers`): `Option`, `dict.get` as `Lookup`, and the `Somes` filter.
- `text.dfy` (`Text`): Python's `str.strip()` (the full `isspace` set), `str.rstrip(chars)`
  and `str(int)`, each with its reading direction or uniqueness lemma.
- `chapters.dfy` (`Chapters`): the chapter normaliser, which turns the raw `latestChapter`
  value of an entry into the chapter string or decides to skip the entry.
- `reconciler.dfy` (`Reconciler`): the loop of `process_manga_entries` as a fold
  (`Reconcile`). It is related to three independent reference views:
  - `Recorded`: the (title, chapter) pairs the entries record, in order;
  - `LatestFor`: the last chapter recorded for a title;
  - `Announcements`: the records that are news against the saved map.

  The module also holds the Pushover message text.
- `fetcher.dfy` (`Fetcher`): the page count and page concatenation of `fetch_manga_data`.
  Each page reply is given as a function of the page number.
- `pipeline.dfy` (`Pipeline`): the save decision of `main`.

Floats stay abstract. A float whose `is_integer()` holds is its integer value
(`WholeFloat`). Any other float is the text `str()` gives for it (`FractionalFloat`).

Three behaviours of the code are easy to miss, and the model keeps them:

- The empty-or-`"0"` test (kenmei.py:185) runs before the trailing-zero trim
  (kenmei.py:189-190). So `"0.0"` is kept as `"0"`, and `".0"` is kept as `""`.
- A failed or undecodable first page makes `fetch_manga_data` return
  `{"entries": []}`. That value is truthy, so `main` overwrites `unread.json` with an
  empty map, and the saved state is lost.
- Notifications compare each entry with the saved map, not with the map being built. A
  title listed twice with two different chapters can therefore be announced twice. A
  second run is then not quiet: `SecondRunQuiet` states exactly when it is.

## Model

| member | source | states |
|---|---|---|
| Text.StripRemovesEndWhitespace | kenmei.py:183 | `strip()` keeps a contiguous middle part of the text, removes only whitespace before and after it, and leaves no whitespace at either end |
| Text.StripPadded | kenmei.py:183 | stripping whitespace padding from a text with no whitespace at its ends gives back exactly that text |
| Text.RStripSpec | kenmei.py:190 | `rstrip(chars)` keeps a prefix, drops only characters from `chars`, and the kept prefix does not end in one of them |
| Text.RStripUnique | kenmei.py:190 | splitting a text into a head not ending in a stripped character and a tail of only stripped characters determines `rstrip`'s result |
| Text.IntStringShape | kenmei.py:183 | `str(int)` is non-empty and made of decimal digits, with a leading `-` exactly for negative numbers |
| Text.IntStringRoundTrip | kenmei.py:181-183 | reading back `str(i)` gives `i`, so rendering an integer chapter loses nothing |
| Text.IntStringIsZero | kenmei.py:183-185 | `str(i)` equals `"0"` exactly when `i` is zero |
| Chapters.TrimFractionSpec | kenmei.py:189-190 | the trailing-zero trim keeps a prefix; on a text with `.` it drops only `0`s and `.`s, the result never ends in `.`, and the dropped part is a run of `.`s followed by a run of `0`s with no `0` just before it; a text without `.` is unchanged |
| Chapters.TrimFractionSplit | kenmei.py:189-190 | on a dotted text, the trim's result is the head of a split into head, a run of `.`s, and a run of `0`s with no `0` just before it and no `.` ending the head |
| Chapters.TrimFractionUnique | kenmei.py:189-190 | for a dotted text of the form head, then a run of `.`s, then a run of `0`s, with head not ending in `.` and no `0` just before the zeros, the trim yields exactly head |
| Chapters.NormalizeSpec | kenmei.py:172-190 | a chapter is skipped exactly when it is absent or its stripped text is `""` or `"0"`; a kept chapter is a prefix of the stripped text, never ends in `.`, and is that whole text when the text has no `.`; when the text has a `.`, the kept chapter is the head of the text's split into head, `.`s and `0`s, which `TrimFractionUnique` shows to be the only one |
| Chapters.WholeChapter | kenmei.py:179-185 | an integer or whole float, bare or inside a `latestChapter` object, gives its decimal rendering without `.`, which reads back as the number; zero is skipped |
| Chapters.DottedChapter | kenmei.py:172-190 | a present chapter of any type, whose stripped text is a dotted text split into head, `.`s and `0`s, normalises to exactly that head |
| Chapters.PaddedDottedString | kenmei.py:183-190 | a dotted string chapter with whitespace around it normalises to the head of its split: the whitespace goes first, then the trailing `0`s and `.`s |
| Chapters.PaddedTrailingZeroDropped | kenmei.py:183-190 | `" 12.50\n"` normalises to `"12.5"` |
| Chapters.TrailingZeroDropped | kenmei.py:189-190 | `"12.50"` normalises to `"12.5"` |
| Chapters.ZeroFractionDropped | kenmei.py:172-190 | `"12.00"` inside a `latestChapter` object normalises to `"12"` |
| Chapters.ZeroPointZeroKept | kenmei.py:185-190 | `"0.0"` passes the zero test and is kept, as `"0"` |
| Chapters.DotZeroKept | kenmei.py:185-190 | `".0"` passes the empty test and is kept, as the empty string |
| Chapters.PaddedZeroSkipped | kenmei.py:183-187 | a string chapter that is `"0"` surrounded by whitespace is skipped |
| Chapters.BlankSkipped | kenmei.py:183-187 | a string chapter made only of whitespace is skipped |
| Reconciler.Reconcile | kenmei.py:159-208 | the loop's new map gives each title the chapter of its last record, and its notifications are the records that are news against the saved map, in entry order |
| Reconciler.StateKeys | kenmei.py:159-208 | a title is in the new map exactly when some entry with that non-empty title, an unread flag and a usable chapter records it; read, skipped and vanished titles are dropped |
| Reconciler.StateKeepsLastChapter | kenmei.py:192-199 | the chapter kept for a title is the one of the last entry recording that title |
| Reconciler.StateIgnoresPrior | kenmei.py:159-208 | the new map does not depend on the saved map |
| Reconciler.NotificationTrigger | kenmei.py:192-198 | a pair is announced exactly when some entry records it and the saved map does not already hold that chapter for that title |
| Reconciler.SkippedEntryInert | kenmei.py:162-202 | a malformed, untitled, chapterless or read entry, inserted anywhere, changes neither the new map nor the notifications |
| Reconciler.SecondRunQuiet | kenmei.py:192-199 | a second run against the first run's map returns the same map, and announces nothing exactly when no title is recorded with two different chapters |
| Reconciler.DistinctTitlesIdempotent | kenmei.py:192-199 | when recording entries have distinct titles, a second run against the first run's map announces nothing and returns the same map |
| Reconciler.MessageRoundTrip | kenmei.py:220 | the message starts with the title, is 17 characters longer than title plus chapter, and the chapter can be read back out of it |
| Reconciler.NewsThenSkipped | kenmei.py:192-199 | an entry with news followed by one recording nothing yields a one-title map and exactly one notification |
| Reconciler.WholeChapterRecorded | kenmei.py:179-199 | an unread, titled entry with a non-zero whole chapter records the chapter's plain decimal rendering |
| Reconciler.NewChapterAndReadTitle | kenmei.py:159-208 | a title moving from `"178"` to `179.0` is kept and announced as `"179"`, and a title now read is dropped silently |
| Fetcher.GatheredMembers | kenmei.py:126-137 | an entry is aggregated exactly when some page in 1..n answered with it |
| Fetcher.GatheredPrefix | kenmei.py:126-132 | earlier pages' entries come first: the aggregate of pages 1..m is a prefix of that of pages 1..n |
| Fetcher.FetchMangaData | kenmei.py:106-141 | without a token the result is `{}`; a failed or undecodable first request gives an empty entry list; otherwise it is the in-order aggregate of pages 1..count, where count is `pagy.pages`, or 1 when that is missing or zero |
| Pipeline.RunOnce | kenmei.py:269-284 | nothing is saved or announced exactly when the configuration is incomplete or there is no token; a failed first page saves an empty map; otherwise the reconciled map is saved and its notifications are sent |

## Left out

- HTTP session, retry adapter and request headers (kenmei.py:38-47, 59-76): transport
  plumbing of `requests` and `urllib3`.
- `authenticate` (kenmei.py:78-97): a single network call. Its result is the `token`
  input of `FetchMangaData` and `RunOnce`.
- The Pushover POST (kenmei.py:221-225): its failures are swallowed, so a push is modelled
  as appending the pair to the notification list. `Message` gives its text.
- Environment loading (kenmei.py:227-240): it becomes the `configured` flag of `RunOnce`.
- `save_data` and `load_unread_data` (kenmei.py:242-265): file and JSON I/O. The loaded
  map is the `prior` input, and a missing or unreadable file is the empty map
  (kenmei.py:153-157). The saved map is `RunOnce`'s `saved` output.
- The sentry-trace UUID (kenmei.py:56) and all logging: no effect on the result.
- Float formatting: `str(float)` and `float.is_integer()` are not computed. The
  `WholeFloat` and `FractionalFloat` constructors carry their outcome.
- FetchMangaData: some reply shapes raise outside the handlers and end the process; they
  are not modelled. These are a first body that is not an object, a null or non-object
  `pagy`, a truthy `pages` that is not an integer (a string, a float or a list), a page
  body that is not an object, and a truthy `entries` that is not iterable (such as a
  number). The other shapes are covered:
  - a falsy `pages` (missing, `0`, `""`, `0.0`, `false`, `{}`) counts as one page, and
    `true` counts as one page (`FirstOk(Some(1))`);
  - a falsy `entries` is `PageOk([])`;
  - a string or object `entries` is extended character by character or key by key, and
    each element then fails the attribute lookup and is skipped as a `Malformed` entry;
  - any other failure of a page request, including a body that is not JSON, is `PageFailed`
    (requests' `JSONDecodeError` is one of its `RequestException`s).
- Reconcile: a title that is a non-string JSON value (such as a number) is not modelled.
  Titles are `Option<string>`, and an entry whose lookup raises is `Malformed`.
