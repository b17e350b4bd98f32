# ClipTracker clipboard history in Dafny

ClipTracker is a small desktop clipboard manager. Once a second it reads the
operating-system clipboard. It appends a timestamped entry to an in-memory
history when the clipboard text differs from the text of the last entry in the list. It shows
every captured entry as a listbox row `text + "\n" + time`. Buttons and menus
let the user clear the history, copy the selected row back to the clipboard,
sort the history (by time, A-Z or Z-A) and search it.

This project models that history and the operations on it:

- `text.dfy` (module `Text`): the string operations the program relies on.
  These are lower-casing, the substring test behind Python's `query in text`,
  `split('\n')[0]` (`FirstLine`) and Python's ordering of strings (`LexLess`).
- `history.dfy` (module `History`): the value-level model. It holds the
  `Entry` record and its listbox rendering, and what one polling tick does to
  the history (`Polled`). It also defines the "no two neighbouring entries are
  equal" invariant, a run of ticks and clears (`Run`), and the search filter
  (`Filter`) with its exact specification.
- `sorting.dfy` (module `Sorting`): the sort menu. Python's `list.sort` is
  stable, also with `reverse=True`. It is specified by a stable insertion
  sort (`StableSort`). The result is proved to be a permutation, to be
  ordered, and to keep entries with equal keys in their old order. It is
  also proved to be the only arrangement with those properties, so any stable
  sort gives it.
- `manager.dfy` (module `Manager`): the `ClipboardManager` class. Its fields
  are `history: seq<Entry>` and `listbox: seq<string>`. Its methods are the
  constructor, `UpdateClipboardHistory`, `ClearHistory`, `CopySelected`,
  `SortHistory` and `FilterHistory`, and each one's contract ties the new
  state to the functions above. The class invariant `Valid()` says the
  listbox shows each history entry exactly once. `Mirrored()` says it shows
  them in history order; ticks and clears keep it, a sort does not.

The clipboard read and the current time are parameters of the tick.
The clipboard write and the message box are the `CopyOutcome` that
`CopySelected` returns.

## Model

| member | source | states |
|---|---|---|
| `Text.Lower` | main.py:112-113 | lower-casing keeps the length, maps each letter A-Z to its lower-case letter (code point + 32), keeps every other character, and leaves no upper-case letter |
| `Text.LowerIgnoresCase` | main.py:112-113 | two strings that differ only in the case of ASCII letters lower-case to the same string |
| `Text.ContainsAt` | main.py:113 | `q in s` holds exactly when `q` occurs in `s` at some position |
| `Text.FirstLine` | main.py:82 | `split('\n')[0]` is a prefix of the row, has no newline, and ends at the row's end or at its first newline |
| `Text.FirstLineOfJoin` | main.py:68 | the part after the first newline does not affect the first line |
| `Text.LexLessTransitive` | main.py:91-95 | the string order used as the sort key is transitive |
| `Text.LexLessTotal` | main.py:91-95 | any two distinct strings are ordered one way or the other |
| `Text.LexLessIrreflexive` | main.py:91-95 | no string sorts strictly before itself |
| `History.RenderRoundTrip` | main.py:68 | the first line of a rendered row is the first line of the entry's text, and is the text itself when the text has no newline |
| `History.RenderedPermutation` | main.py:68 | reordering the entries reorders their rows the same way |
| `History.PolledEmpty` | main.py:14-16 | the first tick on the new, empty history records exactly the clipboard value read then |
| `History.PolledLast` | main.py:61-67 | after a tick the last entry holds the clipboard value, the old entries are an unchanged prefix, and at most one entry was added |
| `History.PolledTwice` | main.py:62 | a second tick reading the same value changes nothing |
| `History.PolledChecksLastOnly` | main.py:62 | with history [a, b], a tick reading a's text appends a third entry: duplicates are suppressed against the last entry only |
| `History.PolledKeepsAdjacentDistinct` | main.py:62-67 | a tick keeps "no two neighbouring entries have equal text" |
| `History.RunKeepsAdjacentDistinct` | main.py:14-77 | over any sequence of ticks and clears, no two neighbouring entries have equal text |
| `History.MatchesIgnoresCase` | main.py:112-113 | a query matches the same entries whatever the case of its ASCII letters |
| `History.FilterPicksMatches` | main.py:112-113 | the search result is the entries at the matching positions, in ascending order, and a position is picked exactly when its lower-cased text contains the lower-cased query |
| `History.FilterSound` | main.py:113 | every shown entry matches and comes from the history; every matching entry is shown |
| `History.FilterEmptyQuery` | main.py:113 | an empty query returns the whole history in order |
| `History.FilterCleared` | main.py:113 | searching an empty (cleared) history returns nothing |
| `History.FilterIdempotent` | main.py:113 | filtering the result again with the same query changes nothing |
| `Sorting.StableSortCorrect` | main.py:91-95 | the sorted list is a permutation of the old one, is ordered by key, and keeps entries with equal keys in their old order |
| `Sorting.StableSortUnique` | main.py:91-95 | any ordered list that keeps each key's entries in their old order is the sorted list, so the model agrees with any stable sort |
| `Sorting.SortByModeCorrect` | main.py:88-95 | "Time" gives non-increasing time strings, "A-Z" non-decreasing lower-cased texts, "Z-A" non-increasing ones; every mode permutes; any other mode leaves the list unchanged |
| `Sorting.SortByModeStable` | main.py:91-95 | each mode keeps tied entries in their previous order |
| `Sorting.SortMayJoinDuplicates` | main.py:93 | sorting [a, b, a] A-Z puts the two a's next to each other, so sorting does not keep the neighbour invariant |
| `Sorting.SortThenPollRecaptures` | main.py:62 | after a time sort the tick compares with the oldest entry, so the current clipboard text is captured a second time |
| `Manager.ClipboardManager.constructor` | main.py:11-16 | a new manager holds one entry, the clipboard value at start, and one row for it; all invariants hold |
| `Manager.ClipboardManager.UpdateClipboardHistory` | main.py:60-68 | appends `{clipboard, now}` and its row exactly when the history is empty or the last entry's text differs, else changes nothing; keeps the listbox mirror and the neighbour invariant |
| `Manager.ClipboardManager.ClearHistory` | main.py:75-77 | history and listbox are both empty afterwards (so clearing twice equals clearing once) |
| `Manager.ClipboardManager.CopySelected` | main.py:79-86 | no selection gives the warning; a selected row gives its first line, which is the first line of some entry's text and, while the listbox mirrors the history, that entry's text when it has no newline |
| `Manager.ClipboardManager.SortHistory` | main.py:88-95 | the history becomes the sorted history for the chosen mode; the listbox rows are left as they were and still show every entry once |
| `Manager.ClipboardManager.FilterHistory` | main.py:111-113 | returns the matching entries of the unchanged history; an empty query returns all of it |

## Left out

- Window construction, layout and styling (main.py:20-58) and the row colours set at main.py:69 are UI with no effect on the data.
- The widget rebuild after sorting and searching (main.py:97-109, 115-127) is not modelled. It uses a `scrollable_frame` that is never created, so it fails after the list work is done. The sort has already reordered the history by then, and the search result is never shown.
- The one-second timer (main.py:17, 71-73) is modelled as one call of `UpdateClipboardHistory` per tick, and a session as a sequence of `Event`s.
- The tray icon, its menu and its thread (main.py:129-152) are concurrency and foreign UI code.
- `pyperclip.paste`, `pyperclip.copy` and the message boxes are operating-system I/O. The read is a parameter; the write and the info or warning box are the returned `CopyOutcome`. A clipboard read that fails is not modelled.
- `datetime.now().strftime(...)` (main.py:65) is an opaque `now` string. The model does not capture that this format makes string order agree with time order.
- Lower: folds only the ASCII letters A-Z. Python's `str.lower` also folds other Unicode letters.
- CopySelected: takes the selected row as an optional index that the listbox guarantees to be one of its rows. The Tk error raised for an empty selection is the `None` case.
- CopySelected: main.py:82 copies only the first line of the selected row, so a multi-line entry is copied truncated; the model keeps that behaviour (see `RenderRoundTrip`).
- SortHistory: main.py:88-95 sorts only when the menu is used and no mode is remembered, so later ticks append unsorted; `SortThenPollRecaptures` shows the effect on duplicate suppression.
