# Badminton attendance tracker — verified model of the roster and attendance logic

The tracker keeps two collections in a realtime database: `players`, the
roster of participant names, and `attendance`, one record `{date, players}`
per date key. `script.js` manipulates them from DOM and database callbacks.
This project lifts the data handling out of those callbacks into pure Dafny
functions over an abstract store (`Database.Store`: a `players` sequence and
an `attendance` map) and proves what that handling guarantees:

- **Name normalisation** (`Names`): split on single spaces, capitalise each
  word, rejoin. Proved equal to a character-wise reference definition,
  idempotent, length- and space-preserving, and word-for-word capitalising.
- **Roster add** (`Roster`): trim, reject empty input, reject a name equal to
  an existing one up to letter case, otherwise append exactly the normalised
  name. Case-insensitive uniqueness of the roster is preserved.
- **Attendance save** (`Attendance`): reject a missing date, an empty
  selection, or a declined overwrite; key the record by the date up to its
  first `'T'`; store the deduplicated, sorted union of the recorded and the
  selected players under that key only. Saving is idempotent and never drops
  a recorded name.
- **Deletes** (`Attendance`): one key, or the whole collection.
- **History listing** (`History`): exactly the records with both a date and
  a player list, latest date first; the listing is uniquely determined.

Supporting modules: `Results` (Option/Result), `Text` (JavaScript `trim`,
ASCII case mapping, `split`/`join`), `Order` (the default string order of
`Array.prototype.sort`, insertion sort, `[...new Set(xs)]`).

The `confirm` dialogs are boolean parameters (`overwrite`, `confirmed`); an
`alert` that ends an operation is an `Err` value, and the store is then
unchanged.

The model follows script.js: names get no character-set check, deleting a
missing key is a silent no-op, the overwrite prompt is a boolean parameter
of saving, and the roster has no remove operation.

## Model

| member | source | states |
|---|---|---|
| Text.Trim | script.js:47 | the result neither starts nor ends with whitespace, is an infix of the input with only whitespace around it, and is empty exactly when the input is all whitespace |
| Text.Split | script.js:55 | `split(' ')` always yields at least one piece; pieces between adjacent separators are empty |
| Text.Join | script.js:57 | `join(' ')` starts with the first piece and, when there are more pieces, puts the separator right after it |
| Text.SplitPieces | script.js:55 | no piece of `split(' ')` holds the separator, and the first piece is the prefix before the first separator (the whole string when there is none) |
| Text.JoinSplit | script.js:55-57 | joining the pieces of a split with the same separator gives back the original string |
| Text.SplitJoin | script.js:55-57 | splitting a join of separator-free pieces gives back the pieces |
| Names.CapitaliseWord | script.js:56 | the `map` callback keeps the word's length, leaves it starting with no lower-case letter and continuing with no upper-case one, and changes letter case only |
| Names.Normalize | script.js:54-57 | split/capitalise/join equals the character-wise title case (upper-case after start or space, lower-case elsewhere), keeps the length, the positions of spaces and of whitespace |
| Names.NormalizeIdempotent | script.js:54-57 | normalising a normalised name changes nothing |
| Names.NormalizedWords | script.js:54-57 | the words of the normalised name are, one for one, the input's words each with the first character upper-cased and the rest lower-cased |
| Names.NormalizeKeepsLowerCase | script.js:54-62 | a name and its normalised form are equal under `toLowerCase`, so the duplicate check can compare against the trimmed input |
| Roster.HasPlayerLike | script.js:60-62 | `players.some`: some roster entry equals the name under `toLowerCase` |
| Roster.AddPlayer | script.js:47-71 | the add succeeds exactly when the trimmed input is non-empty and no roster entry equals it ignoring case; empty input is rejected as such; on success attendance is untouched and exactly one non-empty, trimmed, title-cased name is appended |
| Roster.AddKeepsNoCaseDuplicates | script.js:59-71 | a roster without case-insensitive duplicates keeps that property after an add |
| Roster.AddSameNameTwice | script.js:59-68 | after adding a name, adding any spelling equal to it ignoring case is rejected as a duplicate |
| Attendance.DateKey | script.js:102 | the key holds no `'T'`, is a prefix of the date, is followed in the date by `'T'` when shorter, and is the whole date when the date has no `'T'` |
| Attendance.MergePlayers | script.js:118-121 | the merged list is strictly ascending (sorted, no duplicates) and contains exactly the names recorded or selected |
| Attendance.MergeCanonical | script.js:118-121 | every strictly ascending list of exactly the recorded-or-selected names is the merge result |
| Attendance.MergeIdempotent | script.js:118-121 | merging the same selection into a merged list returns it unchanged |
| Attendance.MergeExample | script.js:118-121 | with Alice recorded and Bob selected the stored list is `["Alice", "Bob"]` |
| Attendance.ExistingPlayers | script.js:104-111 | the players recorded for the key, `[]` when there is no record or the record has no player list |
| Attendance.SaveAttendance | script.js:91-128 | a missing date, an empty selection, or an existing record with the overwrite declined write nothing; otherwise only the date key's entry changes, the roster is untouched, and the record holds the key as date and the strictly ascending union of recorded and selected names |
| Attendance.SaveKeepsWellFormed | script.js:118-128 | saving keeps every record filed under its own date with a strictly ascending player list |
| Attendance.SaveKeepsRecordedPlayers | script.js:104-121 | a name already recorded for the date is still recorded after the save |
| Attendance.SaveIdempotent | script.js:106-128 | repeating a successful save with the same selection leaves the store as it is, whether the overwrite is accepted or declined |
| Attendance.DeleteAttendance | script.js:224-229 | a confirmed delete removes that key and no other, changing no remaining record nor the roster; a declined one changes nothing |
| Attendance.DeleteAllHistory | script.js:241-243 | a confirmed delete-all empties the attendance map and keeps the roster; a declined one changes nothing |
| Attendance.DeleteKeepsWellFormed | script.js:224-243 | both deletes keep the store well-formed |
| Order.Less | script.js:121 | the default sort order: at the first differing position the smaller character wins, and a proper prefix comes first |
| Order.Sort | script.js:121 | the result is an ascending permutation of the input |
| Order.SortedUnique | script.js:121 | two ascending permutations of the same strings are equal, so any sorting algorithm agrees with `Sort` |
| Order.Dedup | script.js:118 | the result has no duplicates and exactly the input's members |
| History.Listed | script.js:159 | a record is listed exactly when it has a non-empty date string and a player list |
| History.Before | script.js:151-169 | a later date comes first; equal dates keep ascending key order, the order the entries are read in, because the sort is stable |
| History.ListHistory | script.js:153-169 | the rows are exactly the records with a non-empty date and a player list, each as stored under its key, ordered by date descending (equal dates by ascending key) |
| History.HistoryUnique | script.js:151-169 | two listings of the same records are identical |
| History.LatestFirstExample | script.js:158-169 | with records for 2024-01-01 and 2024-02-01 the listing is the February record, then the January one |

## Left out

- DOM and presentation: element lookup, checkbox rendering, `alert`,
  `formatDate`, the notification texts, and `displayPlayers` (which only
  sorts the roster for display).
- Database I/O and timing: promise chains, write failures, value listeners,
  the debounce, `debugLog` and the listener-initialised guard. A write is
  modelled as succeeding. The read-then-write race between two concurrent
  saves of the same date is a concurrency matter and is not modelled.
- Database path semantics: keys are opaque strings. A date beginning with
  `'T'` yields the empty key, which in the database addresses the whole
  `attendance` collection; the model stores that record under the empty key.
  Keys containing `/` would likewise address nested paths.
- Names.Normalize: `toUpperCase`/`toLowerCase` are modelled on ASCII letters
  only and leave every other character unchanged, because full Unicode case
  mapping can change a string's length; the duplicate check of
  Roster.AddPlayer inherits this.
- Attendance.MergePlayers: strings are ordered by Unicode scalar value;
  JavaScript compares UTF-16 code units, which orders characters above
  U+FFFF differently from those in U+E000–U+FFFF.
- History.ListHistory: dates are compared as strings, which matches the
  `Date` subtraction of the comparator for ISO `YYYY-MM-DD` dates only; the
  tie order assumes no integer-like keys (JavaScript enumerates those first).
- Roster order: `displayPlayers` sorts the in-memory roster in place; the
  model keeps push order, which no modelled operation depends on (the
  duplicate check looks at every entry).
