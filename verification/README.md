# Duas index of the Hisnul Muslim API, in Dafny

The API serves a fixed collection of duas (devotional texts), grouped by
chapter. At start-up, `load_duas` reads `duas.csv` once. It builds an
insertion-ordered dict from chapter name to the list of that chapter's rows.
A row whose chapter is the literal `Uncategorized` is filed under the most
recent real chapter, which starts as the empty string. The read routes answer
positional lookups over this dict:

- all duas;
- the duas of chapter `i`;
- dua `j` of chapter `i`;
- a random "dua of the day".

This project models the loader and those lookups as pure functions and proves
the following properties:

- the carry-forward rule;
- no `Uncategorized` key;
- keys in first-appearance order;
- rows kept in input order, none lost or duplicated;
- fail-soft to the empty index;
- the order in which the lookups report errors.

Modules:

- `Duas` (`duas.dfy`): a CSV row, a chapter, the index, and reference definitions over them: the key list, the flattened row list, the rows of one chapter (`Filter`), and the first position of a chapter (`FirstIndex`).
- `Loader` (`loader.dfy`): `load_duas`.
  - `LoadFrom` is the single pass carrying the current chapter.
  - `LoadDuas` adds the two caught failures.
  - The pass is proved equal to an independent reference. `Relabel` resolves each row against the nearest preceding real chapter (`LastReal`). `Group` then appends the resolved rows one by one with `Insert`.
  - All index properties are proved about `Group` and carried over to `LoadDuas`.
- `Lookup` (`lookup.dfy`): the bodies of `get_duas`, `get_dua`, `get_individual_dua` and `get_dua_of_the_day`. Each returns an `Answer`: `Found`, `NoData`, `ChapterNotFound` or `EntryNotFound`.
- `Scenarios` (`scenarios.dfy`): concrete inputs, with the index and lookup answers they produce.

The source reads `duas.csv` itself. In the model, the loader instead receives a `Source`:

- `Read(rows)`: the rows `csv.DictReader` produced, in file order;
- `FileNotFound` or `CsvError`: the two exceptions `load_duas` catches. Either one yields the empty index. A `csv.Error` raised part-way through also discards the rows read before it.

`random.choice` is replaced by a draw `k` passed in by the caller. `k` must be
a position of the gathered list whenever that list is non-empty.

## Model

| member | source | states |
|---|---|---|
| Loader.LoadDuas | app.py:31-62 | The index built from the rows read equals the independent reference: every row resolved against its nearest preceding real chapter, then appended to its chapter's list. A missing file or a CSV error gives the empty index. Keys are never duplicated. |
| Loader.LoadFromGroupsAfter | app.py:43-55 | Resuming the carry-forward loop after any prefix of the input gives the reference index of the whole input. The current chapter carried by the loop is the nearest real chapter of the prefix. |
| Loader.LoadFromGroups | app.py:38-55 | The loop, started from the empty dict with current chapter `""`, builds the reference index of the whole input. |
| Loader.Insert | app.py:53-55 | Adding a row whose chapter is already a key extends only that chapter's list, at its end. Every other list and the key order are unchanged. A row with a new chapter creates a one-row list at the end of the key order. Keys stay distinct. |
| Loader.Group | app.py:53-55 | Appending rows one by one to an empty dict never produces a duplicate key. |
| Loader.LastRealIsNearest | app.py:39-50 | The carried chapter is `""` when every row so far is `Uncategorized`. Otherwise it is the chapter of some real row, and every row after that row is `Uncategorized`. |
| Loader.RelabelAt | app.py:44-50 | A row whose chapter is not `Uncategorized` is stored unchanged. An `Uncategorized` row is stored with its chapter field overwritten by the nearest preceding real chapter, or by `""` if there is none; its other columns are kept. No stored row has chapter `Uncategorized`. |
| Loader.GroupKeys | app.py:43-55 | The keys are exactly the chapters occurring in the rows. Key `i` comes before key `j` exactly when its first occurrence in the rows comes earlier. |
| Loader.GroupContents | app.py:53-55 | Each key's list is exactly the rows with that chapter, in input order. No list is empty. |
| Loader.GroupKeepsRows | app.py:43-55 | The lists, concatenated in key order, are a permutation of the input rows. In particular, their total length is the number of rows. |
| Loader.InsertKeepsRows | app.py:53-55 | Filing one row adds exactly that row to the multiset of stored rows. |
| Loader.FirstIndexExtend | app.py:53-54 | Reading one more row does not move the first occurrence of a chapter already seen. A new chapter first occurs at the new row. |
| Loader.FilterChapter | app.py:53-55 | The rows selected for a chapter all carry that chapter. |
| Loader.LoadedNoSentinelKey | app.py:46-54 | `Uncategorized` is never a key of the loaded index. |
| Loader.LoadedRowsCarryKey | app.py:46-55 | Every row stored in the loaded index has the chapter field of the key that holds it. |
| Loader.LoadedKeyOrder | app.py:43-55 | The loaded keys are exactly the resolved chapters of the input, in order of first appearance. |
| Loader.LoadedChapterContents | app.py:43-55 | Each loaded list holds exactly the resolved input rows of its chapter, in input order, and is non-empty. |
| Loader.LoadedKeepsRows | app.py:40-62 | Loading neither drops nor duplicates a row: the stored rows are a permutation of the resolved input. An unreadable source gives the empty index. |
| Lookup.AllDuas | app.py:91-93 | `NoData` exactly when the index has no chapter; otherwise the whole index. |
| Lookup.AllDuasOfLoaded | app.py:91-93 | On a loaded index, all-duas answers `NoData` exactly when the file was missing, the CSV reader failed, or no row was read. |
| Lookup.ChapterAt | app.py:110-115 | The list of the `i`-th key exactly when `0 <= i < number of keys`; otherwise `ChapterNotFound`. |
| Lookup.ChapterAtOfLoaded | app.py:110-115 | On a loaded index, a valid chapter position yields exactly the resolved input rows of that chapter, in input order, and the list is non-empty. Any other position yields `ChapterNotFound`. |
| Lookup.EntryAt | app.py:136-145 | An out-of-range chapter position gives `ChapterNotFound`, whatever `j` is. For a valid chapter, a `j` outside `[0, length)` gives `EntryNotFound`. Otherwise the answer is element `j` of that chapter. |
| Lookup.EntryAtThroughChapterAt | app.py:136-145 | A dua lookup is `ChapterNotFound` exactly when the chapter lookup is. It is `EntryNotFound` exactly when the chapter lookup succeeds but `j` is out of range. When found, it is element `j` of the chapter lookup's list. |
| Lookup.CollectDuas | app.py:162-164 | The gathering loop yields all chapters' lists concatenated in key order. |
| Lookup.DuaOfTheDay | app.py:162-168 | `NoData` exactly when every chapter list is empty. Otherwise some dua stored in the index. |
| Lookup.EveryDuaCanBePicked | app.py:162-166 | Every stored dua is the dua of the day for some draw in the gathered list's range. |
| Lookup.DuaOfTheDayOfLoaded | app.py:162-168 | On a loaded index, the dua of the day is `NoData` exactly when no row was read. Otherwise the draw ranges over exactly as many positions as there were input rows. |
| Scenarios.CarryForwardExample | app.py:43-55 | Morning, Uncategorized, Evening, Uncategorized loads as Morning with two rows, then Evening with two rows. The resolved rows carry their new chapter. |
| Scenarios.CarryForwardLookups | app.py:110-145 | On that index: chapter 0 is the two Morning rows; chapter 2 is not found; dua (1, 1) is the resolved fourth row; dua (1, 2) is not found within the chapter; chapter -1 is not found, and dua (-1, 0) reports `ChapterNotFound`. |
| Scenarios.ReappearingChapterExample | app.py:53-55 | A chapter that reappears after another keeps its first key position, and its later row joins its list. |
| Scenarios.LeadingUncategorizedExample | app.py:39-50 | `Uncategorized` rows before any real chapter are stored under the key `""`, which becomes the first key. |
| Scenarios.EmptySourceExample | app.py:57-59 | An empty CSV and a missing file each make both all-duas and the dua of the day answer `NoData`. |

## Behaviour followed from the code

- The loader absorbs only two failures: `FileNotFoundError` and `csv.Error` (app.py:57-62). A file whose header has no `Chapter` column makes `row['Chapter']` raise `KeyError`, which `load_duas` does not catch, so start-up fails, provided the file has at least one data row; a header-only file gives the empty dict because the loop body never runs (app.py:43-44). Other uncaught exceptions also make start-up fail. A `PermissionError` is raised by `open` (app.py:41) before any row is read, so it fails even for a header-only file. A `UnicodeDecodeError` is a decoding error raised while the rows are read. The model follows the code. Only the two caught failures map to the empty index. The uncaught ones are outside the model, because every modelled `Row` has a chapter.
- The rows stored under a chapter are the same dict objects the reader produced. For `Uncategorized` rows, the `Chapter` value is overwritten in place (app.py:48). The model stores the row with its chapter replaced and every other column unchanged.
- `Uncategorized` rows before any real chapter are kept under the key `""`. No error is raised (app.py:39, 47).

## Left out

- HTTP plumbing: the Flask app and Blueprint, route decorators, `jsonify`, status codes and error handlers (app.py:11-17, 68-78, 174-178). The lookups return an `Answer` instead of a response. `jsonify` sorts dict keys by default, so the JSON of all duas (app.py:93) lists chapters alphabetically; `AllDuas` returns the index in insertion order, the order the positional routes use.
- Rate limiting and response caching (app.py:21-29, 82-83, 97-98, 122-123, 152-153), which are third-party middleware. They do change what a caller sees. The limiter can answer 429 before the lookup runs (app.py:76-78). The cache serves one response per request path for its timeout, so `/duas/0` and `/duas/1` are cached separately. The dua of the day has a single path and a 24-hour timeout (app.py:153), so one draw is pinned for every request in that window. In the model, that corresponds to using the same `k` for all those requests, which the model does not enforce: each call takes its own draw.
- Opening `duas.csv` and tokenising it with `csv.DictReader` (app.py:41-42). The model receives the reader's rows, or the exception it raised, as a `Source`. A `Row` has exactly the six string columns the scraper writes (format.py:39). Two reader outputs cannot be represented: a short row, whose missing fields get the value `None`, and a long row, whose extra fields go under the key `None`.
- Logging, and the `except Exception` branches that answer 500 (app.py:58, 61, 116-118, 146-148, 169-171). No modelled lookup raises, so these branches are unreachable in the model.
- The uniform distribution of `random.choice` (app.py:166). The draw is a parameter: the model proves which duas can be picked, not how likely each one is.
- Flask's `<int:...>` converter, which never passes a negative position. The lookups take any integer and keep the source's own `0 <=` checks.
- `format.py`, the offline scraper that writes `duas.csv`. It is built on HTML parsing by a library that is not part of this model.
