# sync-machines, modelled in Dafny

`scripts/sync-machines.js` builds the site's list of machines from the
write-ups kept in a GitHub repository. For each difficulty folder (Easy,
Medium, Hard, Insane, in that order) it lists the folder. It keeps the
Markdown write-ups, meaning every `.md` file except `README.md`. It
downloads each one and reads its `---` frontmatter header into a key/value
map. From that map it builds a machine record whose fields have defaults
when a key is missing or empty. Finally it sorts every record newest first
by its pwned date.

This project models that core:

- `wrappers.dfy`: `Option`.
- `js_strings.dfy` (module `JsStrings`): the JavaScript string operations the
  script relies on, with their ECMAScript behaviour:
  - `trim`, whose whitespace set includes the Unicode spaces and line
    terminators;
  - `indexOf`, `split` on one character, and `replace` with a string
    pattern, which removes the first occurrence only;
  - `endsWith`;
  - `toLowerCase` on Latin-1;
  - `parseInt`, which skips leading whitespace and takes a sign, a `0x`
    prefix and the longest run of digits. `NaN` becomes `None`.
- `frontmatter.dfy` (module `Frontmatter`): `parseFrontmatter`.
  - A specification function `Parse` covers the anchored lazy regex block
    and the fold of the block's lines into a map. Lines are split at the
    first colon; a later line wins; `__proto__` keys are dropped, because
    JavaScript's prototype setter ignores a string.
  - A method `ParseFrontmatter` keeps the source's loop over the lines.
- `machines.dfy` (module `Machines`): the record pushed for each write-up.
  It covers `fm.key || fallback`, the title taken from `name` or from the
  file name, the lower-case id, the avatar URL, the description and the
  five `parseInt(...) * 10` scores.
- `date_sort.dfy` (module `DateSort`): the newest-first sort. The
  specification is a stable insertion sort (`SortDesc`), proved:
  - sorted;
  - a permutation;
  - stable;
  - the only sequence with those three properties.

  A method sorts an array in place in the same way.
- `sync.dfy` (module `Sync`): the folder loop.
  - The network is an oracle: each folder endpoint gives a listing or a
    failure, and each listed file carries the outcome of downloading it.
  - A failed listing, or a failed download, is the exception the folder's
    `try` catches. The folder's remaining files are skipped; records
    already pushed stay.
  - Methods `SyncFolder`, `Collect`, `Sync` and `SortByDate` follow the
    source's loops and are proved equal to the specification functions
    `FolderRecords`, `Collected` and `SortDesc`.

## Model

| member | source | states |
|---|---|---|
| JsStrings.Split | scripts/sync-machines.js:29 | `split('\n')` always yields at least one piece |
| JsStrings.JoinSplit | scripts/sync-machines.js:29 | no piece holds a newline, and joining the pieces with newlines gives the block back |
| JsStrings.SplitJoin | scripts/sync-machines.js:29 | splitting newline-joined, newline-free lines gives the lines back |
| JsStrings.IndexOfChar | scripts/sync-machines.js:30-31 | the index of the first colon; `-1` (`None`) exactly when the line has none |
| JsStrings.IndexOfCharAt | scripts/sync-machines.js:30-31 | a colon with none before it is the one `indexOf` finds |
| JsStrings.Trim | scripts/sync-machines.js:32-33 | the result has no whitespace at either end and is no longer than the input |
| JsStrings.TrimSlice | scripts/sync-machines.js:32-33 | the result is a contiguous piece of the input, and only whitespace lies before and after it |
| JsStrings.TrimKeeps | scripts/sync-machines.js:32-33 | every character of the trimmed text occurs in the input |
| JsStrings.TrimEmpty | scripts/sync-machines.js:32-33 | trimming gives the empty string exactly for an all-whitespace string |
| JsStrings.TrimIdempotent | scripts/sync-machines.js:32-33 | trimming twice is trimming once |
| JsStrings.RemoveFirst | scripts/sync-machines.js:75 | `replace('.md', '')`: a name without `.md` is unchanged; otherwise exactly the first occurrence is cut out, and later ones stay |
| JsStrings.RemoveFirstAt | scripts/sync-machines.js:75 | for every `pre + pat + post` with no earlier occurrence of `pat`, the result is `pre + post` |
| JsStrings.ToLower | scripts/sync-machines.js:85 | same length; no capital letter left; every non-capital is kept; every capital becomes its small letter |
| JsStrings.ToLowerEqual | scripts/sync-machines.js:85 | two strings lower to the same text exactly when they have the same length and agree letter by letter up to case |
| JsStrings.ToLowerIdempotent | scripts/sync-machines.js:85 | lowering an id again changes nothing |
| JsStrings.ParseInt | scripts/sync-machines.js:77-81 | a number is found only in a non-blank string, and a negative one only after a leading `-` |
| JsStrings.ParseIntNeedsDigit | scripts/sync-machines.js:77-81 | when `parseInt` finds a number, the string holds a decimal digit |
| JsStrings.ParseIntDecimal | scripts/sync-machines.js:77-81 | `parseInt` of a decimal numeral, optionally followed by text that does not continue it, gives back the number |
| JsStrings.ParseIntWritten | scripts/sync-machines.js:77-81 | a decimal number written with leading whitespace, an optional `+` or `-`, leading zeros and any non-continuing text after it reads as its signed value (`" +07/10"` gives 7) |
| JsStrings.ParseIntHex | scripts/sync-machines.js:77-81 | after optional whitespace and sign, `0x` or `0X` and hexadecimal digits of either case read as their signed base-16 value |
| JsStrings.ParseIntSigned | scripts/sync-machines.js:77-81 | leading whitespace is skipped, `+` keeps the number that follows and `-` negates it |
| JsStrings.ParseUnsignedPadded | scripts/sync-machines.js:77-81 | leading zeros do not change a decimal number's value (`"007"` is 7) |
| Frontmatter.Block | scripts/sync-machines.js:26-27 | the block exists only when the text opens with `---\n`; it ends at the first `\n---` after that; no earlier `\n---` lies inside it; with no closing delimiter there is no block |
| Frontmatter.BlockIgnoresRest | scripts/sync-machines.js:26 | once a block has been found, appending text after it does not change it (the lazy match stops at the first closing delimiter) |
| Frontmatter.LineAssignment | scripts/sync-machines.js:30-33 | a line assigns nothing exactly when it has no colon; otherwise its key holds no colon, and key and value are both trimmed |
| Frontmatter.SplitsAtFirstColon | scripts/sync-machines.js:30-33 | the key is the trimmed text before the first colon; the value is the trimmed text after it, later colons included |
| Frontmatter.Store | scripts/sync-machines.js:34 | `result[key] = value`: the key set by the line is present with the line's value, every other entry is unchanged, and no other key appears; a `__proto__` key stores nothing |
| Frontmatter.Fold | scripts/sync-machines.js:29-35 | the object built by the `forEach` never holds an own `__proto__` entry |
| Frontmatter.FoldKeys | scripts/sync-machines.js:29-35 | a key is in the folded map exactly when some assignment sets it (both directions) |
| Frontmatter.FoldLastWins | scripts/sync-machines.js:29-35 | the last assignment that sets a key gives its value |
| Frontmatter.FoldWellFormed | scripts/sync-machines.js:29-35 | folding well-formed assignments only produces well-formed entries |
| Frontmatter.LinesKeys | scripts/sync-machines.js:29-35 | a key is in the map built from the lines exactly when one of the lines sets it |
| Frontmatter.LinesLastWins | scripts/sync-machines.js:29-35 | when several lines set a key, the last of them gives its value |
| Frontmatter.LinesWellFormed | scripts/sync-machines.js:29-35 | every key built from the lines is trimmed, holds no colon and is not `__proto__`; every value is trimmed |
| Frontmatter.StoreLines | scripts/sync-machines.js:29-35 | the `forEach` over the lines, storing into `result` one line at a time, builds exactly `Fold` of the lines' assignments |
| Frontmatter.Parse | scripts/sync-machines.js:25-37 | without a frontmatter block the result is the empty object |
| Frontmatter.ParseIgnoresRest | scripts/sync-machines.js:26-27 | only the header is read: text after the closing delimiter never changes the map |
| Frontmatter.ParseKeys | scripts/sync-machines.js:29-35 | a key is in the parsed map exactly when one of the block's lines sets it |
| Frontmatter.ParseLastWins | scripts/sync-machines.js:29-35 | when several lines set a key, the last of them gives its value |
| Frontmatter.ParseWellFormed | scripts/sync-machines.js:29-35 | every parsed key is trimmed, holds no colon and is not `__proto__`; every value is trimmed |
| Frontmatter.ParseFrontmatter | scripts/sync-machines.js:25-37 | the function as written, block match and line loop, returns exactly `Parse(text)` |
| Machines.Field | scripts/sync-machines.js:87-91 | `fm.key \|\| fallback`: the map's value when the key is present and non-empty, the fallback otherwise; empty only when the fallback is |
| Machines.Title | scripts/sync-machines.js:75 | `fm.name \|\| file.name.replace('.md', '')`: a non-empty `name` field, otherwise the file name with its first `.md` removed |
| Machines.Score | scripts/sync-machines.js:77-81 | `parseInt(...) * 10` is a multiple of ten, or `NaN` |
| Machines.Record | scripts/sync-machines.js:84-94 | the record names the folder it was built for |
| Machines.RecordFields | scripts/sync-machines.js:75-93 | for every header: `os` comes from `os` or is `Linux`; `difficulty` from `difficulty` or is the folder; `pwnedDate` from `pwn_date` or is `2000-01-01`; `description` from `summary` or is the default sentence on the title; the title is `Title`, the id its lower case, the avatar the logo URL on the title, the matrix `MatrixOf` |
| Machines.MatrixOf | scripts/sync-machines.js:76-82 | each score is read from its own key: `ENUM` from `matrix_enum`, `REAL` from `matrix_real`, `CVE` from `matrix_cve`, `CUSTOM` from `matrix_custom`, `CTF` from `matrix_ctf` |
| Machines.IdIsLowerTitle | scripts/sync-machines.js:85 | the id is as long as the title and has no capital letter; it equals the title wherever the title has none; each capital of the title becomes its small letter; lowering the id again changes nothing |
| Machines.IdIgnoresCase | scripts/sync-machines.js:85 | two records get the same id exactly when their titles have the same length and agree character by character up to letter case |
| Machines.FieldsNeverEmpty | scripts/sync-machines.js:87-91 | os, pwned date and description are never empty; difficulty is empty only when the folder name is |
| Machines.EmptyFrontmatter | scripts/sync-machines.js:73-94 | a write-up without frontmatter gets: its file name minus the first `.md` as title; `Linux`; its folder as difficulty; `2000-01-01`; the default avatar and description; 500 for every score |
| Machines.TitleDropsFirstExtension | scripts/sync-machines.js:75 | with no `name` field, `pre + ".md" + post` is titled `pre + post` when `pre` holds no `.md` (`my.md-notes.md` gives `my-notes.md`) |
| Machines.TitleFromFileName | scripts/sync-machines.js:75 | with no `name` field, a file whose only `.md` is its extension is titled by its stem (`Forge.md` gives `Forge`) |
| Machines.TitleFromName | scripts/sync-machines.js:75 | a non-empty `name` field is the title and names the avatar, whatever the file is called |
| Machines.ScoreOfDecimal | scripts/sync-machines.js:77-81 | a score written as a decimal number, possibly followed by other text (`7/10`), counts ten times that number |
| Machines.ScoreOfWritten | scripts/sync-machines.js:77-81 | a score written with whitespace, a sign, leading zeros or trailing text (`" +07/10"`) counts ten times its signed value |
| Machines.ScoreOfHex | scripts/sync-machines.js:77-81 | a hexadecimal score (`0x0A`) counts ten times its base-16 value |
| Machines.ScoreOfParsed | scripts/sync-machines.js:77-81 | a score field counts ten times whatever `parseInt` reads from it |
| Machines.ScoreDefault | scripts/sync-machines.js:77-81 | a missing or empty score counts 500 |
| Machines.ScoreNeedsDigit | scripts/sync-machines.js:77-81 | a score that is a number was written with a decimal digit in it |
| Machines.ScoreNotANumber | scripts/sync-machines.js:77-81 | a score with no digit where `parseInt` looks for one is `NaN` |
| Sync.IsWriteUp | scripts/sync-machines.js:67 | a write-up's name is a stem followed by `.md`, and that stem is not `README` |
| Sync.Endpoint | scripts/sync-machines.js:66 | a folder's endpoint is the base path, a slash, then the folder's name |
| Sync.EndpointsDistinct | scripts/sync-machines.js:66 | two folders share an endpoint exactly when they are the same folder, so each folder gets its own listing |
| Sync.WriteUpOfStem | scripts/sync-machines.js:67 | a name made of a stem and `.md` is a write-up exactly when the stem is not `README` |
| Sync.WriteUps | scripts/sync-machines.js:67 | the filter keeps exactly the listing's `.md` entries other than `README.md`, and never grows the listing |
| Sync.WriteUpsAppend | scripts/sync-machines.js:67 | filtering a concatenation filters each part |
| Sync.WriteUpsKeepsAll | scripts/sync-machines.js:67 | a listing of write-ups only is kept whole and in order |
| Sync.ReadUntilFailure | scripts/sync-machines.js:69-73 | the files read are a prefix of the write-ups, each downloaded successfully; the file after that prefix, if any, failed |
| Sync.ReadAll | scripts/sync-machines.js:69-73 | with no failed download, every write-up is read |
| Sync.ReadStopsAtFailure | scripts/sync-machines.js:96-98 | a failed download ends the folder: nothing from it on is read |
| Sync.FolderWriteUps | scripts/sync-machines.js:64-98 | a failed listing contributes nothing; every downloaded write-up belongs to the folder and is a Markdown write-up |
| Sync.DownloadedStep | scripts/sync-machines.js:69-73 | reading one more file adds its write-up at the end |
| Sync.FolderComplete | scripts/sync-machines.js:69-73 | when every download succeeds, every write-up of the listing is downloaded, in listing order |
| Sync.FolderStopsAtFailure | scripts/sync-machines.js:69-98 | when download `i` fails, exactly the write-ups before it are kept |
| Sync.Build | scripts/sync-machines.js:73-94 | a write-up's record names the write-up's folder |
| Sync.Records | scripts/sync-machines.js:69-95 | one record per downloaded write-up |
| Sync.RecordsStep | scripts/sync-machines.js:69-94 | reading one more file pushes the record built from it, after the earlier ones |
| Sync.RecordsAt | scripts/sync-machines.js:69-95 | record `i` is the one built from write-up `i` |
| Sync.FolderRecords | scripts/sync-machines.js:64-98 | a folder contributes one record per downloaded write-up, and none when its listing fails |
| Sync.FolderRecordAt | scripts/sync-machines.js:69-94 | a folder's record `i` is built from its `i`-th downloaded write-up's file name and parsed header; it names the folder; its file is a Markdown write-up |
| Sync.Collected | scripts/sync-machines.js:60-99 | when no folder can be listed, nothing is collected and the script writes an empty list |
| Sync.NothingListedUpTo | scripts/sync-machines.js:63-98 | when the first `k` folders all fail to list, the loop over them has collected nothing |
| Sync.CollectedInFolderOrder | scripts/sync-machines.js:60-63 | `allMachines` holds all of Easy's records, then Medium's, Hard's and Insane's |
| Sync.SyncFolder | scripts/sync-machines.js:64-98 | the `try` block's loop pushes exactly `FolderRecords(folder, listing)` |
| Sync.Collect | scripts/sync-machines.js:60-99 | the folder loop leaves `allMachines` equal to `Collected(listings)` |
| Sync.SortByDate | scripts/sync-machines.js:102 | sorting in place gives `SortDesc` of the records by pwned-date time |
| Sync.ByDate | scripts/sync-machines.js:102 | the sort key of a record is the time of its `pwnedDate` |
| Sync.Sync | scripts/sync-machines.js:58-102 | the result is the stable newest-first order of the collected records: a permutation of them, each record's `pwnedDate` time no earlier than those of the records after it |
| DateSort.SortDesc | scripts/sync-machines.js:102 | the sort keeps the number of records |
| DateSort.InsertNewestFirst | scripts/sync-machines.js:102 | inserting into a newest-first sequence keeps it newest first |
| DateSort.InsertPermutes | scripts/sync-machines.js:102 | inserting adds the element and loses none |
| DateSort.InsertStable | scripts/sync-machines.js:102 | the elements with the inserted element's date keep their order, and the inserted one comes after them |
| DateSort.HavingAppend | scripts/sync-machines.js:102 | the elements with a given key, taken from a concatenation, are those of each part in turn |
| DateSort.SortDescNewestFirst | scripts/sync-machines.js:102 | the sorted records are newest first |
| DateSort.SortDescPermutes | scripts/sync-machines.js:102 | the sorted records are the same records, each as often |
| DateSort.SortDescStable | scripts/sync-machines.js:102 | records with equal dates keep their collection order |
| DateSort.SortDescIsStableSort | scripts/sync-machines.js:102 | newest first, a permutation, and stable, all at once |
| DateSort.StableOrderUnique | scripts/sync-machines.js:102 | any two newest-first, stable arrangements of the same records are equal, so every stable sort gives `SortDesc` |
| DateSort.InsertLast | scripts/sync-machines.js:102 | one pass of the in-place sort inserts `a[i]` into the sorted prefix and leaves the rest of the array alone |
| DateSort.SortNewestFirst | scripts/sync-machines.js:102 | the in-place sort leaves `a` equal to `SortDesc` of its old contents |

## Left out

- Network access (`fetchFromGitHub`, lines 39-56, and `fetch(file.download_url)`, lines 71-72) is not modelled. Its outcomes are parameters: a listing or a failure for each endpoint, and the text or a failure for each file.
- The token handling (the `.env` file and `GITHUB_TOKEN`, lines 10-18 and 44-46) is left out. It only changes request headers, which the oracle makes irrelevant.
- Writing `machines.json`, the console messages and the `sync().catch` wrapper are left out. They are I/O and have no effect on the records.
- `contentRes.ok` is never checked in the source, so an error body is parsed like a write-up. In the model that is an ordinary download whose text is the body; only a rejected fetch is `FetchFailed`.
- A listing that is not an array, or an entry without a string `name`, would throw inside the `try`. The model has no such values; a failed listing stands for every way the listing step can throw.
- Sync.Sync: `new Date(pwnedDate).getTime()` is a parameter `time` from strings to integers. Date parsing is not modelled. A `NaN` time, which makes the comparator inconsistent and the order engine-defined, is not modelled either.
- JsStrings.ParseInt: numbers are unbounded integers. Precision lost above 2^53 in a double is not modelled, and a `-0` result is modelled as `0`.
- JsStrings.ToLower: only Basic Latin and Latin-1 capitals are lowered. Other scripts and special casings such as the capital sharp s are left unchanged.
- Strings are sequences of Unicode scalar values, not UTF-16 code units. Only surrogate pairs would tell the two apart.
- Machines.Record: the `matrix` scores are `Option<int>`, with `None` for `NaN`. How `JSON.stringify` writes them is not modelled.
- Sync.Collected: the model does not state in one lemma that every collected record names one of the four folders. `Sync.FolderRecordAt` and `Sync.CollectedInFolderOrder` together give it folder by folder.
- JsStrings.Trim: its own contract says only that the result is trimmed and no longer than the input. That the result is the input with its surrounding whitespace cut off is the separate lemma `JsStrings.TrimSlice`.
- JsStrings.ParseInt: its own contract does not give the value read. The value is stated by `JsStrings.ParseIntWritten` (decimal, with whitespace, sign and leading zeros) and `JsStrings.ParseIntHex` (the `0x` prefix); `JsStrings.ParseIntNeedsDigit` and `Machines.ScoreNotANumber` give `NaN`.
- Machines.Score: its own contract says only that a score is a multiple of ten or `NaN`. The value is stated by `Machines.ScoreOfWritten`, `Machines.ScoreOfHex`, `Machines.ScoreOfParsed` and `Machines.ScoreDefault`.
- JsStrings.Split: its own contract says only that there is at least one piece. What the pieces are is stated by `JsStrings.JoinSplit` and `JsStrings.SplitJoin`.
- DateSort.SortDesc: its own contract gives only the length. That it is sorted, a permutation and stable is stated by `DateSort.SortDescIsStableSort`.
- The Astro site, its content configuration and every other script of the repository are not part of this model.
