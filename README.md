# PDF Referensi Renamer — a Dafny model of the renaming core

The renamer takes a batch of uploaded PDF files. For each file it looks for a
`Referensi: <token>` marker in the text of its pages and picks a new file name.
- When a referensi is found, the name is that referensi and the status is `OK`.
- When none is found, the name is `NO-REFERENSI-` followed by the upload's name
  without its last extension, and the status is `No referensi found`.

The chosen base is sanitized to `[A-Za-z0-9-_.]`. A per-batch counter
(`name_counts`) then appends `_1`, `_2`, … to repeated bases, and the file gets
a record with its original name, new name, status and bytes.

The model has four files:

- `text.dfy`: `Wrappers.Option` (Python's `None`) and `PyText`. `PyText` holds
  `str.isspace()`, which is the `\s` class of a `str` pattern, and `strip()`.
- `referensi.dfy`, module `Referensi`: the pattern
  `Referensi\s*:\s*([^\s\)\]]+)` with IGNORECASE.
  - It is a scanner: `MatchAt` tries one position, `Search` finds the leftmost
    match.
  - Lemmas prove the scanner equal to a declarative reading of the pattern
    (`Matches`, `FirstMatch`).
  - The backtracking engine of Python's `re` has no choice to make on this
    pattern: `:` and the token characters are not whitespace, so greedy scanning
    is exact.
  - The page loop of `extract_referensi_from_bytes` is `FirstReferensi`.
    pdfplumber's view of an upload is the datatype `Document`: `Unreadable`, or
    pages each of which has text, has no text, or raises.
- `naming.dfy`, module `Naming`: the status strings, `rsplit('.', 1)[0]`
  (`Stem`), the base and status choice (`ChooseBase`) and the sanitizer
  (`Sanitize`).
- `batch.dfy`, module `Batch`: `str(n)` (`Decimal`), the name of the n-th file
  with a base (`NewName`), and the batch loop.
  - The loop is the method `RenameBatch`. Its loop variables are `results` and
    the `nameCounts` map, and its body is `RenameOne`.
  - The method is proved against the specification functions `FileChoices`,
    `SafeBases`, `CountsOf` and `ExpectedRecords`.
  - The extractor is a parameter `extract` of the loop. `Extractor(pdf)` is the
    one app.py uses, where `pdf` stands for pdfplumber.

## Model

| member | source | states |
|---|---|---|
| PyText.Strip | app.py:39 | the result of `strip()` is a slice of its input with only whitespace outside it and none at either of its own ends, and a string without whitespace at its ends is returned as it is |
| PyText.TrimsCompose | app.py:39 | dropping leading whitespace, then trailing whitespace, leaves a slice of the input with only whitespace around it |
| Referensi.SpanRun | app.py:25 | each greedy run (`\s*`, the token class) covers only characters of its class and stops at the end or at a character outside it |
| Referensi.MatchFromKeyword | app.py:25 | the case-insensitive letter-by-letter scan of `Referensi` succeeds exactly when the keyword is there, and then continues with what follows it |
| Referensi.AfterKeywordSound | app.py:25 | a capture found after the keyword is preceded by optional whitespace, a `:` and optional whitespace, consists of token characters, and is followed by the end or a non-token character |
| Referensi.AfterKeywordComplete | app.py:25 | any text after the keyword of that shape is captured by the scan, with the same capture |
| Referensi.MatchAtIsMatch | app.py:25 | at every position, the scanner captures `cap` if and only if the pattern matches there with group 1 equal to `cap` |
| Referensi.SearchIsLeftmost | app.py:37 | `search` returns `cap` if and only if `cap` is the capture at the leftmost position where the pattern matches |
| Referensi.SearchIsFirstMatch | app.py:37 | `search` returns `cap` if and only if the pattern, read declaratively, matches with capture `cap` at some position and with no capture at any earlier position |
| Referensi.SearchNone | app.py:37 | `search` finds nothing if and only if the pattern matches at no position |
| Referensi.SearchPlainLine | app.py:25 | the text `Referensi: X`, for a non-empty token X, yields X |
| Referensi.ExtractReferensi | app.py:30-43 | an unreadable document yields None, and a returned referensi is non-empty and free of whitespace, `)` and `]` |
| Referensi.FirstPageWins | app.py:35-39 | the extractor returns `cap` if and only if some page matches with capture `cap`, and every page before it was read and did not match |
| Referensi.LaterPagesIgnored | app.py:38-39 | once a page matches, pages after it do not change the result |
| Referensi.NoMatchingPage | app.py:43 | when no page matches, the result is None |
| Referensi.BrokenPageStops | app.py:40-42 | an exception on a page before any match makes the result None |
| Referensi.MissingTextIsEmpty | app.py:36 | a page whose text extraction gives None is treated exactly like a page with empty text |
| Referensi.StripOfCaptureIsIdentity | app.py:39 | the `strip()` applied to a capture never changes it |
| Naming.StatusText | app.py:50-54 | the status text is non-empty, and it is `OK` exactly for a found referensi |
| Naming.LastDot | app.py:53 | it finds the last `.` of the name, and it is None exactly when the name has no `.` |
| Naming.StemSplitsAtLastDot | app.py:53 | `rsplit('.', 1)[0]` is the whole name when there is no `.`; otherwise the name is the stem, a `.` and a dot-free extension |
| Naming.ChooseBase | app.py:48-54 | the status is Found exactly for a present, non-empty referensi, and the base is then the referensi; otherwise it is `NO-REFERENSI-` and the stem |
| Naming.FoundIffExtracted | app.py:48 | for anything the extractor returns, the truthiness test is the same as "not None" |
| Naming.FallbackKeepsName | app.py:53 | the fallback base is the prefix and the stem, and the stem gives back the upload's name up to its last extension |
| Naming.Sanitize | app.py:57 | sanitizing keeps the length |
| Naming.SanitizeAt | app.py:57 | each character is kept in place if it is in `[A-Za-z0-9-_.]` and replaced by `_` otherwise |
| Naming.SanitizeKeepsSafe | app.py:57 | a string made only of safe characters is left unchanged |
| Naming.SanitizeIdempotent | app.py:57 | sanitizing twice is sanitizing once |
| Batch.Digit | app.py:64 | a digit's character is in `0`-`9` and denotes the digit |
| Batch.DecimalRoundTrip | app.py:64 | reading back the digits of `str(n)` gives n |
| Batch.DecimalInjective | app.py:64 | distinct counts have distinct decimal forms |
| Batch.NewNameInjective | app.py:61-64 | two files with the same base get the same name if and only if their occurrence numbers are equal |
| Batch.FileChoicesAt | app.py:45-54 | the choice recorded at position i is the one made for upload i |
| Batch.SafeBasesAt | app.py:57 | base i of a run is the sanitized base of choice i |
| Batch.SafeBasesPrefix | app.py:57 | the bases of the first k files are the first k bases |
| Batch.Bump | app.py:60 | `name_counts[safe_base] += 1` adds the key if needed, raises its count by exactly one (from 0 when absent) and leaves every other count unchanged |
| Batch.CountsAreMultiplicities | app.py:60 | after a run of files, `name_counts` holds exactly the bases seen, each with the number of files that had it |
| Batch.CountsSnoc | app.py:60 | one more file bumps its base's count in the counts of the run before it |
| Batch.ExpectedRecordsAt | app.py:66-71 | record i is the record of upload i given the choices up to it |
| Batch.LoopStep | app.py:45-71 | the state after file i is the state before it, with the file's base bumped and its record appended |
| Batch.RenameOne | app.py:46-71 | one pass of the loop body bumps the count of the file's safe base and builds its record from its name, bytes and status, plus the name its new count earns |
| Batch.RenameBatch | app.py:27-71 | the loop yields one record per upload in upload order, as the specification functions describe, and leaves `name_counts` equal to the counts of the safe bases |
| Batch.RecordAt | app.py:66-71 | each record carries its upload's name, bytes and status, and the name earned by the number of files up to and including it that share its base |
| Batch.RenameBatchRecords | app.py:45-71 | the same, for the batch as the loop computes it from the extractor |
| Batch.LaterCountIsLarger | app.py:60 | a later file with the same base sees a larger count |
| Batch.SameBaseLastNames | app.py:59-64 | among a run of bases, two files with the same base get different names |
| Batch.SameBaseChoiceNames | app.py:59-64 | the same, for choices whose bases sanitize alike |
| Batch.SameBaseDistinctNames | app.py:59-64 | files of one batch whose safe bases coincide get pairwise distinct new names |
| Batch.NamesCanCollide | app.py:59-64 | names are not unique across bases: the second `b` and the first `b_1` are both named `b_1.pdf` |
| Batch.UnreadableFallsBack | app.py:40-54 | an unreadable upload whose name has no `.` falls back to the prefix and its whole name |
| Batch.SafeSuffix | app.py:57 | a safe base stays safe with `_1` appended |
| Batch.SafeFallbackBases | app.py:57 | the bases `b`, `b`, `b_1` survive sanitizing when `b` is safe |
| Batch.CollidingRecords | app.py:59-71 | in any batch whose bases are `b`, `b`, `b_1`, the second and third records are both named `b_1.pdf` |
| Batch.UnreadableChoices | app.py:45-54 | unreadable uploads named `a`, `a`, `a_1` get the fallback choices |
| Batch.FallbackNamesCollide | app.py:45-71 | unreadable uploads named `a`, `a`, `a_1` produce two records named `NO-REFERENSI-a_1.pdf` |

## Left out

- The Streamlit page: configuration, uploader, empty-batch stop, preview table and download buttons (app.py:9-22, 73-93, 102-110). They are presentation and I/O.
- The ZIP archive (app.py:96-100). It is library I/O and compression. Its entries are the records of `results`, in order, under their `newName`.
- pdfplumber (app.py:33-36). It is a foreign library and is a parameter `pdf` that maps bytes to a `Document`. An exception raised while opening the file or while reading a page is the `Unreadable` document or a `Broken` page.
- `uploaded.read()` (app.py:46): an upload is modelled as its name and its bytes.
- Python's Unicode-wide IGNORECASE: case folding is ASCII only. Characters such as `ſ` (U+017F), `ı` (U+0131) or `İ` (U+0130), which Python's case-insensitive matching accepts for the `s` and `i` of `Referensi`, do not match here.
- Python's `\s` is the fixed list of `str.isspace()` characters.
- The comment at app.py:59 promises unique names within the batch. The code only keeps names unique among files that share a safe base. `Batch.NamesCanCollide` and `Batch.FallbackNamesCollide` state what the code does.
- The comment at app.py:52 mentions a search of the filename for `(Referensi: …)`. The code does no such search, so the fallback base is always built from the name.
- No other extraction profile exists in app.py, so none is modelled.

