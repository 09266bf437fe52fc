# tar_filter in Dafny

`tar_filter.py` copies one tar archive into another. Along the way it strips
the leading directory from the name of every member it keeps, drops backup
files, counts
what it reads and what it writes, and appends a JSON summary member named
`preptar.json`. This project models the deterministic part of that program
and proves what it computes:

- `Strings`: Python's `str.find`, `str.rfind`, `str.endswith` and `s[:k]`
  slicing on `seq<char>`, plus the "everything after the first separator"
  slice that the filter uses twice.
- `TarEntry`: a member header. Its `Kind` replaces the tar type codes
  (`Regular`, `Dir`, `Sym`, `Hard`, `Chr`, `Blk`, `Fifo`, `Other`). It also
  defines the header of the synthetic `preptar.json` member.
- `Classifier`: `do_keep_tar_item`, the keep/rename rule for one header.
- `Filter`: the body of the `while` loop in `main`, written as `Step` on an
  immutable `State`. `Run` is the left fold of `Step` over the member
  sequence. The state holds:
  - the source and destination counters;
  - the set of suppressed names;
  - the hard-link and symbolic-link maps;
  - the written headers.

  Next to the fold are reference definitions computed directly from the
  member sequence: counts by category, byte sums, surviving members, and
  names satisfying a predicate. Lemmas prove that the fold agrees with them.
- `LexOrder`: the code-point order Python's `sorted` uses on strings, and a
  sort of a finite set of names into a strictly increasing sequence.
- `Summary`: the `stats_js` record built from the final state, and a whole
  conversion that ends the destination archive with the `preptar.json`
  member.
- `FileStem`: `file_stem`, both as written and as evidently intended (see
  Findings).

An extraction failure (`src.extractfile` raising inside the `try`) is an
oracle `failed: nat -> bool` indexed by the member's 0-based position in the
source. The code only opens the content of regular files, so the oracle is
consulted only for those. The length of the report's serialized text is a
parameter `reportSize: nat` of `Summary.Convert`. That text also holds the
date and elapsed-time fields, which `Report` leaves out, so the length is not
a function of the record.

## Edge cases in the code

- A hard-link target with no `/` is kept unchanged (tar_filter.py:118-119).
  `find` gives -1, so the slice starts at index 0. `Filter.Renamed` states
  this.
- The four source categories add up to at most the total member count
  (tar_filter.py:101-105). A member that is none of regular file,
  directory, link or device (kind `Other`) has no counter. The sum equals
  the total exactly when there is no such member.
  `Filter.SourceCategories` proves both halves.

## Model

| member | source | states |
|---|---|---|
| Strings.Find | tar_filter.py:58 | `str.find` of one character: -1 exactly when the character is absent; otherwise an index holding it with no earlier occurrence |
| Strings.RFind | tar_filter.py:53 | `str.rfind` of one character, which the base name is cut at: -1 exactly when absent; otherwise an index holding it with no later occurrence |
| Strings.DropThrough | tar_filter.py:118-119 | slicing from `find(c) + 1`: the string is unchanged when `c` is absent; otherwise it is a `c`-free prefix, then `c`, then the result |
| Strings.SplitAtFirst | tar_filter.py:58-61 | for `p + [c] + rest` with `c` not in `p`, `find` yields `|p|` and the slice after it is exactly `rest` |
| Strings.DropThroughOccurrences | tar_filter.py:61 | cutting through the first `c` leaves a suffix of the string with one occurrence of `c` fewer |
| Strings.SliceTo | tar_filter.py:54 | Python `s[:stop]`: a prefix of `s` whose length is `stop` clamped to `s` for `stop >= 0`, and `|s| + stop` clamped at 0 for a negative stop |
| Classifier.KeepTarItem | tar_filter.py:57-72 | a name without `/` is dropped; a kept header equals the source header except for its name; a kept name never ends in `.bak` or `.orig` |
| Classifier.KeepIff | tar_filter.py:58-69 | kept if and only if the name has a `/` and the name after the first `/` is not a backup file; the kept name is that remainder |
| Classifier.KeepRule | tar_filter.py:58-72 | for `prefix + "/" + rest` with a `/`-free prefix, only `rest` decides: it is dropped when `rest` is a backup file, otherwise kept renamed to `rest`; the folder hook never drops |
| Classifier.KeptNameSplit | tar_filter.py:58-61 | a kept name is shorter than the original, and the original is a `/`-free prefix, `/`, then the kept name |
| Classifier.NewNameSlashes | tar_filter.py:58-61 | the kept name is a suffix of the original with exactly one `/` fewer |
| Classifier.SecondPassDropsTopLevel | tar_filter.py:58-60 | the rule is not idempotent: a survivor whose original had a single `/` is dropped by a second pass |
| Classifier.SecondPassStripsAgain | tar_filter.py:58-72 | a survivor that still has a `/` is renamed again by a second pass, unless its twice-stripped name is a backup file |
| Filter.Renamed | tar_filter.py:116-119 | the written header differs from the source header only in name and link target; the name is the classifier's; a hard-link target loses its leading directory; other targets, and targets without `/`, are unchanged |
| Filter.Step | tar_filter.py:100-135 | every member adds 1 to the source count and its size to the source bytes; a dropped member is suppressed and counted as ignored, with nothing written; a kept file whose extraction fails changes only the source counters; a survivor's renamed header is appended |
| Filter.Run | tar_filter.py:100-136 | after the loop the source count is the number of members; the destination count is the number of written headers; written plus suppressed never exceed the source count |
| Filter.SourceTally | tar_filter.py:101-106 | the source counters equal direct counts over all members, kept or not, and the byte total is the sum of all sizes |
| Filter.CategoriesPartition | tar_filter.py:102-105 | files, folders, links, devices and kind-`Other` members together count every member exactly once |
| Filter.SourceCategories | tar_filter.py:101-105 | the four source categories add up to at most the total, and exactly to it when no member is of kind `Other` |
| Filter.WrittenAreSurvivors | tar_filter.py:108-135 | the written headers are exactly the kept members whose extraction did not fail, renamed, in source order |
| Filter.DestinationTally | tar_filter.py:129-134 | the destination counters equal direct counts over the written headers; only regular files add bytes |
| Filter.SuppressedAreDropped | tar_filter.py:108-112 | the suppressed set is exactly the names of dropped members, whatever the extraction outcomes; the ignored count is the number of dropped members |
| Filter.StepLinks | tar_filter.py:117-122 | one step maps a kept link's original name to its original, unrewritten target in the map of its kind, and changes no other entry |
| Filter.LinkKeys | tar_filter.py:117-122 | each link map's keys are exactly the original names of the kept links of that kind |
| Filter.LinkTargetIsLast | tar_filter.py:120-122 | for a repeated name, the map holds the target of the last kept link of that kind with that name |
| LexOrder.LessTotal | tar_filter.py:156 | the code-point order on strings relates any two distinct strings one way or the other |
| LexOrder.SortedDistinct | tar_filter.py:156 | a strictly increasing list of names holds no name twice, so the sorted paths list each suppressed name once |
| LexOrder.SortedList | tar_filter.py:156 | `sorted(list(s))` for a set: a strictly increasing sequence holding exactly the set's elements, each once, as many as the set has |
| Summary.Assemble | tar_filter.py:137-172 | the report copies both counter groups and both link maps; the suppressed count and link counts are the set and map sizes; the paths are the suppressed set in increasing order |
| Summary.Convert | tar_filter.py:100-178 | the archive is the survivors followed by exactly one `preptar.json` member of the report's size, outside the destination counters; the report's counters match the direct definitions over the input; the paths are the dropped names in increasing order, and their count is the set's size; the link maps are the loop's maps, with the kept links' original names as keys and the map sizes as counts |
| FileStem.BaseName | tar_filter.py:53 | POSIX base name: a `/`-free suffix of the path that starts right after the last `/`, or the whole path when it has none |
| FileStem.FileStem | tar_filter.py:52-54 | the code's stem is a dot-free prefix of the base name ending at its first `.`; with no `.` it is the base name minus its last character |
| FileStem.StemBeforeFirstDot | tar_filter.py:52-54 | for a base name `stem.ext` with a dot-free stem, the stem comes back (`some.tar.xz` gives `some`) |
| FileStem.StemDropsLastChar | tar_filter.py:52-54 | for a dot-free, non-empty base name the code's stem plus the last character is the base name, and it differs from the intended stem |
| FileStem.StemOfDotlessPath | tar_filter.py:52-54 | concretely, `out/archive` gets the stem `archiv` where `archive` is intended |
| FileStem.FileStemIntended | tar_filter.py:52-54 | the intended stem is a dot-free prefix of the base name that stops only at a `.` |
| FileStem.IntendedStem | tar_filter.py:52-54 | the intended stem of a dot-free base name is the whole base name; with a dot, it agrees with the code's stem |

## Left out

- Archive I/O through `tarfile`: opening, `next`, `extractfile`, `addfile`,
  `close` and buffer sizes. Members are an input sequence of headers; the
  destination is the list of written headers. File contents are not
  modelled: only their sizes are.
- Exceptions inside the `try` (tar_filter.py:115-127): only `extractfile`
  can fail there, and the failure oracle models it. The other statements
  there are string operations and dictionary stores on headers, which do
  not fail.
- Exceptions outside the `try`: the model covers only runs in which
  `src.next()` (tar_filter.py:100) and `dst.addfile(n, f)`
  (tar_filter.py:135) do not raise. When either raises, `main` ends with no
  report written. In read mode `extractfile` only builds a file object, and
  the content is read inside `addfile`. So a truncated or corrupt member
  usually ends the run there, rather than taking the per-member path that
  the oracle models.
- Member names are Dafny `string`s, which hold Unicode scalar values. The
  lone surrogates that `tarfile` produces, with `surrogateescape`, for name
  bytes it cannot decode are not representable.
- The `print` progress lines and `dump_TarInfo` (tar_filter.py:27-49): these
  are console output only. The `print` at tar_filter.py:114 is outside the
  `try`. When standard output cannot encode a member name, it raises
  `UnicodeEncodeError` and ends `main` like `next` and `addfile` do. The
  model covers only runs where it does not raise.
- Pax records written back to the destination. `Renamed` keeps
  `paxHeaders` as they are, as `copy.copy` at tar_filter.py:70 does. When
  the source named a member through a pax `path` record (a long or
  non-ASCII name), that record still holds the original full name. The pax
  writer gives such a record priority over the header's `name`, so readers
  of the destination see the unstripped name. A hard link's target behaves
  the same way through `linkpath`. The model's written headers carry the
  stripped `name`. They do not show which name a reader of the written
  archive would see.
- The `date` and `conversion.elapse_s` report fields: these are wall-clock
  values.
- JSON serialization of the report and the sibling `.json` file. The report
  is a record. The size of its encoding is a parameter.
- `src_ignored_items` is kept in the state, as in the code, but no report
  field shows it.
- The `__main__` block and `os.path.abspath`: these resolve paths against
  the real filesystem. `FileStem.BaseName` is the POSIX base name only.
- Mapping tar type codes to kinds. `Kind` is an abstract enum, and `Regular`
  stands for every type that `isfile()` accepts.
- `mtime` is an unbounded integer and every other numeric header field is a
  natural number. Header field widths and their encoding are not modelled.
  `tarfile` reads a pax `mtime` record as a float, which `mtime: int`
  cannot hold. No part of the modelled code reads `mtime`; it is only
  copied.
- Concrete end-to-end runs over literal member lists are not part of the
  model. The all-inputs lemmas above state the same facts.

## Findings

| source | as written | input that shows it | evidently intended | confidence | as-written member | corrected member |
|---|---|---|---|---|---|---|
| tar_filter.py:52-54 | `bn[:bn.find('.')]`; for a base name without `.`, `find` gives -1 and the slice drops the last character | `out/archive` gives `archiv` | the whole base name when it has no `.` (`archive`) | medium, not executed | FileStem.StemOfDotlessPath | FileStem.IntendedStem |
