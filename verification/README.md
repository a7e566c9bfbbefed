# A verified model of the noda-updater `check` pipeline

`lib/index.js` checks a Node.js-style distribution site for a newer release. It
then downloads one approved file of that release, and only if the file can be
trusted. The steps are:

1. Read the distribution index and select a version. The version must be
   approved by the caller and strictly newer than the current one. Among those,
   the newest wins, and on a tie the first.
2. Fetch the release's `SHASUMS256.txt` twice: once in cleartext, and once as
   the signed `.asc`, decrypted with the release key. Both copies must agree
   exactly.
3. Parse the manifest into `{checksum, filepath}` entries, and keep the entries
   whose file the caller approves.
4. Download the first approved file. Accept it only if the first
   white-space-delimited token of the checksum tool's output equals the
   manifest's checksum.

A small `Cleanup` guard releases the temporary directory in a `finally` block.

The project has these modules:

| file | module | contents |
|---|---|---|
| `results.dfy` | `Results` | `Option` and `Result` |
| `seqs.dfy` | `Seqs` | the order-preserving filter behind the two "push if approved" loops |
| `text.dfy` | `Text` | JavaScript's `trim`, `split('\n')`, `split(/\s+/)` and decimal rendering, on `seq<char>` |
| `cleanup.dfy` | `Cleanup` | the `Cleanup` class and sequences of calls to it |
| `versions.dfy` | `Versions` | `getVersionFromDist` and `getBestVersion` |
| `manifest.dfy` | `Manifest` | manifest parsing and `getApprovedSignatures` |
| `pipeline.dfy` | `Pipeline` | the decisions and URLs of `check`, and its `finally` block |

The network and the external programs (`gpg`, `shasum`) are not modelled.
Their results are a `Remote` parameter, with one function per source, keyed by
URL:

- the parsed index at a URL;
- the text at a URL;
- gpg's output for a key URL and a signed-file URL;
- shasum's output for a URL.

Because every input is keyed by URL, the URLs the pipeline builds matter, and
the lemmas state them.

Behaviour worth knowing, all of it modelled as `lib/index.js` has it:

- **No version qualifies.** `getVersionFromDist` returns `null`, and
  `best_version.version` (line 72) then throws a TypeError. The model reports
  this as the failure `NoApprovedVersion`, at the same point and under the
  same condition.
- **`add` after `finish`.** The action runs at once and is also queued
  (lines 30-38). `Cleanup.Add` models both.
- **`finish` on a null queue.** If `finish` runs before anything is registered,
  it sets `finished` and then throws iterating `null` (lines 45-46). In the
  `finally` block, that exception replaces the body's own result.
- **One file only.** The download loop returns inside its first iteration. So
  only the first approved file is fetched and checked (lines 111-142).
- **Blank manifest.** A blank manifest still parses to one entry, with an empty
  checksum and an `undefined` path, because `"".split(/\n/g)` is `[""]`.
- **`undefined` paths.** An entry without a path is fetched from
  `<version URL>/undefined`, the same URL as a file named "undefined".

## Model

| member | source | states |
|---|---|---|
| Cleanup.Add | lib/index.js:29-39 | Registering appends the action to the queue, creating the queue if it was `null`. The action also runs at once exactly when the guard is already finished. |
| Cleanup.Finish | lib/index.js:41-50 | A second `finish` throws "already finished" and changes nothing. A first `finish` marks the guard finished, clears the queue and runs the queued actions in order. With a `null` queue it runs nothing and throws. |
| Cleanup.RunsEachRegisteredOnce | lib/index.js:23-51 | For any sequence of `add` and `finish` calls, the guard is finished iff a `finish` occurred. If one did, the actions run are exactly the registered ones, once each, in registration order, whether they were added before or after. If none did, nothing has run and the queue holds exactly what was registered, or is `null` when nothing was. |
| Cleanup.FinishSucceedsIff | lib/index.js:41-48 | A `finish` at the end of a call sequence succeeds iff no `finish` came before and at least one action was registered. |
| Cleanup.SecondFinishFails | lib/index.js:42-44 | Finishing twice fails loudly, and the second call runs nothing again. |
| Cleanup.LateRegistrationStillRuns | lib/index.js:29-38 | `finish` on a fresh guard throws on the `null` queue, and an action registered afterwards still runs exactly once. |
| Seqs.Filter | lib/index.js:231-239 | The push-if-approved loop keeps only approved elements and never grows the list. |
| Seqs.FilterMembers | lib/index.js:231-239 | An element is kept iff it occurs in the input and is approved. |
| Seqs.FilterCount | lib/index.js:231-239 | Each approved element is kept as often as it occurs, and each unapproved one never. |
| Seqs.FilterHead | lib/index.js:231-239 | The first element kept is the first approved element of the input. |
| Seqs.FilterAppend | lib/index.js:231-239 | Filtering distributes over concatenation, so input order is preserved. |
| Seqs.FilterEmpty | lib/index.js:231-239 | Nothing is kept iff no element is approved. |
| Versions.Gt | lib/index.js:201 | `semver.gt` on release triples: newer by major, then minor, then patch. Its meaning is stated by `Versions.GtFirstDifference` and `Versions.GtStrictTotal`. |
| Versions.GtFirstDifference | lib/index.js:201 | One triple is newer than another iff they differ and, in the first field where they differ, the first triple's field is larger. |
| Versions.GtStrictTotal | lib/index.js:201 | `semver.gt` on release triples is irreflexive, asymmetric, transitive and total on distinct triples. |
| Versions.VersionText | lib/index.js:72 | A version renders as "v" followed by the text of its triple, at least six characters long. |
| Versions.VersionTextInjective | lib/index.js:72 | Two versions render alike iff they are the same version. |
| Versions.TripleTextInjective | lib/index.js:72 | A triple is recovered from its dotted decimal text. |
| Text.Decimal | lib/index.js:72 | A number renders as decimal digits with no leading zero whose value is that number. |
| Versions.Above | lib/index.js:217-221 | `semver.gt` on the version strings with their first character sliced off. Its meaning is stated by `Versions.AboveIff`. |
| Versions.AboveIff | lib/index.js:217-221 | An entry is above another iff their versions differ and the other is not newer, so an equal version never replaces the best. |
| Versions.Qualifying | lib/index.js:197-205 | The approved list is no longer than the index, and every element is an index entry that is approved and strictly newer than the current version. |
| Versions.BestFrom | lib/index.js:219-225 | The scan over the remaining entries returns an entry of the list that no entry of the list is newer than. |
| Versions.BestVersion | lib/index.js:215-228 | `getBestVersion` returns a member of the list, and no member is newer than it. |
| Versions.EarliestMaxUnique | lib/index.js:219-225 | At most one position holds the earliest newest entry. |
| Versions.NewerReplaces | lib/index.js:221-224 | When the next entry is strictly newer than the best so far, it becomes the first of the newest entries of the longer prefix. |
| Versions.OlderKept | lib/index.js:221-224 | When the next entry is not strictly newer, the best so far stays the first of the newest entries of the longer prefix. |
| Versions.BestFromEarliest | lib/index.js:219-225 | Scanning on from the earliest newest entry of a prefix ends at the earliest newest entry of the whole list. |
| Versions.BestVersionIsEarliestMax | lib/index.js:215-228 | `getBestVersion` returns the newest entry, and among equally new entries the first, since a later equal version does not replace it under `semver.gt`. |
| Versions.VersionFromDist | lib/index.js:195-213 | The result is `null` iff no index entry is both approved and strictly newer than the current version. A returned entry is in the index, approved and newer. No approved, newer entry is newer than it. |
| Versions.QualifyingIsFilter | lib/index.js:197-205 | The approved list holds exactly the approved, newer index entries, each as often as it occurs, in index order. |
| Versions.NothingNewer | lib/index.js:201-208 | An index holding only the current version yields `null`. |
| Versions.PicksNewest | lib/index.js:195-228 | Of the approved versions 1.0.0, 1.2.0 and 1.1.0, with 0.9.0 current, 1.2.0 is chosen even though it is not last. |
| Text.TrimStart | lib/index.js:100-101 | Removing leading white space gives a suffix of the input that is empty or starts with a non-white-space character, and everything removed is white space. |
| Text.TrimEnd | lib/index.js:100-101 | Removing trailing white space gives a prefix of the input that is empty or ends with a non-white-space character, and everything removed is white space. |
| Text.Trim | lib/index.js:100-101 | `trim()` never lengthens the text, and its result is empty or starts and ends with non-white-space. |
| Text.TrimEmptyIff | lib/index.js:100-101 | `trim()` gives the empty string iff the text is all white space. |
| Text.TrimNoOp | lib/index.js:100-101 | Text that already starts and ends with non-white-space is unchanged by `trim()`. |
| Text.TrimPadded | lib/index.js:100-101 | `trim()` removes exactly the white-space padding around text that starts and ends with non-white-space. |
| Text.SplitOn | lib/index.js:100 | `split('\n')` gives at least one piece, no piece contains the separator, and joining the pieces with it gives back the input. |
| Text.SplitJoin | lib/index.js:100 | Splitting pieces joined by the separator, none of which contains it, gives back those pieces. |
| Text.SplitWs | lib/index.js:101 | `split(/\s+/)` gives at least one piece, and the first is the longest white-space-free prefix of the input. |
| Text.SplitWsPieces | lib/index.js:101 | No piece contains white space. Every piece strictly between the first and the last is non-empty. The last piece is non-empty when the input does not end in white space. |
| Text.FirstToken | lib/index.js:129 | `split(/\s+/)[0]` is a white-space-free prefix of the input, ended by white space or the end of the input. |
| Text.SplitWsJoinRuns | lib/index.js:101 | Splitting non-empty, white-space-free tokens gives back the tokens when they are joined by non-empty white-space runs of any length and kind, such as two spaces or a tab. |
| Text.SplitWsAtRun | lib/index.js:101 | A white-space run of any length before a token splits off exactly one empty piece. |
| Manifest.ParseLineShape | lib/index.js:101-102 | A parsed line's checksum contains no white space, and it is empty iff the line is blank. A path, when present, comes with a non-empty checksum and is non-empty and white-space-free. |
| Manifest.ParseLine | lib/index.js:101-102 | The checksum is the longest white-space-free prefix of the trimmed line. The full shape of the result is stated by `Manifest.ParseLineShape`, `Manifest.ParseLineTokens` and `Manifest.ParseLineOneToken`. |
| Manifest.ParseLineTokens | lib/index.js:101-102 | A line of at least two tokens parses to its first token as checksum and its second as path. This holds with any white space around the line and any non-empty white-space runs between tokens; further tokens are ignored. |
| Manifest.ParseLineOneToken | lib/index.js:101-102 | A line of exactly one token, with any white space around it, parses to that token as checksum and an `undefined` path, as the destructuring leaves `filepath` unset. |
| Manifest.Lines | lib/index.js:100 | The lines of a manifest are at least one, contain no newline, and join back to the trimmed body. |
| Manifest.ParseManifest | lib/index.js:100-103 | There is one entry per line of the trimmed body, and entry `i` is line `i` parsed on its own. |
| Manifest.ParseBlankManifest | lib/index.js:100-103 | A blank manifest yields exactly one entry, with an empty checksum and no path. |
| Manifest.WellFormedLine | lib/index.js:101-102 | The text of a well-formed entry has no newline and parses back to the entry. |
| Manifest.ManifestTextTrimmed | lib/index.js:100 | Trimming a manifest of well-formed entries with trailing white space removes exactly that white space. |
| Manifest.ParseManifestText | lib/index.js:100-103 | Parsing the text of a non-empty list of well-formed entries, followed by any trailing white space, gives back exactly those entries, in order. |
| Manifest.ApprovedSignatures | lib/index.js:230-240 | `getApprovedSignatures` keeps an entry iff it is in the manifest and its path is approved. The result is empty iff no path is approved. |
| Manifest.ApprovedSignaturesSpec | lib/index.js:230-240 | Each approved entry is kept as often as it occurs. The first entry kept is the manifest's first approved entry. Manifest order is preserved across any split. |
| Manifest.FirstApprovedExists | lib/index.js:232-237 | Some entry is approved iff there is a first approved entry. |
| Pipeline.IndexUrl | lib/index.js:196 | The index URL is never the directory URL of any version. |
| Pipeline.VersionUrl | lib/index.js:72 | A version's URL is the distribution URL, a slash, then the version's text: "v" and its dotted triple. |
| Pipeline.VersionUrlInjective | lib/index.js:72 | Two versions share a directory URL iff they are the same version. |
| Pipeline.KeyUrl | lib/index.js:78 | The release key's URL is the cleartext manifest's URL with ".gpg" appended. |
| Pipeline.CleartextUrl | lib/index.js:82 | The cleartext manifest is fetched as the file `SHASUMS256.txt` of the version directory. |
| Pipeline.SignedUrl | lib/index.js:91 | The signed manifest's URL is the cleartext manifest's URL with ".asc" appended, and never the release key's URL. |
| Pipeline.FileUrl | lib/index.js:112 | A file's URL starts with the version URL and a slash. |
| Pipeline.ManifestUrlsDistinct | lib/index.js:78-91 | The key, the cleartext manifest and the signed manifest are fetched from three different URLs. |
| Pipeline.FileUrlInjective | lib/index.js:112 | Two entries are fetched from the same URL iff their paths render alike; an `undefined` path shares its URL with a file named "undefined". |
| Pipeline.Check | lib/index.js:62-142 | Success names the fetched URL, and the checksum tool's first token for it equals the returned checksum. A checksum mismatch names the fetched URL. A file is fetched only on success or on a checksum mismatch. |
| Pipeline.Verify | lib/index.js:72-108 | After a version is selected, the pipeline never reports that no version qualified. Success and checksum mismatch obey the same fetch facts as `Check`. |
| Pipeline.Fetch | lib/index.js:105-142 | The pipeline fails for want of an approved file iff the approved list is empty. The loop never reports a version or signature failure. |
| Pipeline.FetchFirst | lib/index.js:111-142 | With approved files, only the first is fetched, from the version URL followed by its path. The result is a success or a checksum mismatch naming that URL, according to the checksum tool's first token. |
| Pipeline.SelectionIff | lib/index.js:62-72 | A version is selected iff it is the first of the newest approved, newer index entries. |
| Pipeline.CheckSelects | lib/index.js:62-92 | Once a version is selected, the rest of the pipeline works on that version's URLs. |
| Pipeline.VerifyAccepts | lib/index.js:94-105 | When the decrypted manifest equals the cleartext one, the pipeline goes on to fetch from its approved entries. |
| Pipeline.CheckSucceedsIff | lib/index.js:62-142 | `check` succeeds with a download iff all of the following hold: the first of the newest approved versions has a decrypted manifest equal to its cleartext copy; the download names that manifest's first approved entry, at the distribution URL plus version plus path; and the checksum tool's first token for that URL equals the entry's checksum. |
| Pipeline.CheckSuccessVerified | lib/index.js:62-142 | A success meets every condition above. |
| Pipeline.VerifiedCheckSucceeds | lib/index.js:62-142 | When every condition above holds, the pipeline succeeds with that download. |
| Pipeline.CheckNoVersionIff | lib/index.js:62-72 | No version is found iff no index entry is both approved and strictly newer than the current version. |
| Pipeline.CheckSignatureMismatchIff | lib/index.js:84-96 | The pipeline stops with a signature mismatch iff the selected version's decrypted manifest differs from its cleartext copy, and it then fetches no file. |
| Pipeline.CheckNoFileIff | lib/index.js:100-108 | The pipeline stops for want of an approved file iff the selected version's manifest is verified but the caller approves none of its entries. |
| Pipeline.NoFileSound | lib/index.js:100-108 | A failure for want of an approved file means the selected version's manifest was verified and no entry was approved. |
| Pipeline.NoneApprovedNoFile | lib/index.js:100-108 | When the selected version's manifest is verified and no entry is approved, the pipeline fails for want of an approved file. |
| Pipeline.CheckChecksumMismatchIff | lib/index.js:110-131 | The pipeline reports a checksum mismatch on a URL iff that URL is where the first approved entry of the verified manifest is fetched from and the checksum tool disagrees with the entry. |
| Pipeline.CheckMismatchSound | lib/index.js:110-131 | A checksum mismatch on a URL implies the conditions above. |
| Pipeline.MismatchedCheckFails | lib/index.js:110-131 | The conditions above imply a checksum mismatch on that URL. |
| Pipeline.SelectedWhenPast | lib/index.js:62-72 | When the pipeline gets past version resolution, some version is selected and the rest runs on it. |
| Pipeline.FirstApprovedOf | lib/index.js:230-240 | A non-empty approved list starts with the manifest's first approved entry. |
| Pipeline.OnlyFetchedFileMatters | lib/index.js:111-142 | The outcome depends on the checksum tool's output only for the one URL fetched. Later approved files are never checked. |
| Pipeline.Guarded | lib/index.js:144-146 | `finally` always finishes the guard. If the guard finishes cleanly, the body's outcome is passed through and the queued actions run. If `finish` throws (already finished, or a `null` queue), its exception replaces the outcome. |
| Pipeline.CheckReleasesWorkDir | lib/index.js:59-68 | Once the temporary directory's disposer is registered, every run of `check` runs it exactly once and reports the body's own outcome. |
| Pipeline.EarlyFailureMasked | lib/index.js:59-68 | If the body ends before the temporary directory's callback registers anything, the caller sees `finish`'s TypeError on the `null` queue, and the disposer registered later still runs. |

## Left out

- HTTP, file streams, `tmp.dir` and `path.join` are left out. These are I/O; their results are the `Remote` parameter, and the temporary paths are not modelled.
- The `gpg` and `shasum` subprocesses and `waitOnChild` are left out. These are foreign programs; their outputs are functions of the URLs they read, and a non-zero exit code is not modelled.
- The fan-out of `generator-runner` is left out. `yield {a, b}` runs its members concurrently; the model treats the joined results as available together.
- The returned `stream` is left out. It is I/O; the model returns `from` and `checksum`.
- Stream errors and failed downloads are left out. They are transport failures, outside the pipeline's own decisions.
- `JSON.parse` of the index is left out. It is a foreign call; the index arrives as a list of entries.
- The version grammar is simplified. A version is "v" followed by a `major.minor.patch` triple, and `semver.gt` is the lexicographic order on triples. Node.js and io.js index entries always have that form. Other first characters are left out: a digit would be read back as part of the major version, and any other non-white-space character makes `semver.gt` throw, since it trims its input before parsing. Prerelease and build tags are also left out.
- Approval callbacks are pure functions here. The source lets them suspend; that is scheduling, not a decision.
- `add` and `finish` are not reentrant here, and actions never throw. The model records which actions run, not what they do.
- Text.Trim: its own contract states only the shape of the result. Removing exactly the surrounding white space is stated by `Text.TrimPadded` and `Text.TrimEmptyIff`, not by an existential in the contract.
