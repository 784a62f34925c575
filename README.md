# Manilua download pipeline, modelled in Dafny

Manilua turns a Steam app id (or a game picked from a search menu) into the
files a Lua loader needs: the depot decryption keys and the `.manifest`
files that community repositories publish on a branch named after the app
id. This project models the core of `main.py`:

- `get` (module `Fetch`): one file of one commit, asked of five mirrors in a
  fixed order, with at most three sweeps; the first answer with status 200
  wins.
- `get_manifest` (modules `Artifacts` and `KeyFile`): a `.manifest` path is
  downloaded into the save directory unless it is already there. `Key.vdf`
  and `config.vdf` are downloaded and parsed, and the `depots` section is
  turned into `(depot id, DecryptionKey)` pairs. Every other path is
  ignored.
- `download_and_process` (module `Walk`): the app id is normalised to the
  first decimal `-`-separated segment and the save directory is
  `[appid]game`. The four repositories are then tried in priority order.
  For each one the branch is queried, then `Key.vdf` (and `config.vdf` only
  when `Key.vdf` gave no depots), then every `.manifest` entry of the
  depth-1 tree. The walk ends at the first repository that yields depots.
- `parse_vdf_to_lua` (module `Loader`): the loader script. It is one
  `addappid` line for the app, then, for each depot, its key line followed
  by one `setManifestid` line per `{depot}_{id}.manifest` file in the
  directory listing.
- the selection check of `find_appid_by_name` (module `Selection`): the
  number typed at the menu, and the name a game is shown by.

The outside world is modelled as values:

- The mirrors are a `Responder` that maps a URL and a sweep number to an
  answer. A retry may therefore see a different answer.
- The hosting API is a `Branches` oracle that maps a repository and a
  branch to its head commit and tree.
- `vdf.loads` after UTF-8 decoding is a `Parser` oracle.
- The disk is a map from paths to bytes.
- Every request the program sends is recorded in a returned trace, so the
  properties can speak about which requests are sent, in what order, and
  for what.

Each loop of the source is a method with that loop. The method is proved
equal to a specification function, and the properties are lemmas about
those functions. Exceptions that escape to the caller are `Err` values of a
`Result` (`Common.Fault`).

A mirror succeeds only on status 200 (main.py:49), not on any 2xx status.
An empty body counts as no content (main.py:68, 74).

## Model

| member | source | states |
|---|---|---|
| Common.Split | main.py:85 | `str.split('-')` yields at least one piece, and no piece contains the separator |
| Common.SplitJoin | main.py:85 | splitting a join of separator-free pieces gives back the pieces |
| Common.JoinSplit | main.py:125 | joining the pieces of a split gives back the string |
| Common.StripLeft | main.py:85 | `strip` removes exactly the leading whitespace: the result is a suffix, starts with a non-space, and everything removed was whitespace |
| Common.StripRight | main.py:85 | the same for trailing whitespace |
| Fetch.MirrorUrls | main.py:36-42 | there are exactly five mirror URLs |
| Fetch.MirrorUrlsDistinct | main.py:36-42 | the five mirror URLs are pairwise distinct, and each ends with `sha/path` of the requested file |
| Fetch.Get | main.py:35-57 | the body returned and the requests sent are those of `FetchOutcome`: sweeps of the mirrors in order, stopping at the first 200 |
| Fetch.SweepShape | main.py:46-53 | one sweep asks mirrors i, i+1, … in order; every request before the last failed; it stops early only on a 200 and returns that body; a failed sweep asks every mirror |
| Fetch.SweepsOrder | main.py:43-55 | request k goes to mirror k mod 5 in sweep k div 5; at most 5 requests per remaining retry, exactly that many when nothing is fetched |
| Fetch.SweepsAnswers | main.py:45-57 | every request but the last failed; a body is returned exactly as the 200 answer of the last request; no body means every request failed |
| Fetch.FetchSchedule | main.py:35-57 | `get` sends 1 to 15 requests on the fixed schedule, all but the last failed, and it returns a body iff the last one answered 200 (with that body); without a body all 15 were sent |
| Fetch.FirstSuccessWins | main.py:45-50 | if any slot of the schedule answers 200, `get` returns the body of the first slot that does, and sends no request after it |
| KeyFile.Lookup | main.py:77-78 | a dictionary lookup finds nothing iff no entry has the key; otherwise it finds the value of the first entry with that key |
| KeyFile.ExtractDepots | main.py:76-78 | the loop over `data['depots'].items()` returns `KeyDepots`: the depots in section order, or the first fault |
| KeyFile.DepotsPointwise | main.py:77-78 | the section yields depots iff every entry yields one; then there is exactly one depot per entry, in order, with the entry's key as its id |
| KeyFile.DepotOfSpec | main.py:78 | an entry yields a depot iff it is a block whose `DecryptionKey` is a string, and the depot carries the entry's key and that string |
| KeyFile.TwoDepotExample | main.py:76-78 | a two-depot key file yields both depots with their keys, in file order |
| Artifacts.InDir | main.py:63 | `os.path.join(save_dir, path)` lies inside the save directory and keeps the `.manifest` suffix |
| Artifacts.GetManifest | main.py:59-82 | the result, the new disk and the requests are those of `ManifestStep` |
| Artifacts.InDirInjective | main.py:63 | different paths are joined to different files of the save directory |
| Artifacts.ManifestStepFetches | main.py:62-78 | a `.manifest` path not yet on disk is fetched, and its non-empty body is written to the save directory with nothing else changed; a key file is fetched and yields the depots of the downloaded text |
| Artifacts.ManifestStepEffects | main.py:59-82 | `get_manifest` never overwrites a file. It can add only this manifest, inside the save directory, with the non-empty body fetched. An existing manifest is skipped without a request. Manifests yield no depots, key files leave the disk alone, other paths do nothing. Every request is for this file at this commit |
| Walk.FirstDecimal | main.py:85 | no result iff no segment is decimal; otherwise the result is the first decimal segment |
| Walk.NormaliseAppId | main.py:85 | the app id is a decimal segment of the stripped input split at `-`, and there is none exactly when no segment is decimal |
| Walk.SaveDir | main.py:86 | the save directory starts with `[appid]` and ends with the game name |
| Walk.DecimalIsNormal | main.py:85 | a decimal app id normalises to itself |
| Walk.NormaliseIdempotent | main.py:85 | normalising a normalised app id changes nothing |
| Walk.SaveDirInjective | main.py:86 | distinct (decimal app id, game) pairs give distinct save directories |
| Walk.ReposDistinct | main.py:5 | the four repositories are distinct |
| Walk.FetchKeyFiles | main.py:100-105 | the key-file loop with its `break` computes `KeyStage` |
| Walk.FetchTreeManifests | main.py:106-108 | the tree loop computes `TreeStage` |
| Walk.ProcessCommit | main.py:99-108 | key files, then tree manifests, compute `CommitStep` |
| Walk.TryRepo | main.py:89-112 | one turn of the repository loop computes `RepoStep` |
| Walk.WalkRepos | main.py:88-115 | the repository loop computes `WalkFrom` over the four repositories |
| Walk.DownloadAndProcess | main.py:84-115 | the whole function computes `Process` |
| Walk.KeyStageSpec | main.py:101-105 | `Key.vdf` first; `config.vdf` is fetched only when `Key.vdf` gave no depots; the result is one file's depots (or fault), never the union; the disk is untouched |
| Walk.KeyStageRequests | main.py:101-105 | the key-file loop asks the mirrors only for key files of this commit, and for `config.vdf` only after `Key.vdf` gave no depots |
| Walk.TreeStageSpec | main.py:106-108 | the tree loop yields no depots and overwrites nothing. Every file it adds is a `.manifest` entry of this tree, inside the save directory, holding the non-empty body downloaded for that entry at this commit. It requests only `.manifest` entries of this tree, at this commit, that were not on disk |
| Walk.TreeStageDownloads | main.py:106-108 | the tree loop keeps every file, and every file it adds is a `.manifest` entry of this tree, joined to the save directory, holding the non-empty body the mirrors gave for that entry at this commit |
| Walk.TreeStageFetches | main.py:106-108 | every `.manifest` entry of the tree that was not on disk is fetched (all its requests are sent), and with a non-empty body it is on disk afterwards, holding that body |
| Walk.RepoStepFetches | main.py:94-108 | for an existing branch whose key files raise nothing, every missing `.manifest` of the tree is fetched and, with a non-empty body, written with that body, whether or not the repository yields depots |
| Walk.RepoStepYield | main.py:94-112 | what one repository yields is `RepoYield`: nothing without the branch, otherwise `Key.vdf`'s depots, or `config.vdf`'s when those are empty |
| Walk.RepoStepDisk | main.py:90-108 | one repository keeps every file; every file it adds is a `.manifest` entry of its branch's tree, in the save directory, holding the non-empty body downloaded for it at the head commit; without a branch only the branch query is sent and the disk is unchanged |
| Walk.RepoStepQueried | main.py:90-98 | one repository sends exactly one branch query, and sends it first |
| Walk.RepoStepLicensed | main.py:90-108 | every request for one repository concerns that repository and is licensed (branch = app id, tree at the head, mirror files only at the head, and only key files or missing tree manifests) |
| Walk.RepoTail | main.py:98-108 | the requests after the branch and tree queries are licensed mirror requests for this repository |
| Walk.WalkOrder | main.py:88-113 | repositories are queried strictly in list order, each once, starting with the first |
| Walk.WalkScope | main.py:88-113 | every request of the walk concerns a repository whose branch was queried |
| Walk.WalkSkips | main.py:88-113 | every repository queried before the last yielded nothing |
| Walk.WalkPriority | main.py:88-115 | the walk gives an empty result iff every repository was queried and yielded nothing; otherwise the result is what the last queried repository yielded |
| Walk.RunnerFacts | main.py:88-112 | the per-repository step queries its repository once, stays within it, and yields `RepoYield` |
| Walk.WalkEffects | main.py:88-115 | the walk keeps every file; every file it adds is a `.manifest` entry of the tree of a repository it queried, in the save directory, holding the non-empty body downloaded for it; it sends only licensed requests |
| Walk.WalkAdds | main.py:88-115 | the walk keeps every file, and every file it adds is a `.manifest` entry of the head tree of a repository whose branch it queried, holding the non-empty body downloaded for it |
| Walk.ProcessPriority | main.py:84-115 | repositories are queried in priority order up to the first that yields depots or raises, and no later repository is contacted. The result is that repository's yield, in `[appid]game`. An empty result means no repository yielded depots |
| Walk.ProcessEffects | main.py:84-115 | nothing is overwritten or removed; every file added is a `.manifest` entry of the tree of a queried repository, inside `[appid]game`, holding the non-empty body downloaded for it; only licensed requests are sent; an app id without a decimal segment raises before any request |
| Loader.PrefixBeforeSuffix | main.py:122-123 | in a name matching `{d}_….manifest` the prefix and the suffix do not overlap |
| Loader.ManifestId | main.py:123 | `mf[len(d)+1:-9]` is the id between `{d}_` and `.manifest` |
| Loader.ManifestIdRoundTrip | main.py:122-123 | the file `{d}_{id}.manifest` matches depot d, and slicing it gives back `id` |
| Loader.ManifestOwnerUnique | main.py:122 | for depot ids without `_`, a manifest file matches at most one depot |
| Loader.ShorterDepotDoesNotMatch | main.py:122 | depot `12` does not take the manifest `123_5.manifest`, but depot `123` does |
| Loader.LoaderScript | main.py:117-125 | the script is the `\n`-join of `ScriptLines` |
| Loader.ManifestLinesSpec | main.py:121-124 | a line is among a depot's `setManifestid` lines iff some listed file of that depot carries its id, and there are no more lines than listed files |
| Loader.ManifestLinesOne | main.py:122-124 | one listed file gives one `setManifestid` line with its id when it is a manifest of the depot, and none otherwise |
| Loader.ManifestLinesAppend | main.py:121-124 | the lines of a listing are those of its parts, in listing order; with `ManifestLinesOne`, exactly one line per matching file, in listing order |
| Loader.DepotLinesAppend | main.py:119-124 | the lines of two depot lists are the lines of each, in order |
| Loader.DepotLinesFront | main.py:119-124 | each depot's key line comes directly before its manifest lines, which come before the next depot's lines |
| Loader.ScriptShape | main.py:118-125 | the script opens with `addappid(appid)`, has at least one line per depot plus one, and holds every depot's key line |
| Loader.ScriptSplitsIntoLines | main.py:125 | when no id, key or file name holds a line break, the script splits back into exactly its lines |
| Selection.DisplayName | main.py:24 | the Chinese name when it is non-empty, otherwise the name |
| Selection.Digits | main.py:25 | the menu number is printed as a decimal string |
| Selection.DigitsRoundTrip | main.py:25-27 | reading back a printed menu number gives the number |
| Selection.ParseInt | main.py:27 | on the strings that pass `isdigit`, `int()` succeeds iff the string is decimal and has at most 4300 digits (Python 3.11 on), and then gives the decimal value (Python's `int` also takes whitespace, a sign or `_`, which never pass `isdigit`) |
| Selection.SuperscriptCrashes | main.py:27 | `'²'` passes `isdigit`, and `int` then raises; the corrected check rejects it |
| Selection.LongChoiceCrashes | main.py:27 | a decimal choice of more than 4300 digits passes `isdigit`, and `int` then raises; the corrected check rejects it |
| Selection.ChoiceAsWritten | main.py:27-28 | the check as written only ever selects an index below the count of games, and a choice failing `isdigit` is rejected without raising |
| Selection.AsWrittenAgrees | main.py:27 | the check as written raises exactly on digit strings that are not decimal or have more than 4300 digits, and otherwise agrees with the corrected check |
| Selection.ChoiceSpec | main.py:27-28 | the corrected check selects index i iff the choice is a decimal number of at most 4300 digits equal to i+1 and i is in range |
| Selection.MenuNumberSelects | main.py:23-28 | typing the number printed next to game i selects index i (for every menu number that can be printed, i.e. of at most 4300 digits) |
| Selection.SelectGame | main.py:26-31 | the corrected selection (built on `Choice`, which rejects `²` and over-long numbers where the source raises): a selection is always a listed game's app id and display name; an empty list selects nothing |
| Selection.SelectListed | main.py:23-31 | typing the number printed next to a game selects that game's app id and display name |

## Left out

- Network I/O (aiohttp sessions, `ssl=False`, async scheduling) is abstracted. The mirrors, the branch API and the tree API are deterministic oracles, so a mirror's answer depends only on its URL and the sweep number.
- The hosting-API calls of `download_and_process` cannot fail in the model. In the source a `ClientError` on the branch or tree request, an answer that is not JSON, or a `commit` without `sha`, `tree.url` or `author.date` (main.py:91-99) raises. That exception leaves `download_and_process` and ends the walk, keeping the manifests earlier repositories wrote. The `Branches` oracle always answers and `Fault` has no case for this, so that abort is not modelled.
- The branch and tree JSON decoding is not modelled. The branch oracle gives the head commit and its depth-1 tree paths directly. The commit date (main.py:97) is only logged and is left out.
- The VDF parser and UTF-8 decoding are an oracle (`Parser`); a failure of either is the fault `Undecodable`.
- Duplicate VDF keys are not modelled. `vdf.loads` merges them into a dict, so keys are unique, and `KeyFile.Lookup` takes the first entry with a key, which is the same thing on unique keys.
- KeyFile.DepotOfSpec: in `KeyFile.DepotOf`, a `DecryptionKey` whose value is a block makes the source append that dict as the key. The model reports the fault `KeyIsBlock` instead, because a depot key is a string here.
- KeyFile.ExtractDepots: a block-valued `DecryptionKey` ends the loop with the fault `KeyIsBlock`, as in the line above, where the source appends the dict and goes on.
- `os.makedirs` (main.py:87) and the real file writes are left out. The disk is a map from paths to bytes, and `os.path.exists` is membership in it.
- `os.path.join` is modelled as `dir + "/" + path` (POSIX, with a relative `path`).
- Walk.NormaliseAppId: `str.isdecimal` is modelled for the ASCII digits only. Other Unicode decimal digits are treated as non-decimal.
- Selection.ParseInt: in `Selection.IsDigitAsWritten`, `str.isdigit` is modelled for the ASCII digits plus the superscript and subscript digits 0–9 and the circled digits 1–9. Other Unicode digit characters are treated as non-digits, and `int()` of non-ASCII decimal digits is modelled as a failure. So the full-width `１` (U+FF11), which passes `isdigit` and which `int` reads as 1, selects game 1 in the source but is rejected in the model; and a digit outside the table such as `⑴`, on which the source's `int` raises, is rejected in the model without raising.
- Selection.ChoiceAsWritten: by the line above, the full-width `１` is rejected where the source selects game 1, and other digit characters outside the modelled table fail `isdigit` in the model.
- Selection.AsWrittenAgrees: by the lines above, "raises exactly" covers only the modelled digit table; a digit outside it such as `⑴` passes `isdigit` and makes `int` raise in the source, but the model rejects it without raising.
- Selection.DisplayName: a missing (`None`) `schinese_name` is modelled as the empty string, which is falsy in the same way.
- Fetch.Get: every failed mirror request is a bad status or a `ClientError`, so `get` never raises in the model. In the source an exception that is not a `ClientError`, such as the `asyncio.TimeoutError` of the session's total timeout, escapes the sweep (main.py:45-53). `get_manifest` re-raises it (main.py:79-81), and it ends `download_and_process`. The model does not capture that abort.
- `search_game_info`, the printing of the menu, `input()`, `main` (prompting, calling `parse_vdf_to_lua` and writing the `.lua` file), `stack_error` and all logging are left out.
- The app id is a string throughout. `parse_vdf_to_lua` receives it from the caller and formats it as text.
- `os.listdir(save_dir)` is a parameter (`listing`), taken in the order the operating system returns it.

## Findings

| source | as written | input that shows it | evidently intended | confidence | as-written member | corrected member |
|---|---|---|---|---|---|---|
| main.py:27 | `choice.isdigit() and 1 <= int(choice) <= len(games)` | the choice `²` (superscript two): `isdigit` is true, `int('²')` raises ValueError, and the menu crashes | reject every choice that `int` cannot read as a number, so an invalid choice ends in "No matching game found" | not executed | Selection.ChoiceAsWritten, Selection.SuperscriptCrashes | Selection.Choice, Selection.ChoiceSpec, Selection.SelectGame |
| main.py:27 | `choice.isdigit() and 1 <= int(choice) <= len(games)` | the choice of 4300 zeros followed by `1`: `isdigit` is true, and `int` raises ValueError past 4300 digits (Python 3.11 on), so the menu crashes | reject every choice that `int` cannot read as a number | not executed | Selection.ChoiceAsWritten, Selection.LongChoiceCrashes | Selection.Choice, Selection.AsWrittenAgrees |
