# Browsing-pattern pipeline and page predictor, modelled in Dafny

The repository mines web-server access logs for navigation patterns. A
three-stage pipeline turns a raw Apache log into user sessions, and a
Streamlit app predicts the next pages of a session from association rules
mined offline (Apriori, FP-Growth, Eclat).

- `cleanningData/extract_logs.py`: reads the log line by line. It keeps
  `GET` requests, counts every matched line against an optional limit and
  drops responses with status 400 or more. It groups the remaining paths by
  host in first-seen order, merges the per-file groups, and writes every
  host with at least two paths as one comma-separated line.
- `cleanningData/clean_extracted_data.py`: normalises each path with
  `clean_path`:
  - cut the query and fragment;
  - collapse slash runs;
  - trim one trailing slash;
  - drop a last segment that contains a dot.

  It then keeps the paths that are neither empty, nor `/`, nor noise. It
  collapses consecutive repeats and writes sessions of two or more paths.
- `cleanningData/clean_usersessions.py`: the same noise policy and
  de-duplication, applied to an already-extracted session file. It strips
  fields instead of normalising them, and `clean_session` returns `None`
  for sessions that end up shorter than two paths.
- `app.py`:
  - `parse_frozenset` reads back the `frozenset({...})` text stored in the
    rule tables;
  - `get_all_paths` lists every page named by any rule, sorted;
  - `get_predictions` keeps the best-scoring applicable rule for each
    unvisited consequent page and returns the top rows by score.

## How the model is organised

| file | module | models |
|---|---|---|
| `wrappers.dfy` | `Wrappers` | `Option`, for Python's `None` and missing values |
| `text.dfy` | `Text` | `str.strip` (Python's whitespace set), `str.split` on one character, `str.join`, and their round trips |
| `path_order.dfy` | `PathOrder` | Python's code-point order on strings; `sorted(...)` of a set of paths |
| `noise.dfy` | `Noise` | `NOISE_PATHS`, `NOISE_PREFIXES` and `is_noise_path`, which both cleaning scripts declare identically |
| `consecutive.dfy` | `Consecutive` | `remove_consecutive_duplicates`, which both cleaning scripts declare identically |
| `extract_logs.py` → `extract_logs.dfy` | `ExtractLogs` | `process_log_file`, the merge and write loops of `main` |
| `clean_extracted_data.py` → `clean_extracted.dfy` | `CleanExtracted` | `clean_path`, `is_valid_path`, `main` |
| `clean_usersessions.py` → `clean_usersessions.dfy` | `CleanUserSessions` | `clean_session`, `main` |
| `app.py` → `frozenset.dfy` | `Frozenset` | `parse_frozenset` |
| `app.py` → `predictions.dfy` | `Predictions` | `get_predictions`, `get_all_paths` |

How the Python code maps onto Dafny:

- Loops that update variables are methods with loop invariants. The
  per-line loops, the merge, the consequent loop and `get_all_paths` are
  each proved equal to a specification function, and the promised
  properties are proved about that function as lemmas. Ranking is proved
  to return a permutation of the predictions with distinct pages and
  non-increasing scores.
- A Python `dict` whose iteration order matters is a `SessionMap`: a
  sequence of hosts in insertion order plus a `map`.
- The prediction `dict` is a `map`, because its order only breaks score
  ties.
- The rule-selection loop of `get_predictions` is specified by the ghost
  fold `Best`:
  - `BestAt` characterises which pages get a prediction;
  - `BestAt` also characterises which rule supplies each prediction: the
    earliest rule with the top score among the rules offering that page.

### Where the model follows the code over what one might expect

- `clean_path` is not idempotent. `/a/b.c/d.e` cleans to `/a/b.c`, and that
  cleans to `/a`, because only one file-like segment is dropped per call
  (`CleanExtracted.CleanPathNotIdempotent`).
- `/bin` is noise as an exact path, but no `/bin/` prefix exists, so
  `/bin/x` is not noise. Every other root covers its subtree
  (`Noise.BinAsymmetry`, `Noise.NoiseBelowRoot`).
- No stage truncates paths by depth or caps session length. The only
  length rule is the minimum of two paths.

## Model

| member | source | states |
|---|---|---|
| Text.TrimStart | cleanningData/clean_usersessions.py:86 | the left-stripped text is never longer and does not start with whitespace |
| Text.TrimStartSuffix | cleanningData/clean_usersessions.py:86 | the left-stripped text is a suffix of the input, and only whitespace was dropped |
| Text.TrimEnd | cleanningData/clean_usersessions.py:86 | the right-stripped text is a prefix of the input that does not end with whitespace, and only whitespace was dropped |
| Text.Strip | cleanningData/clean_usersessions.py:86 | the stripped text is never longer and neither starts nor ends with whitespace |
| Text.StripUnpadded | cleanningData/clean_extracted_data.py:51 | text with no surrounding whitespace is left unchanged by `strip` |
| Text.StripIdempotent | cleanningData/clean_usersessions.py:86 | stripping twice is stripping once, so the three `p.strip()` calls agree |
| Text.StripChars | cleanningData/clean_usersessions.py:86 | stripping introduces no character |
| Text.StripKeepsPrefix | cleanningData/clean_extracted_data.py:51-60 | a prefix with no whitespace at either end survives `strip` as a prefix |
| Text.Split | cleanningData/clean_extracted_data.py:141 | `split(',')` gives at least one field and no field contains the separator |
| Text.JoinSplit | cleanningData/clean_extracted_data.py:141 | joining the fields of a split with the separator gives back the line |
| Text.Join | cleanningData/extract_logs.py:61 | joining no parts gives the empty string; otherwise the text starts with the first part |
| Text.SplitWithoutSep | cleanningData/clean_usersessions.py:83 | a line without the separator splits into itself alone |
| Text.SplitAtSep | cleanningData/clean_usersessions.py:83 | splitting at the first separator gives the part before it and then the split of the rest |
| Text.SplitJoin | cleanningData/clean_extracted_data.py:155 | a written session whose paths contain no comma reads back as the same paths |
| PathOrder.BelowIrreflexive | app.py:288 | no string sorts before itself |
| PathOrder.BelowTransitive | app.py:288 | the code-point order on strings is transitive |
| PathOrder.BelowTotal | app.py:288 | of two different strings, one sorts before the other |
| PathOrder.BelowAsymmetric | app.py:288 | two strings never sort before each other both ways |
| PathOrder.Insert | app.py:288 | inserting a new path into a strictly sorted list keeps it strictly sorted and adds exactly that path |
| PathOrder.SortedPaths | app.py:288 | `sorted(list(s))` is strictly increasing, has one entry per member and holds exactly the members of `s` |
| PathOrder.SortedUnique | app.py:288 | two strictly sorted lists with the same members are equal, so the sorted list is determined by the set |
| PathOrder.SortPaths | app.py:288 | the insertion loop returns exactly the sorted list of the set |
| Noise.IsNoisePath | cleanningData/clean_extracted_data.py:47-62 | a noise path, once stripped, starts with `/` and has at least three characters, so neither the empty path nor `/` is noise |
| Noise.NoiseRootIsNoise | cleanningData/clean_extracted_data.py:51-55 | every exact noise root is noise |
| Noise.NoisePrefixIsNoise | cleanningData/clean_extracted_data.py:57-60 | a path whose stripped form starts with a noise prefix is noise, whatever follows |
| Noise.RootPrefix | cleanningData/clean_extracted_data.py:16-44 | every exact root except `/bin` has the prefix "root/" in the prefix list |
| Noise.NoiseBelowRoot | cleanningData/clean_extracted_data.py:47-62 | any path below a root other than `/bin`, even with leading whitespace, is noise |
| Noise.TrimStartSkipsSpaces | cleanningData/clean_extracted_data.py:51 | trimming the start removes exactly the leading whitespace before a non-space character |
| Noise.BinAsymmetry | cleanningData/clean_extracted_data.py:22-44 | `/bin` is noise but `/bin/x` is not |
| Noise.NoiseOfStripped | cleanningData/clean_usersessions.py:46-61 | noise is decided on the stripped path, so stripping first does not change the verdict |
| Consecutive.Dedup | cleanningData/clean_extracted_data.py:106-117 | the de-duplicated list is never longer and keeps the first and the last element |
| Consecutive.RemoveConsecutiveDuplicates | cleanningData/clean_extracted_data.py:106-117 | the loop returns the de-duplicated list: no two neighbours are equal and it is a subsequence of the input |
| Consecutive.DedupNoAdjacent | cleanningData/clean_extracted_data.py:113-116 | no two neighbouring entries of the result are equal |
| Consecutive.DedupSubsequence | cleanningData/clean_extracted_data.py:113-116 | the result is the input with some entries left out, in order |
| Consecutive.DedupSameElements | cleanningData/clean_usersessions.py:64-75 | an element is in the result exactly when it is in the input |
| Consecutive.DedupFixpoint | cleanningData/clean_usersessions.py:64-75 | a list without neighbouring repeats is returned unchanged |
| Consecutive.DedupIdempotent | cleanningData/clean_usersessions.py:64-75 | de-duplicating twice is de-duplicating once |
| Consecutive.DedupShort | cleanningData/clean_usersessions.py:92-96 | the result has fewer than two entries exactly when the input holds at most one distinct value |
| Consecutive.SubsequenceLength | cleanningData/clean_extracted_data.py:113-116 | a subsequence is never longer than its source |
| Consecutive.SubsequenceElements | cleanningData/clean_extracted_data.py:113-116 | every element of a subsequence is in its source |
| Consecutive.SubsequenceTransitive | cleanningData/clean_extracted_data.py:144-151 | a subsequence of a subsequence is a subsequence, which chains the filter and the de-duplication |
| CleanExtracted.BeforeFirst | cleanningData/clean_extracted_data.py:74 | `split(c)[0]` is a prefix without `c` that stops at the first `c` |
| CleanExtracted.BeforeFirstAbsent | cleanningData/clean_extracted_data.py:74 | a path without `c` is unchanged by `split(c)[0]` |
| CleanExtracted.CollapseSlashes | cleanningData/clean_extracted_data.py:77 | the result has no `//`, is never longer and starts with the same character |
| CleanExtracted.CollapseSlashesChars | cleanningData/clean_extracted_data.py:77 | collapsing slashes introduces no character |
| CleanExtracted.CollapseSlashesCollapsed | cleanningData/clean_extracted_data.py:77 | a path without `//` is unchanged by the substitution |
| CleanExtracted.CollapseDrop | cleanningData/clean_extracted_data.py:77 | dropping one slash of a double slash does not change the result, so each run of slashes becomes one slash whatever its length, and every other character is kept; with the previous row this determines the substitution |
| CleanExtracted.TrimTrailingSlash | cleanningData/clean_extracted_data.py:80-81 | the result is a prefix; with no `//` in the input, it ends in `/` only when it is `/` |
| CleanExtracted.SlashCut | cleanningData/clean_extracted_data.py:84 | the basename starts right after the last `/` and contains none |
| CleanExtracted.Basename | cleanningData/clean_extracted_data.py:84 | no contract: `os.path.basename`, the text after `SlashCut`; its properties are stated by `SlashCut` and `JoinedBasename` |
| CleanExtracted.RStripSlashes | cleanningData/clean_extracted_data.py:86 | the head is a prefix that does not end in `/`, and only slashes follow it |
| CleanExtracted.Dirname | cleanningData/clean_extracted_data.py:86 | `os.path.dirname` returns a prefix of the path |
| CleanExtracted.PrefixNoDoubleSlash | cleanningData/clean_extracted_data.py:86 | a prefix of a path without `//` has none either |
| CleanExtracted.PrefixChars | cleanningData/clean_extracted_data.py:86 | a prefix holds no character its path lacks |
| CleanExtracted.DropFileSegment | cleanningData/clean_extracted_data.py:83-90 | the file-segment step gives a prefix; with no `//` in the input, it ends in `/` only when it is `/` |
| CleanExtracted.CleanPath | cleanningData/clean_extracted_data.py:65-92 | the cleaned path has no `?` or `#` and no `//`, ends in `/` only when it is `/`, and is a prefix of the normalised input that is never longer |
| CleanExtracted.CleanPathChars | cleanningData/clean_extracted_data.py:65-92 | cleaning introduces no character |
| CleanExtracted.DirnameBelowSlash | cleanningData/clean_extracted_data.py:86 | when the last `/` is not the first character, the path is its dirname, a slash and its basename, and the dirname does not end in `/` |
| CleanExtracted.DropFileSegmentIsParent | cleanningData/clean_extracted_data.py:83-90 | a basename without a dot is kept; one with a dot is removed with its slash, leaving `""`, `/` or the parent directory |
| CleanExtracted.CleanPathDropsFileSegment | cleanningData/clean_extracted_data.py:65-92 | `clean_path` is that one step applied to the trimmed, normalised path |
| CleanExtracted.CleanPathOfNormalised | cleanningData/clean_extracted_data.py:74-81 | on a path already free of `?`, `#`, `//` and a trailing slash, `clean_path` only drops the file segment |
| CleanExtracted.JoinedNoDoubleSlash | cleanningData/clean_extracted_data.py:77 | a directory joined to a basename with one slash has no `//` |
| CleanExtracted.JoinedBasename | cleanningData/clean_extracted_data.py:84 | the basename of `d/b` starts right after `d` and its slash |
| CleanExtracted.JoinedChars | cleanningData/clean_extracted_data.py:74 | a character in neither part, other than `/`, is not in the joined path |
| CleanExtracted.DropParent | cleanningData/clean_extracted_data.py:84-90 | the file-segment step maps `d/b`, for a dotted `b`, to `d` |
| CleanExtracted.CleanPathParent | cleanningData/clean_extracted_data.py:65-92 | `clean_path` maps `d/b`, for a dotted basename `b` and a clean `d`, to the parent `d` |
| CleanExtracted.CleanFileExample | cleanningData/clean_extracted_data.py:84-90 | `/a/b.c/d.e` cleans to `/a/b.c` |
| CleanExtracted.CleanDirExample | cleanningData/clean_extracted_data.py:84-90 | `/a/b.c` cleans to `/a` |
| CleanExtracted.CleanPathNotIdempotent | cleanningData/clean_extracted_data.py:84-90 | cleaning `/a/b.c/d.e` twice differs from cleaning it once |
| CleanExtracted.IsValidPath | cleanningData/clean_extracted_data.py:95-103 | a valid path is non-empty and, when it starts with `/`, has something after the slash |
| CleanExtracted.CleanFields | cleanningData/clean_extracted_data.py:144-148 | the kept paths are never more than the fields, and each one is valid and not noise; `CleanFieldsComplete` and `CleanFieldsExactly` give the other direction |
| CleanExtracted.CleanEach | cleanningData/clean_extracted_data.py:146 | cleaning every field gives one path per field |
| CleanExtracted.CleanEachAt | cleanningData/clean_extracted_data.py:146 | entry `k` is the cleaned field `k` |
| CleanExtracted.CleanFieldsSubsequence | cleanningData/clean_extracted_data.py:144-148 | the kept paths are the cleaned fields, in order, with some left out |
| CleanExtracted.CleanFieldsKeepsLast | cleanningData/clean_extracted_data.py:146-148 | a field whose cleaned form is valid and not noise is appended after the paths kept before it |
| CleanExtracted.CleanFieldsDropsLast | cleanningData/clean_extracted_data.py:146-148 | a field whose cleaned form is invalid or noise adds nothing |
| CleanExtracted.CleanFieldsComplete | cleanningData/clean_extracted_data.py:144-148 | every cleaned field that is valid and not noise is kept |
| CleanExtracted.CleanFieldsExactly | cleanningData/clean_extracted_data.py:144-148 | a path is kept exactly when it is the cleaned form of a field and is valid and not noise |
| CleanExtracted.CleanFieldsWithout | cleanningData/clean_extracted_data.py:144-148 | a character absent from every field is absent from every kept path |
| CleanExtracted.SessionOf | cleanningData/clean_extracted_data.py:141-151 | no contract: the session built from one stripped line (split at commas, clean and filter each field, collapse repeats); its properties are stated by `SessionOfFromFields`, `SessionOfExactly` and `SessionOfWellFormed` |
| CleanExtracted.SessionOfExactly | cleanningData/clean_extracted_data.py:141-151 | a path is in a line's session exactly when it is the cleaned form of one of the line's fields and is valid and not noise |
| CleanExtracted.SessionOfFromFields | cleanningData/clean_extracted_data.py:141-151 | the session of a line is an ordered selection of its cleaned fields, and each path in it is the cleaned form of some field |
| CleanExtracted.SessionOfWellFormed | cleanningData/clean_extracted_data.py:141-154 | a session long enough to write has no neighbouring repeats, and its paths are valid, not noise and free of commas |
| CleanExtracted.CleanAll | cleanningData/clean_extracted_data.py:135-157 | the specification of `main`'s loop: it writes at most one session per line |
| CleanExtracted.Step | cleanningData/clean_extracted_data.py:135-157 | no contract: one iteration of `main`'s loop (skip a blank line, otherwise write the session and bump both counters when it has at least two paths); `CleanAllSnoc` and `CleanExtractedData` relate it to the loop |
| CleanExtracted.StepSession | cleanningData/clean_extracted_data.py:136-157 | a non-blank line writes its session and adds one session and its path count exactly when the session has at least two paths; otherwise nothing changes |
| CleanExtracted.CleanAllSnoc | cleanningData/clean_extracted_data.py:135-157 | reading one more line changes the summary by exactly one iteration of the loop |
| CleanExtracted.StepWritten | cleanningData/clean_extracted_data.py:136-155 | one line writes nothing, or appends the session of its stripped, non-blank text |
| CleanExtracted.WrittenFrom | cleanningData/clean_extracted_data.py:135-157 | every written session is the session of some non-blank input line, so each written path is `clean_path` of one of that line's fields |
| CleanExtracted.CleanAllWellFormed | cleanningData/clean_extracted_data.py:135-157 | the session counter equals the number of written sessions, and every written session is well formed and reads back from its line |
| CleanExtracted.CleanLineFields | cleanningData/clean_extracted_data.py:144-148 | the inner loop computes the kept, cleaned paths of the fields |
| CleanExtracted.CleanExtractedData | cleanningData/clean_extracted_data.py:130-157 | the loop over the lines writes exactly the specified sessions and counters, all well formed and read back unchanged |
| CleanUserSessions.StrippedSignal | cleanningData/clean_usersessions.py:86 | the first filter never returns more paths than it is given |
| CleanUserSessions.DropEmptyAndRoot | cleanningData/clean_usersessions.py:89 | the second filter never returns more paths than it is given |
| CleanUserSessions.StripEach | cleanningData/clean_usersessions.py:86 | entry `k` is field `k` stripped |
| CleanUserSessions.StrippedSignalSound | cleanningData/clean_usersessions.py:86 | the kept fields are stripped, non-empty, not noise and comma-free, and appear in order among the stripped fields |
| CleanUserSessions.StrippedSignalComplete | cleanningData/clean_usersessions.py:86 | every stripped field that is non-empty and not noise is kept |
| CleanUserSessions.DropEmptyAndRootSound | cleanningData/clean_usersessions.py:89 | the second filter keeps exactly the paths that are neither empty nor `/`, in order |
| CleanUserSessions.FilteredExactly | cleanningData/clean_usersessions.py:86-89 | after both filters, a path remains exactly when it is a stripped field that is non-empty, not `/` and not noise |
| CleanUserSessions.CleanSession | cleanningData/clean_usersessions.py:78-98 | a returned session has at least two paths |
| CleanUserSessions.CleanSessionSound | cleanningData/clean_usersessions.py:83-98 | a returned session has no neighbouring repeats, holds only meaningful paths, is an ordered selection of the stripped fields no longer than the line, and reads back from its comma-joined form |
| CleanUserSessions.CleanSessionComplete | cleanningData/clean_usersessions.py:83-92 | every surviving field of the line appears in the returned session |
| CleanUserSessions.CleanSessionNoneExactly | cleanningData/clean_usersessions.py:94-96 | `None` is returned exactly when the line has at most one distinct surviving path |
| CleanUserSessions.CleanSessionWellFormed | cleanningData/clean_usersessions.py:78-98 | a returned session is well formed |
| CleanUserSessions.CleanSessions | cleanningData/clean_usersessions.py:118-131 | the specification of `main`'s loop: it writes at most one session per counted line and counts at most one per line |
| CleanUserSessions.CleanSessionsCounts | cleanningData/clean_usersessions.py:118-131 | the cleaned count equals the number of written sessions and is at most the original count; no more paths are written than read |
| CleanUserSessions.CleanSessionsWellFormed | cleanningData/clean_usersessions.py:118-131 | every session written by `main` is well formed |
| CleanUserSessions.CleanUserSessionsMain | cleanningData/clean_usersessions.py:116-131 | the loop computes the specified output and counters, which satisfy the count bounds, and every written session is well formed |
| ExtractLogs.Extend | cleanningData/extract_logs.py:28-30 | appending paths to a host's list changes only that host's list and adds the host at the end of the order when it is new |
| ExtractLogs.SumOverSame | cleanningData/extract_logs.py:28-30 | the path total over some hosts depends only on those hosts' lists |
| ExtractLogs.SumOverGrow | cleanningData/extract_logs.py:28-30 | growing one host's list grows the total by the difference |
| ExtractLogs.ExtendTotal | cleanningData/extract_logs.py:28-30 | appending `ps` grows the total number of stored paths by the length of `ps` |
| ExtractLogs.Step | cleanningData/extract_logs.py:15-30 | a non-matching line changes nothing; a matching line bumps the count; an error status stores nothing; otherwise the path is appended to its host alone |
| ExtractLogs.Run | cleanningData/extract_logs.py:10-30 | the loop of `process_log_file` counts each line at most once and keeps the dictionary valid |
| ExtractLogs.StepBounded | cleanningData/extract_logs.py:11-30 | a step taken below the limit keeps the stored paths within the count and the count within the limit |
| ExtractLogs.RunBounded | cleanningData/extract_logs.py:10-30 | the loop with its limit check keeps the stored paths within the count and the count within the limit |
| ExtractLogs.ProcessLogFile | cleanningData/extract_logs.py:4-34 | the loop returns the specified sessions; every host has a non-empty list; with a limit, at most `limit` paths are stored |
| ExtractLogs.NewHostsMembers | cleanningData/extract_logs.py:48-50 | a host is added by the merge exactly when the file has it and the accumulated sessions do not |
| ExtractLogs.NotBefore | cleanningData/extract_logs.py:48 | in a list of distinct hosts, no host occurs before its own position |
| ExtractLogs.MergeStepLookup | cleanningData/extract_logs.py:48-51 | one merge step extends only the current host's list with the file's paths |
| ExtractLogs.NewHostsAppend | cleanningData/extract_logs.py:48-50 | merging one more host appends it to the new hosts exactly when it is not yet known |
| ExtractLogs.MergeStepHosts | cleanningData/extract_logs.py:49-50 | the host order after a step is the known hosts followed by the new hosts seen so far |
| ExtractLogs.MergeStepOrder | cleanningData/extract_logs.py:48-51 | one merge step keeps the host order equal to the known hosts followed by the file's new hosts |
| ExtractLogs.Merged | cleanningData/extract_logs.py:48-51 | no contract: the merged dictionary (unknown hosts added after the known ones in the file's order, each list the old list followed by the file's); `MergedKey`, `MergedKeys`, `MergedValue` and `MergedExactly` state its properties |
| ExtractLogs.MergedKey | cleanningData/extract_logs.py:49-50 | a host is a key after the merge exactly when it was a key before or in the file |
| ExtractLogs.MergedKeys | cleanningData/extract_logs.py:48-51 | with the merged order, the keys after the merge are those of the old dictionary and of the file |
| ExtractLogs.MergedValue | cleanningData/extract_logs.py:50-51 | a host's list after the merge is its old list followed by the file's list |
| ExtractLogs.MergedExactly | cleanningData/extract_logs.py:48-51 | a valid dictionary with the merged order and the merged lists is the merged dictionary |
| ExtractLogs.MergeSessions | cleanningData/extract_logs.py:48-51 | after the merge, every host's list is its old list followed by the file's list, and new hosts follow the known ones in the file's order: the result is the merged dictionary |
| ExtractLogs.GatheredLookup | cleanningData/extract_logs.py:43-51 | a host's list in the dictionary built from all files is its paths from every file, in file order |
| ExtractLogs.ExtractSessions | cleanningData/extract_logs.py:43-51 | the loop over the files builds the per-file dictionaries merged in file order, so hosts are in first-seen order and every host's list is its paths from all files, in file order |
| ExtractLogs.Emitted | cleanningData/extract_logs.py:59-60 | no more sessions are emitted than there are hosts |
| ExtractLogs.EmittedExactly | cleanningData/extract_logs.py:59-64 | a host's list is emitted exactly when it has at least two paths, and the emitted paths are at most the stored paths |
| ExtractLogs.EmittedReadBack | cleanningData/extract_logs.py:61 | a written line whose paths contain no comma reads back as the same paths |
| ExtractLogs.EmittedFrom | cleanningData/extract_logs.py:59-61 | each emitted session is the list of some host with at least two paths |
| ExtractLogs.WriteSessions | cleanningData/extract_logs.py:55-64 | line `k` is the `k`-th emitted session joined with commas; the counters equal the number of lines and the emitted paths, which is at most the stored paths |
| ExtractLogs.WrittenFromGathered | cleanningData/extract_logs.py:43-64 | each written line is some host's paths gathered over all files, at least two of them, joined with commas |
| ExtractLogs.ExtractMain | cleanningData/extract_logs.py:37-64 | the lines are the comma-joined lists, in first-seen host order, of exactly the hosts with at least two gathered paths; the session counter is the number of lines and the path counter the number of their paths |
| Frozenset.FindClose | app.py:227 | the search for `})` returns the first `})` from a position, with no line break before it |
| Frozenset.Group | app.py:227-228 | no contract: `match.group(1)`, the text between the bounds `Search` finds, or none when there is no match; `ParseFrozenset` states what is read from it |
| Frozenset.Search | app.py:227 | a match lies after an occurrence of `frozenset({`; its group is non-empty, has no line break and ends at the first `})` |
| Frozenset.NextQuote | app.py:230 | the scan stops at the next single quote, or at the end when there is none |
| Frozenset.OccursInSuffix | app.py:230 | text found in a suffix is found in the whole |
| Frozenset.QuotedItems | app.py:230 | each item `findall` returns is non-empty, has no quote and occurs quoted in the text |
| Frozenset.ParseFrozenset | app.py:222-232 | a missing cell or text without `frozenset({` gives the empty set; every item comes quoted from the matched group and is non-empty and quote-free |
| Frozenset.QuoteEach | app.py:230 | each item is wrapped in single quotes |
| Frozenset.QuotedItemsSkip | app.py:230 | text without a quote contributes no item |
| Frozenset.QuotedItemsItem | app.py:230 | a quoted item at the front is returned first |
| Frozenset.QuotedItemsJoin | app.py:230 | quoting items and joining them with `, ` reads back as the same items |
| Frozenset.JoinQuotedChars | app.py:230 | the joined text holds only quotes, commas, spaces and the items' own characters |
| Frozenset.FindCloseFirst | app.py:227 | the close search finds the first `})` when no `}` or line break precedes it |
| Frozenset.EncodedBody | app.py:227 | the body of an encoded set starts with a quote and holds no `}` or line break |
| Frozenset.SearchWrapped | app.py:227 | `frozenset({body})` captures exactly `body` |
| Frozenset.SearchEncoded | app.py:227 | the text of a non-empty set captures its quoted, comma-joined items |
| Frozenset.Encode | app.py:227 | the text of the empty set is `frozenset()`, and the text of any other set starts with `frozenset({` |
| Frozenset.ParseEncoded | app.py:222-232 | parsing the text form of a non-empty set of plain items gives back that set |
| Frozenset.ParseEmptySet | app.py:227-232 | `frozenset()` parses to the empty set |
| Predictions.Score | app.py:315 | for non-negative confidence, a lift of at least 1 never lowers the score below the confidence and a lift of at most 1 never raises it |
| Predictions.ScoreOrder | app.py:312-315 | a lift of 1 leaves the confidence as the score; the score grows with confidence for lift at least -9, and with lift for non-negative confidence |
| Predictions.Consider | app.py:302-326 | no contract: the effect of one rule (when it applies, its unvisited consequents are offered at its score); `ConsiderAt`, `EarliestKeep` and `EarliestNew` state its properties |
| Predictions.ConsiderAt | app.py:317-326 | after one rule, a page has a prediction when it had one or the rule offers it; it is replaced only by a strictly higher score |
| Predictions.OfferedExtend | app.py:301-310 | a page is offered by some rule of `init + [r]` exactly when it is offered by `init` or by `r` |
| Predictions.EarliestKeep | app.py:319 | a later rule that does not score strictly higher leaves the chosen rule unchanged |
| Predictions.EarliestNew | app.py:319 | a later rule that scores strictly higher than every earlier offer becomes the chosen rule |
| Predictions.Best | app.py:301-326 | the specification of the rule loop: every stored prediction's score is the score of its own confidence and lift |
| Predictions.BestAt | app.py:301-326 | a page is predicted exactly when some applicable rule offers it; its prediction comes from the earliest top-scoring such rule |
| Predictions.BestKeys | app.py:301-326 | the same for every page at once, and no predicted page is visited |
| Predictions.BestUnvisited | app.py:318 | no visited page is predicted |
| Predictions.ConsiderConsequents | app.py:317-326 | the consequent loop, in whatever order the set is iterated, gives the specified update |
| Predictions.InsertRow | app.py:343 | inserting a row gives the old rows plus that row, as a multiset |
| Predictions.InsertRowMembers | app.py:343 | the insertion adds exactly one row and loses none |
| Predictions.FirstIsBest | app.py:343 | the first row of a non-increasing list has the top score |
| Predictions.ConsNonIncreasing | app.py:343 | a row scoring at least all others can go in front |
| Predictions.ConsDistinct | app.py:343 | a row with a new page can go in front of rows with distinct pages |
| Predictions.InsertRowNonIncreasing | app.py:343 | insertion keeps the scores non-increasing |
| Predictions.InsertRowDistinct | app.py:343 | inserting a row with a new page keeps the pages distinct |
| Predictions.HeadIsTop | app.py:343 | every row left out of the first `count` scores no higher than any row kept |
| Predictions.RankByScore | app.py:331-343 | the ranking holds one row per prediction, no other rows, distinct pages and non-increasing scores |
| Predictions.HeadCount | app.py:343 | `head(n)` keeps `n` rows, or all of them when fewer; a negative `n` drops that many from the end |
| Predictions.CollectPredictions | app.py:298-326 | the rule loop, with its skip conditions and defaults, builds exactly the specified prediction map |
| Predictions.GetPredictions | app.py:293-343 | no input or rules gives no rows; otherwise the rows are the `head(top_n)` of the predictions, unvisited, with distinct pages and non-increasing scores, and no omitted prediction outscores a kept one |
| Predictions.TablePathsMembers | app.py:284-287 | a page is collected from a table exactly when some rule names it as an antecedent or a consequent |
| Predictions.AllPathsMembers | app.py:281-287 | a page is collected exactly when some present table names it |
| Predictions.PredictedAreNamed | app.py:301-326 | every predicted page is named by the table, so the app's page list contains it |
| Predictions.GetAllPaths | app.py:279-288 | the result is the sorted list, with no repeats, of exactly the pages named by the present tables |

## Left out

- File I/O, `print`, the `FileNotFoundError` handlers and the Streamlit UI
  are not modelled. Each input file is a sequence of lines, and each
  output file is a sequence of lines or of sessions.
- The log-line regular expression of `process_log_file` is a parameter
  `matcher`. It is any total function from a line to an optional
  (host, path, status) entry, so the proofs hold for every matcher,
  including the real one.
- Reading with `errors='ignore'` is not modelled. Lines are already
  character strings.
- The fixed file list and output names of each `main` are parameters or
  are left out.
- `parse_frozenset`:
  - `str()` of a non-string cell is not modelled; a cell is missing or a
    string.
  - The two regular expressions are scanners written to the same rules:
    first opener, shortest non-empty group without a line break, then
    non-empty quoted runs.
- Frozenset.ParseFrozenset: the round trip is proved only for items whose
  `repr` is the item in single quotes, with no quote, backslash, line break
  or `}`. `repr` escaping is not modelled.
- Floating point: confidence, lift, support and score are exact reals, and
  `float()` of a cell is the cell's value. NaN is not modelled; a missing
  column is `None`, and the `get` default applies.
- Predictions.GetPredictions: the order of rows with equal scores is not
  stated. `sort_values` does not promise a stable order for ties, so only
  non-increasing scores and the top-N selection are proved. The same holds
  for Predictions.RankByScore.
- Predictions.GetPredictions: the empty `DataFrame` of the early returns is
  the empty sequence.
- The `isinstance` checks on rule cells become an `ItemField` that is
  absent, a set, or anything else.
- Predictions.GetAllPaths: the three tables are a sequence of optional
  tables. The `Loaded` requirement asks that every rule of a present table
  have set-valued antecedents and consequents. The model therefore leaves
  out the `KeyError` that `get_all_paths` raises for a present, non-empty
  table without either column. The loader only parses a column that
  exists. The `st.cache_data` decorator is left out.
- Loading the rule tables with pandas (`load_precomputed_rules`) and the
  rest of `app.py` (charts, layout, statistics) are not part of this
  model.
- Python's `str.strip` is modelled with an explicit set of whitespace code
  points. There is no other Unicode processing.
- Paths that themselves contain a comma do not survive the comma-separated
  files. The read-back lemmas (ExtractLogs.EmittedReadBack, Text.SplitJoin)
  require comma-free paths, and nothing is claimed for other paths.
