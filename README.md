# Katello CLI repository commands: the in-memory logic

This project models, in Dafny, the logic of the Katello command-line client's
repository commands (`cli/src/katello/client/core/repo.py`) that runs on the
client itself rather than on the server:

- **Repository discovery** (`repo discover`): the `Selection` list that
  collects the chosen urls without duplicates (`Selection.add_selection`),
  the interactive prompt that builds it from the user's answers
  (`Discovery.select_repositories`: `h` help, `a` all, `n` one url, `lo:hi` a
  range, `c` clear, `q` abort, `y` confirm), and the naming of the
  repositories created for the chosen urls (`Discovery.repository_name`).
- **Group-id parameters** (`RepoAction.get_groupid_param`): reading a value
  such as the environment out of ids of the form `<param>:<value>`.
- **Filter lists** (`AddRemoveFilter.update_filters`): appending a filter
  name or removing its first occurrence.
- **Sync display** (`format_sync_time`, `format_sync_state` and the
  `SYNC_STATES` table).

Files and modules:

| file | module | models |
|---|---|---|
| `wrappers.dfy` | `Wrappers` | `Option`, for `None` results and lookup errors |
| `sequences.dfy` | `Sequences` | the position of an element's first occurrence, as `list.index` and `list.remove` find it |
| `text.dfy` | `Text` | the Python 2 string operations used: `strip`, `lower`, `split`, `find`, `replace`, `str(n)`, `int(s)` |
| `sync_format.dfy` | `SyncFormat` | `SYNC_STATES`, `format_sync_time`, `format_sync_state` |
| `repo_action.dfy` | `RepoAction` | `get_groupid_param` |
| `selection.dfy` | `Selections` | the `Selection` class and what `add_selection` makes of the list |
| `discovery.dfy` | `Discovery` | `repository_name`, the prompt as a state machine (`Classify`, `Apply`, `StepOn`, `Run`) and `select_repositories` as an imperative loop proved against it |
| `filters.dfy` | `Filters` | the filter list, `list.append`/`list.remove`, `update_filters` |

The prompt reads its answers through an input function that is a parameter
of `select_repositories`; here the answers are a sequence given in advance,
and the result says how the prompt ended (`Selected(urls)`, `Aborted` for
`q`, `InputExhausted` when the answers run out, `Malformed` for a range with
more than one `:`) and how many answers it read. `SelectRepositories` is the
loop written as the source writes it, over a `Selection` object changed in
place; its postcondition ties it to the functional `Run`, about which the
lemmas are proved.

Notes on how the code behaves, followed here:

- The loop guard `proceed.strip().lower() not in ['q', 'y']` never ends the loop by itself:
  `q` leaves through `system_exit`, and `y` either breaks out (selection not
  empty) or resets `proceed` to `''`. The model therefore loops until an
  answer stops it or the answers run out (the `EOFError` that `raw_input`
  raises at end of input).
- A range answer is accepted when every `:`-separated piece is one of the
  numerals `"1"`..`"n"`; with more than one `:` the unpacking into
  `lower, upper` raises ValueError, modelled as `Malformed`. A range with
  `lo > hi` selects nothing, as Python's slice does.
- `get_groupid_param` accepts the key `<param>:` anywhere in an id but always
  cuts the value at the key's length, so `"xenv:Library"` answers `"env"`
  with `":Library"` (`RepoAction.MidStringMatch`); this is modelled as
  written.
- One pass of the loop body is split into its tests and its actions: the
  `if`/`elif` tests on the normalised answer become `Classify`, which names
  the branch taken (a `Command`), and the actions become `Apply` (on values)
  and `Perform` (on the `Selection` object). No test reads what an action
  changes, so deciding the branch first and acting after is the same as the
  source's interleaving.
- `raw_input` in Python 2 returns byte strings, whose `strip()` and `lower()`
  act on ASCII only; the model does the same.

## Model

| member | source | states |
|---|---|---|
| `Selections.AddAll` | cli/src/katello/client/core/repo.py:268-272 | `add_selection(urls)` never shortens the list and adds at most one entry per url |
| `Selections.AddAllSpec` | cli/src/katello/client/core/repo.py:268-272 | after `add_selection(urls)` the old list is an unchanged prefix, a url is in the list iff it was before or is in `urls`, and a list without duplicates stays without duplicates |
| `Selections.AddAllOrder` | cli/src/katello/client/core/repo.py:268-272 | the urls `add_selection(urls)` appends are new ones from `urls`, in the order of their first occurrence in `urls` |
| `Selections.AddAllPresent` | cli/src/katello/client/core/repo.py:270-272 | urls that are all in the list already leave it unchanged |
| `Selections.AddAllIdempotent` | cli/src/katello/client/core/repo.py:269-272 | calling `add_selection` twice with the same urls gives the same list as calling it once |
| `Selections.AddAllFresh` | cli/src/katello/client/core/repo.py:269-272 | distinct urls none of which is in the list are appended as they are, in their order |
| `Selections.Selection.constructor` | cli/src/katello/client/core/repo.py:205 | a new `Selection` is empty |
| `Selections.Selection.AddSelection` | cli/src/katello/client/core/repo.py:268-272 | the loop appends each absent url in place, leaving the list equal to `AddAll` of the old list and the urls |
| `Discovery.RepositoryName` | cli/src/katello/client/core/repo.py:255-257 | the name is the prefix followed by the path with every '/' made '_' and every other character kept in place, so its length is the sum and no '/' follows the prefix |
| `Discovery.RepositoryNameRecoversPath` | cli/src/katello/client/core/repo.py:255-257 | for a path without '_', turning '_' back into '/' after the prefix recovers the path |
| `Discovery.NumSelects` | cli/src/katello/client/core/repo.py:208 | `num_selects` holds one numeral per discovered url |
| `Discovery.NumSelectsAt` | cli/src/katello/client/core/repo.py:208 | entry `i` of `num_selects` is the numeral of `i + 1` |
| `Discovery.NotANumeral` | cli/src/katello/client/core/repo.py:208 | an answer with a character other than a digit is not in `num_selects` |
| `Discovery.NumSelectsIndex` | cli/src/katello/client/core/repo.py:220-221 | an answer found in `num_selects` is the numeral of an index in 1..n, so `repourls[int(answer)-1]` exists |
| `Discovery.NumeralInNumSelects` | cli/src/katello/client/core/repo.py:208 | the numeral of every index 1..n is in `num_selects` |
| `Discovery.Slice` | cli/src/katello/client/core/repo.py:227 | `repourls[lo-1:hi]` has `hi-lo+1` urls, and none when `lo > hi` |
| `Discovery.Classify` | cli/src/katello/client/core/repo.py:216-237 | every index the chosen branch uses (one url, or both ends of a range) names a discovered url, so `repourls[int(v)-1]` and the slice are defined |
| `Discovery.Apply` | cli/src/katello/client/core/repo.py:216-237 | the prompt stops exactly on `q`, on a malformed range and on `y` with a non-empty selection; a confirmation returns the selection as it is |
| `Discovery.StepOn` | cli/src/katello/client/core/repo.py:215-237 | one answer never ends the prompt for want of input; it returns the selection only when the answer normalises to `y` and the selection is non-empty, and aborts only when it normalises to `q` |
| `Discovery.ClassifyMeans` | cli/src/katello/client/core/repo.py:222-237 | only `q` is taken as abort, only `y` as confirm, only `c` as clear, and an answer is a malformed range iff all its ':'-separated pieces are numerals in `num_selects` and there are more than two of them |
| `Discovery.ClassifyIndex` | cli/src/katello/client/core/repo.py:208-221 | the numeral of `k` in 1..n is taken as the `k`-th url |
| `Discovery.ClassifyRange` | cli/src/katello/client/core/repo.py:208-227 | two numerals in 1..n joined by ':' are taken as the range between them |
| `Discovery.LetterIsNoNumeral` | cli/src/katello/client/core/repo.py:220-227 | a single non-digit character other than ':' is neither a numeral nor a range |
| `Discovery.Run` | cli/src/katello/client/core/repo.py:210-237 | the prompt reads at most the answers given; it ends for want of input only after reading them all, and otherwise after reading at least one |
| `Discovery.AddKeepsValid` | cli/src/katello/client/core/repo.py:218-227 | adding discovered urls to a duplicate-free selection of discovered urls keeps it so, with the old selection as its prefix |
| `Discovery.ApplyKeepsValid` | cli/src/katello/client/core/repo.py:216-237 | every branch keeps the selection valid and only extends it unless it clears it; it stops with the selection only on a confirmation of a non-empty one, aborts only on `q` and fails only on a malformed range |
| `Discovery.StepKeepsValid` | cli/src/katello/client/core/repo.py:215-237 | every answer keeps the selection duplicate-free and within the discovered urls; it empties the selection only on `c` and otherwise keeps the old selection as a prefix; it stops only on `y` with urls selected, on `q`, or on an answer whose ':'-separated pieces are more than two numerals in `num_selects` |
| `Discovery.AnswerHelp` | cli/src/katello/client/core/repo.py:216-217 | `h` leaves the selection unchanged and the prompt running |
| `Discovery.AnswerAll` | cli/src/katello/client/core/repo.py:218-219 | `a` adds every discovered url |
| `Discovery.AnswerIndex` | cli/src/katello/client/core/repo.py:220-221 | the numeral of `k` in 1..n adds the `k`-th url |
| `Discovery.AnswerQuit` | cli/src/katello/client/core/repo.py:222-224 | `q` aborts the prompt |
| `Discovery.AnswerRange` | cli/src/katello/client/core/repo.py:225-227 | `lo:hi` with both in 1..n adds urls `lo`..`hi`, and nothing when `lo > hi` |
| `Discovery.ClassifyMalformed` | cli/src/katello/client/core/repo.py:225-226 | three numerals in 1..n joined by ':' pass the subset test and so are taken as a malformed range |
| `Discovery.AnswerMalformed` | cli/src/katello/client/core/repo.py:225-226 | three numerals in 1..n joined by ':' make the unpacking into `lower, upper` fail: the prompt stops with that answer as malformed |
| `Discovery.AnswerClear` | cli/src/katello/client/core/repo.py:228-229 | `c` empties the selection |
| `Discovery.AnswerConfirm` | cli/src/katello/client/core/repo.py:230-235 | `y` returns a non-empty selection and is ignored on an empty one |
| `Discovery.AnswerOther` | cli/src/katello/client/core/repo.py:236-237 | an answer that is no command, no numeral in `num_selects` and no range of them leaves the selection unchanged and the prompt running |
| `Discovery.ConfirmOnEmptyIsSkipped` | cli/src/katello/client/core/repo.py:230-233 | a `y` on an empty selection is read and skipped: the prompt continues exactly as without it |
| `Discovery.RunOutcome` | cli/src/katello/client/core/repo.py:210-237 | from a valid selection, the prompt returns a non-empty, duplicate-free selection of discovered urls only on a `y`, aborts only on a `q`, and fails only on a range with more than one ':' |
| `Discovery.InteractiveSelection` | cli/src/katello/client/core/repo.py:204-237 | in interactive mode a returned selection follows a `y`, is non-empty, has no duplicates and holds discovered urls only; an abort follows a `q` |
| `Discovery.AssumeYes` | cli/src/katello/client/core/repo.py:238-243 | with `assumeyes` every discovered url is selected and nothing else, without duplicates, in the order of first occurrence in `repourls` (exactly `repourls` when it has no duplicates) |
| `Discovery.EndsWellShift` | cli/src/katello/client/core/repo.py:210-237 | a good ending for the answers after the first stays good once the first answer is counted |
| `Discovery.EndsWellStop` | cli/src/katello/client/core/repo.py:222-237 | an answer that stops the prompt from a valid selection ends it well |
| `Discovery.Perform` | cli/src/katello/client/core/repo.py:216-237 | the actions of the loop body change the `Selection` in place (or replace it on `c`) exactly as `Apply` says, and report the outcome when the prompt stops |
| `Discovery.HandleAnswer` | cli/src/katello/client/core/repo.py:215-237 | one pass of the loop body on an answer leaves the selection that `StepOn` gives, or stops with its outcome |
| `Discovery.RunFrom` | cli/src/katello/client/core/repo.py:210-237 | the prompt over the answers from `read` on is one step on `answers[read]` followed, unless it stops, by the prompt from `read + 1` |
| `Discovery.SelectRepositories` | cli/src/katello/client/core/repo.py:204-243 | with `assumeyes` no answer is read and every url is selected via `add_selection`; otherwise the imperative loop over a `Selection` object returns the outcome and answer count that `Run` gives from an empty selection |
| `RepoAction.GetGroupIdParam` | cli/src/katello/client/core/repo.py:63-68 | `None` iff no group id contains `param + ":"`; otherwise the value after the key in the first id that contains it |
| `RepoAction.FirstWithKey` | cli/src/katello/client/core/repo.py:65-68 | `None` iff no group id contains the key; otherwise the first id containing it, with its first `len(key)` characters dropped |
| `RepoAction.GroupIdParamRoundTrip` | cli/src/katello/client/core/repo.py:63-67 | an id `param:value` at the head of the list yields exactly `value` |
| `RepoAction.GroupIdParamFirstWins` | cli/src/katello/client/core/repo.py:65-67 | the first matching id wins: ids after it never change the answer |
| `RepoAction.FirstWins` | cli/src/katello/client/core/repo.py:65-67 | the search returns at the first id containing the key, whatever follows |
| `RepoAction.MidStringMatch` | cli/src/katello/client/core/repo.py:66-67 | a key found in mid-id still cuts at the key's length: `"xenv:Library"` answers `"env"` with `":Library"` |
| `Filters.RemoveFirst` | cli/src/katello/client/core/repo.py:542 | `list.remove` succeeds iff the name is present, and then shortens the list by one |
| `Sequences.IndexOf` | cli/src/katello/client/core/repo.py:542 | the position of the first occurrence: the name is there and not before it |
| `Sequences.IndexOfTail` | cli/src/katello/client/core/repo.py:542 | past a head that differs, the first occurrence is one further on than in the tail |
| `Filters.RemoveFirstAt` | cli/src/katello/client/core/repo.py:542 | removal drops exactly the first occurrence and keeps everything else in order |
| `Filters.RemoveFirstMultiset` | cli/src/katello/client/core/repo.py:542 | removal takes away one copy of the name and nothing else |
| `Filters.AppendThenRemove` | cli/src/katello/client/core/repo.py:537-543 | adding a filter the list lacked and then removing it restores the list |
| `Filters.NameList.constructor` | cli/src/katello/client/core/repo.py:533 | the list holds the given filter names |
| `Filters.NameList.Append` | cli/src/katello/client/core/repo.py:539 | `append` adds the name at the end, leaving the rest unchanged |
| `Filters.NameList.Remove` | cli/src/katello/client/core/repo.py:542 | `remove` fails, leaving the list unchanged, iff the name is absent; otherwise the list loses its first occurrence |
| `Filters.AddRemoveFilter.constructor` | cli/src/katello/client/core/repo.py:512-514 | the command remembers whether it adds or removes |
| `Filters.AddRemoveFilter.UpdateFilters` | cli/src/katello/client/core/repo.py:537-543 | on addition the name is appended; on removal the first occurrence goes, and an absent name is an error that leaves the list unchanged |
| `SyncFormat.FormatSyncTime` | cli/src/katello/client/core/repo.py:45-49 | a missing sync time shows as "never"; any other is passed to the date formatter |
| `SyncFormat.FormatSyncState` | cli/src/katello/client/core/repo.py:35-52 | exactly the eight listed states have a label (any other raises KeyError, `None`); "cancelled" and "canceled" both show as "Canceled", and each other state shows its listed label |
| `SyncFormat.CancelledSpellings` | cli/src/katello/client/core/repo.py:35-42 | "cancelled" and "canceled" both show as "Canceled", and no other two states share a label |
| `Text.Split` | cli/src/katello/client/core/repo.py:225 | `split(':')` yields at least one piece |
| `Text.SplitPiecesFree` | cli/src/katello/client/core/repo.py:225 | no piece of `split(c)` contains `c` |
| `Text.JoinSplit` | cli/src/katello/client/core/repo.py:225 | joining the pieces of `split(c)` with `c` gives back the answer |
| `Text.SplitPair` | cli/src/katello/client/core/repo.py:225-226 | `"lo:hi".split(':')` is `[lo, hi]` when neither part has a ':' |
| `Text.SplitPrefix` | cli/src/katello/client/core/repo.py:225 | a piece without the separator followed by it splits off as the first piece |
| `Text.SplitTriple` | cli/src/katello/client/core/repo.py:225-226 | `"a:b:c".split(':')` is `[a, b, c]` when no part has a ':', so it has three pieces |
| `Text.SplitWithoutSeparator` | cli/src/katello/client/core/repo.py:225 | an answer without ':' splits into itself alone |
| `Text.SplitSingle` | cli/src/katello/client/core/repo.py:225 | a single piece is the whole answer |
| `Text.Find` | cli/src/katello/client/core/repo.py:66 | `find` returns the lowest index at which the key occurs, or -1 iff it occurs nowhere |
| `Text.ReplaceChar` | cli/src/katello/client/core/repo.py:257 | `replace('/', '_')` keeps the length and changes exactly the '/' characters |
| `Text.StripLeft` | cli/src/katello/client/core/repo.py:215 | leading whitespace is removed and only whitespace |
| `Text.Lower` | cli/src/katello/client/core/repo.py:215 | `lower()` keeps the length and lowers each character on its own |
| `Text.StripRight` | cli/src/katello/client/core/repo.py:215 | trailing whitespace is removed and only whitespace |
| `Text.Strip` | cli/src/katello/client/core/repo.py:215 | `strip()` returns the slice of the answer that is left once whitespace, and only whitespace, is cut from both ends: no whitespace remains at either end, and an answer without whitespace at its ends is unchanged |
| `Text.LowerIdempotent` | cli/src/katello/client/core/repo.py:215 | lowering twice is lowering once |
| `Text.Normalize` | cli/src/katello/client/core/repo.py:215 | `strip().lower()` is the stripped answer with each character lowered: as long as `strip()`'s result, never longer than the answer, no whitespace at either end |
| `Text.NormalizeIdempotent` | cli/src/katello/client/core/repo.py:215 | normalising twice is normalising once |
| `Text.NatToString` | cli/src/katello/client/core/repo.py:208 | `str(i+1)` is a non-empty numeral of decimal digits without a leading zero |
| `Text.ParseNatToString` | cli/src/katello/client/core/repo.py:221 | `int(str(n)) == n`, so the index read back from a numeral is the one it names |
| `Text.ParseNat` | cli/src/katello/client/core/repo.py:221 | `int(s)` of `k` decimal digits is below `10^k` |

## Left out

- Every call to the server (`RepoAPI`, `get_repo`, `get_product`, `get_environment`, `get_filter`, repository discovery, creation, sync, deletion, enabling, filter updates): network I/O.
- Option parsing and option checks (`setup_parser`, `check_options`): they only configure the command-line framework.
- Printing, `__print_urls`, the help text, the printer columns, `system_exit` and translation with `_()`: output only. The `SYNC_STATES` labels are the untranslated English strings.
- `Discovery.run`, `discover_repositories` and `create_repositories`: calls to the server and output. The classmethod `repository_name` that `create_repositories` calls for each url is modelled. The url path that `repository_name` receives comes from `urlparse`, which is not part of this model, and is taken as an input.
- `format_date` is not part of this model: `FormatSyncTime` takes the date formatter as a parameter.
- `Status.run`'s progress percentage (floating point), `Sync`, `CancelSync`, `Info`, `List`, `Update`, `Delete`, `Enable` and `ListFilters`: calls to the server, asynchronous polling and terminal output.
- distribution.py: only calls to the server, output and option checks.
- Discovery.SelectRepositories: on `q` the source resets the selection and then exits the process; the model returns `Aborted` and does not model the reset, which nothing can observe.
- Discovery.SelectRepositories: the answers are read from a sequence given in advance instead of the injected input function; the prompt text and the printing between answers are not modelled.
- Text.Normalize: `strip()` and `lower()` act on ASCII only, as Python 2 byte strings do; Unicode answers are not modelled.
- RepoAction.GetGroupIdParam: takes the repository's list of group ids directly; the KeyError for a repository without a `groupid` entry is not modelled.
- Filters.AddRemoveFilter.UpdateFilters: the ValueError for an absent name is the result `ok == false`; sending the list to the server and the message are not modelled.
