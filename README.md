# gracer in Dafny

gracer is a gedit plugin that offers Rust completion and "find definition" by running
the external `racer` tool. This project models the logic around that tool. It covers
finding racer and the Rust source tree, the settings file that can override both,
the argument vector and environment of the racer call, the parsing of racer's `MATCH`
lines, and the state that attaches the completion provider to a view. It also covers
the small helpers of the completion provider. Two versions of the plugin are modelled:
`gracer.py` (the current one) and the older `src/gracer.py`, whose differences are
stated as lemmas.

Files, one module each:

- `common.dfy`: `Option`, and `Result` carrying the Python exception raised (`IndexError`, `ValueError`, `GError`).
- `text.dfy`: `str.split`/`join` with one-character separators, `startswith`/`endswith`, `str(n)` and `int(s)`, and `str.replace` of one character.
- `settings.dfy`: the `key=value` settings codec (`Settings.get_value`, `Settings.save_settings`).
- `paths.dfy`: the scan over candidate paths and the candidate lists.
- `request.dfy`: the cursor, the racer argument vector, the child environment and how a call ends.
- `reply.dfy`: the `MATCH` line parser for completions and definitions.
- `racer.dfy`: the `Racer` class with its two cached paths, `init_racer`, `get_matches`, `get_definition` and the cursor target of "find definition".
- `lifecycle.dfy`: `GracerPlugin.on_document_load` as a class over a view that records the registered providers and popup hooks.
- `proposals.dfy`: `do_match`, the escaping of the info text, and the kind-to-icon table.
- `legacy.dfy`: the older `GracerProvider` (`get_racer_command`, `get_matches`, `do_match`).

The racer program is a function parameter. It maps an argument vector (and, in
`gracer.py`, an environment) to `Completed(stdout)` or `Raised`. The filesystem is the
set of existing paths. The settings file is its content, `None` when it is absent.

Where the plugin's written description and its code disagree, the model follows the code:

- A `MATCH` line with too few fields raises `IndexError`. It is not skipped, and it does not mean "definition not found". For completions the exception escapes `get_matches`. In `on_find_definition_active` it escapes too, because `get_definition` is called before the `try`.
- In `gracer.py` the provider is attached when the document's language id is `"rust"`. The `.rs` suffix test belongs only to the older `do_match`.
- Saving settings does not reset the cached paths. A running `Racer` keeps the first value it resolved.
- A racer call that raises collapses to the output `""`, the same as empty output.
- The completion kind stays racer's raw string. Only the icon lookup falls back for an unknown kind.
- The older version raises `IndexError` when no racer executable exists. Its `get_racer_command` runs outside the `try`.

## Model

| member | source | states |
|---|---|---|
| Settings.ParseLine | gracer.py:17 | a settings line unpacks exactly when splitting on `=` gives two pieces; otherwise `ValueError` |
| Settings.GetValue | gracer.py:12-22 | the dictionary-filling loop returns exactly `Lookup`: the default when the file is absent or lacks the key, the parsed value otherwise, `ValueError` on a malformed line |
| Settings.LookupWellFormed | gracer.py:14-21 | when every line is `key=value`, the result for a key is the value of the LAST line naming it, the default if none does |
| Settings.LookupMalformed | gracer.py:16-18 | any one line without exactly one `=` (a blank line included) makes every lookup raise `ValueError` |
| Settings.SaveThenGet | gracer.py:12-26 | round trip: reading back what `save_settings` wrote gives the saved (last-wins) value of each key and the default for others, provided no key or value holds `=` or a newline |
| Settings.SavedEqualsSignBreaksReading | gracer.py:17-26 | that proviso is needed: a saved value holding `=` makes the next read raise `ValueError` |
| Paths.DefaultPath | gracer.py:38-42 | the loop that reassigns `default_value` yields `LastExisting` of the candidates |
| Paths.LastExistingSpec | gracer.py:51-55 | the default is `""` when no candidate exists, and `""` only then provided `""` is not an existing path; otherwise it is an existing candidate after which no candidate exists (later wins; `None` entries skipped) |
| Request.Argv | gracer.py:66-76 | the argument vector has five entries: racer path, subcommand, the protocol line that reads back as the zero-based line plus one, the byte index unchanged, the snapshot name |
| Request.ChildEnv | gracer.py:80 | the child environment sets `RUST_SRC_PATH` to the resolved source path and keeps every other variable of the parent |
| RacerClient.Racer.GetRustSrcPath | gracer.py:34-45 | a cached value is returned unchanged; otherwise the settings override or the last existing candidate is returned and cached, unless reading settings raised |
| RacerClient.Racer.GetRacerPath | gracer.py:47-58 | the same scheme over the three racer locations with the `racer_path` key |
| RacerClient.Racer.InitRacer | gracer.py:60-85 | a settings error escapes as `ValueError`; otherwise racer runs with `Argv` and `ChildEnv` of the cached paths, and its output (or `""` when it raised) is returned; a path not yet cached becomes the resolved one (`ResolveRustSrcPath`, `ResolveRacerPath`), the racer path only once the source path resolved; cached paths never change |
| RacerClient.Racer.GetMatches | gracer.py:87-91 | the result is `Completions` of racer's reply to `complete`, or `ValueError` when a path could not be resolved; uncached paths become the resolved ones |
| RacerClient.Racer.GetDefinition | gracer.py:106-110 | the result is the first-MATCH definition of racer's reply to `find-definition`, or `ValueError` when a path could not be resolved; uncached paths become the resolved ones |
| RacerClient.FirstCallUsesResolvedPaths | gracer.py:34-91 | the first completion request of a new `Racer` runs racer with the resolved racer path and `RUST_SRC_PATH` equal to the resolved source path, and raises `ValueError` when either resolution raised |
| RacerClient.FailedCallFindsNothing | gracer.py:79-83 | a racer call that raised gives no completions and no definition |
| RacerClient.CachedPathSurvivesSave | gracer.py:193-198 | after a first successful resolution, saving new settings does not change what the same `Racer` returns; after a failed one, the next call resolves afresh |
| RacerClient.SavedPathsOverride | gracer.py:44-57 | paths saved from the configuration dialog override every candidate in a fresh resolution, even when they are empty |
| RacerClient.NavigationRoundTrip | gracer.py:215-218 | a definition racer reports at 1-based line `l + 1` puts the cursor on zero-based line `l`, at the reported column and file, whatever MATCH lines follow |
| Reply.FieldsOfMatchLine | gracer.py:94-96 | stripping `MATCH ` and splitting on `,` recovers the fields of a line whose fields hold no comma |
| Reply.ParseCompletions | gracer.py:92-104 | the appending loop returns exactly `Completions` of the output, stopping at the first short record with `IndexError` |
| Reply.CollectMatchesSpec | gracer.py:93-102 | a MATCH scan succeeds iff every MATCH line projects; it then has one record per MATCH line, in emitted order |
| Reply.CompletionsSpec | gracer.py:87-104 | `[]` for empty output; otherwise one `(f[0], f[4], f[3], f[5])` per MATCH line in order, or `IndexError` iff some MATCH line has fewer than six fields |
| Reply.OtherLinesIgnored | gracer.py:93-94 | removing a line that does not start with `MATCH ` does not change the result |
| Reply.OneMatchLine | gracer.py:93-102 | a reply of one six-field MATCH line yields exactly that completion |
| Reply.CommaTruncatesContext | gracer.py:95-101 | with no escaping, a context line `x,y` is reported as `x` |
| Reply.ParseDefinition | gracer.py:111-123 | the early-returning loop returns exactly `FirstDefinition` of the output lines |
| Reply.FirstDefinitionSpec | gracer.py:106-123 | the definition is `None` iff there is no MATCH line; otherwise it is `(f[1], f[2], f[3], f[5])` of the first MATCH line, or `IndexError` if that line is short |
| Reply.LaterLinesIgnored | gracer.py:111-121 | lines after the first MATCH line never affect the definition |
| Lifecycle.Plugin.constructor | gracer.py:131-135 | a new plugin has no provider and no popup hook registered |
| Lifecycle.Plugin.OnDocumentLoad | gracer.py:148-163 | afterwards the provider and hook are present iff the language id is `"rust"`; at most one of each is registered with the view; a load that keeps the state registers and creates nothing; a Rust load while detached creates one provider sharing the plugin's `Racer` and connects one hook |
| Lifecycle.LoadSequence | gracer.py:137-163 | after activation and any loads, the provider is attached iff the last load was Rust, one provider and one hook at most are registered, and hooks are connected exactly once per detached-to-Rust transition |
| Proposals.TypedTriggerMatches | gracer.py:244-251 | completion is offered right after a typed `:`, `.` or `&`, whatever `isalnum` says |
| Proposals.OtherCharacterDoesNotMatch | gracer.py:244-251 | a character before the cursor that is neither a trigger nor alphanumeric suppresses completion |
| Proposals.EscapeInfoIsPerCharacter | gracer.py:270 | replacing `&` before `<` escapes each character once, leaving no raw `<` |
| Proposals.OppositeOrderDoubleEscapes | gracer.py:270 | the opposite replacement order would turn `<` into `&amp;lt;` |
| Proposals.UnescapeEscapeInfo | gracer.py:270 | the escaped info text reads back as the original context line |
| Proposals.IconFor | gracer.py:275-290 | the icon is the table's icon for a known kind when the theme has it (ahead of the stock icon), else the stock icon `gtk-yes` when the theme has it; the lookup raises only when the theme lacks the stock icon too |
| Legacy.ExistingOnly | src/gracer.py:59 | the comprehension keeps only existing paths and keeps every existing candidate |
| Legacy.RacerCommandSpec | src/gracer.py:55-59 | the command is the FIRST existing candidate; `IndexError` iff none exists |
| Legacy.FirstWinsHereLastWinsThere | src/gracer.py:58-59 | with two distinct existing candidates, the older version picks the earlier and `gracer.py`'s resolver the later |
| Legacy.GetMatches | src/gracer.py:61-94 | a missing racer raises `IndexError` before any call; a call that raised gives `[]`; otherwise the output's MATCH lines become 3-tuples; argv is `Argv(command, "complete", ...)` with no environment override |
| Legacy.Completions3Spec | src/gracer.py:81-90 | one `(f[0], f[4], f[3])` per MATCH line in order, or `IndexError` iff some MATCH line has fewer than five fields |
| Legacy.DoMatchIffRustSuffix | src/gracer.py:37-41 | completion is offered iff the display URI is some string followed by `.rs` |
| Text.SplitJoin | gracer.py:96 | splitting on a separator undoes joining fields that do not contain it |
| Text.JoinSplit | gracer.py:96 | splitting loses nothing: joining the pieces with the separator gives back the original line |
| Text.ParseIntOfNatToString | gracer.py:217 | `int(str(n)) == n` for every non-negative `n` |

## Left out

- Spawning racer, creating, writing and deleting the temporary snapshot file, and decoding racer's output are foreign I/O. The call is the oracle parameter, and the snapshot is represented only by its name.
- `os.path.exists`, `os.environ`, `os.path.expanduser` and the location of the settings file are OS calls. They become the `Host` value: the existing-path set, the environment map, the expanded `~/.cargo/bin/racer`, and the file content.
- Reading and writing the settings file is left out; only its content is modelled. Newline translation in text mode is not modelled.
- The `print` diagnostics are left out, including the "try to set rust source path" warning of `init_racer`, which does not change the result.
- RacerClient.NavigationTarget does not model `os.path.normpath`, or the choice between moving the cursor and opening a new tab. Both are UI and path normalisation.
- Text.ParseInt accepts only an optional sign followed by ASCII digits. Python's `int` also accepts surrounding whitespace, underscores and non-ASCII digits.
- Proposals.DoMatch takes `str.isalnum` as a predicate parameter. The text buffer is a character sequence with the cursor as a character offset.
- Request.Cursor is given as a (zero-based line, byte index) pair. How GTK computes it from the buffer is not modelled.
- All GTK widget and signal code is left out: `do_activate`/`do_deactivate` signal wiring, the configure dialog, the popup menu, `create_tab_from_location`, and building proposals in `do_populate` with `add_proposals`. The provider's name, priority and activation are left out too.
- Proposals.IconFor returns the icon name the theme would load, not the loaded image.
- The older version's `do_activate`, which registers a provider unconditionally, is GTK plumbing and is left out.
- Lifecycle.Plugin.Valid requires that the provider and the popup hook are registered together. This holds in every reachable state, because both are only ever set and cleared together.
