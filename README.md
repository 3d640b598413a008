# vcworkspace: workspace reconciliation, modelled in Dafny

`vcworkspace.py` keeps Veracode SCA workspaces in step with Veracode
application profiles. For one application (`--app_id`) or for all of them
(`--all TRUE`) it does three things:

- It derives a workspace name from the application name.
- It creates the workspace unless the first workspace a lookup by that name finds has an id.
- It assigns the application's teams to the new workspace.

With `--cleanup TRUE` it instead deletes every workspace whose project count
is 0 and reports how many it deleted.

The model has six modules:

- `Optional`: an optional value, used for absent JSON fields and command-line arguments.
- `WorkspaceName` (`workspace_name.dfy`): the name derivation, as pure functions and lemmas.
- `Location` (`location.dfy`): the id taken from a create response's location URL, and Python's `split`/`join` for a one-character separator.
- `Remote` (`remote.dfy`): the records the script reads, plus a class `Service`. `Service` stands for the workspace service. It holds the service's workspace table and a log of the changing calls issued to it.
- `Reconcile` (`reconcile.dfy`): the create path, the bulk loop and the cleanup path.
  - Each is a method on a `Service`.
  - Each method's postcondition states the new table and the calls issued, as a function of the old table.
  - Lemmas prove the properties of those functions.
- `Cli` (`cli.dfy`): mode selection in `main`, one run of `main`, and the credentials-expiry threshold.

Remote effects are modelled as follows:

- A create appends a workspace with no projects. Its id is the last segment of the location URL the service answers with.
- A delete removes every workspace with that id.
- A team assignment leaves the table as it is.
- A lookup by name returns the workspaces with exactly that name, in table order. Both the exact match and the order are assumptions about the service.
- The service's own choices are parameters of the model:
  - the location it answers a create with;
  - the list of applications;
  - the profile it returns for an id.

Python's `str.isalpha` accepts every Unicode letter. It is a parameter `isAlpha` of the name derivation. Lemmas that need it to behave like Python on ASCII require `AsciiAlpha(isAlpha)`.

## Model

| member | source | states |
|---|---|---|
| WorkspaceName.DeriveName | vcworkspace.py:62-74 | a derived name has at most 20 characters, all from ASCII letters, digits, space, '-' and '_' |
| WorkspaceName.KeepValid | vcworkspace.py:69-71 | the filter's result is no longer than its input and holds only valid characters |
| WorkspaceName.KeepValidIsSubsequence | vcworkspace.py:71 | the filter only deletes characters: its result is a subsequence of its input |
| WorkspaceName.KeepValidCounts | vcworkspace.py:69-71 | every valid character keeps its number of occurrences and every invalid one disappears |
| WorkspaceName.KeepValidFixedPoints | vcworkspace.py:69-71 | the filter leaves a string unchanged if and only if all its characters are valid |
| WorkspaceName.KeepValidIdempotent | vcworkspace.py:71 | filtering twice is filtering once |
| WorkspaceName.KeepValidAppend | vcworkspace.py:71 | the filter of a concatenation is the concatenation of the filters |
| WorkspaceName.KeepValidAfterValid | vcworkspace.py:71 | a run of valid characters passes the filter unchanged in front of whatever follows |
| WorkspaceName.SubsequenceOfPrefix | vcworkspace.py:73 | a prefix of a subsequence of a string is a subsequence of that string |
| WorkspaceName.DeriveNameStructure | vcworkspace.py:63-73 | the result is the first min(20, n) characters of the filtered, possibly prefixed name (n its length), and a subsequence of the prefixed name |
| WorkspaceName.PrefixRule | vcworkspace.py:63-64 | an empty name, or one whose first character fails the letter test, gives a name starting with 'A' |
| WorkspaceName.EmptyNameGivesPrefix | vcworkspace.py:63-64 | the empty name gives "A" |
| WorkspaceName.LeadingLetterKept | vcworkspace.py:63-66 | a name starting with an ASCII letter keeps that letter in front, with no 'A' added: the result is the filtered name cut to 20 characters |
| WorkspaceName.LeadingNonAsciiLetterDropped | vcworkspace.py:63-71 | a leading letter outside ASCII passes the letter test and is then filtered out: the result comes from the rest of the name alone |
| WorkspaceName.NonAsciiLetterExample | vcworkspace.py:63-73 | "é1x" gives "1x", a name that does not start with a letter |
| WorkspaceName.DeriveNameFixedPoints | vcworkspace.py:62-74 | the derivation leaves a name unchanged if and only if the name is non-empty, has at most 20 valid characters and starts with an ASCII letter |
| WorkspaceName.DeriveNameIdempotent | vcworkspace.py:62-74 | when a derived name starts with an ASCII letter, deriving again changes nothing |
| WorkspaceName.LeadingDigitExample | vcworkspace.py:62-74 | "3Com Router Firmware!" gives "A3Com Router Firmwar" |
| WorkspaceName.ExamplePrefixed | vcworkspace.py:63-64 | in that example the leading digit forces the 'A' |
| WorkspaceName.ExampleFiltered | vcworkspace.py:69-71 | in that example the filter deletes only the '!' |
| WorkspaceName.ValidRunThenInvalid | vcworkspace.py:71 | valid characters followed by one invalid character filter to the valid characters |
| WorkspaceName.PlainNameExample | vcworkspace.py:62-74 | "My App" is kept as it is |
| Location.GuidFromLocation | vcworkspace.py:76-77 | the id contains no '/' and is a suffix of the location: the whole location when it has no '/', else exactly what follows its last '/' |
| Location.SplitPiecesAvoidSeparator | vcworkspace.py:77 | no piece of a split contains the separator |
| Location.JoinSplit | vcworkspace.py:77 | joining the pieces of a split with the separator gives back the string |
| Location.GuidIsLastPiece | vcworkspace.py:76-77 | the extracted id is the last piece of `loc.split("/")` |
| Remote.NamedMembers | vcworkspace.py:33 | the lookup by name returns exactly the workspaces with that name |
| Remote.WithoutIdsMembers | vcworkspace.py:100 | deleting by ids leaves exactly the workspaces whose id is not among them |
| Remote.WithoutIdsTwice | vcworkspace.py:84-85 | deleting one more id after a set of ids is deleting the larger set at once |
| Remote.WithoutNoIds | vcworkspace.py:79-84 | deleting no id changes nothing |
| Remote.Service.constructor | vcworkspace.py:90-91 | a service starts with the given table and no calls issued |
| Remote.Service.GetWorkspaces | vcworkspace.py:90-91 | the listing is the whole table |
| Remote.Service.GetWorkspaceByName | vcworkspace.py:33 | the lookup answers the workspaces with exactly that name, in table order |
| Remote.Service.CreateWorkspace | vcworkspace.py:43-49 | a create logs one create call and adds a workspace under the id the location names, with no projects |
| Remote.Service.AddWorkspaceTeam | vcworkspace.py:56 | a team assignment logs one call and leaves the table unchanged |
| Remote.Service.DeleteWorkspace | vcworkspace.py:100 | a delete logs one call and removes the workspaces with that id |
| Reconcile.CreateWorkspace | vcworkspace.py:24-59 | the create path's new table, issued calls and outcome are those of CreateEffect and CreateOutcomeOf on the derived name |
| Reconcile.AssignTeams | vcworkspace.py:52-56 | the team loop issues one assignment per team entry, in list order, and leaves the table unchanged |
| Reconcile.TeamCallsInOrder | vcworkspace.py:53-56 | exactly one call per team entry, duplicates included: the k-th call assigns the k-th team to the new workspace |
| Reconcile.CreateCallSequence | vcworkspace.py:32-56 | the path skips with no call exactly when the first workspace found has an id; otherwise it adds the workspace and issues one create, then len(teams) team calls in order, all for the id from the location |
| Reconcile.CreateThenTeams | vcworkspace.py:46-56 | the calls of a create are the create call followed by the team calls, in order |
| Reconcile.NamedSnoc | vcworkspace.py:33 | after a workspace is added, the lookup finds what it found before, then the new workspace if its name matches |
| Reconcile.CreateStepPreserves | vcworkspace.py:32-49 | on a table whose workspaces all have ids, with a location that names an id, a create step keeps ids present and names unique, and loses no match. Afterwards the name is found |
| Reconcile.CreateIsIdempotent | vcworkspace.py:32-40 | on a table whose workspaces all have ids, running the create path a second time with the same name issues nothing and reports that the workspace exists |
| Reconcile.EmptyIdFirstMatchRecreates | vcworkspace.py:33-46 | when the first workspace the lookup finds has no id, a second run creates the workspace again: without ids present, the create path is not idempotent |
| Reconcile.BulkStep | vcworkspace.py:134-135 | one more application extends the bulk effect by that application's create step |
| Reconcile.CreateAll | vcworkspace.py:130-135 | the `--all` loop's new table and issued calls are those of BulkEffect: the create path for each application in list order |
| Reconcile.BulkPreserves | vcworkspace.py:130-135 | a bulk run on a table with ids, with locations that name ids, keeps ids present and names unique, and loses no match |
| Reconcile.BulkCoversEveryApp | vcworkspace.py:130-135 | after such a bulk run, the name of every application is found with an id |
| Reconcile.CoverStep | vcworkspace.py:134-135 | the names found before a step that loses nothing are still found, along with the step's own name |
| Reconcile.BulkRerunIssuesNothing | vcworkspace.py:32-40 | when every name is already found with an id, a bulk run issues no call and changes nothing |
| Reconcile.DeleteCallsInOrder | vcworkspace.py:84-85 | exactly one delete call per deleted workspace, the k-th for the k-th workspace's id |
| Reconcile.DeleteWorkspace | vcworkspace.py:93-105 | a workspace is deleted, and 1 returned, exactly when its `projects_count` field is missing or 0; otherwise nothing is issued and 0 is returned |
| Reconcile.DeleteWorkspaces | vcworkspace.py:79-88 | the cleanup issues one delete per zero-count workspace, in listing order. It removes those ids, and its result is their number, the total the source prints and logs |
| Reconcile.EmptiesStep | vcworkspace.py:84-85 | one more listed workspace joins the deleted ones exactly when its count is 0 |
| Reconcile.DeleteStep | vcworkspace.py:84-85 | deleting one more workspace adds its id to the removed ones and its call after the earlier calls |
| Reconcile.EmptiesAreTheZeroCounts | vcworkspace.py:84-85 | a workspace is deleted if and only if it is listed with a `projects_count` that is missing or 0 |
| Reconcile.DeletedCountIsZeroCountTotal | vcworkspace.py:83-86 | the reported total equals the number of listing positions whose `projects_count` is missing or 0 |
| Reconcile.CleanupSparesNonEmpty | vcworkspace.py:79-105 | with distinct ids, exactly the workspaces with a present, non-zero `projects_count` remain after cleanup |
| Reconcile.CleanupExample | vcworkspace.py:79-105 | counts [0, 3, 0] for ids 1, 2 and 3: ids 1 and 3 are deleted in that order, the total is 2 and workspace 2 remains |
| Reconcile.ExampleEmpties | vcworkspace.py:84-85 | in that example the first and the third workspace are the ones without projects |
| Reconcile.ExampleKept | vcworkspace.py:100 | in that example deleting ids "1" and "3" keeps only workspace 2 |
| Cli.SelectMode | vcworkspace.py:126-141 | `--all` wins over `--cleanup`, which wins over `--app_id`. Each flag is on only when its value is exactly "TRUE". Usage is chosen exactly when no flag is on and no app id is given |
| Cli.FlagsAreExact | vcworkspace.py:127-128 | "true", "True" and "yes" turn nothing on; a run with such a value falls through to the next rule |
| Cli.Run | vcworkspace.py:126-144 | usage returns 0 with no call and no change. Each other mode returns nothing, with exactly the effect of the bulk, cleanup or single-app path |
| Cli.ExpiryWarning | vcworkspace.py:12-17 | the warning is printed exactly when fewer than 7 whole days are left, i.e. less than 7 × 86400 seconds, expired credentials included |

## Left out

- HTTP, the Veracode REST client, HMAC credentials and any failure of a request are not modelled. The service is the class `Remote.Service`. Exceptions from the client (and their propagation out of `main`) are not modelled.
- Logging, the `print` output, `json.dumps` of the create payload and argparse's parsing are not modelled. Arguments arrive already parsed as optional strings. The results of `Reconcile.DeleteWorkspaces` (the deleted total) and `Reconcile.CreateWorkspace` (`Created` with the name and team count) stand for the reports the source prints or logs; `delete_workspaces` itself returns nothing, and `create_workspace` returns nothing after a create.
- `get_app_info` (lines 19-22) and `get_apps` are service answers. They are parameters of `Cli.Run`: `appOf` and `apps`.
- Cli.ExpiryWarning: the clock, the credentials file and the parsing of `expiration_ts` (lines 13-15) are left out. The time left is a parameter, in whole seconds rounded down. `timedelta.days` is the floor of the time left over a day, so rounding to whole seconds does not change it.
- A `KeyError` for an application without `guid` or `profile` (lines 25-27), a profile without `name` or `teams`, a team without `team_id`, or a workspace without `id` or `name` in `delete_workspace` is not modelled. Records always carry those fields; a workspace id the lookup does not return is the empty string.
- Reconcile.DeleteWorkspace: a `projects_count` that is present but JSON `null` is not distinguished from a missing one. The code would read it as `None`, which is not 0, and would skip the workspace.
- Remote.Service.CreateWorkspace: that the service files the new workspace under the id in its location URL, with no projects, is an assumption about the service.
- Remote.Service.GetWorkspaceByName: that `get_workspace_by_name` matches the exact name, and returns matches in table order, is an assumption about the service. `HasExisting`, `CreateIsIdempotent` and `BulkCoversEveryApp` depend on it. If the lookup matched partial names, "App" could find "App 2" and the create would be skipped.
- Application names containing a lone surrogate cannot be represented: a Python `str` can hold one, for example from a JSON `"\ud800"` escape, but a Dafny `char` is a Unicode scalar value. Such a character is neither a letter nor valid. In the source it forces the 'A' when it comes first and is deleted wherever it is.

For "3Com Router Firmware!" the leading digit forces the 'A' and the filter deletes the '!'. That leaves 21 characters, of which the first 20 give "A3Com Router Firmwar" (`WorkspaceName.LeadingDigitExample`).
