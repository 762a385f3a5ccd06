# ghast: the bookkeeping engine, modelled in Dafny

ghast is a single-page dashboard that tracks the CI status of a set of
GitHub repositories. Behind its Vue templates sits a small engine:

- a registry of tracked repositories, kept twice: as a display-ordered list
  and as a map from name to the same object;
- a message log whose entries carry ids from a counter;
- an update cycle per repository. The workflow runs are fetched, the first
  push-triggered run becomes the repository's status, the next update is
  scheduled by a delay rule, and the list is re-sorted newest first;
- a loader that restores the registry from local storage.

This project models that engine and proves what it promises.

Modules, one per file:

- `Wrappers` (`wrappers.dfy`): `Option`.
- `Text` (`text.dfy`): the JavaScript string behaviour the engine relies on.
  This covers `split(/\s+/)` with the `\s` character class, `split('\n')[0]`,
  and the decimal rendering of integers.
- `Runs` (`runs.dfy`): the `Status` table, the run record, `getRunStatus`,
  the status record built from a run, and `Reconciled`, the specification
  of the reconcile loop.
- `Schedule` (`schedule.dfy`): the delay rule of
  `scheduleNextRepositoryUpdate` and the `nextUpdateDate` it records.
- `Ordering` (`ordering.dfy`): `getRepositorySortingKey`, the descending
  comparator, and a stable insertion sort over (key, item) pairs. The sort
  is proved to be the only arrangement a stable sort with that comparator
  can produce, so it stands for `Array.prototype.sort`, which is stable.
- `Format` (`format.dfy`): `formatDuration` and `formatAge`. Each returns the
  printed fields as a datatype, and its `Text()` renders the page's string.
- `Log` (`log.dfy`): messages, id invariants, the auto-expiry delay and
  removal by id.
- `App` (`app.dfy`): the classes `Repository` and `GhastApp` with the
  engine's methods. List and map hold the same `Repository` objects, as in
  the program. `GhastApp.Valid()` states the invariant every method keeps:
  - the names in the list are distinct;
  - the map's keys are exactly those names, each key mapped to the list's
    object;
  - message ids increase along the log and stay below `nextMessageId`.

Time is integer milliseconds passed in as a parameter. The value of
`Math.random()` is a parameter `jitter`; the loader takes one value per
stored record (`jitter(i)`). A timer is represented by the delay it is armed
with (`timer: Option<real>`). A fetch is an input `FetchResult`: the list of
runs, or the error it threw. Local storage is an input: the raw `debug`
item, and the `repositories` item as missing, unparsable or parsed records.

Facts of the program that the model keeps as they are:

- The "recently updated" window of the delay rule is 24 hours (js/ghast.js:402).
- The sort key is the run's update date, else its creation date, else 0; the
  run's start date is not consulted (js/ghast.js:70-80).
- `lastUpdatedDate` is set when an update is attempted, before the fetch,
  whether or not the fetch then succeeds (js/ghast.js:331).
- `getRunStatus` returns `Status.failure` for a failed run, a key the
  `Status` table does not have (it has `failed`), so the value is
  `undefined` (js/ghast.js:8-13, 61). The model keeps it visible as the
  constructor `Runs.Undefined` and proves that `Failed` is never produced.

## Model

| member | source | states |
|---|---|---|
| Runs.GetRunStatus | js/ghast.js:56-68 | success exactly for completed+success; the undefined `Status.failure` exactly for completed+failure; in progress exactly for queued or in_progress; unknown exactly for every other combination; `Failed` never |
| Runs.BuildStatus | js/ghast.js:342-358 | the commit message is the text before the first line break (no newline, a prefix of the message, cut at a newline); `user` is present iff the actor's type is "User" and is then the login; the status is the classifier's; the run dates are copied |
| Runs.Reconciled | js/ghast.js:335-363 | definition: the record built from the first push-triggered run, or the current status; its properties are in the three Reconciled lemmas below and in Repository.Reconcile |
| Runs.ReconciledWithoutPush | js/ghast.js:335-340 | with no push-triggered run the status stays as it was |
| Runs.ReconciledFirstPush | js/ghast.js:335-363 | with a push run at position k and none before it, the status becomes the record built from run k |
| Runs.ReconciledIdempotent | js/ghast.js:335-363 | reconciling twice with the same runs equals reconciling once |
| App.Repository.Reconcile | js/ghast.js:335-363 | the loop with `continue`/`break` leaves the status equal to `Reconciled(old status, runs)`; it changes nothing else |
| App.Repository.constructor | js/ghast.js:280-282 | a new record holds only its name: no status, no dates, no timer |
| App.Repository.Restore | js/ghast.js:427-429 | a restored record keeps its stored name, status and last update, with timer and next update date cleared |
| Schedule.PollDelay | js/ghast.js:395-405 | rules in order: 0 without a last update, else 60 000 when in progress, else 300 000 when the run was updated within 24 h, else the idle delay 3 240 000 + 360 000·jitter, which is 3 600 000·(0.9+0.1·jitter); for jitter in [0,1) each value occurs exactly under its own rule and the idle delay lies in [3 240 000, 3 600 000) |
| Schedule.Truncate | js/ghast.js:413 | definition: the conversion of a time value to whole milliseconds, toward zero; its properties are in the NextUpdateDate row |
| Schedule.NextUpdateDate | js/ghast.js:413 | the firing time lies between now and now + delay, less than 1 ms below now + delay; it is exactly now + delay for a whole delay, and now for delay 0 |
| App.GhastApp.ScheduleNextRepositoryUpdate | js/ghast.js:385-414 | the timer is re-armed with the delay rule's value for the repository's own last update and status; the next update date follows from that delay; status and last update are untouched |
| Ordering.SortingKey | js/ghast.js:70-80 | definition: the run's update date, else its creation date, else 0; its use is stated in SortedKeysMatch and DisplayOrderSorted |
| Ordering.Compare | js/ghast.js:374-380 | definition: 1 when the first key is smaller, -1 when larger, 0 when equal; its properties are in SortDescOrdered |
| Ordering.Insert | js/ghast.js:370-381 | definition: one step of the insertion sort, placing an entry before the first smaller key; its properties are in the SortDesc lemmas |
| Ordering.SortDesc | js/ghast.js:370-381 | definition: the stable sort, largest key first; its properties are in SortDescPermutation, SortDescOrdered, SortDescStable and SortDescIsTheStableSort |
| Ordering.SortDescPermutation | js/ghast.js:370-381 | the sorted list is a permutation (same multiset) of the input |
| Ordering.SortDescOrdered | js/ghast.js:374-380 | keys never increase along the sorted list, and every pair is in an order the comparator accepts |
| Ordering.SortDescStable | js/ghast.js:370-381 | for every key, the entries with that key keep their relative order |
| Ordering.OrderedStableUnique | js/ghast.js:370-381 | two ordered lists with the same entries under every key, in the same order, are equal |
| Ordering.SortDescIsTheStableSort | js/ghast.js:370-381 | any ordered arrangement that keeps the input order among equal keys is the model's sort result |
| Ordering.SortDescItems | js/ghast.js:370-381 | sorting keeps exactly the same items, and distinct items stay distinct |
| Ordering.SortDescDistinctItems | js/ghast.js:370-381 | sorting never puts the same item at two positions |
| App.DisplayOrder | js/ghast.js:370-381 | definition: the repositories sorted by their keys; its properties are in DisplayOrderSorted, DisplayOrderMembers and DisplayOrderConsistent |
| App.SortedKeysMatch | js/ghast.js:371-372 | each sorted pair carries the sorting key of its own repository's status |
| App.DisplayOrderSorted | js/ghast.js:370-381 | the display order has as many entries as before, and sorting keys never increase along it |
| App.DisplayOrderMembers | js/ghast.js:370-381 | the display order holds exactly the same repository objects, each at one position |
| App.DisplayOrderConsistent | js/ghast.js:370-381 | re-sorting keeps the list and the map describing the same repositories |
| App.GhastApp.SortRepositories | js/ghast.js:370-381 | the list becomes the display order of the old list; map, log and debug flag are unchanged; the invariant holds |
| Format.FormatDuration | js/ghast.js:112-125 | the printed fields add up to the whole seconds in ms (rounded down); seconds only below 60 s; hours exactly from 3600 s; every field after the first is below 60, and the first is at least 1 |
| Format.Duration.Text | js/ghast.js:115-124 | definition: the string printed for each form of duration; minutes and hours are printed as NatToString states, and the seconds of the short form, which may be negative, as IntToString states |
| Format.FormatAge | js/ghast.js:82-110 | each phrase is chosen exactly on its interval of ages; a count n means the age is at least n and less than n+1 units, with minutes in [2,60), hours in [2,24), days in [2,365) and years at least 2 |
| Format.Age.Text | js/ghast.js:87-109 | definition: the phrase printed for each age; counts are printed in decimal, as NatToString states |
| Format.Units | js/ghast.js:91 | `Math.floor` of a non-negative age over a unit: the largest count of whole units not exceeding the age |
| Text.NatToString | js/ghast.js:120 | the decimal notation printed for a count: at least one digit, two or more exactly from 10, and then no leading zero |
| Text.NatToStringValue | js/ghast.js:120 | reading the printed digits back gives the number printed |
| Text.IntToString | js/ghast.js:115 | the notation printed for a whole number of seconds, negative ones included: a minus sign exactly when the number is negative, followed by a digit string whose value is its magnitude, with two or more digits exactly from magnitude 10 and then no leading zero |
| Text.WordLength | js/ghast.js:276 | the longest whitespace-free prefix ends at whitespace or at the end |
| Text.SpaceLength | js/ghast.js:276 | the longest run of whitespace at the start, ended by a non-blank character or the end |
| Text.Split | js/ghast.js:276 | at least one piece, none holding whitespace, only the first and last may be empty; the first is non-empty when the text starts with a non-blank character |
| Text.GapLength | js/ghast.js:276 | a run of whitespace followed by a non-blank character or the end is taken whole as one separator |
| Text.SplitWordGap | js/ghast.js:276 | a word, a non-empty run of any whitespace and a text starting with a word split into the word followed by the pieces of that text; a trailing run yields an empty last piece |
| Text.SplitLeadingGap | js/ghast.js:276 | a leading run of whitespace yields an empty first piece |
| Text.SplitJoinSpaced | js/ghast.js:276 | splitting undoes joining with single spaces, for any list of pieces of that shape |
| Text.FirstLine | js/ghast.js:345 | the first line holds no newline, is a prefix of the text, and ends at a newline or at the end |
| App.AddNotice | js/ghast.js:277-288 | definition: the error "already exists" for a tracked name, the success "added" otherwise; its properties are in AddNoticesShape |
| App.AddOne | js/ghast.js:277-284 | definition: the tracked names after one name, appended unless already tracked; its properties are in AddAllDistinct and AddAllMembers |
| App.AddAll | js/ghast.js:276-289 | definition: the tracked names after a batch, each name checked against those before it; its properties are in AddAllDistinct and AddAllMembers |
| App.AddNotices | js/ghast.js:276-289 | a batch logs exactly one message per token |
| App.AddNoticesAt | js/ghast.js:276-289 | message i is the one token i logs against the names tracked after the tokens before it |
| App.AddNoticesShape | js/ghast.js:276-289 | token i logs the message with id `id + i`; it is an error "already exists" iff the name was tracked before or occurs earlier in the batch, otherwise a success "added" |
| App.AddAllDistinct | js/ghast.js:276-289 | adding a batch to distinct names leaves the names distinct |
| App.AddAllMembers | js/ghast.js:276-289 | earlier names keep their order as a prefix of the result; a name is tracked afterwards iff it was before or is in the batch |
| App.DuplicateInBatch | js/ghast.js:276-289 | a new name given twice in one batch is tracked once and logs a success then an error |
| App.TrackedByName | js/ghast.js:277 | in a consistent state, the map has a key exactly for the names in the list |
| App.AppendedConsistent | js/ghast.js:283-284 | appending a repository under a new name and keying it by that name keeps list and map consistent |
| App.GhastApp.AddRepository | js/ghast.js:277-288 | a tracked name leaves the list as it was and logs "already exists"; a new name appends one fresh record that is due now and unsettled, and logs "added"; the invariant holds |
| App.GhastApp.AddNext | js/ghast.js:276-289 | one pass of the batch loop keeps the batch's account of names, entries and messages from token i to token i+1 |
| App.GhastApp.AddEach | js/ghast.js:276-289 | after the loop, names, appended entries and messages are those of the whole batch; the counter grows by the batch size; the invariant holds |
| App.GhastApp.AddRepositories | js/ghast.js:275-290 | the same, for the pieces of the input split on whitespace |
| Log.MessageExpiry | js/ghast.js:293-299 | definition: 2000 ms for a success, 5000 ms otherwise, none while debugging; AddMessage returns it |
| App.GhastApp.AddMessage | js/ghast.js:291-301 | appends one message whose id is the old counter; the counter grows by 1; the expiry is 2000 ms for success, 5000 ms otherwise, none while debugging; increasing ids below the counter are kept |
| App.GhastApp.ClearMessage | js/ghast.js:302-308 | the log becomes the old log without the messages of that id; everything else is unchanged; the invariant holds |
| Log.WithoutId | js/ghast.js:302-308 | definition: the log without the messages of that id; its properties are in the WithoutId lemmas below and in ClearMessage |
| Log.WithoutIdMembers | js/ghast.js:302-308 | a message stays exactly when its id differs from the one cleared |
| Log.WithoutIdAbsent | js/ghast.js:302-308 | clearing an id that no message has changes nothing |
| Log.WithoutIdIdempotent | js/ghast.js:302-308 | clearing the same id twice equals clearing it once |
| Log.WithoutIdAt | js/ghast.js:304-305 | with increasing ids, clearing the id at position p is the splice at p |
| Log.WithoutIdIncreasing | js/ghast.js:302-308 | clearing keeps the ids increasing |
| App.RemoveNamed | js/ghast.js:313-322 | definition: the list without its first entry of that name; its properties are in RemoveNamedAt, RemoveNamedAbsent, RemoveNamedNames and RemoveNamedMembers |
| App.RemoveNamedAt | js/ghast.js:314-317 | removal cuts out the first entry with that name and keeps the others in their order |
| App.RemoveNamedAbsent | js/ghast.js:314-321 | removing a name no entry has changes nothing |
| App.RemoveNamedNames | js/ghast.js:313-322 | with distinct names, removal leaves no entry of that name, keeps every other name, and the names stay distinct |
| App.RemoveNamedMembers | js/ghast.js:313-322 | removal adds no repository |
| App.RemoveFirstNamed | js/ghast.js:314-317 | the splice at the first entry of that name is the removal, and with the key deleted list and map stay consistent |
| App.RemoveUntracked | js/ghast.js:314-321 | when no entry has that name there is nothing to cut and no key to delete |
| App.RemovedConsistent | js/ghast.js:316-317 | removing the entry and its key keeps list and map consistent |
| App.GhastApp.RemoveRepository | js/ghast.js:313-322 | the list loses its first entry of that name, the map loses that key, nothing else changes; a no-op when the name is not tracked; the invariant holds |
| App.GhastApp.UpdateRepository | js/ghast.js:323-384 | nothing changes for an untracked name; otherwise the last update is the attempt time; a fetched run list is reconciled into the status; a failed fetch logs one error and keeps the status; the timer is re-armed by the delay rule at the settle time; the list takes its display order; the map is unchanged; the invariant holds |
| App.GhastApp.ToggleDebug | js/ghast.js:469 | the debug flag flips; nothing else changes |
| App.GhastApp.constructor | js/ghast.js:259-268 | the initial state: nothing tracked, no messages, counter 0, debugging off |
| App.GhastApp.Mount | js/ghast.js:416-449 | debug is restored iff the stored item is "true"; no item leaves everything empty; an unparsable item logs one "loading repositories failed" error; a parsed list tracks, in order, one restored and scheduled repository per named record, keys exactly those names, and logs the notice of `LoadNotice`; with distinct stored names the invariant holds |
| App.GhastApp.LoadRecords | js/ghast.js:419-448 | from the empty state, the parsed list is restored as above and the loading notice logged |
| App.GhastApp.RestoreAll | js/ghast.js:426-436 | the loop restores one repository per named record, in order, reports whether some record had no name, keys exactly the restored names, and keeps list and map consistent when the names are distinct |
| App.GhastApp.RestoreNext | js/ghast.js:426-436 | one pass of the loop extends that account from record i to record i+1 |
| App.GhastApp.RestoreRecord | js/ghast.js:427-435 | a record with a name appends one fresh repository restored from it and scheduled; a record without one changes nothing; keys stay equal to the names |
| App.RestoredConsistent | js/ghast.js:430-431 | appending a restored repository and keying it by name keeps the keys equal to the names, and list and map consistent while the names are distinct |
| App.RestoredFromAt | js/ghast.js:426-432 | entry k of the restored list comes from the k-th named record, restored and scheduled with that record's jitter |
| App.NamedIndices | js/ghast.js:427 | the listed positions are records that have a name |
| App.NamedIndicesComplete | js/ghast.js:426-427 | the named positions increase and include every record that has a name |
| App.NamedIndicesEmpty | js/ghast.js:443 | some repository is restored exactly when some record has a name |
| App.LoadedNames | js/ghast.js:426-431 | definition: the names of the named records, in stored order; its properties are in LoadedNamesAt and Mount |
| App.LoadedNamesAt | js/ghast.js:426-431 | the restored names are the names of the named records, in their order |
| App.LoadNotice | js/ghast.js:442-448 | no notice iff every record has a name; "loading repositories failed" iff some record lacks one and none has one; "loading some repositories failed" iff some lack one and some have one |

## Left out

- The Vue components, templates, the `page` field and navigation are presentation only and are not modelled.
- `fetchGitHubApi` and HTTP are network I/O. A fetch is an input: the runs, or the error text the failed fetch produced.
- `localStorage`, `saveState`, `JSON.stringify`, `JSON.parse` and the date `reviver` are storage I/O and foreign parsing. The stored items are inputs, and a stored record is already revived.
- `setTimeout` and `clearTimeout` are real timers. A timer is its delay, and a message's expiry is the delay returned by `addMessage`.
- The async interleaving of `updateRepository` is not modelled. Its effect is one atomic step at the time the fetch settles, so a removal while a fetch is in flight is not modelled.
- `console.log` diagnostics are not modelled.
- `Math.random()` and `new Date()` are parameters.
- Delays are exact reals, so floating-point rounding of the idle delay is not modelled.
- The JavaScript `in` operator also sees keys inherited from `Object.prototype`, such as "constructor". The model's map holds only the tracked names, so adding a repository with such a name is not modelled as an error.
- Exceptions thrown part-way through a loop are not modelled. Examples are a run with a missing field, or a stored element that is not an object: both abandon the loop with an error message after partial changes.
- Date values are integers: an invalid date from a malformed timestamp is not modelled.
- A freshly added repository is scheduled with jitter 0. This equals the program's choice, because a delay of 0 ignores the random value.
- App.GhastApp.Mount: when stored names repeat, the invariant is not stated. The list then holds both records while the map keeps the later one, and the program behaves the same way.
- App.GhastApp.Mount: does not state that the restored repository objects are newly allocated; `RestoreRecord` states it for each one.
- App.GhastApp.RestoreAll: does not state that the restored repository objects are newly allocated; `RestoreRecord` states it for each one.
- App.GhastApp.AddRepositories: does not state that the appended repository objects are newly allocated; `AddRepository` states it for each one.
- App.GhastApp.AddEach: does not state that the appended repository objects are newly allocated; `AddRepository` states it for each one.
- Schedule.PollDelay: the idle-delay range is stated for jitter in [0, 1), the range of `Math.random()`, not for the closed interval.
