# A verified model of the core of `t`

`t` is a command-line todo.txt manager written in Go. This project models its sequential core in
Dafny and proves properties of that model. The core has four parts:

- **The identifier codec** (`utils/uuid.go`, modules `Uuid` and `Base64`). A task identifier is a
  16-byte UUID with two text forms.
  - The long form is the canonical `8-4-4-4-12` hexadecimal layout (section 4 of RFC 9562).
  - The short form is unpadded base64 (section 4 of RFC 4648) over a custom alphabet,
    `tuvwxyz0123456789ABCDEFGHIJKLMNOPQRSTUVWXYZabcdefghijklmnopqr+-#`. Its three
    non-alphanumeric symbols are then escaped as `sp`, `sq` and `sr`.
  - The decoder picks the form by the length of the text.
- **The property ensurer** (`todo/taskEnsure.go`, module `Ensure`). It gives every task:
  - a creation date;
  - a completion date when the task is done;
  - exactly one identity tag in the preferred form (`id` short, or `uuid` long);
  - the configured default tags.

  It reads identity tags with the decoder as written, as the Go code does. `Ensure.CorrectedTags`
  is the tag step with the corrected decoder.
- **The reconciler** (`todo/sync.go`, module `Reconcile`). It merges the tasks fetched from an issue
  tracker into the local task list, matching them on their `url` tag. It counts the tasks it adds,
  updates and skips.
- **The serialisers and mappers**:
  - the one-line append-log format (`appendLog/appendLog.go`, module `AppendLog`);
  - the three tracker mappers that turn GitHub issues, GitLab issues and OpenProject work packages
    into tasks (modules `GitHub`, `GitLab`, `OpenProject`).

Supporting modules:
- `Wrappers`: `Option` and `Result`.
- `Strings`: the few functions of Go's `strings` and `fmt` packages that the core calls.
- `Tasks`: the part of the todo.txt task record that the core reads and writes.

Modelling choices:
- **Pure code** (the codec, the log format, `isPullRequest`, `EnsureSpaceAtEnd`) is written as
  functions.
- **Code that updates a task or a list step by step** is written as methods with loops. These are
  the ensurer's steps, the merge loop, the tag copy of `updateTaskContent`, and the mappers' loops.
  Each method is proved equal to a specification function, and the properties are proved as
  lemmas about that function.
- **Nondeterministic inputs are parameters:**
  - the clock (`time.Now`);
  - the UUID generator (`NewUUID`);
  - Go's date formatter and date parsers.

## Model

| member | source | states |
|---|---|---|
| Base64.EncodeToString | utils/uuid.go:17-19 | the unpadded base64 text of `n` bytes has `4*(n/3) + ceil(8*(n%3)/6)` symbols |
| Base64.DecodeOfEncode | utils/uuid.go:17-19 | with an alphabet of 64 distinct symbols that holds no line break, decoding the encoding of any byte string gives it back |
| Base64.DecodeStringFails | utils/uuid.go:63-66 | after line breaks are skipped, decoding fails exactly when a character is not in the alphabet, or when a single symbol dangles at the end |
| Base64.DecodeSextets | utils/uuid.go:63 | groups of 6-bit values decode unless one value is left over; the result has `3*(n/4) + 6*(n%4)/8` bytes |
| Base64.DecodeEncodeSextets | utils/uuid.go:36 | decoding the 6-bit groups of any byte string gives the bytes back |
| Base64.DecodeEncodeGroup | utils/uuid.go:36 | one to three bytes survive the split into 6-bit values and the merge back |
| Uuid.AlphabetValid | utils/uuid.go:14-19 | the custom alphabet has 64 distinct symbols, no line break and no `s` |
| Uuid.Escape | utils/uuid.go:23-27 | escaping never shortens a text |
| Uuid.EscapeRemovesSymbols | utils/uuid.go:23-27 | no `+`, `-` or `#` is left after escaping |
| Uuid.EscapeTagsEveryS | utils/uuid.go:23-27 | in the escape of a text with no `s`, every `s` is followed by `p`, `q` or `r` |
| Uuid.EscapeLength | utils/uuid.go:23-27 | escaping adds one character per `+`, `-` or `#` |
| Uuid.UnescapeOfEscape | utils/uuid.go:22-33 | unescaping undoes escaping on every text with no `s` of its own |
| Uuid.UnescapeNeedsNoS | utils/uuid.go:22-33 | `sp` escaped and unescaped comes back as `+`, so the round trip holds only for texts without an `s` of their own |
| Uuid.UnescapeWithoutS | utils/uuid.go:28-32 | unescaping leaves a text with no `s` unchanged |
| Uuid.LongEncodeUUID | utils/uuid.go:40-42 | the long form is 36 characters with dashes at positions 8, 13, 18 and 23 |
| Uuid.LongEncodeDigits | utils/uuid.go:40-42 | byte `i` appears as its high and low lower-case hex digits at its place in the 8-4-4-4-12 layout |
| Uuid.ParseCanonical | utils/uuid.go:53-58 | a 36-character text reads as a UUID exactly when it has the dashed layout and hex digits elsewhere |
| Uuid.ParseCanonicalOfLong | utils/uuid.go:40-42 | the long form reads back as the UUID it came from |
| Uuid.LongOfParseCanonical | utils/uuid.go:53-58 | a lower-case canonical text is the long form of the UUID it reads as |
| Uuid.LongEncodeInjective | utils/uuid.go:40-42 | distinct UUIDs have distinct long forms |
| Uuid.ShortEncodeUUID | utils/uuid.go:35-38 | the short form is between 22 and 44 characters long |
| Uuid.ShortLength | utils/uuid.go:35-38 | the short form is 22 characters plus one for each escaped symbol |
| Uuid.ShortFormSymbols | utils/uuid.go:35-38 | the short form holds no `+`, `-` or `#` |
| Uuid.ShortFormEscapes | utils/uuid.go:35-38 | every `s` in the short form is followed by `p`, `q` or `r` |
| Uuid.EncodedHasNoS | utils/uuid.go:36 | the base64 text before escaping has no `s` |
| Uuid.EncodeUUID | utils/uuid.go:44-46 | the default encoding is the short form: the corrected decoder reads it back as the same UUID, and the decoder as written does exactly when it is not 36 characters long |
| Uuid.ShortDecodeUUID | utils/uuid.go:61-72 | the short path fails only with a base64 error or a byte-count error |
| Uuid.ShortDecodeOfShort | utils/uuid.go:61-72 | the short path reads every short form back |
| Uuid.ShortDecodeLength | utils/uuid.go:61-72 | the short path reads a UUID only from a text of 22 symbols, after unescaping and dropping line breaks |
| Uuid.ShortEncodeInjective | utils/uuid.go:17-38 | distinct UUIDs have distinct short forms |
| Uuid.DecodeUUIDAsWritten | utils/uuid.go:48-73 | the empty text is an error; a 36-character text decodes exactly when it is canonical |
| Uuid.AsWrittenDecodeOfShort | utils/uuid.go:53-72 | the decoder as written reads back every short form that is not 36 characters long |
| Uuid.AsWrittenRejectsLongShortForms | utils/uuid.go:53 | a 36-character short form is rejected by the decoder as written |
| Uuid.AsWrittenShortForm | utils/uuid.go:53-72 | the decoder as written reads a short form back exactly when it is not 36 characters long, and otherwise fails the canonical parse |
| Uuid.AsWrittenLosesSaturatedV7 | utils/uuid.go:53 | the version-7 UUID `ffffffff-ffff-73ff-bfff-ffc000000000` has a 36-character short form; the decoder as written fails on it, and the corrected one reads it back |
| Uuid.DecodeUUID | utils/uuid.go:48-73 | corrected decoder: the empty text is the only one reported as empty |
| Uuid.DecodeOfLong | utils/uuid.go:53-59 | both decoders read every long form back |
| Uuid.DecodeOfShort | utils/uuid.go:61-72 | the corrected decoder reads every short form back, 36-character ones included |
| Uuid.DecodeAgreesWithAsWritten | utils/uuid.go:48-73 | the correction changes nothing on texts that the decoder as written reads |
| Uuid.StaticTransformations | utils/uuid_test.go:18-93 | `0192da75-c158-7d7f-be3c-d5b647bf7fa8` has the short form `tI4JMLyHOGsqsq86FlAqspsrZt`, which is also `EncodeUUID`'s; both decoders read either text back |
| Uuid.ErrorVectors | utils/uuid_test.go:95-131 | the empty text, `!invalid-base64!`, `not-a-valid-uuid-format` and a long form missing two digits are all rejected |
| Uuid.ManySpecialTransformations | utils/uuid_test.go:139-143 | `0192da73-39ce-76ac-826b-bb3fd7e9fd84` parses to the UUID whose short form is the 25-character `tI4JLiW7MZhvJqbsrksqWspQt`; both decoders read that text back as the UUID |
| Uuid.SequentialSpecialTransformations | utils/uuid_test.go:144-148 | `ffffffff-ffff-7fff-bfff-ffffffffffff` parses to the UUID whose short form is the 42-character `srsrsrsrsrsrsrsrOsrsqsrsrsrsrsrsrsrsrsrsrf`; both decoders read that text back as the UUID |
| Uuid.PlainShortLength | utils/uuid.go:61-72 | a text with no `s` and no line break decodes on the short path only if it is 22 characters long |
| Uuid.ShortPathOnly | utils/uuid.go:48-61 | a non-empty text whose length is not 36 goes straight to the short path in both decoders |
| Uuid.BangFailsBase64 | utils/uuid.go:63-66 | a text that starts with a character outside the alphabet fails in the base64 step |
| Ensure.EnsureCreationDate | todo/taskEnsure.go:51-55 | a missing creation date becomes the clock reading; an existing one is kept |
| Ensure.EnsureCompletionDate | todo/taskEnsure.go:58-60 | the completion date becomes the clock reading |
| Ensure.EnsureIdentifier | todo/taskEnsure.go:63-94 | returns the identifier chosen with the decoder as written (`id` tag first, then `uuid`, then the fresh UUID); the tags become exactly one identity tag for it, in the preferred form, and every other tag is kept |
| Ensure.EnsureTags | todo/taskEnsure.go:97-107 | the tags become the old tags with each missing default added |
| Ensure.EnsureTaskProperties | todo/taskEnsure.go:31-40 | the task after the four steps in order, the identity step reading tags with the decoder as written |
| Ensure.EnsureTaskListProperties | todo/taskEnsure.go:43-48 | keeps length and order, and ensures each task with its own fresh UUID |
| Ensure.SingleIdentityTag | todo/taskEnsure.go:85-91 | with short identifiers the task ends with an `id` tag and no `uuid` tag, otherwise the reverse; this needs defaults that name neither key |
| Ensure.DecodableIdKept | todo/taskEnsure.go:69-82 | an identity tag that the decoder as written reads is kept, and when both tags read, `id` wins |
| Ensure.FreshIdWhenNoneDecodes | todo/taskEnsure.go:69-91 | when the decoder as written reads neither tag, the fresh UUID becomes the identifier, written in the preferred form |
| Ensure.IdentityTagDecodes | todo/taskEnsure.go:85-91 | a written `uuid` tag decodes to the chosen identifier with either decoder; a written `id` tag does with the corrected decoder, and with the decoder as written exactly when it is not 36 characters long |
| Ensure.IdentityTagsOthersUnchanged | todo/taskEnsure.go:85-91 | the identity step touches no tag other than `id` and `uuid` |
| Ensure.WithDefaultsProperties | todo/taskEnsure.go:97-107 | existing tags keep their values, each missing default is added, and no other key appears |
| Ensure.CreationDateRule | todo/taskEnsure.go:32-34 | the creation date is set only when enforced and missing; an existing one is never changed |
| Ensure.CompletionDateRule | todo/taskEnsure.go:35-37 | the completion date changes exactly when it is enforced, the task is completed and the date is missing; completion itself is kept |
| Ensure.EnsuredKeepsContent | todo/taskEnsure.go:31-40 | the text, priority, projects, contexts and due date are untouched |
| Ensure.EnsuredIdempotent | todo/taskEnsure.go:31-107 | when the defaults name neither identity tag and, with short identifiers, the chosen identifier's short form is not 36 characters long, a second pass with the same configuration changes nothing, whatever clock reading and fresh UUID it gets |
| Ensure.EnsuredTagsIdempotent | todo/taskEnsure.go:63-107 | under the same two conditions, the tag steps repeated with any fresh UUID give the same tags |
| Ensure.IdentityTagsFixed | todo/taskEnsure.go:63-94 | tags that already hold one identity tag in the preferred form are rewritten unchanged; the corrected decoder always chooses that identifier again, and the decoder as written does unless the tag is a 36-character short form |
| Ensure.WithDefaultsIdempotent | todo/taskEnsure.go:97-107 | adding the defaults twice is adding them once |
| Ensure.LongShortFormReplaced | todo/taskEnsure.go:70-82 | an `id` tag holding a 36-character short form, with no readable `uuid` tag, is replaced by the fresh UUID as written and kept with the corrected decoder |
| Ensure.AsWrittenEnsurerReidentifies | todo/taskEnsure.go:78-91 | a task without identity tags that is given `ffffffff-ffff-73ff-bfff-ffc000000000` gets its 36-character short form as `id`; a second pass cannot read it and gives the task the second pass's fresh UUID, so the ensurer is not idempotent as written |
| Ensure.CorrectedTagsIdempotent | todo/taskEnsure.go:63-107 | with the corrected decoder, the tag steps repeated give the same tags for every identifier, when the defaults name neither identity tag |
| Ensure.CorrectedChosenIdAgrees | todo/taskEnsure.go:69-82 | when the decoder as written reads every identity tag present, the corrected decoder chooses the same identifier |
| Reconcile.UrlIndex | todo/sync.go:21-26 | every lookup entry names a target position whose task carries that URL |
| Reconcile.IndexByUrl | todo/sync.go:21-26 | the loop builds exactly the lookup `UrlIndex` describes |
| Reconcile.UrlIndexDomain | todo/sync.go:21-26 | a URL is in the lookup exactly when some target task carries it |
| Reconcile.UrlIndexIsLast | todo/sync.go:21-26 | when target URLs repeat, the last task carrying the URL wins |
| Reconcile.UrlIndexCovers | todo/sync.go:21-26 | each target task's URL maps to that task or a later one |
| Reconcile.ShouldUpdateIff | todo/sync.go:55-74 | an update is due exactly when the text differs, the due date differs, or the `t` tag differs in presence or value |
| Reconcile.ShouldUpdateIgnoresCompletion | todo/sync.go:55-74 | completion and every other field play no part in the decision |
| Reconcile.UpdateTaskContent | todo/sync.go:77-102 | the task after the field copies, the rebuilt tag map and the restored completion |
| Reconcile.UpdatedTaskProperties | todo/sync.go:77-102 | keeps completion and completion date; takes text, due date, projects and contexts from the source; the tags are the source's plus `uuid` (the old value or `""`) and `modified` (the stamp) |
| Reconcile.UpdatedTaskSettled | todo/sync.go:55-102 | after an update the task no longer needs one for the same source task |
| Reconcile.UpdatedTaskUrl | todo/sync.go:77-102 | an update keeps the task's URL, which is copied from the source |
| Reconcile.UpdateDropsShortId | todo/sync.go:94-101 | an update loses the task's `id` tag, and writes `uuid` as `""` when the task had none |
| Reconcile.SyncFold | todo/sync.go:29-51 | every source task is counted exactly once, and the list grows by one task per task added |
| Reconcile.SyncTaskLists | todo/sync.go:17-52 | the merge loop computes the merged list and the counters that `Sync` describes |
| Reconcile.SyncShape | todo/sync.go:29-51 | the target part keeps its URLs and completion and changes only at looked-up positions; after it come exactly the added source tasks, in source order; the length is the target's plus the added count |
| Reconcile.SyncAppendsNew | todo/sync.go:44-48 | the tasks after the target part are exactly the source tasks with a URL not in the lookup, in order |
| Reconcile.SyncKeepsTarget | todo/sync.go:36-43 | target positions outside the lookup are unchanged, and looked-up ones keep URL and completion |
| Reconcile.SyncSkipsWithoutUrl | todo/sync.go:30-34 | one more source task with no `url` tag leaves the list, added and updated counts unchanged and adds one to the skipped count |
| Reconcile.SyncSkipsUnchanged | todo/sync.go:36-43 | one more source task whose URL matches a task that needs no update leaves the list unchanged and adds one to the skipped count |
| Reconcile.EmptyLookupNoUpdates | todo/sync.go:36-48 | with an empty lookup nothing is updated |
| Reconcile.SyncIntoEmpty | todo/sync.go:17-52 | merging into an empty list gives the source tasks that have a URL, and no updates |
| Reconcile.RepeatedNewUrlAppendedTwice | todo/sync.go:21-48 | the lookup is built from the original target only, so a new URL repeated in the source is appended twice |
| Reconcile.SettledFold | todo/sync.go:29-51 | when every source task is skipped, the list is unchanged |
| Reconcile.SyncFirstPass | todo/sync.go:29-51 | with distinct source URLs, every source task with a URL ends up in the merged list with nothing left to update |
| Reconcile.ResyncChangesNothing | todo/sync.go:17-74 | merging the same source (with distinct URLs) again into the result, with any stamp, returns the list unchanged and counts every source task as skipped |
| Reconcile.AliasedFold | todo/sync.go:24-46 | as written: the array behind the lookup's pointers keeps the target's length, and so does the copy taken at reallocation |
| Reconcile.AliasedTracksIntended | todo/sync.go:24-46 | as written, the code makes the intended decisions and counts; the copy is taken exactly when more tasks are added than there is spare capacity |
| Reconcile.AsWrittenAgreesWithCapacity | todo/sync.go:24-46 | with spare capacity for every source task, the code as written returns the intended result |
| Reconcile.AsWrittenCountsAgree | todo/sync.go:24-46 | as written, the counters, the length and the appended tasks are always the intended ones |
| Reconcile.AsWrittenLosesUpdate | todo/sync.go:24-46 | target `[old@u1]` with no spare capacity and source `[new@u2, changed@u1]`: the code as written returns `old` at `u1` and still counts one update, while the intended merge returns `changed` |
| AppendLog.Fields | appendLog/appendLog.go:20-22 | an entry is written as six fields |
| AppendLog.Decode | appendLog/appendLog.go:25-46 | a line decodes only if it has at least five spaces |
| AppendLog.ParseId | appendLog/appendLog.go:31-34 | an identifier reads only from a canonical 36-character text |
| AppendLog.DecodeFields | appendLog/appendLog.go:25-46 | a line whose first five fields have no space: a bad id fails with `BadId`, a bad date with `BadDate`; otherwise each field is read, and the content is everything after the fifth space |
| AppendLog.DecodeFormatError | appendLog/appendLog.go:27-30 | decoding fails on the format exactly when the line has fewer than five spaces |
| AppendLog.LineFields | appendLog/appendLog.go:27 | a line with five or more spaces splits into five space-free fields and the rest, which join back into the line |
| AppendLog.LongFormHasNoSpace | appendLog/appendLog.go:21 | the identifier's text never holds a space |
| AppendLog.DecodeOfEncode | appendLog/appendLog.go:20-46 | decoding an encoded entry gives it back, if type, formatted date, host and source have no space and the date parser reads the formatter's output |
| AppendLog.TestIdForms | appendLog/appendLog_test.go:11 | `019336d6-286a-7faf-82e2-282dc8fe40a4` is the long form of its bytes and reads back as them |
| AppendLog.EncodeTestVector | appendLog/appendLog_test.go:10-28 | the test entry encodes to `019336d6-286a-7faf-82e2-282dc8fe40a4 INFO 2023-05-15T12:34:56Z example.com app.go Test message` |
| AppendLog.DecodeTestVector | appendLog/appendLog_test.go:30-58 | that line decodes to the test entry, content `Test message` included |
| Strings.Contains | sync/github/github.go:105 | `strings.Contains` is true exactly when the text occurs at some position |
| Strings.SplitNCount | appendLog/appendLog.go:27 | `strings.SplitN` gives one part more than there are separators, and never more than `n` |
| Strings.SplitNParts | appendLog/appendLog.go:27 | every part but the last has no separator, and neither has the last when fewer than `n` parts come out |
| Strings.JoinOfSplitN | appendLog/appendLog.go:27 | the parts joined with the separator give the text back |
| Strings.SplitNOfJoin | appendLog/appendLog.go:27 | splitting `k` parts joined by the separator, the first `k-1` of them separator-free, gives the parts back |
| Strings.ParseDecimalOfDecimal | sync/openproject/openproject.go:200 | the decimal rendering of an integer reads back as it |
| Strings.DecimalInjective | sync/openproject/openproject.go:200 | distinct integers have distinct decimal renderings |
| GitHub.IsPullRequestIff | sync/github/github.go:101-106 | an issue is a pull request exactly when `/pull/` occurs in its address (the emptiness test is redundant) |
| GitHub.CreateTaskList | sync/github/github.go:69-99 | one task per issue, in order, each the task `IssueTask` describes |
| GitHub.IssueTaskProperties | sync/github/github.go:72-96 | the pull-request or issue prefix, then the title; the issue's creation and due dates; tags exactly `url` and `state`, no identity tag; an open task |
| GitHub.DistinctAddressesDistinctUrls | sync/github/github.go:92 | issues with distinct addresses give tasks with distinct URLs, as repeated merging needs |
| GitLab.CreateIssueTaskList | sync/gitlab/gitlab.go:61-82 | one task per issue, in order, each the task `IssueTask` describes |
| GitLab.IssueTaskProperties | sync/gitlab/gitlab.go:64-80 | the prefix followed by the title; creation and due dates from the issue; tags exactly `url` and `state`; an open task |
| GitLab.DistinctAddressesDistinctUrls | sync/gitlab/gitlab.go:77 | issues with distinct addresses give tasks with distinct URLs |
| OpenProject.EnsureSpaceAtEnd | sync/openproject/openproject.go:150-157 | the result ends in a space, starts with the prefix and is at most one character longer; a prefix already ending in a space is returned unchanged |
| OpenProject.EnsureSpaceAtEndIdempotent | sync/openproject/openproject.go:150-157 | applying it twice is applying it once |
| OpenProject.EnsureSpaceAtEndAdds | sync/openproject/openproject.go:155-156 | a prefix without a final space gets exactly one |
| OpenProject.WorkPackageUrlInjective | sync/openproject/openproject.go:200 | on one instance, distinct work-package ids give distinct addresses |
| OpenProject.PackageTask | sync/openproject/openproject.go:165-203 | the loop body builds the task `WorkPackageTask` describes |
| OpenProject.CreateTaskList | sync/openproject/openproject.go:159-207 | one task per work package, in order, each built with the spaced prefix |
| OpenProject.WorkPackageTaskProperties | sync/openproject/openproject.go:162-200 | text is spaced prefix, project, `": "`, type, `": "`, subject; the `t` tag is present exactly when the start date is non-empty; the `url` tag is the address; each date is set only when its text is non-empty and parses, except that the creation date falls back to the clock reading; an open task |
| OpenProject.WorkPackageTagsProperties | sync/openproject/openproject.go:184-200 | only `t` and `url` tags: `t` exactly when there is a start date, holding it, and `url` holding the address |
| OpenProject.WorkPackageTodo | sync/openproject/openproject.go:173 | the text is the spaced prefix followed by project, type and subject separated by `": "` |
| OpenProject.DistinctIdsDistinctUrls | sync/openproject/openproject.go:200 | work packages with distinct ids give tasks with distinct URLs |

## Left out

- The HTTP and JSON fetchers (`GetUserIssues` for GitHub and GitLab, `GetWorkPackages`): network
  I/O and a vendor wire format. The console printers (`PrintIssues`, `PrintWorkPackages`,
  `todo/printTaskList.go`): output only.
- The command-line layer (`cmd/*`), the file wrappers (`todo/todoFile.go`), the superseded
  `todo/todo.go` and `main`: glue around the core. `todo/todo.go` does not compile.
- `NewUUID` and `time.Now` are parameters. UUID version-7 generation and its timestamps belong to
  the UUID library.
- Go's `time` package is not modelled. Dates are opaque values compared for equality, and the zero
  time is "no date". The RFC 3339 formatter and the parsers for RFC 3339 and `2006-01-02` are
  function parameters, so sub-second truncation, time zones and the layouts' grammar are not
  modelled.
- AppendLog.ParseId: `uuid.FromString` also accepts the 32-digit, braced and `urn:uuid:` forms. The
  model accepts only the canonical 36-character text, so a log line whose id is in one of those
  forms decodes in Go but fails with `BadId` here. `Encode` writes only the canonical form, so the
  round trip is unaffected.
- The todo.txt library is modelled only through the record fields the core touches. Its line
  grammar, the IDs that `AddTask` assigns, and `NewTask`'s other defaults are left out. `AddTask`
  is modelled as appending to the list.
- Updating in place through pointers is modelled on values: each ensurer step and
  `updateTaskContent` return the updated task, and the lists are sequences that the loops replace
  position by position. Pointer aliasing is modelled only where it changes the outcome, in the
  merge as written (`Reconcile.SyncAsWritten`).
- Reconcile.SyncTaskLists: the Go function also returns an `error`, which is always `nil`; the
  model has no error result. The `modified` stamp is a parameter, and one stamp serves the whole
  merge; the Go code reads the clock at each update.
- Ensure.EnsureTaskListProperties: takes one clock reading for the whole list, and within a task
  that one reading serves both the creation date and the completion date. The Go code reads the
  clock again for each task, and separately in `ensureCreationDate` (todo/taskEnsure.go:53) and
  `ensureCompletionDate` (todo/taskEnsure.go:59).
- Go strings are byte strings; the model uses one character per byte. Non-ASCII input fails
  both decoding paths, so this does not change the outcome of decoding.
- Integers are unbounded. A work-package `ID` is a Go `int` (64 bits), but only its decimal
  rendering is used, so the width is not modelled.
- Base64 decoding accepts non-zero trailing bits, as Go's non-strict decoder does. Decoding is
  therefore not injective on texts, and only encode-then-decode is proved.
- Of the work-package record, only the fields the mapper reads are modelled.
- The UUID library's tests that generate UUIDs from times (utils/uuid_test.go:183-236) and its
  timing stress tests (utils/uuid_test.go:238-362) are not restated, since UUID generation is not
  modelled. For their round trips through `DecodeUUID`, `Uuid.EncodeUUID` states what holds for
  every UUID.

## Findings

| source | as written | input that shows it | evidently intended | confidence | as-written member | corrected member |
|---|---|---|---|---|---|---|
| utils/uuid.go:53 | every 36-character text goes to the long-form parser | the short form of `ffffffff-ffff-73ff-bfff-ffc000000000` escapes 14 symbols and is 36 characters long, so decoding it fails | a 36-character text that is not canonical is read as a short form, so every short form decodes | not executed | Uuid.AsWrittenLosesSaturatedV7 | Uuid.DecodeUUID |
| todo/sync.go:24 | the lookup holds `&target[i]`, and the `append` at line 46 may move `target` to a new array, after which the update at line 39 writes the old one | target `[old@u1]` with no spare capacity, source `[new@u2, changed@u1]`: the result holds `old` at `u1`, and `Updated` is 1 | updates made through the lookup appear in the returned list | not executed | Reconcile.AsWrittenLosesUpdate | Reconcile.SyncTaskLists |
| todo/taskEnsure.go:79 | the identity tags are read with the decoder of utils/uuid.go:48-73, which rejects 36-character short forms | a task without identity tags, short identifiers preferred, given `ffffffff-ffff-73ff-bfff-ffc000000000`: it gets the 36-character `id` tag `srsrsrsrsrsrsrsrLsrsqsrsrsrsrttttttt`, and every later pass replaces it with a fresh identifier | an identity tag the ensurer wrote is chosen again, so a second pass changes nothing | not executed | Ensure.AsWrittenEnsurerReidentifies | Ensure.CorrectedTagsIdempotent |
