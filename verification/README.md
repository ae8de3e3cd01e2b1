# Dropzone upload core in Dafny

A functional model of the upload core of `dropzone-host-ether`, a browser
file-upload page. The model covers:

- the in-memory record store (`fileUploadService.js`): list, get, create,
  update, delete, and the simulated upload run that writes progress values;
- the session store (`uploadSessionService.js`), with the same CRUD shape;
- the upload page (`FileUploadSection.jsx`). Each handler awaits store calls
  and then rewrites its working set of records;
- the drop target's selection check (`DropZone.jsx`);
- the file card's status colour, status icon and controls (`FileCard.jsx`);
- the type icon and colour classifier (`FileIcon.jsx`).

Each store is a `seq` of records and every operation is a pure function.
Store operations return a `Result`, and a missing id gives `NotFound`.
The random progress increments `Math.random() * 15 + 5` are an explicit
parameter: a list of `real` increments, each in [5, 20). Timestamps are an
opaque `now` string parameter.

Modules, one per file:

| module | file | models |
|---|---|---|
| `Common` | common.dfy | `Option`/`Result`, the 50 MiB limit, string tests, `max + 1` ids, decimal printing of ids |
| `FileRecords` | file_records.dfy | `getAll`, `getById`, `create`, `update`, `delete` of the file store |
| `UploadSimulator` | upload_simulator.dfy | `simulateUpload`: the loop as written, and the corrected loop |
| `SessionStore` | session_store.dfy | the session store's CRUD |
| `Selection` | selection.dfy | `handleFiles` of the drop target |
| `UploadSection` | upload_section.dfy | the page's handlers, working-set maps and `stats` |
| `FileCard` | file_card.dfy | status colour, status icon, controls shown, the preview guard |
| `FileIcon` | file_icon.dfy | `getIconForType`, `getColorForType` |

Behaviour of the code that a reader might expect to be otherwise, and that
the model keeps:

- `getAll` lists records oldest first, in insertion order, because `create`
  pushes onto the end.
- A resumed upload does not continue from its stored progress: `resume`
  starts a new run, and every run writes 0 first
  (`UploadSection.ResumeRestartsFromZero`).
- `clearCompleted` drops every completed record from the working set even
  when its delete failed (`UploadSection.ClearCompleted`).
- There are two allow-lists: the drop target allows ten types and the store
  six (`Selection.StoreTypesNarrower`).
- The clamp of progress to 100 cannot fire, so a run can end short of 100
  and leave its card `uploading`; see Findings.

## Model

| member | source | states |
|---|---|---|
| Common.NextId | src/services/api/fileUploadService.js:34 | a new id is above every stored id, so it is not among them; it is 1 on an empty store and otherwise one more than a stored id |
| FileRecords.GetById | src/services/api/fileUploadService.js:13-18 | succeeds exactly when some record has the id, returns a stored record with that id, and otherwise fails with NotFound |
| FileRecords.GetAll | src/services/api/fileUploadService.js:8-11 | lists every stored record, in store order |
| FileRecords.GetByIdUnique | src/services/api/fileUploadService.js:13-18 | with unique ids, looking up any stored record's id returns that record |
| FileRecords.Create | src/services/api/fileUploadService.js:20-47 | fails with the type error exactly when the type is off the six-entry list, and with the size error exactly when an allowed type is over 52428800 bytes (that size itself is accepted); on success appends one record with an id above all stored ids, pending at progress 0, no share link or upload time, and a thumbnail exactly for `image/` types |
| FileRecords.CreateKeepsValid | src/services/api/fileUploadService.js:34-45 | a successful create keeps store ids unique |
| FileRecords.CreateThenGet | src/services/api/fileUploadService.js:34-47 | the created record is what `getById` then returns for its id |
| FileRecords.GetAllAfterCreate | src/services/api/fileUploadService.js:45 | after a create, listing gives the old list followed by the new record, in insertion order |
| FileRecords.ShareUrlInjective | src/services/api/fileUploadService.js:60 | different ids get different share links |
| FileRecords.Update | src/services/api/fileUploadService.js:49-65 | succeeds exactly when the id is stored; keeps every id, including the target's, whatever the patch says about `Id`; changes no other record; applies each patched field; on a completing patch without a truthy link sets the link to the id's URL and stamps the time, and otherwise keeps the merged link |
| FileRecords.UpdateKeepsValid | src/services/api/fileUploadService.js:49-56 | an update keeps store ids unique |
| FileRecords.Merge | src/services/api/fileUploadService.js:55-56 | the spread merge: each field the patch names takes the patch value, each field it leaves out keeps the record's, and the id never changes |
| FileRecords.MergeIdempotent | src/services/api/fileUploadService.js:55-56 | merging the same patch twice equals merging it once |
| FileRecords.UpdateIdempotent | src/services/api/fileUploadService.js:58-62 | repeating an update that leaves the link and time unset gives the same store and record, even at a later time: an existing share link is never replaced |
| FileRecords.Delete | src/services/api/fileUploadService.js:67-75 | succeeds exactly when the id is stored; removes one record with that id, returns it, keeps the records before and after it in order, and keeps every record with another id |
| FileRecords.DeleteIsWithout | src/services/api/fileUploadService.js:67-75 | with unique ids, delete leaves exactly the records with other ids, in order, and ids stay unique |
| UploadSimulator.Loop | src/services/api/fileUploadService.js:86-98 | the loop as written: values are written iff the start is at most 100; the first is the start; every value is at most 100 and each is above the one before; `completed` is written iff the last value is exactly 100; otherwise the next increment takes the total past 100 |
| UploadSimulator.LoopWritesUnclamped | src/services/api/fileUploadService.js:86-87 | each written value is the start plus the plain sum of the increments before it, so the clamp never changes a value |
| UploadSimulator.LoopIncreasing | src/services/api/fileUploadService.js:86 | any two written values strictly increase with position, so no value is written twice |
| UploadSimulator.LoopCompletesIffHits100 | src/services/api/fileUploadService.js:94-97 | the completion branch runs iff some written value is exactly 100 |
| UploadSimulator.LoopOnFifteens | src/services/api/fileUploadService.js:86-98 | with increments of 15, a run from 15k writes 15k, ..., 90 and does not complete |
| UploadSimulator.LoopStallsAtNinety | src/services/api/fileUploadService.js:86-98 | from 0 with increments of 15 the loop writes 0, 15, ..., 90 and ends without completing |
| UploadSimulator.ClampedLoop | src/services/api/fileUploadService.js:86-97 | the corrected loop always completes: it starts at the start value, ends at exactly 100, stays at most 100 and strictly increases |
| UploadSimulator.ClampedAgreesWhenExact | src/services/api/fileUploadService.js:86-97 | when the as-written loop completes, the corrected loop writes exactly the same values |
| UploadSimulator.WriteProgress | src/services/api/fileUploadService.js:89-90 | the progress writes keep every id and every other record; the target ends with the last value written |
| UploadSimulator.BeginRun | src/services/api/fileUploadService.js:82-92 | before completion the target is `uploading` with the last written progress, and nothing else in the store changes |
| UploadSimulator.ApplyRun | src/services/api/fileUploadService.js:82-100 | a run's store effects: ids and other records kept; a completed run leaves the record completed at 100 with a truthy link; an incomplete run leaves it `uploading` at the last value with link and time untouched |
| UploadSimulator.SimulateUpload | src/services/api/fileUploadService.js:78-101 | as written: fails iff the id is missing; otherwise the first value is 0, and either the record is completed at 100 with a link, or it is left `uploading` below 100 with its old link |
| UploadSimulator.SimulateUploadClamped | src/services/api/fileUploadService.js:78-101 | corrected: a run on a stored id reports 0 first and 100 last and always leaves the record completed with a truthy share link |
| UploadSimulator.StuckUploadExample | src/services/api/fileUploadService.js:78-101 | as written, one pending record run with increments of 15 ends `uploading` at 90 with no share link |
| UploadSimulator.ClampedUploadExample | src/services/api/fileUploadService.js:78-101 | corrected, the same run ends completed with the link for id 1 |
| SessionStore.GetById | src/services/api/uploadSessionService.js:13-18 | returns a stored session with the id exactly when one exists, otherwise NotFound |
| SessionStore.GetAll | src/services/api/uploadSessionService.js:8-11 | lists every stored session with its id, in store order |
| SessionStore.GetAllAfterCreate | src/services/api/uploadSessionService.js:20-31 | after a create, listing gives the old sessions followed by the new one |
| SessionStore.Create | src/services/api/uploadSessionService.js:20-31 | appends one session with a fresh `max + 1` id; drops a supplied `Id`; stamps `startTime`; keeps every other supplied field and adds none |
| SessionStore.CreateKeepsValid | src/services/api/uploadSessionService.js:22-29 | create keeps session ids unique |
| SessionStore.Update | src/services/api/uploadSessionService.js:33-42 | fails iff the id is missing; otherwise changes only that session; patched fields other than `Id` take the patch's value, unpatched fields keep theirs, and no other field appears |
| SessionStore.Delete | src/services/api/uploadSessionService.js:44-52 | fails iff the id is missing; otherwise removes one session with that id and keeps the rest in order |
| SessionStore.DeleteRemovesExactly | src/services/api/uploadSessionService.js:44-52 | with unique ids, no session with that id remains, ids stay unique, and every other session is kept |
| Selection.ValidOf | src/components/molecules/DropZone.jsx:63-74 | every file that passes is within the limit, on the ten-entry list, and one of the inputs |
| Selection.ErrorsOf | src/components/molecules/DropZone.jsx:64-71 | at most one message per input, and each message is the message of some input that fails selection |
| Selection.PartitionCovers | src/components/molecules/DropZone.jsx:63-74 | valid files plus error messages number exactly the inputs |
| Selection.ValidOfAppend | src/components/molecules/DropZone.jsx:66-74 | selection splits over concatenation, so valid files keep their input order |
| Selection.ValidOfMembers | src/components/molecules/DropZone.jsx:66-74 | an input is forwarded iff it passes both checks |
| Selection.HandleFiles | src/components/molecules/DropZone.jsx:54-84 | the loop computes the valid files and messages; the callback receives all valid files, exactly when there is at least one |
| Selection.SizeCheckedFirst | src/components/molecules/DropZone.jsx:67-70 | an oversized file gets only the size message, even if its type is also refused |
| Selection.StoreTypesNarrower | src/components/molecules/DropZone.jsx:57-61 | every type the store accepts passes selection, but a WebP image passes selection and `create` then refuses it |
| FileIcon.IconForType | src/components/atoms/FileIcon.jsx:4-14 | the icon is the one for the first rule that matches |
| FileIcon.ColorForType | src/components/atoms/FileIcon.jsx:16-26 | the colour is the one for the first rule that matches, in the same rule order as the icon |
| FileIcon.ColorDeterminesRule | src/components/atoms/FileIcon.jsx:4-25 | equal colours mean the same rule fired, so the two chains never disagree on the branch |
| FileIcon.ImageWins | src/components/atoms/FileIcon.jsx:5-17 | any `image/` type is Image / green whatever else it contains |
| FileIcon.FallbackIffNoRule | src/components/atoms/FileIcon.jsx:13-25 | File / surface-400 is returned exactly when no rule matches |
| FileIcon.PdfRule | src/components/atoms/FileIcon.jsx:8-20 | `application/pdf` is FileText / red-500 |
| FileIcon.AfterPrefixTests | src/components/atoms/FileIcon.jsx:9-22 | past the prefix and PDF tests, a zip type is an Archive, and a `word` type with no zip or rar is a blue FileText |
| FileIcon.WordRule | src/components/atoms/FileIcon.jsx:10-22 | `application/msword` is a FileText like PDF, but blue |
| FileIcon.ZipRule | src/components/atoms/FileIcon.jsx:9 | both zip MIME types are Archives |
| FileIcon.VideoBeforeZip | src/components/atoms/FileIcon.jsx:6-9 | `video/zip` is a Video: the earlier rule wins |
| FileCard.StatusColor | src/components/molecules/FileCard.jsx:25-33 | the colour for each of the four named statuses, and the default for any other string |
| FileCard.StatusIcon | src/components/molecules/FileCard.jsx:35-43 | the icon for each of the four named statuses, and the default for any other string |
| FileCard.StatusDefaults | src/components/molecules/FileCard.jsx:25-43 | the default colour and icon go to exactly the unnamed statuses, `pending` among them |
| FileCard.ControlsFor | src/components/molecules/FileCard.jsx:108-176 | pause and resume never show together; each record shows exactly one of cancel and remove; a progress bar shows iff pause or resume does; copy-link needs a completed record with a link; preview needs a removable image |
| FileCard.ControlsByStatus | src/components/molecules/FileCard.jsx:108-155 | pause iff uploading, resume iff paused, cancel iff pending, uploading or paused, remove iff completed or error, bar iff uploading or paused |
| FileCard.PreviewOpens | src/components/molecules/FileCard.jsx:56-60 | the preview opens only for an `image/` type with a thumbnail or link, and always for an image with a truthy thumbnail |
| FileCard.CreatedImagesPreview | src/components/molecules/FileCard.jsx:56-60 | a freshly created record opens a preview exactly when its type is `image/`, because images get a thumbnail |
| UploadSection.LoadFiles | src/components/organisms/FileUploadSection.jsx:22-33 | the working set becomes the store's list in insertion order, the store and count are untouched, and every shown record is the one `getById` returns for its id |
| UploadSection.SetProgress | src/components/organisms/FileUploadSection.jsx:67-72 | a progress callback changes only records with the id: their progress becomes the value, and they become completed iff it is at least 100, else uploading |
| UploadSection.MarkError | src/components/organisms/FileUploadSection.jsx:83-87 | a failed run sets the record to error at 0 and leaves the others alone |
| UploadSection.ReplaceById | src/components/organisms/FileUploadSection.jsx:77-79 | records with the id become the given record and others stay |
| UploadSection.AbsentIdUnchanged | src/components/organisms/FileUploadSection.jsx:68-87 | if the id is no longer in the working set, the progress, error and replace maps change nothing |
| UploadSection.ApplyProgress | src/components/organisms/FileUploadSection.jsx:67-73 | a run's callbacks in turn keep the working set's length and ids and leave records with other ids untouched |
| UploadSection.ApplyProgressShowsLast | src/components/organisms/FileUploadSection.jsx:67-73 | after all callbacks of a run the record shows the last value, and shows completed iff that value reached 100 |
| UploadSection.CreateEach | src/components/organisms/FileUploadSection.jsx:35-51 | the store gains the created records in order; created plus failed equals selected; the created records' metadata are the accepted files in selection order, all pending at 0 |
| UploadSection.CreatedIdsRise | src/components/organisms/FileUploadSection.jsx:38-47 | each created record's id is above every id stored before it, earlier creations included |
| UploadSection.CreatedKeepsValid | src/components/organisms/FileUploadSection.jsx:38-47 | a whole selection keeps store ids unique |
| UploadSection.HandleFilesSelected | src/components/organisms/FileUploadSection.jsx:35-61 | created records go ahead of the old working set in selection order; a refused file is skipped without affecting the rest; the runs started are those of the created ids |
| UploadSection.ShowRun | src/components/organisms/FileUploadSection.jsx:67-79 | after a run's callbacks and the final replace, the record shows the store's final copy and nothing else changed |
| UploadSection.RunOnPage | src/components/organisms/FileUploadSection.jsx:63-92 | once a run has an outcome: the count is back where it started; on success the store is the run's and the record shows the store's final copy; on failure the store is untouched and the record shows error at 0; other records never change |
| UploadSection.StartUpload | src/components/organisms/FileUploadSection.jsx:63-92 | `startUpload` with the run as written: the in-flight count is back where it started; the working set keeps length and ids, other records are untouched, and a run happens iff the id is stored |
| UploadSection.Finish | src/components/organisms/FileUploadSection.jsx:75-79 | the working set shows the record `getById` returns after the run |
| UploadSection.StartUploadShowsStoreCopy | src/components/organisms/FileUploadSection.jsx:63-80 | a run of a stored record reports 0 first and the shown record equals the store's copy; that copy is completed at 100 with a link iff the run completed, and otherwise stays `uploading` at its last value, below 100, with its old link |
| UploadSection.StartUploadMarksError | src/components/organisms/FileUploadSection.jsx:82-87 | a run of a missing record leaves the store alone and shows the record as error at 0 |
| UploadSection.StuckCardOnPage | src/components/organisms/FileUploadSection.jsx:63-92 | as written, increments of 15 leave the card `uploading` at 90 with no link and the stats counting one upload in progress, with no run in flight |
| UploadSection.StartUploadClamped | src/components/organisms/FileUploadSection.jsx:63-92 | corrected: the same handler over the clamped run always shows a stored record completed at 100 with a link |
| UploadSection.ClampedCardCompletes | src/components/organisms/FileUploadSection.jsx:63-92 | corrected, the increments that leave the as-written card stuck complete it with the link for id 1, counted as completed |
| UploadSection.HandlePause | src/components/organisms/FileUploadSection.jsx:94-104 | with the id stored, the stored record becomes its old self with status paused, every other store record and the in-flight count stay, and the working set shows that copy in place of the card with the id; otherwise nothing changes |
| UploadSection.HandleResume | src/components/organisms/FileUploadSection.jsx:106-113 | a stored record starts a new run that reports 0 first; the store keeps its ids, the working set keeps length, ids and every other card, and the card shows the store's copy after the run; a missing id changes nothing |
| UploadSection.ResumeRestartsFromZero | src/components/organisms/FileUploadSection.jsx:106-113 | a stored record shown with any positive progress shows 0% after the first callback of the resumed run: progress goes backwards |
| UploadSection.HandleDelete | src/components/organisms/FileUploadSection.jsx:115-133 | cancel or remove filters the id out of the working set only when the delete succeeded, removing one store record and adding none; a failed delete changes nothing; the in-flight count never changes |
| UploadSection.HandleDeleteRemovesEverywhere | src/components/organisms/FileUploadSection.jsx:115-133 | with unique ids, after cancel the id is in neither the store nor the working set, and the store's ids stay unique |
| UploadSection.DeleteEach | src/components/organisms/FileUploadSection.jsx:138-159 | deleting ids in turn and ignoring failures keeps only records of the store, and keeps every record whose id is not on the list |
| UploadSection.DeleteEachRemoves | src/components/organisms/FileUploadSection.jsx:138-159 | deleting a list of ids one by one and ignoring failures removes every listed id and keeps ids unique |
| UploadSection.DropCompleted | src/components/organisms/FileUploadSection.jsx:146 | no completed record is left and every kept record came from the list |
| UploadSection.DropCompletedAppend | src/components/organisms/FileUploadSection.jsx:146 | the filter splits over concatenation, so kept records stay in order |
| UploadSection.DropCompletedKeeps | src/components/organisms/FileUploadSection.jsx:146 | every record that is not completed is kept |
| UploadSection.CompletedIds | src/components/organisms/FileUploadSection.jsx:136-144 | every id on the delete list belongs to a record shown as completed |
| UploadSection.ClearCompleted | src/components/organisms/FileUploadSection.jsx:135-148 | the working set loses exactly the completed records, whatever the deletes did; the store gains nothing and keeps every record whose id no completed card carries; with unique ids, every completed id is gone from the store; the in-flight count is unchanged |
| UploadSection.ClearAll | src/components/organisms/FileUploadSection.jsx:150-163 | the working set becomes empty whatever the deletes did; the store gains nothing and keeps records with ids outside the working set; with unique ids, none of its ids is left in the store; the in-flight count is unchanged |
| UploadSection.CountsPartition | src/components/organisms/FileUploadSection.jsx:165-170 | the five per-status counts add up to the number of records |
| UploadSection.CountAppend | src/components/organisms/FileUploadSection.jsx:167-169 | a status count splits over concatenation |
| UploadSection.CountZeroIffAbsent | src/components/organisms/FileUploadSection.jsx:167-169 | a status count is zero exactly when no record has that status |
| UploadSection.StatsOf | src/components/organisms/FileUploadSection.jsx:165-170 | total is the list length and completed, uploading and error are the per-status counts, which together are at most the total; completed is zero iff nothing is completed |
| UploadSection.StatsAfterClearCompleted | src/components/organisms/FileUploadSection.jsx:146-170 | after clearing completed records the completed count is zero and the total falls by exactly the old completed count |

## Left out

- Latency (`delay`, `setTimeout`) is dropped. The random increments become
  the `steps` parameter: at least 21 increments, each in [5, 20). Twenty-one
  increments of at least 5 pass 100, so a run always ends within them.
- Concurrency is not modelled. Each handler runs alone to completion. The
  runs `handleFilesSelected` starts are returned as ids, and each one is a
  separate `StartUpload`. Because of this, two facts are stated but not
  modelled: `pause` does not stop a run in flight, and a run whose record
  was deleted fails on its next write.
- The timestamps from `new Date().toISOString()` are the `now` parameter.
- `parseInt` id coercion is left out; ids are integers.
- The mock seed data is left out; the initial store is any list of records.
- The `loading` flag, toasts, `console` logging, rendering, animation, the
  drag counter, `handleDrop`, `handleFileInput`, `formatFileSize`, clipboard
  copy, the preview modal and the progress bar are UI only and left out.
- The success toast reads `updatedFile.Name`, which records do not have;
  it is UI text and is not modelled.
- The `Math.max(...)` spread can fail on very large stores; that limit is
  not modelled.
- `progress` is a JavaScript double; the model uses exact `real`
  arithmetic, so rounding in sums of increments is not modelled.
- UploadSection.HandleFilesSelected: returns the ids whose runs are
  started rather than running them, because runs overlap.
- UploadSection.ClearCompleted: says nothing about records whose id appears
  twice in the store, because delete removes only the first match.
- SessionStore.Create: session fields are one value type `V`, because
  JavaScript sessions are untyped objects.

## Findings

| source | as written | input that shows it | evidently intended | confidence | as-written member | corrected member |
|---|---|---|---|---|---|---|
| src/services/api/fileUploadService.js:86-97 | The guard `progress <= 100` is checked after the increment, so the clamp on line 87 never runs. `completed` is written only when the running total lands on exactly 100. | Increments all 15: values 0, 15, ..., 90 are written. The next value, 105, ends the loop, so the record stays `uploading` at 90 with no share link. | Clamp the value to 100 before the guard, so every run ends by writing 100 and completing the record. | high, not executed | UploadSection.StuckCardOnPage | UploadSection.StartUploadClamped |
