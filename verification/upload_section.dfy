/** The upload page's state changes (src/components/organisms/FileUploadSection.jsx).
    The page keeps a working set of records (`files`) beside the store; each
    handler awaits store calls and then rewrites the working set through a
    `setFiles` list transformation. Handlers run one at a time here; toasts
    and console logging are dropped. */
module UploadSection {
  import opened Common
  import opened FileRecords
  import opened UploadSimulator

  /** The page: the store behind the service, the working set it shows, and
      the count of runs in flight. */
  datatype Page = Page(store: seq<FileRecord>, files: seq<FileRecord>, uploadingCount: int)

  /** `loadFiles`: show what `getAll` returns. Every record shown is then
      the one `getById` returns for its id, when the store's ids are unique. */
  function LoadFiles(p: Page): (r: Page)
    ensures r.store == p.store && r.uploadingCount == p.uploadingCount
    ensures r.files == GetAll(p.store)
    ensures Valid(p.store) ==> forall j :: 0 <= j < |r.files| ==> GetById(r.store, r.files[j].id) == Ok(r.files[j])
  {
    assert Valid(p.store) ==> forall j :: 0 <= j < |p.store| ==> GetById(p.store, p.store[j].id) == Ok(p.store[j]) by {
      if Valid(p.store) {
        forall j | 0 <= j < |p.store|
          ensures GetById(p.store, p.store[j].id) == Ok(p.store[j])
        {
          GetByIdUnique(p.store, j);
        }
      }
    }
    p.(files := GetAll(p.store))
  }

  // ---------------------------------------------------------------------------
  // Per-id list transformations: `prev.map(file => file.Id === id ? ... : file)`

  /** The record as one progress callback shows it. */
  function WithProgress(f: FileRecord, p: real): FileRecord {
    f.(progress := p, status := if p >= 100.0 then Completed else Uploading)
  }

  /** The working set after the progress callback reports `p` for `id`. */
  function SetProgress(files: seq<FileRecord>, id: int, p: real): (r: seq<FileRecord>)
    ensures |r| == |files| && Ids(r) == Ids(files)
    ensures forall j :: 0 <= j < |files| && files[j].id != id ==> r[j] == files[j]
    ensures forall j :: 0 <= j < |files| && files[j].id == id ==>
              && r[j].progress == p
              && (r[j].status == Completed <==> p >= 100.0)
              && (r[j].status != Completed ==> r[j].status == Uploading)
              && r[j] == files[j].(progress := r[j].progress, status := r[j].status)
  {
    var r := seq(|files|, j requires 0 <= j < |files| =>
      if files[j].id == id then WithProgress(files[j], p) else files[j]);
    SameIds(r, files);
    r
  }

  /** The working set after a failed run: the record shows `error` at 0. */
  function MarkError(files: seq<FileRecord>, id: int): (r: seq<FileRecord>)
    ensures |r| == |files| && Ids(r) == Ids(files)
    ensures forall j :: 0 <= j < |files| && files[j].id != id ==> r[j] == files[j]
    ensures forall j :: 0 <= j < |files| && files[j].id == id ==>
              r[j].status == Error && r[j].progress == 0.0
              && r[j] == files[j].(status := r[j].status, progress := r[j].progress)
  {
    var r := seq(|files|, j requires 0 <= j < |files| =>
      if files[j].id == id then files[j].(status := Error, progress := 0.0) else files[j]);
    SameIds(r, files);
    r
  }

  /** The working set with every record carrying `id` replaced by `rec`. */
  function ReplaceById(files: seq<FileRecord>, id: int, rec: FileRecord): (r: seq<FileRecord>)
    ensures |r| == |files|
    ensures forall j :: 0 <= j < |files| ==> r[j] == (if files[j].id == id then rec else files[j])
  {
    seq(|files|, j requires 0 <= j < |files| => if files[j].id == id then rec else files[j])
  }

  /** Two lists with the same id at every position have the same ids. */
  lemma SameIds(a: seq<FileRecord>, b: seq<FileRecord>)
    requires |a| == |b|
    requires forall j :: 0 <= j < |a| ==> a[j].id == b[j].id
    ensures Ids(a) == Ids(b)
  {
  }

  /** None of the per-id maps touches a working set without that id. */
  lemma {:induction false} AbsentIdUnchanged(files: seq<FileRecord>, id: int, p: real, rec: FileRecord)
    requires !HasId(files, id)
    ensures SetProgress(files, id, p) == files
    ensures MarkError(files, id) == files
    ensures ReplaceById(files, id, rec) == files
  {
    assert forall j :: 0 <= j < |files| ==> files[j].id != id by {
      forall j | 0 <= j < |files|
        ensures files[j].id != id
      {
        assert Ids(files)[j] == files[j].id;
      }
    }
  }

  /** The callbacks of a whole run, applied in order. */
  function ApplyProgress(files: seq<FileRecord>, id: int, writes: seq<real>): (r: seq<FileRecord>)
    ensures |r| == |files| && Ids(r) == Ids(files)
    ensures forall j :: 0 <= j < |files| && files[j].id != id ==> r[j] == files[j]
    decreases |writes|
  {
    if |writes| == 0 then files
    else ApplyProgress(SetProgress(files, id, writes[0]), id, writes[1..])
  }

  /** After a run's callbacks the record shows the last value reported, and
      shows `completed` exactly when that value reached 100. */
  lemma {:induction false} ApplyProgressShowsLast(files: seq<FileRecord>, id: int, writes: seq<real>, j: nat)
    requires |writes| > 0
    requires j < |files| && files[j].id == id
    ensures var r := ApplyProgress(files, id, writes);
            && r[j].progress == writes[|writes| - 1]
            && (r[j].status == Completed <==> writes[|writes| - 1] >= 100.0)
            && r[j].name == files[j].name && r[j].shareUrl == files[j].shareUrl
    decreases |writes|
  {
    var f1 := SetProgress(files, id, writes[0]);
    if |writes| > 1 {
      ApplyProgressShowsLast(f1, id, writes[1..], j);
    }
  }

  // ---------------------------------------------------------------------------
  // Adding files

  /** The metadata a record was created from. */
  function MetaOf(r: FileRecord): FileMeta {
    FileMeta(r.name, r.size, r.mimeType)
  }

  function Metas(rs: seq<FileRecord>): (ms: seq<FileMeta>)
    ensures |ms| == |rs|
    ensures forall i :: 0 <= i < |rs| ==> ms[i] == MetaOf(rs[i])
  {
    seq(|rs|, i requires 0 <= i < |rs| => MetaOf(rs[i]))
  }

  /** The selected files `create` accepts, in selection order. */
  function Accepted(fs: seq<FileMeta>): seq<FileMeta> {
    if |fs| == 0 then []
    else Accepted(fs[..|fs| - 1]) + (if Accepts(fs[|fs| - 1]) then [fs[|fs| - 1]] else [])
  }

  /** The outcome of the `for ... of` loop over the selection. */
  datatype Created = Created(store: seq<FileRecord>, created: seq<FileRecord>, failed: seq<FileMeta>)

  /** One `create` per selected file, in order; a rejected file is reported
      and skipped without affecting the others. */
  function CreateEach(store: seq<FileRecord>, selected: seq<FileMeta>): (r: Created)
    ensures r.store == store + r.created
    ensures |r.created| + |r.failed| == |selected|
    ensures Metas(r.created) == Accepted(selected)
    ensures forall k :: 0 <= k < |r.created| ==> r.created[k].status == Pending && r.created[k].progress == 0.0
    decreases |selected|
  {
    if |selected| == 0 then Created(store, [], [])
    else
      var prev := CreateEach(store, selected[..|selected| - 1]);
      var f := selected[|selected| - 1];
      match Create(prev.store, f)
      case Ok(st) =>
        assert Metas(prev.created + [st.record]) == Metas(prev.created) + [MetaOf(st.record)];
        Created(st.store, prev.created + [st.record], prev.failed)
      case Err(_) => Created(prev.store, prev.created, prev.failed + [f])
  }

  /** Every record of `s` has an id below `n`. */
  predicate IdsBelow(s: seq<FileRecord>, n: int) {
    forall i :: 0 <= i < |s| ==> s[i].id < n
  }

  /** Each created record gets an id above every id stored before it: the
      store's ids and those of the records created earlier in the same
      selection. */
  lemma {:induction false} CreatedIdsRise(store: seq<FileRecord>, selected: seq<FileMeta>)
    ensures forall k :: 0 <= k < |CreateEach(store, selected).created| ==>
              IdsBelow(store + CreateEach(store, selected).created[..k], CreateEach(store, selected).created[k].id)
    decreases |selected|
  {
    if |selected| > 0 {
      var prev := CreateEach(store, selected[..|selected| - 1]);
      CreatedIdsRise(store, selected[..|selected| - 1]);
      var f := selected[|selected| - 1];
      var c := CreateEach(store, selected).created;
      if Create(prev.store, f).Ok? {
        var rec := Create(prev.store, f).value.record;
        assert c == prev.created + [rec];
        forall k | 0 <= k < |c|
          ensures IdsBelow(store + c[..k], c[k].id)
        {
          if k < |prev.created| {
            assert c[..k] == prev.created[..k];
            assert c[k] == prev.created[k];
          } else {
            assert c[..k] == prev.created;
          }
        }
      }
    }
  }

  /** Ids that rise above everything stored before them leave a valid store
      valid. */
  lemma CreatedKeepsValid(store: seq<FileRecord>, selected: seq<FileMeta>)
    requires Valid(store)
    ensures Valid(CreateEach(store, selected).store)
  {
    var r := CreateEach(store, selected);
    CreatedIdsRise(store, selected);
    var ids := Ids(r.store);
    forall a, b | 0 <= a < b < |ids|
      ensures ids[a] != ids[b]
    {
      if b < |store| {
        assert ids[a] == Ids(store)[a] && ids[b] == Ids(store)[b];
      } else {
        var k := b - |store|;
        assert r.store[b] == r.created[k];
        assert IdsBelow(store + r.created[..k], r.created[k].id);
        assert r.store[a] == (store + r.created[..k])[a];
      }
    }
  }

  /** The result of `handleFilesSelected`: the page afterwards and the ids
      whose uploads it then starts. */
  datatype Submitted = Submitted(page: Page, failed: seq<FileMeta>, toStart: seq<int>)

  /** `handleFilesSelected`: create each file, then put the created records
      ahead of the existing working set in selection order. */
  function HandleFilesSelected(p: Page, selected: seq<FileMeta>): (r: Submitted)
    ensures var c := CreateEach(p.store, selected);
            && r.page.files == c.created + p.files
            && r.page.store == p.store + c.created
            && r.toStart == Ids(c.created)
            && r.failed == c.failed
    ensures Metas(r.page.files[..|r.toStart|]) == Accepted(selected)
    ensures |r.toStart| + |r.failed| == |selected|
    ensures r.page.uploadingCount == p.uploadingCount
  {
    var c := CreateEach(p.store, selected);
    var files := if |c.created| > 0 then c.created + p.files else p.files;
    assert (c.created + p.files)[..|c.created|] == c.created;
    Submitted(Page(p.store + c.created, files, p.uploadingCount), c.failed, Ids(c.created))
  }

  // ---------------------------------------------------------------------------
  // Upload runs

  /** `startUpload` outcome: the page afterwards and, when the run started,
      what it reported. */
  datatype Started = Started(page: Page, trace: Option<Trace>)

  /** The working set once a run's callbacks have been shown and the record
      has been replaced by the store's final copy. */
  function ShowRun(files: seq<FileRecord>, id: int, writes: seq<real>, final: FileRecord): (r: seq<FileRecord>)
    requires final.id == id
    ensures |r| == |files| && Ids(r) == Ids(files)
    ensures forall j :: 0 <= j < |files| ==> r[j] == if files[j].id == id then final else files[j]
  {
    var shown := ApplyProgress(files, id, writes);
    var r := ReplaceById(shown, id, final);
    assert forall j :: 0 <= j < |files| ==> shown[j].id == files[j].id by {
      forall j | 0 <= j < |files|
        ensures shown[j].id == files[j].id
      {
        assert Ids(shown)[j] == Ids(files)[j];
      }
    }
    assert forall j :: 0 <= j < |r| ==> r[j].id == files[j].id by {
      forall j | 0 <= j < |r|
        ensures r[j].id == files[j].id
      {
        assert r[j] == if shown[j].id == id then final else shown[j];
      }
    }
    SameIds(r, files);
    r
  }

  /** The page once a run has reported `outcome`: on success the working set
      shows the run's callbacks and then the store's final copy; on failure
      the record is shown as `error` at 0. The in-flight count goes up by one
      before the run and down by one in `finally`. */
  function RunOnPage(p: Page, id: int, outcome: Result<Run>): (r: Started)
    requires outcome.Ok? ==> HasId(outcome.value.store, id)
    ensures r.page.uploadingCount == p.uploadingCount
    ensures |r.page.files| == |p.files| && Ids(r.page.files) == Ids(p.files)
    ensures forall j :: 0 <= j < |p.files| && p.files[j].id != id ==> r.page.files[j] == p.files[j]
    ensures r.trace.Some? <==> outcome.Ok?
    ensures outcome.Ok? ==> r.page.store == outcome.value.store && r.trace.value == outcome.value.trace
    ensures outcome.Ok? ==> forall j :: 0 <= j < |p.files| && p.files[j].id == id ==>
              r.page.files[j] == GetById(outcome.value.store, id).value
    ensures outcome.Err? ==> r.page.store == p.store
    ensures outcome.Err? ==> forall j :: 0 <= j < |p.files| && p.files[j].id == id ==>
              r.page.files[j] == p.files[j].(status := Error, progress := 0.0)
  {
    var during := p.uploadingCount + 1;
    if outcome.Ok? then
      Started(Finish(p, id, outcome.value, during - 1), Some(outcome.value.trace))
    else
      Started(Page(p.store, MarkError(p.files, id), during - 1), None)
  }

  /** `startUpload(id)`: count the run in, run `simulateUpload` as written
      while each callback rewrites the working set, then replace the record
      with the store's copy; on failure show `error` at 0; count the run out
      in `finally`. */
  function StartUpload(p: Page, id: int, steps: seq<real>, now: string): (r: Started)
    requires ValidSteps(steps) && |steps| >= MinSteps
    ensures r.page.uploadingCount == p.uploadingCount
    ensures |r.page.files| == |p.files| && Ids(r.page.files) == Ids(p.files)
    ensures forall j :: 0 <= j < |p.files| && p.files[j].id != id ==> r.page.files[j] == p.files[j]
    ensures r.trace.Some? <==> HasId(p.store, id)
  {
    RunOnPage(p, id, SimulateUpload(p.store, id, steps, now))
  }

  /** The page once a run has finished: the store it left and the working
      set showing the record `getById` then returns. */
  function Finish(p: Page, id: int, run: Run, count: int): (r: Page)
    requires HasId(run.store, id)
    ensures r.store == run.store && r.uploadingCount == count
    ensures |r.files| == |p.files| && Ids(r.files) == Ids(p.files)
    ensures forall j :: 0 <= j < |p.files| ==>
              r.files[j] == if p.files[j].id == id then GetById(run.store, id).value else p.files[j]
  {
    Page(run.store, ShowRun(p.files, id, run.trace.writes, GetById(run.store, id).value), count)
  }

  /** A run of a stored record reports 0 first, keeps the store's ids, and
      leaves the working set showing exactly the store's final copy. That
      copy is completed at 100 with a share link only when the run reached
      the completion branch; otherwise it stays `uploading` below 100 with
      the link it had. */
  lemma StartUploadShowsStoreCopy(p: Page, id: int, steps: seq<real>, now: string)
    requires ValidSteps(steps) && |steps| >= MinSteps
    requires HasId(p.store, id)
    ensures var r := StartUpload(p, id, steps, now);
            && r.trace.Some? && |r.trace.value.writes| > 0 && r.trace.value.writes[0] == 0.0
            && Ids(r.page.store) == Ids(p.store)
    ensures var r := StartUpload(p, id, steps, now);
            forall j :: 0 <= j < |p.files| && p.files[j].id == id ==>
              GetById(r.page.store, id) == Ok(r.page.files[j])
    ensures var r := StartUpload(p, id, steps, now);
            r.trace.Some? && r.trace.value.completed ==>
              forall j :: 0 <= j < |p.files| && p.files[j].id == id ==>
                r.page.files[j].status == Completed && r.page.files[j].progress == 100.0
                && Truthy(r.page.files[j].shareUrl)
    ensures var r := StartUpload(p, id, steps, now);
            r.trace.Some? && !r.trace.value.completed && |r.trace.value.writes| > 0 ==>
              forall j :: 0 <= j < |p.files| && p.files[j].id == id ==>
                r.page.files[j].status == Uploading
                && r.page.files[j].progress == r.trace.value.writes[|r.trace.value.writes| - 1] < 100.0
                && r.page.files[j].shareUrl == GetById(p.store, id).value.shareUrl
  {
    var run := SimulateUpload(p.store, id, steps, now).value;
    var r := StartUpload(p, id, steps, now);
    assert r == RunOnPage(p, id, Ok(run));
  }

  /** A run of a record the store lacks leaves the store alone and shows
      the record as `error` at 0. */
  lemma StartUploadMarksError(p: Page, id: int, steps: seq<real>, now: string)
    requires ValidSteps(steps) && |steps| >= MinSteps
    requires !HasId(p.store, id)
    ensures StartUpload(p, id, steps, now).page.store == p.store
    ensures forall j :: 0 <= j < |p.files| && p.files[j].id == id ==>
              StartUpload(p, id, steps, now).page.files[j] == p.files[j].(status := Error, progress := 0.0)
  {
  }

  /** On the page, as written: the fifteen-step run leaves the card
      `uploading` at 90 with no share link, counted as uploading although
      nothing will advance it. */
  lemma StuckCardOnPage(now: string)
    ensures var r := StartUpload(Page(OnePending(), OnePending(), 0), 1, Fifteens(), now);
            && r.page.files[0].status == Uploading && r.page.files[0].progress == 90.0
            && r.page.files[0].shareUrl == None
            && StatsOf(r.page.files) == Stats(1, 0, 1, 0)
            && r.page.uploadingCount == 0
  {
    var p := Page(OnePending(), OnePending(), 0);
    StuckUploadExample(now);
    OnePendingHasId();
    var run := SimulateUpload(OnePending(), 1, Fifteens(), now).value;
    var r := StartUpload(p, 1, Fifteens(), now);
    assert r == RunOnPage(p, 1, Ok(run));
    assert p.files[0].id == 1;
    assert r.page.files[0] == run.record;
    StatsOfOne(r.page.files);
  }

  /** The corrected page: the same handler driven by the clamped run. */
  function StartUploadClamped(p: Page, id: int, steps: seq<real>, now: string): (r: Started)
    requires ValidSteps(steps) && |steps| >= MinSteps
    ensures r.page.uploadingCount == p.uploadingCount
    ensures |r.page.files| == |p.files| && Ids(r.page.files) == Ids(p.files)
    ensures r.trace.Some? <==> HasId(p.store, id)
    ensures r.trace.Some? ==> r.trace.value.completed
    ensures HasId(p.store, id) ==> forall j :: 0 <= j < |p.files| && p.files[j].id == id ==>
              && r.page.files[j].status == Completed && r.page.files[j].progress == 100.0
              && Truthy(r.page.files[j].shareUrl)
  {
    RunOnPage(p, id, SimulateUploadClamped(p.store, id, steps, now))
  }

  /** Corrected, on the page: the increments that leave the as-written card
      stuck at 90 leave this one completed with its link. */
  lemma ClampedCardCompletes(now: string)
    ensures var r := StartUploadClamped(Page(OnePending(), OnePending(), 0), 1, Fifteens(), now);
            && r.page.files[0].status == Completed
            && r.page.files[0].shareUrl == Some(ShareUrl(1))
            && StatsOf(r.page.files) == Stats(1, 1, 0, 0)
  {
    var p := Page(OnePending(), OnePending(), 0);
    ClampedUploadExample(now);
    OnePendingHasId();
    var run := SimulateUploadClamped(OnePending(), 1, Fifteens(), now).value;
    var r := StartUploadClamped(p, 1, Fifteens(), now);
    assert r == RunOnPage(p, 1, Ok(run));
    assert p.files[0].id == 1;
    assert r.page.files[0] == run.record;
    StatsOfOne(r.page.files);
  }

  /** The stats of a one-record working set count that record's status. */
  lemma StatsOfOne(files: seq<FileRecord>)
    requires |files| == 1
    ensures StatsOf(files) == Stats(1, if files[0].status == Completed then 1 else 0,
                                       if files[0].status == Uploading then 1 else 0,
                                       if files[0].status == Error then 1 else 0)
  {
    assert files[1..] == [];
  }

  /** `handlePause`: mark the record paused in the store and show the
      store's copy; on failure nothing changes. A run already in flight is
      not stopped by this. */
  function HandlePause(p: Page, id: int, now: string): (r: Page)
    ensures !HasId(p.store, id) ==> r == p
    ensures HasId(p.store, id) ==>
              && Ids(r.store) == Ids(p.store)
              && GetById(r.store, id).value.status == Paused
              && |r.files| == |p.files|
              && (forall j :: 0 <= j < |p.files| ==>
                    r.files[j] == if p.files[j].id == id then GetById(r.store, id).value else p.files[j])
    ensures HasId(p.store, id) ==> forall j :: 0 <= j < |p.store| && p.store[j].id != id ==> r.store[j] == p.store[j]
    ensures HasId(p.store, id) ==> GetById(r.store, id).value == GetById(p.store, id).value.(status := Paused)
    ensures r.uploadingCount == p.uploadingCount
  {
    match Update(p.store, id, StatusPatch(Paused), now)
    case Ok(st) => Page(st.store, ReplaceById(p.files, id, st.record), p.uploadingCount)
    case Err(_) => p
  }

  /** `handleResume`: mark the record uploading, then start a fresh run,
      which reports 0 first whatever progress the record had. */
  function HandleResume(p: Page, id: int, steps: seq<real>, now: string): (r: Started)
    requires ValidSteps(steps) && |steps| >= MinSteps
    ensures !HasId(p.store, id) ==> r == Started(p, None)
    ensures HasId(p.store, id) ==> r.trace.Some? && |r.trace.value.writes| > 0 && r.trace.value.writes[0] == 0.0
    ensures r.page.uploadingCount == p.uploadingCount
    ensures |r.page.files| == |p.files| && Ids(r.page.files) == Ids(p.files)
    ensures forall j :: 0 <= j < |p.files| && p.files[j].id != id ==> r.page.files[j] == p.files[j]
    ensures Ids(r.page.store) == Ids(p.store)
    ensures HasId(p.store, id) ==> forall j :: 0 <= j < |p.files| && p.files[j].id == id ==>
              GetById(r.page.store, id) == Ok(r.page.files[j])
  {
    match Update(p.store, id, StatusPatch(Uploading), now)
    case Ok(st) =>
      assert HasId(st.store, id);
      StartUploadShowsStoreCopy(p.(store := st.store), id, steps, now);
      StartUpload(p.(store := st.store), id, steps, now)
    case Err(_) => Started(p, None)
  }

  /** A record shown with some progress that is resumed is shown at 0%
      after the first callback of the new run: progress goes backwards. */
  lemma ResumeRestartsFromZero(p: Page, id: int, steps: seq<real>, now: string, j: nat)
    requires ValidSteps(steps) && |steps| >= MinSteps
    requires HasId(p.store, id)
    requires j < |p.files| && p.files[j].id == id && p.files[j].progress > 0.0
    ensures var w := HandleResume(p, id, steps, now).trace.value.writes;
            SetProgress(p.files, id, w[0])[j].progress == 0.0 < p.files[j].progress
  {
  }

  // ---------------------------------------------------------------------------
  // Cancel, remove and the bulk clears

  /** `handleCancel` and `handleRemove`: delete the record from the store and,
      only if that succeeded, filter it out of the working set. */
  function HandleDelete(p: Page, id: int): (r: Page)
    ensures !HasId(p.store, id) ==> r == p
    ensures HasId(p.store, id) ==>
              && r.files == Without(p.files, id)
              && !HasId(r.files, id)
              && |r.store| == |p.store| - 1
    ensures forall x :: x in r.store ==> x in p.store
    ensures r.uploadingCount == p.uploadingCount
  {
    match Delete(p.store, id)
    case Ok(st) => Page(st.store, Without(p.files, id), p.uploadingCount)
    case Err(_) => p
  }

  /** A cancel in a valid store leaves no record with that id in either the
      store or the working set, and keeps every other record. */
  lemma HandleDeleteRemovesEverywhere(p: Page, id: int)
    requires Valid(p.store) && HasId(p.store, id)
    ensures var r := HandleDelete(p, id);
            && r.store == Without(p.store, id)
            && !HasId(r.store, id) && !HasId(r.files, id)
            && Valid(r.store)
  {
    DeleteIsWithout(p.store, id);
  }

  /** Delete every id in turn, ignoring the ones that fail. */
  function DeleteEach(store: seq<FileRecord>, ids: seq<int>): (r: seq<FileRecord>)
    ensures |r| <= |store|
    ensures forall x :: x in r ==> x in store
    ensures forall x :: x in store && x.id !in ids ==> x in r
    decreases |ids|
  {
    if |ids| == 0 then store
    else
      var next := match Delete(store, ids[0]) case Ok(st) => st.store case Err(_) => store;
      assert forall x :: x in store && x.id != ids[0] ==> x in next;
      assert forall x :: x in next ==> x in store by {
        if HasId(store, ids[0]) {
          var i :| 0 <= i < |store| && store[i] == Delete(store, ids[0]).value.record
                    && next == store[..i] + store[i + 1..];
        }
      }
      DeleteEach(next, ids[1..])
  }

  /** A list whose records all come from another has no id the other lacks. */
  lemma HasIdOfSubset(a: seq<FileRecord>, b: seq<FileRecord>, id: int)
    requires forall x :: x in a ==> x in b
    requires HasId(a, id)
    ensures HasId(b, id)
  {
    var j :| 0 <= j < |a| && Ids(a)[j] == id;
    assert a[j] in b;
    var k :| 0 <= k < |b| && b[k] == a[j];
    assert Ids(b)[k] == id;
  }

  /** In a valid store every listed id is gone afterwards, whether or not
      an earlier delete on the list failed, and the store stays valid. */
  lemma {:induction false} DeleteEachRemoves(store: seq<FileRecord>, ids: seq<int>)
    requires Valid(store)
    ensures Valid(DeleteEach(store, ids))
    ensures forall k :: 0 <= k < |ids| ==> !HasId(DeleteEach(store, ids), ids[k])
    decreases |ids|
  {
    if |ids| > 0 {
      var next := match Delete(store, ids[0]) case Ok(st) => st.store case Err(_) => store;
      if HasId(store, ids[0]) {
        DeleteIsWithout(store, ids[0]);
      }
      DeleteEachRemoves(next, ids[1..]);
      var r := DeleteEach(store, ids);
      assert r == DeleteEach(next, ids[1..]);
      if HasId(r, ids[0]) {
        HasIdOfSubset(r, next, ids[0]);
      }
      forall k | 1 <= k < |ids|
        ensures !HasId(r, ids[k])
      {
        assert ids[k] == ids[1..][k - 1];
      }
    }
  }

  /** `files.filter(file => file.status !== 'completed')`. */
  function DropCompleted(files: seq<FileRecord>): (r: seq<FileRecord>)
    ensures |r| <= |files|
    ensures forall j :: 0 <= j < |r| ==> r[j].status != Completed && r[j] in files
  {
    if |files| == 0 then []
    else (if files[0].status == Completed then [] else [files[0]]) + DropCompleted(files[1..])
  }

  /** The filter splits along concatenation, so the kept records stay in
      their order. */
  lemma {:induction false} DropCompletedAppend(a: seq<FileRecord>, b: seq<FileRecord>)
    ensures DropCompleted(a + b) == DropCompleted(a) + DropCompleted(b)
  {
    if |a| == 0 {
      assert a + b == b;
    } else {
      assert (a + b)[1..] == a[1..] + b;
      DropCompletedAppend(a[1..], b);
    }
  }

  /** Every record that is not completed survives the filter. */
  lemma {:induction false} DropCompletedKeeps(files: seq<FileRecord>, x: FileRecord)
    requires x in files && x.status != Completed
    ensures x in DropCompleted(files)
  {
    if files[0] != x {
      DropCompletedKeeps(files[1..], x);
    }
  }

  /** Some record of the working set with id `id` is shown as completed. */
  predicate ShownCompleted(files: seq<FileRecord>, id: int) {
    exists j :: 0 <= j < |files| && files[j].status == Completed && files[j].id == id
  }

  /** The ids of the completed records, in working-set order: each one
      belongs to a record shown as completed. */
  function CompletedIds(files: seq<FileRecord>): (ids: seq<int>)
    ensures forall k :: 0 <= k < |ids| ==> ShownCompleted(files, ids[k])
  {
    if |files| == 0 then []
    else
      var rest := CompletedIds(files[1..]);
      assert forall k :: 0 <= k < |rest| ==> ShownCompleted(files, rest[k]) by {
        forall k | 0 <= k < |rest|
          ensures ShownCompleted(files, rest[k])
        {
          var j :| 0 <= j < |files[1..]| && files[1..][j].status == Completed && files[1..][j].id == rest[k];
          assert files[j + 1] == files[1..][j];
        }
      }
      assert files[0].status == Completed ==> ShownCompleted(files, files[0].id);
      (if files[0].status == Completed then [files[0].id] else []) + rest
  }

  /** `clearCompleted`: delete each completed record, ignoring failures,
      then drop every completed record from the working set. */
  function ClearCompleted(p: Page): (r: Page)
    ensures r.files == DropCompleted(p.files)
    ensures forall j :: 0 <= j < |r.files| ==> r.files[j].status != Completed
    ensures forall x :: x in p.files && x.status != Completed ==> x in r.files
    ensures Valid(p.store) ==> Valid(r.store)
    ensures Valid(p.store) ==> forall j :: 0 <= j < |p.files| && p.files[j].status == Completed ==>
              !HasId(r.store, p.files[j].id)
    ensures forall x :: x in p.store && !ShownCompleted(p.files, x.id) ==> x in r.store
    ensures forall x :: x in r.store ==> x in p.store
    ensures r.uploadingCount == p.uploadingCount
  {
    var store := DeleteEach(p.store, CompletedIds(p.files));
    assert forall x :: x in p.store && !ShownCompleted(p.files, x.id) ==> x.id !in CompletedIds(p.files);
    assert Valid(p.store) ==> Valid(store) && forall j :: 0 <= j < |p.files| && p.files[j].status == Completed ==>
              !HasId(store, p.files[j].id) by {
      if Valid(p.store) {
        DeleteEachRemoves(p.store, CompletedIds(p.files));
        forall j | 0 <= j < |p.files| && p.files[j].status == Completed
          ensures !HasId(store, p.files[j].id)
        {
          CompletedIdsCover(p.files, j);
        }
      }
    }
    assert forall x :: x in p.files && x.status != Completed ==> x in DropCompleted(p.files) by {
      forall x | x in p.files && x.status != Completed
        ensures x in DropCompleted(p.files)
      {
        DropCompletedKeeps(p.files, x);
      }
    }
    Page(store, DropCompleted(p.files), p.uploadingCount)
  }

  /** Every completed record's id is on the delete list. */
  lemma {:induction false} CompletedIdsCover(files: seq<FileRecord>, j: nat)
    requires j < |files| && files[j].status == Completed
    ensures files[j].id in CompletedIds(files)
  {
    if j > 0 {
      CompletedIdsCover(files[1..], j - 1);
    }
  }

  /** `clearAll`: delete every record of the working set, ignoring
      failures, then empty the working set. */
  function ClearAll(p: Page): (r: Page)
    ensures r.files == []
    ensures Valid(p.store) ==> Valid(r.store) && forall j :: 0 <= j < |p.files| ==> !HasId(r.store, p.files[j].id)
    ensures forall x :: x in p.store && !HasId(p.files, x.id) ==> x in r.store
    ensures forall x :: x in r.store ==> x in p.store
    ensures r.uploadingCount == p.uploadingCount
  {
    var store := DeleteEach(p.store, Ids(p.files));
    assert Valid(p.store) ==> Valid(store) && forall j :: 0 <= j < |p.files| ==> !HasId(store, p.files[j].id) by {
      if Valid(p.store) {
        DeleteEachRemoves(p.store, Ids(p.files));
        assert forall j :: 0 <= j < |p.files| ==> p.files[j].id == Ids(p.files)[j];
      }
    }
    Page(store, [], p.uploadingCount)
  }

  // ---------------------------------------------------------------------------
  // Derived counts

  /** How many records have status `st`. */
  function Count(files: seq<FileRecord>, st: Status): (n: nat)
    ensures n <= |files|
  {
    if |files| == 0 then 0
    else (if files[0].status == st then 1 else 0) + Count(files[1..], st)
  }

  /** Counting splits over concatenation. */
  lemma {:induction false} CountAppend(a: seq<FileRecord>, b: seq<FileRecord>, st: Status)
    ensures Count(a + b, st) == Count(a, st) + Count(b, st)
  {
    if |a| == 0 {
      assert a + b == b;
    } else {
      assert (a + b)[1..] == a[1..] + b;
      CountAppend(a[1..], b, st);
    }
  }

  /** The five status counts add up to the number of records. */
  lemma {:induction false} CountsPartition(files: seq<FileRecord>)
    ensures Count(files, Pending) + Count(files, Uploading) + Count(files, Paused)
            + Count(files, Completed) + Count(files, Error) == |files|
  {
    if |files| > 0 {
      CountsPartition(files[1..]);
    }
  }

  /** The `stats` object the page renders. */
  datatype Stats = Stats(total: nat, completed: nat, uploading: nat, error: nat)

  /** `stats`: the total and three per-status counts, recomputed from the
      working set. */
  function StatsOf(files: seq<FileRecord>): (r: Stats)
    ensures r.total == |files|
    ensures r.completed == Count(files, Completed) && r.uploading == Count(files, Uploading)
            && r.error == Count(files, Error)
    ensures r.completed + r.uploading + r.error <= r.total
    ensures r.completed == 0 <==> forall j :: 0 <= j < |files| ==> files[j].status != Completed
  {
    CountsPartition(files);
    CountZeroIffAbsent(files, Completed);
    Stats(|files|, Count(files, Completed), Count(files, Uploading), Count(files, Error))
  }

  /** A count is zero exactly when no record has that status. */
  lemma {:induction false} CountZeroIffAbsent(files: seq<FileRecord>, st: Status)
    ensures Count(files, st) == 0 <==> forall j :: 0 <= j < |files| ==> files[j].status != st
  {
    if |files| > 0 {
      CountZeroIffAbsent(files[1..], st);
      assert forall j :: 1 <= j < |files| ==> files[j] == files[1..][j - 1];
    }
  }

  /** After `clearCompleted` the completed count is zero and the total drops
      by exactly the old completed count. */
  lemma {:induction false} StatsAfterClearCompleted(files: seq<FileRecord>)
    ensures StatsOf(DropCompleted(files)).completed == 0
    ensures StatsOf(DropCompleted(files)).total == |files| - StatsOf(files).completed
  {
    if |files| > 0 {
      StatsAfterClearCompleted(files[1..]);
    }
  }
}
