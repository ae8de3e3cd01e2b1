/** The in-memory file-upload record store (src/services/api/fileUploadService.js):
    a list of records in insertion order with get, create, patch-update and
    delete. Store latency is dropped; each call is a pure function from the
    store before the call to the store after it. */
module FileRecords {
  import opened Common

  /** The lifecycle states a record moves through. */
  datatype Status = Pending | Uploading | Paused | Completed | Error

  /** The status string the record carries in JavaScript. */
  function StatusName(st: Status): string {
    match st
    case Pending => "pending"
    case Uploading => "uploading"
    case Paused => "paused"
    case Completed => "completed"
    case Error => "error"
  }

  /** What the page hands the store: `{ name, size, type }` of a chosen file. */
  datatype FileMeta = FileMeta(name: string, size: nat, mimeType: string)

  /** One stored upload record. Timestamps are opaque strings. */
  datatype FileRecord = FileRecord(
    id: int,
    name: string,
    size: nat,
    mimeType: string,
    progress: real,
    status: Status,
    shareUrl: Option<string>,
    thumbnailUrl: Option<string>,
    uploadedAt: Option<string>)

  /** A partial update: `None` leaves a field alone. The `id` entry is
      accepted and then ignored, as the store drops `Id` from every patch. */
  datatype Patch = Patch(
    id: Option<int>,
    name: Option<string>,
    size: Option<nat>,
    mimeType: Option<string>,
    progress: Option<real>,
    status: Option<Status>,
    shareUrl: Option<Option<string>>,
    thumbnailUrl: Option<Option<string>>,
    uploadedAt: Option<Option<string>>)

  /** `{ status }`. */
  function StatusPatch(st: Status): Patch {
    Patch(None, None, None, None, None, Some(st), None, None, None)
  }

  /** `{ progress }`. */
  function ProgressPatch(p: real): Patch {
    Patch(None, None, None, None, Some(p), None, None, None, None)
  }

  /** `{ status: 'completed', progress: 100 }`. */
  function CompletePatch(): Patch {
    Patch(None, None, None, None, Some(100.0), Some(Completed), None, None, None)
  }

  /** A store call that changes the list also hands back the affected record. */
  datatype Stored = Stored(store: seq<FileRecord>, record: FileRecord)

  /** The only types `create` accepts. */
  const StoreTypes: seq<string> :=
    ["image/jpeg", "image/png", "image/gif", "application/pdf", "text/plain", "application/zip"]

  const ShareUrlPrefix: string := "https://dropzone.app/file/"
  const ThumbnailPrefix: string := "https://picsum.photos/200/200?random="

  /** The share link the store generates for a record. */
  function ShareUrl(id: int): string {
    ShareUrlPrefix + IntToDecimal(id)
  }

  /** Records with different ids get different share links. */
  lemma ShareUrlInjective(a: int, b: int)
    requires a != b
    ensures ShareUrl(a) != ShareUrl(b)
  {
    if ShareUrl(a) == ShareUrl(b) {
      PrefixedIdInjective(ShareUrlPrefix, a, b);
    }
  }

  /** The ids of the records, in store order. */
  function Ids(s: seq<FileRecord>): (ids: seq<int>)
    ensures |ids| == |s|
    ensures forall i :: 0 <= i < |s| ==> ids[i] == s[i].id
  {
    seq(|s|, i requires 0 <= i < |s| => s[i].id)
  }

  /** Some record carries `id`. */
  predicate HasId(s: seq<FileRecord>, id: int) {
    id in Ids(s)
  }

  /** The store invariant: no two records share an id. */
  predicate Valid(s: seq<FileRecord>) {
    Unique(Ids(s))
  }

  /** `getAll`: a copy of the list in insertion order. */
  function GetAll(s: seq<FileRecord>): (r: seq<FileRecord>)
    ensures |r| == |s|
    ensures forall i :: 0 <= i < |s| ==> r[i] == s[i]
  {
    s
  }

  /** `getById`: the first record with `id`, or `NotFound`. */
  function GetById(s: seq<FileRecord>, id: int): (r: Result<FileRecord>)
    ensures r.Ok? <==> HasId(s, id)
    ensures r.Err? ==> r.error == NotFound
    ensures r.Ok? ==> r.value in s && r.value.id == id
    ensures r.Ok? ==> forall j :: 0 <= j < |s| && s[j].id == id ==> s[j] == r.value || exists k :: 0 <= k < j && s[k] == r.value
  {
    match FirstIndex(Ids(s), id)
    case None => Err(NotFound)
    case Some(i) => Ok(s[i])
  }

  /** In a valid store the record found is the only one with that id. */
  lemma GetByIdUnique(s: seq<FileRecord>, k: nat)
    requires Valid(s)
    requires k < |s|
    ensures GetById(s, s[k].id) == Ok(s[k])
  {
    UniqueIndex(Ids(s), k);
  }

  /** The record `create` builds for an accepted file with the id it chose. */
  function NewRecord(f: FileMeta, id: int): FileRecord {
    FileRecord(id, f.name, f.size, f.mimeType, 0.0, Pending, None,
               if StartsWith(f.mimeType, "image/") then Some(ThumbnailPrefix + IntToDecimal(id)) else None,
               None)
  }

  /** `create` accepts the file: a listed type within the size limit. */
  predicate Accepts(f: FileMeta) {
    f.mimeType in StoreTypes && f.size <= MaxFileSize
  }

  /** `create`: type check first, then size check, then append a fresh
      `pending` record whose id is one more than the largest id. */
  function Create(s: seq<FileRecord>, f: FileMeta): (r: Result<Stored>)
    ensures f.mimeType !in StoreTypes <==> r == Err(UnsupportedType(f.mimeType))
    ensures f.mimeType in StoreTypes && f.size > MaxFileSize <==> r == Err(TooLarge)
    ensures r.Ok? <==> Accepts(f)
    ensures r.Ok? ==> r.value.store == s + [r.value.record]
    ensures r.Ok? ==> forall j :: 0 <= j < |s| ==> s[j].id < r.value.record.id
    ensures r.Ok? && |s| == 0 ==> r.value.record.id == 1
    ensures r.Ok? && |s| > 0 ==> HasId(s, r.value.record.id - 1)
    ensures r.Ok? ==> var rec := r.value.record;
              && rec.name == f.name && rec.size == f.size && rec.mimeType == f.mimeType
              && rec.progress == 0.0 && rec.status == Pending
              && rec.shareUrl == None && rec.uploadedAt == None
              && (rec.thumbnailUrl.Some? <==> StartsWith(f.mimeType, "image/"))
  {
    if f.mimeType !in StoreTypes then Err(UnsupportedType(f.mimeType))
    else if f.size > MaxFileSize then Err(TooLarge)
    else
      var rec := NewRecord(f, NextId(Ids(s)));
      Ok(Stored(s + [rec], rec))
  }

  /** A successful `create` keeps the ids unique and the new id unused. */
  lemma CreateKeepsValid(s: seq<FileRecord>, f: FileMeta)
    requires Valid(s)
    requires Create(s, f).Ok?
    ensures Valid(Create(s, f).value.store)
    ensures !HasId(s, Create(s, f).value.record.id)
  {
    var st := Create(s, f).value;
    assert Ids(st.store) == Ids(s) + [st.record.id];
    AppendFreshUnique(Ids(s), st.record.id);
  }

  /** A created record is what `getById` then returns: pending, no progress,
      no share link. */
  lemma CreateThenGet(s: seq<FileRecord>, f: FileMeta)
    requires Valid(s)
    requires Create(s, f).Ok?
    ensures var st := Create(s, f).value;
            && GetById(st.store, st.record.id) == Ok(st.record)
            && st.record.status == Pending && st.record.progress == 0.0
            && st.record.shareUrl == None
  {
    var st := Create(s, f).value;
    CreateKeepsValid(s, f);
    GetByIdUnique(st.store, |s|);
  }

  /** `getAll` lists the records in the order they were created. */
  lemma GetAllAfterCreate(s: seq<FileRecord>, f: FileMeta)
    requires Create(s, f).Ok?
    ensures var st := Create(s, f).value;
            && |GetAll(st.store)| == |s| + 1
            && GetAll(st.store)[..|s|] == GetAll(s)
            && GetAll(st.store)[|s|] == st.record
  {
  }

  /** `{ ...record, ...allowedUpdates }`: every field the patch names is
      overwritten, the id never is. */
  function Merge(r: FileRecord, p: Patch): (m: FileRecord)
    ensures m.id == r.id
    ensures p.name.Some? ==> m.name == p.name.value
    ensures p.name.None? ==> m.name == r.name
    ensures p.size.Some? ==> m.size == p.size.value
    ensures p.size.None? ==> m.size == r.size
    ensures p.mimeType.Some? ==> m.mimeType == p.mimeType.value
    ensures p.mimeType.None? ==> m.mimeType == r.mimeType
    ensures p.progress.Some? ==> m.progress == p.progress.value
    ensures p.progress.None? ==> m.progress == r.progress
    ensures p.status.Some? ==> m.status == p.status.value
    ensures p.status.None? ==> m.status == r.status
    ensures p.shareUrl.Some? ==> m.shareUrl == p.shareUrl.value
    ensures p.shareUrl.None? ==> m.shareUrl == r.shareUrl
    ensures p.thumbnailUrl.Some? ==> m.thumbnailUrl == p.thumbnailUrl.value
    ensures p.thumbnailUrl.None? ==> m.thumbnailUrl == r.thumbnailUrl
    ensures p.uploadedAt.Some? ==> m.uploadedAt == p.uploadedAt.value
    ensures p.uploadedAt.None? ==> m.uploadedAt == r.uploadedAt
  {
    FileRecord(
      r.id,
      p.name.GetOr(r.name),
      p.size.GetOr(r.size),
      p.mimeType.GetOr(r.mimeType),
      p.progress.GetOr(r.progress),
      p.status.GetOr(r.status),
      p.shareUrl.GetOr(r.shareUrl),
      p.thumbnailUrl.GetOr(r.thumbnailUrl),
      p.uploadedAt.GetOr(r.uploadedAt))
  }

  /** The record after a patch: the merge, plus a share link and upload time
      when the patch completes the record and no truthy link is present. */
  function Patched(r: FileRecord, p: Patch, now: string): FileRecord {
    var m := Merge(r, p);
    if p.status == Some(Completed) && !Truthy(m.shareUrl) then
      m.(shareUrl := Some(ShareUrl(m.id)), uploadedAt := Some(now))
    else m
  }

  /** `update`: patch the first record with `id`, or `NotFound`. */
  function Update(s: seq<FileRecord>, id: int, p: Patch, now: string): (r: Result<Stored>)
    ensures r.Ok? <==> HasId(s, id)
    ensures r.Err? ==> r.error == NotFound
    ensures r.Ok? ==> |r.value.store| == |s| && Ids(r.value.store) == Ids(s)
    ensures r.Ok? ==> r.value.record.id == id && GetById(r.value.store, id) == Ok(r.value.record)
    ensures r.Ok? ==> forall j :: 0 <= j < |s| && s[j].id != id ==> r.value.store[j] == s[j]
    ensures r.Ok? ==> var old_ := GetById(s, id).value; var rec := r.value.record;
              && rec.name == p.name.GetOr(old_.name)
              && rec.size == p.size.GetOr(old_.size)
              && rec.mimeType == p.mimeType.GetOr(old_.mimeType)
              && rec.progress == p.progress.GetOr(old_.progress)
              && rec.status == p.status.GetOr(old_.status)
              && rec.thumbnailUrl == p.thumbnailUrl.GetOr(old_.thumbnailUrl)
              && (p.status == Some(Completed) ==> Truthy(rec.shareUrl))
              && (p.status == Some(Completed) && !Truthy(p.shareUrl.GetOr(old_.shareUrl)) ==>
                    rec.shareUrl == Some(ShareUrl(id)) && rec.uploadedAt == Some(now))
              && (p.status != Some(Completed) || Truthy(p.shareUrl.GetOr(old_.shareUrl)) ==>
                    rec.shareUrl == p.shareUrl.GetOr(old_.shareUrl)
                    && rec.uploadedAt == p.uploadedAt.GetOr(old_.uploadedAt))
  {
    match FirstIndex(Ids(s), id)
    case None => Err(NotFound)
    case Some(i) =>
      var rec := Patched(s[i], p, now);
      Ok(Stored(s[i := rec], rec))
  }

  /** An update keeps the store valid. */
  lemma UpdateKeepsValid(s: seq<FileRecord>, id: int, p: Patch, now: string)
    requires Valid(s)
    requires HasId(s, id)
    ensures Valid(Update(s, id, p, now).value.store)
  {
  }

  /** Applying the same patch twice is applying it once. */
  lemma MergeIdempotent(r: FileRecord, p: Patch)
    ensures Merge(Merge(r, p), p) == Merge(r, p)
  {
  }

  /** Repeating an update that does not itself name a share link changes
      nothing more: a link, once set, is never regenerated or overwritten,
      whatever the clock says the second time. */
  lemma UpdateIdempotent(s: seq<FileRecord>, id: int, p: Patch, now1: string, now2: string)
    requires HasId(s, id)
    requires p.shareUrl == None && p.uploadedAt == None
    ensures var s1 := Update(s, id, p, now1).value.store;
            Update(s1, id, p, now2) == Update(s, id, p, now1)
  {
    var i := FirstIndex(Ids(s), id).value;
    var st1 := Update(s, id, p, now1).value;
    assert FirstIndex(Ids(st1.store), id) == Some(i);
    var m := Merge(st1.record, p);
    MergeIdempotent(s[i], p);
    if p.status == Some(Completed) {
      assert Truthy(st1.record.shareUrl);
      assert m.shareUrl == st1.record.shareUrl;
      assert Patched(st1.record, p, now2) == st1.record;
    } else {
      assert Patched(st1.record, p, now2) == st1.record;
    }
    assert st1.store[i := st1.record] == st1.store;
  }

  /** `delete`: remove the first record with `id` and return it, or `NotFound`. */
  function Delete(s: seq<FileRecord>, id: int): (r: Result<Stored>)
    ensures r.Ok? <==> HasId(s, id)
    ensures r.Err? ==> r.error == NotFound
    ensures r.Ok? ==> r.value.record.id == id && r.value.record in s
    ensures r.Ok? ==> |r.value.store| == |s| - 1
    ensures r.Ok? ==> exists i :: 0 <= i < |s| && s[i] == r.value.record
                                 && r.value.store == s[..i] + s[i + 1..]
    ensures r.Ok? ==> forall x :: x in s && x.id != id ==> x in r.value.store
  {
    match FirstIndex(Ids(s), id)
    case None => Err(NotFound)
    case Some(i) =>
      assert forall x :: x in s && x.id != id ==> x in s[..i] + s[i + 1..] by {
        forall x | x in s && x.id != id
          ensures x in s[..i] + s[i + 1..]
        {
          CutKeeps(s, i, x);
        }
      }
      Ok(Stored(s[..i] + s[i + 1..], s[i]))
  }

  /** The records whose id is not `id`, in order. */
  function Without(s: seq<FileRecord>, id: int): (r: seq<FileRecord>)
    ensures |r| <= |s|
    ensures forall j :: 0 <= j < |r| ==> r[j].id != id
  {
    if |s| == 0 then []
    else (if s[0].id == id then [] else [s[0]]) + Without(s[1..], id)
  }

  /** Filtering distributes over concatenation, so `Without` keeps order. */
  lemma {:induction false} WithoutAppend(a: seq<FileRecord>, b: seq<FileRecord>, id: int)
    ensures Without(a + b, id) == Without(a, id) + Without(b, id)
  {
    if |a| == 0 {
      assert a + b == b;
    } else {
      assert (a + b)[1..] == a[1..] + b;
      WithoutAppend(a[1..], b, id);
    }
  }

  /** Without `id` present, filtering changes nothing. */
  lemma {:induction false} WithoutAbsent(s: seq<FileRecord>, id: int)
    requires !HasId(s, id)
    ensures Without(s, id) == s
  {
    if |s| > 0 {
      assert Ids(s[1..]) == Ids(s)[1..];
      WithoutAbsent(s[1..], id);
    }
  }

  /** Removing the single record with `id` at position `i` is filtering. */
  lemma {:induction false} WithoutSingle(s: seq<FileRecord>, i: nat, id: int)
    requires i < |s| && s[i].id == id
    requires forall j :: 0 <= j < |s| && j != i ==> s[j].id != id
    ensures Without(s, id) == s[..i] + s[i + 1..]
  {
    if i == 0 {
      assert !HasId(s[1..], id) by {
        assert forall j :: 0 <= j < |s[1..]| ==> Ids(s[1..])[j] == s[j + 1].id;
      }
      WithoutAbsent(s[1..], id);
    } else {
      WithoutSingle(s[1..], i - 1, id);
      assert s[1..][..i - 1] + s[1..][i..] == s[1..i] + s[i + 1..];
      assert s[..i] + s[i + 1..] == [s[0]] + (s[1..i] + s[i + 1..]);
    }
  }

  /** The ids of a list with one position cut out. */
  lemma IdsCut(s: seq<FileRecord>, i: nat)
    requires i < |s|
    ensures Ids(s[..i] + s[i + 1..]) == Ids(s)[..i] + Ids(s)[i + 1..]
  {
  }

  /** In a valid store `delete` removes exactly the records with that id and
      keeps the others in order. */
  lemma DeleteIsWithout(s: seq<FileRecord>, id: int)
    requires Valid(s)
    requires HasId(s, id)
    ensures Delete(s, id).value.store == Without(s, id)
    ensures Valid(Delete(s, id).value.store)
  {
    var i := FirstIndex(Ids(s), id).value;
    assert forall j :: 0 <= j < |s| && j != i ==> s[j].id != id by {
      forall j | 0 <= j < |s| && j != i
        ensures s[j].id != id
      {
        assert Ids(s)[j] != Ids(s)[i] by {
          if j < i { assert Ids(s)[j] != Ids(s)[i]; } else { assert Ids(s)[i] != Ids(s)[j]; }
        }
      }
    }
    WithoutSingle(s, i, id);
    IdsCut(s, i);
    UniqueCut(Ids(s), i);
  }
}
