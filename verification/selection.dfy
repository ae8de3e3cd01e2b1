/** The drop target's selection check (src/components/molecules/DropZone.jsx,
    `handleFiles`): split the chosen files into those forwarded for upload
    and one error message per rejected file. Size is checked before type, and
    the allow-list here is wider than the store's. */
module Selection {
  import opened Common
  import opened FileRecords

  /** The ten types the drop target lets through. */
  const SelectionTypes: seq<string> := [
    "image/jpeg", "image/png", "image/gif", "image/webp",
    "application/pdf", "text/plain", "application/zip",
    "application/x-zip-compressed", "video/mp4", "audio/mp3"]

  /** A file passes selection: within the size limit and of a listed type. */
  predicate Selectable(f: FileMeta) {
    f.size <= MaxFileSize && f.mimeType in SelectionTypes
  }

  /** The message a rejected file gets; the size message wins when both
      checks fail. */
  function RejectMessage(f: FileMeta): string {
    if f.size > MaxFileSize then f.name + ": File size exceeds 50MB limit"
    else f.name + ": File type not supported"
  }

  /** The files that pass, in input order. */
  function ValidOf(files: seq<FileMeta>): (v: seq<FileMeta>)
    ensures |v| <= |files|
    ensures forall i :: 0 <= i < |v| ==> Selectable(v[i]) && v[i] in files
  {
    if |files| == 0 then []
    else
      var last := files[|files| - 1];
      ValidOf(files[..|files| - 1]) + (if Selectable(last) then [last] else [])
  }

  /** One message per rejected file, in input order; every message names
      a rejected input. */
  function ErrorsOf(files: seq<FileMeta>): (e: seq<string>)
    ensures |e| <= |files|
    ensures forall i :: 0 <= i < |e| ==> RejectedWith(files, e[i])
  {
    if |files| == 0 then []
    else
      var init := files[..|files| - 1];
      var last := files[|files| - 1];
      var prev := ErrorsOf(init);
      assert forall i :: 0 <= i < |prev| ==> RejectedWith(files, prev[i]) by {
        forall i | 0 <= i < |prev|
          ensures RejectedWith(files, prev[i])
        {
          var k :| 0 <= k < |init| && !Selectable(init[k]) && prev[i] == RejectMessage(init[k]);
          assert files[k] == init[k];
        }
      }
      assert !Selectable(last) ==> RejectedWith(files, RejectMessage(last));
      prev + (if Selectable(last) then [] else [RejectMessage(last)])
  }

  /** `msg` is the message of some input that fails selection. */
  predicate RejectedWith(files: seq<FileMeta>, msg: string) {
    exists k :: 0 <= k < |files| && !Selectable(files[k]) && msg == RejectMessage(files[k])
  }

  /** Every input ends up on exactly one side. */
  lemma {:induction false} PartitionCovers(files: seq<FileMeta>)
    ensures |ValidOf(files)| + |ErrorsOf(files)| == |files|
  {
    if |files| > 0 {
      PartitionCovers(files[..|files| - 1]);
    }
  }

  /** Selection keeps relative order: splitting the input splits the output. */
  lemma {:induction false} ValidOfAppend(a: seq<FileMeta>, b: seq<FileMeta>)
    ensures ValidOf(a + b) == ValidOf(a) + ValidOf(b)
    decreases |b|
  {
    if |b| == 0 {
      assert a + b == a;
    } else {
      assert (a + b)[..|a + b| - 1] == a + b[..|b| - 1];
      ValidOfAppend(a, b[..|b| - 1]);
    }
  }

  /** A file that passes is forwarded; one that fails is not. */
  lemma {:induction false} ValidOfMembers(files: seq<FileMeta>, f: FileMeta)
    requires f in files
    ensures f in ValidOf(files) <==> Selectable(f)
  {
    var i :| 0 <= i < |files| && files[i] == f;
    assert files == files[..i] + [f] + files[i + 1..];
    ValidOfAppend(files[..i] + [f], files[i + 1..]);
    ValidOfAppend(files[..i], [f]);
    assert ValidOf([f]) == ValidOf([]) + (if Selectable(f) then [f] else []) by {
      assert [f][..0] == [];
    }
  }

  /** The outcome of one selection: the files forwarded, the messages shown,
      and the argument of the single `onFilesSelected` call if there is one. */
  datatype Screened = Screened(valid: seq<FileMeta>, errors: seq<string>, forwarded: Option<seq<FileMeta>>)

  /** `handleFiles`: the `forEach` over the input, then one call with every
      valid file when there is at least one. */
  method HandleFiles(files: seq<FileMeta>) returns (r: Screened)
    ensures r.valid == ValidOf(files) && r.errors == ErrorsOf(files)
    ensures |r.valid| + |r.errors| == |files|
    ensures forall i :: 0 <= i < |r.valid| ==> r.valid[i].size <= MaxFileSize && r.valid[i].mimeType in SelectionTypes
    ensures r.forwarded.Some? <==> |r.valid| > 0
    ensures r.forwarded.Some? ==> r.forwarded.value == r.valid
  {
    var valid: seq<FileMeta> := [];
    var errors: seq<string> := [];
    var i := 0;
    while i < |files|
      invariant 0 <= i <= |files|
      invariant valid == ValidOf(files[..i])
      invariant errors == ErrorsOf(files[..i])
      invariant |valid| + |errors| == i
    {
      var f := files[i];
      assert files[..i + 1][..i] == files[..i];
      if f.size > MaxFileSize {
        errors := errors + [f.name + ": File size exceeds 50MB limit"];
      } else if f.mimeType !in SelectionTypes {
        errors := errors + [f.name + ": File type not supported"];
      } else {
        valid := valid + [f];
      }
      i := i + 1;
    }
    assert files[..i] == files;
    var forwarded := if |valid| > 0 then Some(valid) else None;
    r := Screened(valid, errors, forwarded);
  }

  /** An oversized file gets the size message even when its type is also
      refused. */
  lemma SizeCheckedFirst(f: FileMeta)
    requires f.size > MaxFileSize
    ensures !Selectable(f)
    ensures ErrorsOf([f]) == [f.name + ": File size exceeds 50MB limit"]
  {
    assert [f][..0] == [];
  }

  /** Every type the store accepts also passes selection, but not the
      reverse: a WebP image passes selection and is then refused by `create`. */
  lemma StoreTypesNarrower(s: seq<FileRecord>)
    ensures forall t :: t in StoreTypes ==> t in SelectionTypes
    ensures var webp := FileMeta("a.webp", 1, "image/webp");
            Selectable(webp) && Create(s, webp) == Err(UnsupportedType("image/webp"))
  {
    var webp := FileMeta("a.webp", 1, "image/webp");
    assert SelectionTypes[3] == "image/webp";
    assert "image/webp" !in StoreTypes by {
      assert StoreTypes[0] != "image/webp" && StoreTypes[1] != "image/webp" && StoreTypes[2] != "image/webp";
      assert StoreTypes[3] != "image/webp" && StoreTypes[4] != "image/webp" && StoreTypes[5] != "image/webp";
    }
  }
}
