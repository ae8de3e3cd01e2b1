/** The per-file card (src/components/molecules/FileCard.jsx): the status
    colour and icon, which controls a record shows, and when a preview may
    open. The card compares status strings, as the JavaScript does. */
module FileCard {
  import opened Common
  import opened FileRecords

  /** The four statuses the two `switch` statements name, by case index;
      anything else, `pending` included, is case 4 (`default`). */
  function StatusCase(status: string): (k: nat)
    ensures k <= 4
  {
    if status == "completed" then 0
    else if status == "error" then 1
    else if status == "uploading" then 2
    else if status == "paused" then 3
    else 4
  }

  const StatusColors: seq<string> := ["text-success", "text-error", "text-primary", "text-warning", "text-surface-400"]
  const StatusIcons: seq<string> := ["CheckCircle", "XCircle", "Upload", "Pause", "Clock"]

  /** `getStatusColor`. */
  function StatusColor(status: string): (c: string)
    ensures c == StatusColors[StatusCase(status)]
  {
    match status
    case "completed" => "text-success"
    case "error" => "text-error"
    case "uploading" => "text-primary"
    case "paused" => "text-warning"
    case _ => "text-surface-400"
  }

  /** `getStatusIcon`. */
  function StatusIcon(status: string): (i: string)
    ensures i == StatusIcons[StatusCase(status)]
  {
    match status
    case "completed" => "CheckCircle"
    case "error" => "XCircle"
    case "uploading" => "Upload"
    case "paused" => "Pause"
    case _ => "Clock"
  }

  /** Both lookups are total and fall back together: the default colour and
      the default icon go to exactly the statuses outside the four named
      ones, and `pending` is one of those. */
  lemma StatusDefaults(status: string)
    ensures StatusColor(status) == "text-surface-400" <==> StatusCase(status) == 4
    ensures StatusIcon(status) == "Clock" <==> StatusCase(status) == 4
    ensures StatusColor(StatusName(Pending)) == "text-surface-400" && StatusIcon(StatusName(Pending)) == "Clock"
  {
    assert forall a :: 0 <= a < 4 ==> StatusColors[a] != "text-surface-400";
    assert forall a :: 0 <= a < 4 ==> StatusIcons[a] != "Clock";
  }

  /** Which parts of the card render for a record. */
  datatype Controls = Controls(
    progressBar: bool,
    pause: bool,
    resume: bool,
    cancel: bool,
    remove: bool,
    preview: bool,
    copyLink: bool)

  /** The render conditions of lines 108-176. */
  function ControlsFor(r: FileRecord): (c: Controls)
    ensures !(c.pause && c.resume)
    ensures c.cancel != c.remove
    ensures c.progressBar <==> c.pause || c.resume
    ensures c.pause ==> c.cancel
    ensures c.copyLink ==> r.status == Completed && Truthy(r.shareUrl)
    ensures c.preview ==> c.remove && StartsWith(r.mimeType, "image/")
  {
    var status := StatusName(r.status);
    Controls(
      status == "uploading" || status == "paused",
      status == "uploading",
      status == "paused",
      status == "pending" || status == "uploading" || status == "paused",
      status == "completed" || status == "error",
      status == "completed" && StartsWith(r.mimeType, "image/"),
      status == "completed" && Truthy(r.shareUrl))
  }

  /** The controls by status: pause only while uploading, resume only while
      paused, cancel while in flight, remove once finished. */
  lemma ControlsByStatus(r: FileRecord)
    ensures ControlsFor(r).pause <==> r.status == Uploading
    ensures ControlsFor(r).resume <==> r.status == Paused
    ensures ControlsFor(r).cancel <==> r.status in {Pending, Uploading, Paused}
    ensures ControlsFor(r).remove <==> r.status in {Completed, Error}
    ensures ControlsFor(r).progressBar <==> r.status in {Uploading, Paused}
  {
  }

  /** `handlePreview`: open the preview only for an image with a thumbnail
      or a share link. */
  function PreviewOpens(r: FileRecord): (opens: bool)
    ensures opens ==> StartsWith(r.mimeType, "image/")
    ensures opens ==> r.thumbnailUrl.Some? || r.shareUrl.Some?
    ensures StartsWith(r.mimeType, "image/") && Truthy(r.thumbnailUrl) ==> opens
  {
    StartsWith(r.mimeType, "image/") && (Truthy(r.thumbnailUrl) || Truthy(r.shareUrl))
  }

  /** Every image the store accepts can be previewed from the moment it is
      created (it carries a thumbnail), and no other type ever can. */
  lemma CreatedImagesPreview(s: seq<FileRecord>, f: FileMeta)
    requires Create(s, f).Ok?
    ensures PreviewOpens(Create(s, f).value.record) <==> StartsWith(f.mimeType, "image/")
  {
    var rec := Create(s, f).value.record;
    if StartsWith(f.mimeType, "image/") {
      var url := rec.thumbnailUrl.value;
      assert url == ThumbnailPrefix + IntToDecimal(rec.id);
      assert |url| > 0;
    }
  }
}
