/** `simulateUpload` (src/services/api/fileUploadService.js:78-101): mark the
    record uploading, then write a rising progress value on every pass of a
    loop, and mark it completed when the value reaches 100.

    The random increment `Math.random() * 15 + 5` becomes an explicit list of
    increments, each in [5, 20); the pacing delays are dropped. */
module UploadSimulator {
  import opened Common
  import opened FileRecords

  /** Every increment is one draw of `Math.random() * 15 + 5`. */
  predicate ValidSteps(steps: seq<real>) {
    forall i :: 0 <= i < |steps| ==> 5.0 <= steps[i] < 20.0
  }

  /** Increments supplied to a run: 21 of them always carry the loop past 100,
      because 21 * 5 > 100. */
  const MinSteps: nat := 21

  /** What one run reports: the progress values it wrote (and passed to the
      progress callback), and whether it reached the completion branch. */
  datatype Trace = Trace(writes: seq<real>, completed: bool)

  /** The sum of a list of increments. */
  function Sum(s: seq<real>): real {
    if |s| == 0 then 0.0 else s[0] + Sum(s[1..])
  }

  /** The loop at lines 86-98, as written, from the progress value `p`:
      the guard `progress <= 100` is checked on the value after the increment,
      so the clamp `if (progress > 100) progress = 100` can never fire and the
      completion branch runs only when a value is exactly 100. */
  function Loop(p: real, steps: seq<real>): (t: Trace)
    requires 0.0 <= p
    requires ValidSteps(steps)
    requires p + 5.0 * |steps| as real > 100.0
    ensures p <= 100.0 <==> |t.writes| > 0
    ensures |t.writes| > 0 ==> t.writes[0] == p
    ensures forall i :: 0 <= i < |t.writes| ==> t.writes[i] <= 100.0
    ensures forall i :: 0 <= i < |t.writes| - 1 ==> t.writes[i] < t.writes[i + 1]
    ensures t.completed <==> |t.writes| > 0 && t.writes[|t.writes| - 1] == 100.0
    ensures !t.completed && |t.writes| > 0 ==>
              |t.writes| <= |steps| && t.writes[|t.writes| - 1] + steps[|t.writes| - 1] > 100.0
    decreases |steps|
  {
    if p <= 100.0 then
      var q := if p > 100.0 then 100.0 else p;
      if q >= 100.0 then Trace([q], true)
      else
        var rest := Loop(q + steps[0], steps[1..]);
        Trace([q] + rest.writes, rest.completed)
    else Trace([], false)
  }

  /** The clamp is dead code: every written value is the start plus the
      plain, unclamped sum of the increments before it. */
  lemma {:induction false} LoopWritesUnclamped(p: real, steps: seq<real>)
    requires 0.0 <= p
    requires ValidSteps(steps)
    requires p + 5.0 * |steps| as real > 100.0
    ensures var w := Loop(p, steps).writes;
            forall i :: 0 <= i < |w| ==> i <= |steps| && w[i] == p + Sum(steps[..i])
    decreases |steps|
  {
    var w := Loop(p, steps).writes;
    if p < 100.0 {
      var p' := p + steps[0];
      var rest := Loop(p', steps[1..]).writes;
      LoopWritesUnclamped(p', steps[1..]);
      assert w == [p] + rest;
      forall i | 0 <= i < |w|
        ensures i <= |steps| && w[i] == p + Sum(steps[..i])
      {
        if i == 0 {
          assert steps[..0] == [];
        } else {
          assert w[i] == rest[i - 1];
          assert rest[i - 1] == p' + Sum(steps[1..][..i - 1]);
          assert steps[..i][1..] == steps[1..][..i - 1];
          assert Sum(steps[..i]) == steps[0] + Sum(steps[..i][1..]);
        }
      }
    } else if p == 100.0 {
      assert w == [p];
      assert steps[..0] == [];
    }
  }

  /** Written values strictly increase, so no value is written twice. */
  lemma LoopIncreasing(p: real, steps: seq<real>, i: nat, j: nat)
    requires 0.0 <= p
    requires ValidSteps(steps)
    requires p + 5.0 * |steps| as real > 100.0
    requires i < j < |Loop(p, steps).writes|
    ensures Loop(p, steps).writes[i] < Loop(p, steps).writes[j]
    decreases j - i
  {
    if i + 1 < j {
      LoopIncreasing(p, steps, i + 1, j);
    }
  }

  /** The completion branch runs exactly when some written value is 100. */
  lemma LoopCompletesIffHits100(p: real, steps: seq<real>)
    requires 0.0 <= p
    requires ValidSteps(steps)
    requires p + 5.0 * |steps| as real > 100.0
    ensures var w := Loop(p, steps).writes;
            Loop(p, steps).completed <==> exists i :: 0 <= i < |w| && w[i] == 100.0
  {
    var t := Loop(p, steps);
    if i :| 0 <= i < |t.writes| && t.writes[i] == 100.0 {
      if i < |t.writes| - 1 {
        LoopIncreasing(p, steps, i, |t.writes| - 1);
      }
    }
  }

  /** Fifteen on every draw: 0, 15, ..., 90, then 105 fails the guard. */
  function Fifteens(): (s: seq<real>)
    ensures |s| == MinSteps && ValidSteps(s)
  {
    seq(MinSteps, _ => 15.0)
  }

  /** The multiples of 15 from 15 * k up to 90. */
  function Multiples(k: nat): seq<real>
    decreases 7 - k
  {
    if k >= 7 then [] else [15.0 * k as real] + Multiples(k + 1)
  }

  /** With every increment 15, the run from 15 * k writes 15 * k, ..., 90 and
      stops without completing. */
  lemma {:induction false} LoopOnFifteens(k: nat, steps: seq<real>)
    requires k <= 7
    requires forall i :: 0 <= i < |steps| ==> steps[i] == 15.0
    requires |steps| + k >= MinSteps
    ensures ValidSteps(steps)
    ensures Loop(15.0 * k as real, steps) == Trace(Multiples(k), false)
    decreases 7 - k
  {
    if k < 7 {
      LoopOnFifteens(k + 1, steps[1..]);
      assert 15.0 * k as real + steps[0] == 15.0 * (k + 1) as real;
    }
  }

  /** The discrepancy: with increments of 15 the run writes 0 to 90, then the
      next value 105 ends the loop without the clamp or the completion branch,
      so the record stays `uploading` at 90. */
  lemma LoopStallsAtNinety()
    ensures Loop(0.0, Fifteens()) == Trace([0.0, 15.0, 30.0, 45.0, 60.0, 75.0, 90.0], false)
  {
    LoopOnFifteens(0, Fifteens());
    MultiplesFromZero();
  }

  lemma MultiplesFromZero()
    ensures Multiples(0) == [0.0, 15.0, 30.0, 45.0, 60.0, 75.0, 90.0]
  {
    assert Multiples(6) == [90.0];
    assert Multiples(4) == [60.0, 75.0, 90.0];
    assert Multiples(2) == [30.0, 45.0, 60.0, 75.0, 90.0];
  }

  /** The loop as evidently intended: clamp the running value to 100 before
      the guard sees it, so a run always ends with a write of exactly 100. */
  function ClampedLoop(p: real, steps: seq<real>): (t: Trace)
    requires 0.0 <= p <= 100.0
    requires ValidSteps(steps)
    requires p == 100.0 || p + 5.0 * |steps| as real > 100.0
    ensures t.completed
    ensures |t.writes| > 0 && t.writes[0] == p && t.writes[|t.writes| - 1] == 100.0
    ensures forall i :: 0 <= i < |t.writes| ==> t.writes[i] <= 100.0
    ensures forall i :: 0 <= i < |t.writes| - 1 ==> t.writes[i] < t.writes[i + 1]
    decreases |steps|
  {
    if p >= 100.0 then Trace([p], true)
    else
      var next := if p + steps[0] > 100.0 then 100.0 else p + steps[0];
      var rest := ClampedLoop(next, steps[1..]);
      Trace([p] + rest.writes, rest.completed)
  }

  /** When the as-written loop completes, the clamped loop writes the same
      values; the two differ only on runs that overshoot 100. */
  lemma {:induction false} ClampedAgreesWhenExact(p: real, steps: seq<real>)
    requires 0.0 <= p <= 100.0
    requires ValidSteps(steps)
    requires p + 5.0 * |steps| as real > 100.0
    requires Loop(p, steps).completed
    ensures ClampedLoop(p, steps) == Loop(p, steps)
    decreases |steps|
  {
    if p < 100.0 {
      var p' := p + steps[0];
      var rest := Loop(p', steps[1..]);
      assert Loop(p, steps) == Trace([p] + rest.writes, rest.completed);
      assert rest.completed && |rest.writes| > 0;
      assert p' <= 100.0;
      ClampedAgreesWhenExact(p', steps[1..]);
      var crest := ClampedLoop(p', steps[1..]);
      assert ClampedLoop(p, steps) == Trace([p] + crest.writes, crest.completed);
    } else {
      assert Loop(p, steps) == Trace([p], true);
    }
  }

  /** The outcome of `simulateUpload`: the store afterwards, what the run
      reported, and the record `getById` returns at the end. */
  datatype Run = Run(store: seq<FileRecord>, trace: Trace, record: FileRecord)

  /** One `update(id, { progress })` per written value, in order. */
  function WriteProgress(s: seq<FileRecord>, id: int, writes: seq<real>, now: string): (r: seq<FileRecord>)
    requires HasId(s, id)
    ensures Ids(r) == Ids(s) && HasId(r, id)
    ensures forall j :: 0 <= j < |s| && s[j].id != id ==> r[j] == s[j]
    ensures var before := GetById(s, id).value;
            GetById(r, id).value
              == if |writes| == 0 then before else before.(progress := writes[|writes| - 1])
    decreases |writes|
  {
    if |writes| == 0 then s
    else
      var s1 := Update(s, id, ProgressPatch(writes[0]), now).value.store;
      WriteProgress(s1, id, writes[1..], now)
  }

  /** The store before the completion step: status `uploading`, then each
      progress value written in turn. */
  function BeginRun(s: seq<FileRecord>, id: int, writes: seq<real>, now: string): (r: seq<FileRecord>)
    requires HasId(s, id)
    ensures Ids(r) == Ids(s) && HasId(r, id)
    ensures forall j :: 0 <= j < |s| && s[j].id != id ==> r[j] == s[j]
    ensures GetById(r, id).value
              == GetById(s, id).value.(
                   status := Uploading,
                   progress := if |writes| == 0 then GetById(s, id).value.progress else writes[|writes| - 1])
  {
    var s1 := Update(s, id, StatusPatch(Uploading), now).value.store;
    assert GetById(s1, id).value == GetById(s, id).value.(status := Uploading);
    WriteProgress(s1, id, writes, now)
  }

  /** The store effects of a run that writes `t`: status `uploading`, each
      progress value, then `{ status: 'completed', progress: 100 }` if the
      completion branch ran. */
  function ApplyRun(s: seq<FileRecord>, id: int, t: Trace, now: string): (r: Run)
    requires HasId(s, id)
    ensures r.trace == t
    ensures Ids(r.store) == Ids(s)
    ensures forall j :: 0 <= j < |s| && s[j].id != id ==> r.store[j] == s[j]
    ensures GetById(r.store, id) == Ok(r.record)
    ensures var before := GetById(s, id).value;
            && r.record.id == id
            && r.record.name == before.name && r.record.size == before.size
            && r.record.mimeType == before.mimeType && r.record.thumbnailUrl == before.thumbnailUrl
            && (t.completed ==>
                  r.record.status == Completed && r.record.progress == 100.0 && Truthy(r.record.shareUrl))
            && (t.completed && !Truthy(before.shareUrl) ==>
                  r.record.shareUrl == Some(ShareUrl(id)) && r.record.uploadedAt == Some(now))
            && (!t.completed ==>
                  r.record.status == Uploading && r.record.shareUrl == before.shareUrl
                  && r.record.uploadedAt == before.uploadedAt
                  && r.record.progress == (if |t.writes| == 0 then before.progress else t.writes[|t.writes| - 1]))
  {
    var s2 := BeginRun(s, id, t.writes, now);
    var s3 := if t.completed then Update(s2, id, CompletePatch(), now).value.store else s2;
    Run(s3, t, GetById(s3, id).value)
  }

  /** `simulateUpload(id)`, as written: `NotFound` for a missing record,
      otherwise a run that starts from 0 whatever progress is stored. */
  function SimulateUpload(s: seq<FileRecord>, id: int, steps: seq<real>, now: string): (r: Result<Run>)
    requires ValidSteps(steps) && |steps| >= MinSteps
    ensures r.Ok? <==> HasId(s, id)
    ensures r.Err? ==> r.error == NotFound
    ensures r.Ok? ==> var w := r.value.trace.writes;
              && |w| > 0 && w[0] == 0.0
              && (forall i :: 0 <= i < |w| ==> w[i] <= 100.0)
              && (r.value.trace.completed <==> w[|w| - 1] == 100.0)
    ensures r.Ok? ==> Ids(r.value.store) == Ids(s)
    ensures r.Ok? ==> forall j :: 0 <= j < |s| && s[j].id != id ==> r.value.store[j] == s[j]
    ensures r.Ok? ==> var rec := r.value.record; var w := r.value.trace.writes;
              && GetById(r.value.store, id) == Ok(rec)
              && (r.value.trace.completed ==> rec.status == Completed && rec.progress == 100.0 && Truthy(rec.shareUrl))
              && (!r.value.trace.completed ==>
                    rec.status == Uploading && rec.progress == w[|w| - 1] < 100.0
                    && rec.shareUrl == GetById(s, id).value.shareUrl)
  {
    if !HasId(s, id) then Err(NotFound)
    else Ok(ApplyRun(s, id, Loop(0.0, steps), now))
  }

  /** The corrected run: the same store effects, driven by the clamped loop,
      always ends with the record completed at 100 and a share link. */
  function SimulateUploadClamped(s: seq<FileRecord>, id: int, steps: seq<real>, now: string): (r: Result<Run>)
    requires ValidSteps(steps) && |steps| >= MinSteps
    ensures r.Ok? <==> HasId(s, id)
    ensures r.Err? ==> r.error == NotFound
    ensures r.Ok? ==> Ids(r.value.store) == Ids(s)
    ensures r.Ok? ==> forall j :: 0 <= j < |s| && s[j].id != id ==> r.value.store[j] == s[j]
    ensures r.Ok? ==> var rec := r.value.record; var w := r.value.trace.writes;
              && |w| > 0 && w[0] == 0.0 && w[|w| - 1] == 100.0
              && r.value.trace.completed
              && rec.status == Completed && rec.progress == 100.0 && Truthy(rec.shareUrl)
              && GetById(r.value.store, id) == Ok(rec)
              && (!Truthy(GetById(s, id).value.shareUrl) ==> rec.shareUrl == Some(ShareUrl(id)))
  {
    if !HasId(s, id) then Err(NotFound)
    else Ok(ApplyRun(s, id, ClampedLoop(0.0, steps), now))
  }

  /** A one-record store holding a fresh pending file with id 1. */
  function OnePending(): seq<FileRecord> {
    [FileRecord(1, "a.txt", 10, "text/plain", 0.0, Pending, None, None, None)]
  }

  lemma OnePendingHasId()
    ensures HasId(OnePending(), 1)
    ensures GetById(OnePending(), 1) == Ok(OnePending()[0])
  {
    assert Ids(OnePending())[0] == 1;
  }

  /** End to end, as written: the fifteen-step run leaves the record
      `uploading` at 90 with no share link. */
  lemma StuckUploadExample(now: string)
    ensures var r := SimulateUpload(OnePending(), 1, Fifteens(), now);
            r.Ok? && r.value.record.status == Uploading && r.value.record.progress == 90.0
            && r.value.record.shareUrl == None
  {
    LoopStallsAtNinety();
    OnePendingHasId();
  }

  /** End to end, corrected: the same increments complete the record with
      its share link. */
  lemma ClampedUploadExample(now: string)
    ensures var r := SimulateUploadClamped(OnePending(), 1, Fifteens(), now);
            r.Ok? && r.value.record.status == Completed && r.value.record.shareUrl == Some(ShareUrl(1))
  {
    OnePendingHasId();
  }
}
