/** `ThicketDB.build`: the document is re-initialised, then every asset file
    is parsed by a worker process, at most `num_jobs` at a time, and the
    workers' records are merged in spawn order.  Worker processes are
    abstracted as `parse`, which gives the decoded output of the worker run
    on a file, or None when that output is not valid JSON. */
module Build {
  import opened Wrappers
  import opened Dicts
  import opened Records
  import opened LabelStore
  import opened Database

  /** The job count used when `os.cpu_count()` is None or 0. */
  const FallbackJobs: nat := 4

  /** `num_jobs = os.cpu_count() or 4`. */
  function NumJobs(cpuCount: Option<nat>): (n: nat)
    ensures n >= 1
    ensures cpuCount.Some? && cpuCount.value > 0 ==> n == cpuCount.value
    ensures cpuCount.None? || cpuCount.value == 0 ==> n == FallbackJobs
  {
    if cpuCount.Some? && cpuCount.value != 0 then cpuCount.value else FallbackJobs
  }

  function Min(a: nat, b: nat): nat {
    if a <= b then a else b
  }

  /** The order in which files are taken by `list.pop()`: last first. */
  function Reverse(s: seq<string>): (r: seq<string>)
    ensures |r| == |s|
    ensures forall i :: 0 <= i < |s| ==> r[i] == s[|s| - 1 - i]
  {
    if |s| == 0 then [] else Reverse(s[1..]) + [s[0]]
  }

  /** A worker output the merge can take: undecodable, or a well-formed record. */
  ghost predicate WorkerOk(out: Option<WorkerRecord>) {
    out.None? || WellFormedWorker(out.value)
  }

  /** Position `i` of `fs` yields a decoded record named `k`. */
  ghost predicate YieldsName(fs: seq<string>, parse: string -> Option<WorkerRecord>, i: int, k: string)
    requires 0 <= i < |fs|
  {
    parse(fs[i]).Some? && parse(fs[i]).value.model.name == k
  }

  ghost predicate SomeYields(fs: seq<string>, parse: string -> Option<WorkerRecord>, k: string) {
    exists i :: 0 <= i < |fs| && YieldsName(fs, parse, i, k)
  }

  lemma SomeYieldsSnoc(fs: seq<string>, parse: string -> Option<WorkerRecord>, k: string)
    requires |fs| > 0
    ensures SomeYields(fs, parse, k) <==> SomeYields(fs[..|fs| - 1], parse, k) || YieldsName(fs, parse, |fs| - 1, k)
  {
    var n := |fs| - 1;
    if SomeYields(fs, parse, k) {
      var i :| 0 <= i < |fs| && YieldsName(fs, parse, i, k);
      if i < n { assert YieldsName(fs[..n], parse, i, k); }
    }
    if SomeYields(fs[..n], parse, k) {
      var i :| 0 <= i < n && YieldsName(fs[..n], parse, i, k);
      assert YieldsName(fs, parse, i, k);
    }
  }

  /** Position `i` holds a decoded record and no later position yields a
      record of the same name. */
  ghost predicate LastOfItsName(fs: seq<string>, parse: string -> Option<WorkerRecord>, i: int)
    requires 0 <= i < |fs|
  {
    parse(fs[i]).Some?
    && forall j :: i < j < |fs| ==> !YieldsName(fs, parse, j, parse(fs[i]).value.model.name)
  }

  /** The record of the last decoded output named `k`, if any. */
  function LatestRecord(fs: seq<string>, parse: string -> Option<WorkerRecord>, k: string): Option<ModelRecord>
    decreases |fs|
  {
    if |fs| == 0 then None
    else
      var out := parse(fs[|fs| - 1]);
      if out.Some? && out.value.model.name == k then Some(out.value.model)
      else LatestRecord(fs[..|fs| - 1], parse, k)
  }

  /** `LatestRecord` finds a record exactly when some output is named `k`. */
  lemma {:induction false} LatestRecordFound(fs: seq<string>, parse: string -> Option<WorkerRecord>, k: string)
    ensures LatestRecord(fs, parse, k).Some? <==> SomeYields(fs, parse, k)
    decreases |fs|
  {
    if |fs| > 0 {
      LatestRecordFound(fs[..|fs| - 1], parse, k);
      SomeYieldsSnoc(fs, parse, k);
    }
  }

  /** The record `LatestRecord` finds is the one at the last position named `k`. */
  lemma {:induction false} LatestRecordIsLast(fs: seq<string>, parse: string -> Option<WorkerRecord>, i: nat)
    requires i < |fs| && LastOfItsName(fs, parse, i)
    ensures LatestRecord(fs, parse, parse(fs[i]).value.model.name) == Some(parse(fs[i]).value.model)
    decreases |fs|
  {
    var n := |fs| - 1;
    var k := parse(fs[i]).value.model.name;
    if i < n {
      assert !YieldsName(fs, parse, n, k);
      var pre := fs[..n];
      assert pre[i] == fs[i];
      forall j | i < j < n ensures !YieldsName(pre, parse, j, k) {
        assert pre[j] == fs[j];
        assert !YieldsName(fs, parse, j, k);
      }
      assert LastOfItsName(pre, parse, i);
      LatestRecordIsLast(pre, parse, i);
    }
  }

  /** The locale map of label key `k` in the last decoded output whose
      labels carry `k`, if any. */
  function LatestLabels(fs: seq<string>, parse: string -> Option<WorkerRecord>, k: string): Option<map<string, string>>
    decreases |fs|
  {
    if |fs| == 0 then None
    else
      var out := parse(fs[|fs| - 1]);
      if out.Some? && k in out.value.labels.entries then Some(out.value.labels.entries[k])
      else LatestLabels(fs[..|fs| - 1], parse, k)
  }

  /** The locale map of label key `k` once `out` is merged into `d`. */
  function LabelsAfter(d: Document, out: Option<WorkerRecord>, k: string): Option<map<string, string>> {
    if out.Some? && k in out.value.labels.entries then Some(out.value.labels.entries[k]) else Get(d.labels, k)
  }

  /** One drained job: a decoded record is inserted (overwriting by name) and
      its labels merged; an undecodable output is skipped. */
  function Ingest(d: Document, out: Option<WorkerRecord>): (r: Document)
    requires WellFormed(d) && WorkerOk(out)
    ensures WellFormed(r) && r.info == d.info
    ensures out.None? ==> r == d
    ensures forall k :: k in r.models.entries <==> k in d.models.entries || (out.Some? && out.value.model.name == k)
    ensures out.Some? ==> Get(r.models, out.value.model.name) == Some(out.value.model)
    ensures forall k :: out.None? || k != out.value.model.name ==> Get(r.models, k) == Get(d.models, k)
    ensures out.Some? ==> r.labels == UpdateLabels(d.labels, out.value.labels)
    ensures forall k :: Get(r.labels, k) == LabelsAfter(d, out, k)
  {
    match out
    case Some(w) => AddModel(d, w)
    case None => d
  }

  /** The document after draining the jobs for `fs`, in order. */
  function IngestAll(d: Document, fs: seq<string>, parse: string -> Option<WorkerRecord>): (r: Document)
    requires WellFormed(d)
    requires forall i :: 0 <= i < |fs| ==> WorkerOk(parse(fs[i]))
    ensures WellFormed(r) && r.info == d.info
    ensures forall k :: Get(r.models, k) == LatestRecord(fs, parse, k).GetOrOption(Get(d.models, k))
    decreases |fs|
  {
    if |fs| == 0 then d
    else Ingest(IngestAll(d, fs[..|fs| - 1], parse), parse(fs[|fs| - 1]))
  }

  /** After a run of outputs, each label key holds the locale map of the last
      output whose labels carried it, or its earlier map when none did. */
  lemma {:induction false} IngestAllLabels(d: Document, fs: seq<string>, parse: string -> Option<WorkerRecord>, k: string)
    requires WellFormed(d)
    requires forall i :: 0 <= i < |fs| ==> WorkerOk(parse(fs[i]))
    ensures Get(IngestAll(d, fs, parse).labels, k) == LatestLabels(fs, parse, k).GetOrOption(Get(d.labels, k))
    decreases |fs|
  {
    if |fs| > 0 {
      IngestAllLabels(d, fs[..|fs| - 1], parse, k);
    }
  }

  /** Popping file `k - 1` extends the spawn order by that file. */
  lemma SpawnExtends(files: seq<string>, k: nat, spawned: seq<string>)
    requires 0 < k <= |files| && spawned == Reverse(files[k..])
    ensures spawned + [files[k - 1]] == Reverse(files[k - 1..])
  {
    assert files[k - 1..] == [files[k - 1]] + files[k..];
    assert files[k - 1..][1..] == files[k..];
  }

  /** Every spawned file is one of the listed files. */
  lemma SpawnedFromFiles(files: seq<string>, p: nat, spawned: seq<string>, i: nat)
    requires p <= |files| && spawned == Reverse(files[p..]) && i < |spawned|
    ensures exists j :: 0 <= j < |files| && files[j] == spawned[i]
  {
    assert files[p + (|files| - p - 1 - i)] == spawned[i];
  }

  /** Draining one more job extends the merged document by that job's output. */
  lemma IngestAllSnoc(d: Document, fs: seq<string>, f: string, parse: string -> Option<WorkerRecord>)
    requires WellFormed(d)
    requires forall i :: 0 <= i < |fs| ==> WorkerOk(parse(fs[i]))
    requires WorkerOk(parse(f))
    ensures IngestAll(d, fs + [f], parse) == Ingest(IngestAll(d, fs, parse), parse(f))
  {
    assert (fs + [f])[..|fs|] == fs;
  }

  /** The bookkeeping the build loop keeps: `pending` is what is left of the
      file list, `drained` then `jobs` list the spawned files in spawn order,
      at most `numJobs` are in flight, and `peak` is the largest in-flight
      count so far. */
  ghost predicate QueueInv(files: seq<string>, numJobs: nat, pending: seq<string>, jobs: seq<string>, drained: seq<string>, peak: nat) {
    && |pending| <= |files| && pending == files[..|pending|]
    && drained + jobs == Reverse(files[|pending|..])
    && |jobs| <= numJobs
    && peak == Min(numJobs, |files| - |pending|)
    && (|drained| > 0 ==> |files| - |pending| >= Min(numJobs, |files|))
  }

  /** Spawning a job for the last pending file keeps the loop's bookkeeping. */
  lemma SpawnKeepsInv(files: seq<string>, numJobs: nat, pending: seq<string>, jobs: seq<string>, drained: seq<string>, peak: nat)
    requires QueueInv(files, numJobs, pending, jobs, drained, peak)
    requires |jobs| < numJobs && |pending| > 0
    ensures var k := |pending| - 1;
      QueueInv(files, numJobs, pending[..k], jobs + [pending[k]], drained, if |jobs| + 1 > peak then |jobs| + 1 else peak)
  {
    var k := |pending| - 1;
    SpawnExtends(files, k + 1, drained + jobs);
    assert pending[k] == files[k];
    assert drained + (jobs + [pending[k]]) == (drained + jobs) + [files[k]];
    assert pending[..k] == files[..k];
    assert |drained + jobs| == |files| - |pending|;
  }

  /** The inner loop: spawn jobs until `numJobs` are in flight or no file is left. */
  method FillJobs(files: seq<string>, numJobs: nat, pending0: seq<string>, jobs0: seq<string>, drained: seq<string>, peak0: nat)
    returns (pending: seq<string>, jobs: seq<string>, peak: nat)
    requires numJobs >= 1
    requires QueueInv(files, numJobs, pending0, jobs0, drained, peak0)
    requires |pending0| > 0 || |jobs0| > 0
    ensures QueueInv(files, numJobs, pending, jobs, drained, peak)
    ensures |jobs| == numJobs || |pending| == 0
    ensures |jobs| > 0
    ensures |pending| <= |pending0| && |jobs| - |jobs0| == |pending0| - |pending|
  {
    pending, jobs, peak := pending0, jobs0, peak0;
    while |jobs| < numJobs && |pending| > 0
      invariant QueueInv(files, numJobs, pending, jobs, drained, peak)
      invariant |pending| > 0 || |jobs| > 0
      invariant |pending| <= |pending0| && |jobs| - |jobs0| == |pending0| - |pending|
      decreases |pending|
    {
      var k := |pending| - 1;
      var f := pending[k];
      SpawnKeepsInv(files, numJobs, pending, jobs, drained, peak);
      pending := pending[..k];
      jobs := jobs + [f];
      if |jobs| > peak {
        peak := |jobs|;
      }
    }
  }

  /** Retiring the oldest in-flight job keeps the loop's bookkeeping. */
  lemma DrainKeepsInv(files: seq<string>, numJobs: nat, pending: seq<string>, jobs0: seq<string>, drained0: seq<string>, peak: nat)
    requires QueueInv(files, numJobs, pending, jobs0, drained0, peak)
    requires |jobs0| > 0 && (|jobs0| == numJobs || |pending| == 0)
    ensures QueueInv(files, numJobs, pending, jobs0[1..], drained0 + [jobs0[0]], peak)
  {
    var jobs, drained := jobs0[1..], drained0 + [jobs0[0]];
    assert drained + jobs == drained0 + jobs0 by {
      assert jobs0 == [jobs0[0]] + jobs;
    }
    assert |files| - |pending| == |drained0| + |jobs0| by {
      assert |Reverse(files[|pending|..])| == |files| - |pending|;
    }
    assert |files| - |pending| >= Min(numJobs, |files|);
  }

  /** Every drained file, the oldest in-flight one included, is a listed
      file, so its output is one the merge can take. */
  lemma DrainedOk(files: seq<string>, pending: seq<string>, jobs0: seq<string>, drained0: seq<string>,
                  parse: string -> Option<WorkerRecord>)
    requires |pending| <= |files| && drained0 + jobs0 == Reverse(files[|pending|..]) && |jobs0| > 0
    requires forall i :: 0 <= i < |files| ==> WorkerOk(parse(files[i]))
    requires forall i :: 0 <= i < |drained0| ==> WorkerOk(parse(drained0[i]))
    ensures forall i :: 0 <= i < |drained0| + 1 ==> WorkerOk(parse((drained0 + [jobs0[0]])[i]))
  {
    SpawnedFromFiles(files, |pending|, drained0 + jobs0, |drained0|);
    assert (drained0 + jobs0)[|drained0|] == jobs0[0];
  }

  /** Wait for the oldest job and merge its output. */
  method DrainOldest(files: seq<string>, numJobs: nat, pending: seq<string>, jobs0: seq<string>, drained0: seq<string>, peak: nat,
                     init: Document, d0: Document, parse: string -> Option<WorkerRecord>)
    returns (jobs: seq<string>, drained: seq<string>, d: Document)
    requires QueueInv(files, numJobs, pending, jobs0, drained0, peak)
    requires |jobs0| > 0 && (|jobs0| == numJobs || |pending| == 0)
    requires forall i :: 0 <= i < |files| ==> WorkerOk(parse(files[i]))
    requires forall i :: 0 <= i < |drained0| ==> WorkerOk(parse(drained0[i]))
    requires WellFormed(init) && d0 == IngestAll(init, drained0, parse)
    ensures QueueInv(files, numJobs, pending, jobs, drained, peak)
    ensures jobs == jobs0[1..] && drained == drained0 + [jobs0[0]]
    ensures forall i :: 0 <= i < |drained| ==> WorkerOk(parse(drained[i]))
    ensures d == IngestAll(init, drained, parse)
  {
    var f := jobs0[0];
    DrainKeepsInv(files, numJobs, pending, jobs0, drained0, peak);
    DrainedOk(files, pending, jobs0, drained0, parse);
    jobs := jobs0[1..];
    drained := drained0 + [f];
    assert WorkerOk(parse(drained[|drained0|]));
    IngestAllSnoc(init, drained0, f, parse);
    d := Ingest(d0, parse(f));
  }

  /** The build loop.  Besides the document it returns the files in the order
      their jobs were drained, the largest number of jobs in flight at once,
      and the lengths of the file list and the job queue at loop exit (the
      quantities `build` checks and logs after the loop). */
  method Build(sdk: SdkVersion, files: seq<string>, cpuCount: Option<nat>, parse: string -> Option<WorkerRecord>)
    returns (d: Document, drained: seq<string>, peak: nat, filesLeft: nat, jobsLeft: nat)
    requires forall i :: 0 <= i < |files| ==> WorkerOk(parse(files[i]))
    ensures drained == Reverse(files)
    ensures WellFormed(d) && d == IngestAll(Initialize(sdk), drained, parse)
    ensures d.info.schemaVersion == SchemaVersion
    ensures peak == Min(NumJobs(cpuCount), |files|)
    ensures filesLeft == 0 && jobsLeft == 0
  {
    var numJobs := NumJobs(cpuCount);
    d := Initialize(sdk);
    var pending := files;
    var jobs: seq<string> := [];
    drained := [];
    peak := 0;
    while |pending| > 0 || |jobs| > 0
      invariant QueueInv(files, numJobs, pending, jobs, drained, peak)
      invariant forall i :: 0 <= i < |drained| ==> WorkerOk(parse(drained[i]))
      invariant d == IngestAll(Initialize(sdk), drained, parse)
      decreases 2 * |pending| + |jobs|
    {
      // Keep up to numJobs jobs running.
      pending, jobs, peak := FillJobs(files, numJobs, pending, jobs, drained, peak);
      // Wait for the oldest job to complete.
      jobs, drained, d := DrainOldest(files, numJobs, pending, jobs, drained, peak, Initialize(sdk), d, parse);
    }
    assert files[0..] == files;
    filesLeft := |pending|;
    jobsLeft := |jobs|;
  }

  /* ---------------- properties of the merge ---------------- */

  /** The number of jobs whose output decoded. */
  function Successes(fs: seq<string>, parse: string -> Option<WorkerRecord>): nat
    decreases |fs|
  {
    if |fs| == 0 then 0
    else Successes(fs[..|fs| - 1], parse) + (if parse(fs[|fs| - 1]).Some? then 1 else 0)
  }

  /** Outputs the merge can take, listed one run after another. */
  lemma OkConcat(xs: seq<string>, ys: seq<string>, parse: string -> Option<WorkerRecord>)
    requires forall i :: 0 <= i < |xs| ==> WorkerOk(parse(xs[i]))
    requires forall i :: 0 <= i < |ys| ==> WorkerOk(parse(ys[i]))
    ensures forall i :: 0 <= i < |xs + ys| ==> WorkerOk(parse((xs + ys)[i]))
  {
    forall i | 0 <= i < |xs + ys| ensures WorkerOk(parse((xs + ys)[i])) {
      if i < |xs| {
        assert (xs + ys)[i] == xs[i];
      } else {
        assert (xs + ys)[i] == ys[i - |xs|];
      }
    }
  }

  /** A job whose output does not decode leaves no trace: the merge is the
      same as if the file had not been listed. */
  lemma {:induction false} FailedJobSkipped(d: Document, a: seq<string>, f: string, b: seq<string>, parse: string -> Option<WorkerRecord>)
    requires WellFormed(d)
    requires forall i :: 0 <= i < |a| ==> WorkerOk(parse(a[i]))
    requires forall i :: 0 <= i < |b| ==> WorkerOk(parse(b[i]))
    requires parse(f).None?
    ensures IngestAll(d, a + [f] + b, parse) == IngestAll(d, a + b, parse)
    decreases |b|
  {
    if |b| == 0 {
      assert a + [f] + b == a + [f];
      assert a + b == a;
      IngestAllSnoc(d, a, f, parse);
    } else {
      var n := |b| - 1;
      var pre := b[..n];
      assert forall i :: 0 <= i < |pre| ==> pre[i] == b[i];
      FailedJobSkipped(d, a, f, pre, parse);
      OkConcat(a, [f], parse);
      OkConcat(a + [f], pre, parse);
      OkConcat(a, pre, parse);
      assert a + [f] + b == (a + [f] + pre) + [b[n]];
      assert a + b == (a + pre) + [b[n]];
      IngestAllSnoc(d, a + [f] + pre, b[n], parse);
      IngestAllSnoc(d, a + pre, b[n], parse);
    }
  }

  /** When the decoded records carry distinct names not already stored, the
      merge adds exactly one model per decoded output. */
  lemma {:induction false} CountOfDistinct(d: Document, fs: seq<string>, parse: string -> Option<WorkerRecord>)
    requires WellFormed(d)
    requires forall i :: 0 <= i < |fs| ==> WorkerOk(parse(fs[i]))
    requires forall i :: 0 <= i < |fs| && parse(fs[i]).Some? ==> parse(fs[i]).value.model.name !in d.models.entries
    requires forall i, j :: 0 <= i < j < |fs| && parse(fs[i]).Some? && parse(fs[j]).Some? ==>
      parse(fs[i]).value.model.name != parse(fs[j]).value.model.name
    ensures ModelCount(IngestAll(d, fs, parse)) == ModelCount(d) + Successes(fs, parse)
    decreases |fs|
  {
    if |fs| > 0 {
      var n := |fs| - 1;
      var pre := fs[..n];
      CountOfDistinct(d, pre, parse);
      var out := parse(fs[n]);
      if out.Some? {
        var k := out.value.model.name;
        forall i | 0 <= i < n ensures !YieldsName(pre, parse, i, k) {
          assert pre[i] == fs[i];
        }
        LatestRecordFound(pre, parse, k);
        assert Get(IngestAll(d, pre, parse).models, k).None?;
      }
    }
  }

  /** The stored model of each name is the record of the last job, in drain
      order, whose output carried that name. */
  lemma LastJobWins(d: Document, fs: seq<string>, parse: string -> Option<WorkerRecord>, i: nat)
    requires WellFormed(d)
    requires forall j :: 0 <= j < |fs| ==> WorkerOk(parse(fs[j]))
    requires i < |fs| && LastOfItsName(fs, parse, i)
    ensures Get(IngestAll(d, fs, parse).models, parse(fs[i]).value.model.name) == Some(parse(fs[i]).value.model)
  {
    LatestRecordIsLast(fs, parse, i);
  }

  /** A name no job produced keeps whatever the document held before. */
  lemma UnproducedNameKept(d: Document, fs: seq<string>, parse: string -> Option<WorkerRecord>, k: string)
    requires WellFormed(d)
    requires forall j :: 0 <= j < |fs| ==> WorkerOk(parse(fs[j]))
    requires forall j :: 0 <= j < |fs| ==> !YieldsName(fs, parse, j, k)
    ensures Get(IngestAll(d, fs, parse).models, k) == Get(d.models, k)
  {
    LatestRecordFound(fs, parse, k);
  }

  /** Fault containment of a build: with distinct model names, a failing
      worker costs exactly its own model and every other file's model is
      stored. */
  lemma BuildFaultContainment(sdk: SdkVersion, fs: seq<string>, parse: string -> Option<WorkerRecord>)
    requires forall i :: 0 <= i < |fs| ==> WorkerOk(parse(fs[i]))
    requires forall i, j :: 0 <= i < j < |fs| && parse(fs[i]).Some? && parse(fs[j]).Some? ==>
      parse(fs[i]).value.model.name != parse(fs[j]).value.model.name
    ensures ModelCount(IngestAll(Initialize(sdk), fs, parse)) == Successes(fs, parse)
    ensures forall i :: 0 <= i < |fs| && parse(fs[i]).Some? ==>
      Get(IngestAll(Initialize(sdk), fs, parse).models, parse(fs[i]).value.model.name) == Some(parse(fs[i]).value.model)
  {
    var d := Initialize(sdk);
    CountOfDistinct(d, fs, parse);
    forall i | 0 <= i < |fs| && parse(fs[i]).Some?
      ensures Get(IngestAll(d, fs, parse).models, parse(fs[i]).value.model.name) == Some(parse(fs[i]).value.model)
    {
      assert LastOfItsName(fs, parse, i);
      LatestRecordIsLast(fs, parse, i);
    }
  }
}
