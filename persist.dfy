/** The persistence step of the store (`save` in docker/pac-service/src/store.js):
    write a temporary file, rename it over the backing file with bounded
    retries on locking errors, and fall back to copy-then-unlink when the
    rename crosses devices or the retries run out. The filesystem's answers
    are inputs; the delays are recorded as numbers. */
module Persist {

  /** How many rename attempts `save` makes. */
  const MaxAttempts: nat := 5

  /** The outcome of one filesystem call: success, or an error with its `code`. */
  datatype IoResult = Ok | Fail(code: string)

  /** The answers the filesystem gives to `save`: writing the temporary file,
      the rename at each attempt number, and the fallback copy. The outcome of
      unlinking the temporary file is ignored by `save`, so it is not an input. */
  datatype Disk = Disk(write: IoResult, rename: nat -> IoResult, copy: IoResult)

  /** The calls `save` makes, in order; `Sleep` is the backoff delay in ms. */
  datatype FsOp = WriteTemp | RenameTemp(attempt: nat) | Sleep(ms: nat) | CopyTemp | UnlinkTemp

  /** How the backing file was replaced, or the error `save` throws. */
  datatype SaveResult = Renamed | Copied | Failed(code: string)

  datatype SaveRun = SaveRun(result: SaveResult, ops: seq<FsOp>)

  /** Locking errors, after which the rename is tried again. */
  predicate Retryable(code: string) { code == "EBUSY" || code == "EPERM" }

  predicate CrossDevice(code: string) { code == "EXDEV" }

  /** Whether a rename that failed with `code` at `attempt` leads to the copy
      fallback: across devices, or on a locking error at the last attempt. */
  predicate FallsBack(code: string, attempt: nat) {
    CrossDevice(code) || (attempt == MaxAttempts && Retryable(code))
  }

  predicate RetryableFailure(r: IoResult) { r.Fail? && Retryable(r.code) }

  /** The rename loop from `attempt` on. */
  function SaveFrom(d: Disk, attempt: nat): SaveRun
    requires 1 <= attempt <= MaxAttempts
    decreases MaxAttempts - attempt
  {
    match d.rename(attempt)
    case Ok => SaveRun(Renamed, [RenameTemp(attempt)])
    case Fail(code) =>
      if CrossDevice(code) || !Retryable(code) || attempt == MaxAttempts then
        if (CrossDevice(code) || Retryable(code)) && d.copy.Ok? then
          SaveRun(Copied, [RenameTemp(attempt), CopyTemp, UnlinkTemp])
        else
          SaveRun(Failed(code),
                  [RenameTemp(attempt)] + (if CrossDevice(code) || Retryable(code) then [CopyTemp] else []) + [UnlinkTemp])
      else
        var rest := SaveFrom(d, attempt + 1);
        SaveRun(rest.result, [RenameTemp(attempt), Sleep(50 * attempt)] + rest.ops)
  }

  /** What `save` does for the given filesystem answers. */
  function SavePlan(d: Disk): (run: SaveRun)
    ensures |run.ops| >= 1 && run.ops[0] == WriteTemp
    ensures d.write.Fail? <==> run.ops == [WriteTemp]
    ensures d.write.Ok? ==> |run.ops| >= 2 && run.ops[1] == RenameTemp(1)
  {
    if d.write.Fail? then SaveRun(Failed(d.write.code), [WriteTemp])
    else
      var run := SaveFrom(d, 1);
      SaveRun(run.result, [WriteTemp] + run.ops)
  }

  /** `save` itself: the attempt loop, recording each call it makes. */
  method Save(d: Disk) returns (result: SaveResult, ops: seq<FsOp>)
    ensures SaveRun(result, ops) == SavePlan(d)
  {
    ops := [WriteTemp];
    if d.write.Fail? {
      result := Failed(d.write.code);
      return;
    }
    var attempt := 1;
    while attempt <= MaxAttempts
      invariant 1 <= attempt <= MaxAttempts
      invariant SaveFrom(d, attempt).result == SavePlan(d).result
      invariant ops + SaveFrom(d, attempt).ops == SavePlan(d).ops
      decreases MaxAttempts - attempt
    {
      ghost var before := ops;
      ops := ops + [RenameTemp(attempt)];
      var r := d.rename(attempt);
      if r.Ok? {
        result := Renamed;
        return;
      }
      var code := r.code;
      var isRetryable := Retryable(code);
      var isCrossDevice := CrossDevice(code);
      if isCrossDevice || !isRetryable || attempt == MaxAttempts {
        if isCrossDevice || isRetryable {
          ops := ops + [CopyTemp];
          if d.copy.Ok? {
            ops := ops + [UnlinkTemp];
            result := Copied;
            return;
          }
        }
        ops := ops + [UnlinkTemp];
        result := Failed(code);
        return;
      }
      SaveFromNext(d, attempt, before);
      ops := ops + [Sleep(50 * attempt)];
      attempt := attempt + 1;
    }
    assert false;
  }

  /** A locking error before the last attempt: the loop records the rename
      and the delay and carries on with the next attempt. */
  lemma SaveFromNext(d: Disk, a: nat, done: seq<FsOp>)
    requires 1 <= a < MaxAttempts
    requires d.rename(a).Fail? && Retryable(d.rename(a).code) && !CrossDevice(d.rename(a).code)
    ensures SaveFrom(d, a).result == SaveFrom(d, a + 1).result
    ensures done + SaveFrom(d, a).ops == done + [RenameTemp(a)] + [Sleep(50 * a)] + SaveFrom(d, a + 1).ops
  {
  }

  /** The attempt at which the loop stops: the first one, from `a` on, whose
      rename does not fail with a locking error, or the last attempt. */
  function DecidingAttempt(d: Disk, a: nat): (k: nat)
    requires 1 <= a <= MaxAttempts
    ensures a <= k <= MaxAttempts
    ensures forall j :: a <= j < k ==> RetryableFailure(d.rename(j))
    ensures k < MaxAttempts ==> !RetryableFailure(d.rename(k))
    decreases MaxAttempts - a
  {
    if a == MaxAttempts || !RetryableFailure(d.rename(a)) then a else DecidingAttempt(d, a + 1)
  }

  /** The ops that follow the deciding rename. */
  function Epilogue(r: IoResult, k: nat): seq<FsOp> {
    if r.Ok? then []
    else if FallsBack(r.code, k) then [CopyTemp, UnlinkTemp]
    else [UnlinkTemp]
  }

  /** The failed renames `a` .. `k - 1`, each followed by its backoff delay. */
  function Backoff(a: nat, k: nat): seq<FsOp>
    requires a <= k
    decreases k - a
  {
    if a == k then [] else [RenameTemp(a), Sleep(50 * a)] + Backoff(a + 1, k)
  }

  /** The retry phase alternates renames and delays of 50 ms times the
      attempt number. */
  lemma {:induction false} BackoffAt(a: nat, k: nat, i: nat)
    requires a <= k && i < k - a
    ensures |Backoff(a, k)| == 2 * (k - a)
    ensures Backoff(a, k)[2 * i] == RenameTemp(a + i)
    ensures Backoff(a, k)[2 * i + 1] == Sleep(50 * (a + i))
    decreases k - a
  {
    if i == 0 {
      BackoffLength(a, k);
    } else {
      BackoffAt(a + 1, k, i - 1);
    }
  }

  lemma {:induction false} BackoffLength(a: nat, k: nat)
    requires a <= k
    ensures |Backoff(a, k)| == 2 * (k - a)
    decreases k - a
  {
    if a < k {
      BackoffLength(a + 1, k);
    }
  }

  /** The rename loop from attempt `a`: failed renames with their delays up to
      the deciding attempt `k`, the rename at `k`, then its consequence. */
  lemma {:induction false} SaveFromShape(d: Disk, a: nat)
    requires 1 <= a <= MaxAttempts
    ensures
      var k := DecidingAttempt(d, a);
      var run := SaveFrom(d, a);
      var r := d.rename(k);
      && run.ops == Backoff(a, k) + [RenameTemp(k)] + Epilogue(r, k)
      && (run.result == Renamed <==> r.Ok?)
      && (run.result == Copied <==> r.Fail? && FallsBack(r.code, k) && d.copy.Ok?)
      && (run.result.Failed? ==> r.Fail? && run.result.code == r.code)
    decreases MaxAttempts - a
  {
    if DecidingAttempt(d, a) == a {
      SaveFromStops(d, a);
    } else {
      SaveFromRetries(d, a);
      SaveFromShape(d, a + 1);
      var k := DecidingAttempt(d, a);
      assert Backoff(a, k) == [RenameTemp(a), Sleep(50 * a)] + Backoff(a + 1, k);
      AppendAssoc([RenameTemp(a), Sleep(50 * a)], Backoff(a + 1, k), [RenameTemp(k)], Epilogue(d.rename(k), k));
    }
  }

  lemma AppendAssoc(x: seq<FsOp>, y: seq<FsOp>, z: seq<FsOp>, w: seq<FsOp>)
    ensures x + (y + z + w) == x + y + z + w
  {
  }

  /** At the deciding attempt the loop renames once more and stops. */
  lemma SaveFromStops(d: Disk, a: nat)
    requires 1 <= a <= MaxAttempts && DecidingAttempt(d, a) == a
    ensures
      var run := SaveFrom(d, a);
      var r := d.rename(a);
      && run.ops == [RenameTemp(a)] + Epilogue(r, a)
      && (run.result == Renamed <==> r.Ok?)
      && (run.result == Copied <==> r.Fail? && FallsBack(r.code, a) && d.copy.Ok?)
      && (run.result.Failed? ==> r.Fail? && run.result.code == r.code)
  {
  }

  /** Before it, a locking error means one more attempt after a delay. */
  lemma SaveFromRetries(d: Disk, a: nat)
    requires 1 <= a <= MaxAttempts && DecidingAttempt(d, a) != a
    ensures a < MaxAttempts && DecidingAttempt(d, a + 1) == DecidingAttempt(d, a)
    ensures SaveFrom(d, a).result == SaveFrom(d, a + 1).result
    ensures SaveFrom(d, a).ops == [RenameTemp(a), Sleep(50 * a)] + SaveFrom(d, a + 1).ops
  {
  }

  /** What `save` promises: the renames it tries are attempts 1 to k, where k
      is the first attempt that does not fail with EBUSY/EPERM (at most 5);
      between two attempts it waits 50 ms times the attempt number; it falls
      back to one copy exactly on EXDEV or on a locking error at the fifth
      attempt; when it fails it unlinks the temporary file and throws the
      rename's error (or the temporary write's error, before any rename). */
  lemma SaveOutcome(d: Disk)
    ensures d.write.Fail? ==> SavePlan(d) == SaveRun(Failed(d.write.code), [WriteTemp])
    ensures d.write.Ok? ==>
      var k := DecidingAttempt(d, 1);
      var r := d.rename(k);
      var run := SavePlan(d);
      && 1 <= k <= MaxAttempts
      && (forall j :: 1 <= j < k ==> RetryableFailure(d.rename(j)))
      && (k < MaxAttempts ==> !RetryableFailure(r))
      && run.ops == [WriteTemp] + Backoff(1, k) + [RenameTemp(k)] + Epilogue(r, k)
      && (run.result == Renamed <==> r.Ok?)
      && (run.result == Copied <==> r.Fail? && FallsBack(r.code, k) && d.copy.Ok?)
      && (CopyTemp in run.ops <==> r.Fail? && FallsBack(r.code, k))
      && (run.result.Failed? ==> r.Fail? && run.result.code == r.code && run.ops[|run.ops| - 1] == UnlinkTemp)
  {
    if d.write.Ok? {
      SaveFromShape(d, 1);
      var k := DecidingAttempt(d, 1);
      var r := d.rename(k);
      BackoffNoCopy(1, k);
      var run := SavePlan(d);
      assert run.ops == [WriteTemp] + Backoff(1, k) + [RenameTemp(k)] + Epilogue(r, k);
      assert CopyTemp in run.ops <==> CopyTemp in Epilogue(r, k);
    }
  }

  lemma {:induction false} BackoffNoCopy(a: nat, k: nat)
    requires a <= k
    ensures CopyTemp !in Backoff(a, k)
    decreases k - a
  {
    if a < k {
      BackoffNoCopy(a + 1, k);
    }
  }
}
