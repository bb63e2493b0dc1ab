/** The registry store of the PAC service (docker/pac-service/src/store.js):
    a lazily loaded in-memory registry backed by a JSON file. Every mutation
    runs on the loaded registry, is persisted with `save`, and is rolled back
    in memory when either the mutation or the persistence fails. */
module Store {
  import opened Wrappers
  import opened Registry
  import Persist
  import Pac

  /** What a commit does to the backing file: nothing, replace it with the
      new registry, or leave whatever a fallback copy that failed left there
      (`copyFile` opens the destination for writing before it copies). */
  datatype FileEffect = Untouched | Replaced | CopyFailed

  /** What `commitMutation` leaves behind: the registry in memory, the reply
      to the caller, and what happened to the backing file. */
  datatype Committed<R> = Committed(state: State, reply: Result<R, StoreError>, effect: FileEffect)

  /** `save` failed after trying the copy fallback. */
  predicate FailedAfterCopy(d: Persist.Disk) {
    Persist.SavePlan(d).result.Failed? && Persist.CopyTemp in Persist.SavePlan(d).ops
  }

  /** `commitMutation` on the registry `before`, for a mutator that takes
      `step` and a filesystem that answers as `d`. */
  function Commit<R>(before: State, step: Step<R>, d: Persist.Disk): (c: Committed<R>)
    // Rollback: whatever fails, the registry in memory is the snapshot.
    ensures c.reply.Failure? ==> c.state == before && c.effect != Replaced
    // The caller sees success exactly when the mutator returned and `save`
    // replaced the file, by rename or by the copy fallback.
    ensures c.reply.Success? <==> step.Done? && !Persist.SavePlan(d).result.Failed?
    ensures c.reply.Success? ==> c.state == step.state && c.reply.value == step.result && c.effect == Replaced
    // A mutator's own error reaches the caller unchanged, and `save` is not run.
    ensures step.Thrown? ==> c.reply == Failure(step.error) && c.effect == Untouched
    // The file is left to a failed copy exactly when `save` ran, tried the
    // fallback copy and still failed.
    ensures c.effect == CopyFailed <==> step.Done? && FailedAfterCopy(d)
    ensures step.Done? && Persist.SavePlan(d).result.Failed? ==>
      c.reply == Failure(PersistFailed(Persist.SavePlan(d).result.code))
  {
    match step
    case Thrown(e) => Committed(before, Failure(e), Untouched)
    case Done(after, result) =>
      var run := Persist.SavePlan(d);
      if run.result.Failed? then
        var effect := if Persist.CopyTemp in run.ops then CopyFailed else Untouched;
        Committed(before, Failure(PersistFailed(run.result.code)), effect)
      else Committed(after, Success(result), Replaced)
  }

  /** The module-level state of store.js: `cache` (null until the first
      `load`) and the content of the file at `DB_FILE`. */
  class ProxyStore {
    var cache: Option<State>
    var file: FileContent

    constructor(f: FileContent)
      ensures cache == None && file == f
    {
      cache := None;
      file := f;
    }

    /** The registry `load` yields: the cache, or the normalised file. */
    function Current(): State
      reads this
    {
      if cache.Some? then cache.value else LoadState(file)
    }

    /** The cache agrees with the file: a restart would load the same registry. */
    predicate Coherent()
      reads this
    {
      cache.Some? ==> LoadState(file) == cache.value
    }

    /** How the store looks after a commit `c`, given the file before it and
        what a failed copy leaves in it (`copyLeft`). */
    predicate Reflects<R(==)>(c: Committed<R>, r: Result<R, StoreError>, fileBefore: FileContent, copyLeft: FileContent)
      reads this
    {
      && cache == Some(c.state)
      && r == c.reply
      && file == (match c.effect
                  case Untouched => fileBefore
                  case Replaced => Parsed(ToDoc(c.state))
                  case CopyFailed => copyLeft)
    }

    /** `load`: the cached registry, or else the file read and normalised
        once and cached from then on. */
    method Load() returns (s: State)
      modifies this`cache
      ensures s == old(Current())
      ensures cache == Some(s)
      ensures old(Coherent()) ==> Coherent()
    {
      if cache.Some? {
        s := cache.value;
        return;
      }
      s := LoadState(file);
      cache := Some(s);
    }

    /** `commitMutation`: load, snapshot, mutate, save; restore the snapshot
        if the mutator throws or `save` fails, and rethrow. The file after a
        failed fallback copy is the input `copyLeft`; only without such a
        copy is the cache sure to agree with the file. */
    method CommitMutation<R(==)>(mutator: State -> Step<R>, disk: Persist.Disk, copyLeft: FileContent)
      returns (r: Result<R, StoreError>)
      modifies this
      ensures Reflects(Commit(old(Current()), mutator(old(Current())), disk), r, old(file), copyLeft)
      ensures old(Coherent()) && !FailedAfterCopy(disk) ==> Coherent()
    {
      var before := Load();
      var snapshot := before;
      var step := mutator(before);
      if step.Thrown? {
        cache := Some(snapshot);
        r := Failure(step.error);
        return;
      }
      cache := Some(step.state);
      var saved, ops := Persist.Save(disk);
      if saved.Failed? {
        if Persist.CopyTemp in ops {
          file := copyLeft;
        }
        cache := Some(snapshot);
        r := Failure(PersistFailed(saved.code));
        return;
      }
      file := Parsed(ToDoc(step.state));
      LoadAfterSave(step.state);
      r := Success(step.result);
    }

    /** `getState`: a copy of the loaded registry. */
    method GetState() returns (s: State)
      modifies this`cache
      ensures s == old(Current()) && cache == Some(s)
    {
      s := Load();
    }

    /** `listProxies`: the proxies of the loaded registry, in order. */
    method ListProxies() returns (ps: seq<Proxy>)
      modifies this`cache
      ensures ps == old(Current()).proxies && cache == Some(old(Current()))
    {
      var s := Load();
      ps := s.proxies;
    }

    /** `getProxy`: the first proxy with the id, or null. */
    method GetProxy(id: string) returns (p: Option<Proxy>)
      modifies this`cache
      ensures cache == Some(old(Current()))
      ensures p.None? <==> !IdTaken(old(Current()), id)
      ensures p.Some? ==> exists k :: FindProxy(old(Current()).proxies, id) == Some(k) && p.value == old(Current()).proxies[k]
    {
      var s := Load();
      match FindProxy(s.proxies, id)
      case None =>
        p := None;
      case Some(k) =>
        p := Some(s.proxies[k]);
    }

    /** `generatePac` on the loaded registry. */
    method GeneratePac() returns (text: string)
      modifies this`cache
      ensures text == Pac.GeneratePac(old(Current()).proxies) && cache == Some(old(Current()))
    {
      var s := Load();
      text := Pac.GeneratePac(s.proxies);
    }

    method AddProxy(p: NewProxy, disk: Persist.Disk, copyLeft: FileContent) returns (r: Result<NewProxy, StoreError>)
      modifies this
      ensures Reflects(Commit(old(Current()), Registry.AddProxy(old(Current()), p), disk), r, old(file), copyLeft)
      ensures old(Coherent()) && !FailedAfterCopy(disk) ==> Coherent()
    {
      r := CommitMutation(s => Registry.AddProxy(s, p), disk, copyLeft);
    }

    method UpdateProxy(id: string, patch: Patch, disk: Persist.Disk, copyLeft: FileContent) returns (r: Result<Proxy, StoreError>)
      modifies this
      ensures Reflects(Commit(old(Current()), Registry.UpdateProxy(old(Current()), id, patch), disk), r, old(file), copyLeft)
      ensures old(Coherent()) && !FailedAfterCopy(disk) ==> Coherent()
    {
      r := CommitMutation(s => Registry.UpdateProxy(s, id, patch), disk, copyLeft);
    }

    method DeleteProxy(id: string, disk: Persist.Disk, copyLeft: FileContent) returns (r: Result<bool, StoreError>)
      modifies this
      ensures Reflects(Commit(old(Current()), Registry.DeleteProxy(old(Current()), id), disk), r, old(file), copyLeft)
      ensures old(Coherent()) && !FailedAfterCopy(disk) ==> Coherent()
    {
      r := CommitMutation(s => Registry.DeleteProxy(s, id), disk, copyLeft);
    }

    method AddDomain(id: string, domain: RawEntry, disk: Persist.Disk, copyLeft: FileContent) returns (r: Result<Domain, StoreError>)
      modifies this
      ensures Reflects(Commit(old(Current()), Registry.AddDomain(old(Current()), id, domain), disk), r, old(file), copyLeft)
      ensures old(Coherent()) && !FailedAfterCopy(disk) ==> Coherent()
    {
      r := CommitMutation(s => Registry.AddDomain(s, id, domain), disk, copyLeft);
    }

    method RemoveDomain(id: string, name: string, disk: Persist.Disk, copyLeft: FileContent) returns (r: Result<bool, StoreError>)
      modifies this
      ensures Reflects(Commit(old(Current()), Registry.RemoveDomain(old(Current()), id, name), disk), r, old(file), copyLeft)
      ensures old(Coherent()) && !FailedAfterCopy(disk) ==> Coherent()
    {
      r := CommitMutation(s => Registry.RemoveDomain(s, id, name), disk, copyLeft);
    }

    method UpdateDomainTag(id: string, name: string, tag: Option<string>, disk: Persist.Disk, copyLeft: FileContent)
      returns (r: Result<Domain, StoreError>)
      modifies this
      ensures Reflects(Commit(old(Current()), Registry.UpdateDomainTag(old(Current()), id, name, tag), disk), r, old(file), copyLeft)
      ensures old(Coherent()) && !FailedAfterCopy(disk) ==> Coherent()
    {
      r := CommitMutation(s => Registry.UpdateDomainTag(s, id, name, tag), disk, copyLeft);
    }
  }

  /** Rollback is per call: a rejected `addProxy` after an accepted one
      leaves the first proxy in place. */
  lemma RollbackKeepsEarlierCommit(s: State, p: NewProxy, d: Persist.Disk)
    requires !IdTaken(s, p.id) && p.domains == Some([])
    requires !Persist.SavePlan(d).result.Failed?
    ensures var c1 := Commit(s, Registry.AddProxy(s, p), d);
      && c1.reply == Success(p)
      && Commit(c1.state, Registry.AddProxy(c1.state, p), d) == Committed(c1.state, Failure(ProxyIdAlreadyExists), Untouched)
  {
    var c1 := Commit(s, Registry.AddProxy(s, p), d);
    assert AcceptEntries([]) == Some([]);
    var added := Proxy(p.id, p.proto, p.host, p.port, []);
    assert c1.state.proxies == s.proxies + [added];
    assert c1.state.proxies[|s.proxies|].id == p.id;
  }

  /** A fallback copy that fails after truncating the backing file leaves a
      file that no longer holds the registry: the cache keeps the snapshot,
      while a restart would read an empty file, which `load` turns into the
      empty registry. */
  lemma FailedCopyLosesRegistry<R>(before: State, step: Step<R>, d: Persist.Disk)
    requires step.Done? && FailedAfterCopy(d) && before.proxies != []
    ensures Commit(before, step, d).effect == CopyFailed
    ensures Commit(before, step, d).state == before
    ensures LoadState(Unparseable) != Commit(before, step, d).state
  {
  }
}
