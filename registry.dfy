/** The registry kept by the PAC service's store (docker/pac-service/src/store.js):
    proxies with their ordered domain lists, the normalisation `load` applies
    to the parsed backing file, and the six mutators, each as the change it
    makes to the registry value or the error it throws. */
module Registry {
  import opened Wrappers
  import opened Strings

  /** A domain routed through a proxy; `tag` is a free-text label. A tag that
      is `undefined` in the source is `None`. */
  datatype Domain = Domain(name: string, tag: Option<string>)

  datatype Proxy = Proxy(id: string, proto: string, host: string, port: int, domains: seq<Domain>)

  /** The whole registry, `{ proxies: [...] }`. */
  datatype State = State(proxies: seq<Proxy>)

  /** The errors the mutators throw, one per fixed message, and the rename or
      write error that `save` re-throws. */
  datatype StoreError =
    | ProxyIdAlreadyExists
    | InvalidDomainEntry
    | ProxyNotFound
    | DomainNameRequired
    | DomainNotFound
    | PersistFailed(code: string)

  function Message(e: StoreError): string {
    match e
    case ProxyIdAlreadyExists => "Proxy id already exists"
    case InvalidDomainEntry => "Invalid domain entry"
    case ProxyNotFound => "Proxy not found"
    case DomainNameRequired => "domain object with name required"
    case DomainNotFound => "Domain not found"
    case PersistFailed(code) => code
  }

  // ---------------------------------------------------------------------
  // Parsed JSON, as the backing file or a request body delivers it

  /** One element of a `domains` array as parsed JSON: anything that is not a
      non-null object, or an object whose `name` is a string (`Some`) or is
      absent or of another type (`None`). */
  datatype RawEntry = NonObject | Object(name: Option<string>, tag: Option<string>)

  datatype RawDomains = NotAnArray | Entries(items: seq<RawEntry>)

  datatype RawProxy = RawProxy(id: string, proto: string, host: string, port: int, domains: RawDomains)

  /** The parsed document; `proxies` is `None` when the field is missing or falsy. */
  datatype RawDoc = RawDoc(proxies: Option<seq<RawProxy>>)

  /** What reading the backing file yields. */
  datatype FileContent = Unreadable | Unparseable | Parsed(doc: RawDoc)

  // ---------------------------------------------------------------------
  // load: normalisation of the parsed file

  /** Keeps an entry only if it is an object with a string `name`, reduced to
      `{name, tag}`. */
  function NormalizeEntry(e: RawEntry): Option<Domain> {
    if e.Object? && e.name.Some? then Some(Domain(e.name.value, e.tag)) else None
  }

  function NormalizeItems(items: seq<RawEntry>): seq<Domain> {
    if items == [] then []
    else
      (match NormalizeEntry(items[0])
       case Some(d) => [d]
       case None => [])
      + NormalizeItems(items[1..])
  }

  function NormalizeDomains(d: RawDomains): seq<Domain> {
    if d.NotAnArray? then [] else NormalizeItems(d.items)
  }

  /** `{ ...p, domains: norm }`: the other fields are kept, and only the
      named object entries of an array survive as domains. */
  function NormalizeProxy(p: RawProxy): (q: Proxy)
    ensures q.id == p.id && q.proto == p.proto && q.host == p.host && q.port == p.port
    ensures p.domains.NotAnArray? ==> q.domains == []
    ensures p.domains.Entries? ==> forall d :: d in q.domains <==> Object(Some(d.name), d.tag) in p.domains.items
  {
    NormalizeDomainsMembers(p.domains);
    Proxy(p.id, p.proto, p.host, p.port, NormalizeDomains(p.domains))
  }

  /** The registry `load` builds from what the file yields: an unreadable or
      unparseable file, or a document without `proxies`, is the empty registry. */
  function LoadState(f: FileContent): (s: State)
    ensures !f.Parsed? || f.doc.proxies.None? ==> s.proxies == []
    ensures f.Parsed? && f.doc.proxies.Some? ==> |s.proxies| == |f.doc.proxies.value|
    // Each stored proxy keeps its fields, and its domains are the surviving
    // entries of its `domains` array, or none when that is not an array.
    ensures f.Parsed? && f.doc.proxies.Some? ==> forall i :: 0 <= i < |s.proxies| ==>
      && s.proxies[i].id == f.doc.proxies.value[i].id
      && s.proxies[i].proto == f.doc.proxies.value[i].proto
      && s.proxies[i].host == f.doc.proxies.value[i].host
      && s.proxies[i].port == f.doc.proxies.value[i].port
      && (f.doc.proxies.value[i].domains.NotAnArray? ==> s.proxies[i].domains == [])
      && (f.doc.proxies.value[i].domains.Entries? ==>
            s.proxies[i].domains == NormalizeItems(f.doc.proxies.value[i].domains.items))
  {
    if f.Parsed? && f.doc.proxies.Some? then
      var ps := f.doc.proxies.value;
      State(seq(|ps|, i requires 0 <= i < |ps| => NormalizeProxy(ps[i])))
    else State([])
  }

  /** Normalisation works entry by entry: it distributes over concatenation,
      so the survivors keep their relative order. */
  lemma {:induction false} NormalizeItemsAppend(a: seq<RawEntry>, b: seq<RawEntry>)
    ensures NormalizeItems(a + b) == NormalizeItems(a) + NormalizeItems(b)
  {
    if a != [] {
      assert (a + b)[1..] == a[1..] + b;
      NormalizeItemsAppend(a[1..], b);
    } else {
      assert a + b == b;
    }
  }

  /** A domain survives normalisation exactly when some entry is an object
      with that string name and that tag. */
  lemma {:induction false} NormalizeItemsMembers(items: seq<RawEntry>, d: Domain)
    ensures d in NormalizeItems(items) <==> Object(Some(d.name), d.tag) in items
  {
    if items != [] {
      NormalizeItemsMembers(items[1..], d);
      assert items == [items[0]] + items[1..];
    }
  }

  lemma NormalizeDomainsMembers(raw: RawDomains)
    ensures raw.Entries? ==>
      forall d :: d in NormalizeDomains(raw) <==> Object(Some(d.name), d.tag) in raw.items
  {
    if raw.Entries? {
      forall d
        ensures d in NormalizeDomains(raw) <==> Object(Some(d.name), d.tag) in raw.items
      {
        NormalizeItemsMembers(raw.items, d);
      }
    }
  }

  /** Nothing is dropped when every entry is an object with a string name. */
  lemma {:induction false} NormalizeItemsKeepsNamed(items: seq<RawEntry>)
    requires forall k :: 0 <= k < |items| ==> items[k].Object? && items[k].name.Some?
    ensures |NormalizeItems(items)| == |items|
    ensures forall k :: 0 <= k < |items| ==>
      NormalizeItems(items)[k] == Domain(items[k].name.value, items[k].tag)
  {
    if items != [] {
      NormalizeItemsKeepsNamed(items[1..]);
    }
  }

  // ---------------------------------------------------------------------
  // save: the document JSON.stringify writes

  function DomainToRaw(d: Domain): RawEntry { Object(Some(d.name), d.tag) }

  function ProxyToRaw(p: Proxy): RawProxy {
    RawProxy(p.id, p.proto, p.host, p.port,
             Entries(seq(|p.domains|, i requires 0 <= i < |p.domains| => DomainToRaw(p.domains[i]))))
  }

  function ToDoc(s: State): RawDoc {
    RawDoc(Some(seq(|s.proxies|, i requires 0 <= i < |s.proxies| => ProxyToRaw(s.proxies[i]))))
  }

  /** Loading what was saved gives back the registry that was saved. */
  lemma LoadAfterSave(s: State)
    ensures LoadState(Parsed(ToDoc(s))) == s
  {
    var loaded := LoadState(Parsed(ToDoc(s)));
    forall i | 0 <= i < |s.proxies|
      ensures loaded.proxies[i] == s.proxies[i]
    {
      var p := s.proxies[i];
      var items := ProxyToRaw(p).domains.items;
      NormalizeItemsKeepsNamed(items);
      assert NormalizeItems(items) == p.domains;
    }
  }

  // ---------------------------------------------------------------------
  // Lookups used by the mutators

  /** `proxies.findIndex(p => p.id === id)`. */
  function FindProxy(ps: seq<Proxy>, id: string): (r: Option<nat>)
    ensures r.Some? ==> r.value < |ps| && ps[r.value].id == id
    ensures r.Some? ==> forall k :: 0 <= k < r.value ==> ps[k].id != id
    ensures r.None? <==> forall k :: 0 <= k < |ps| ==> ps[k].id != id
  {
    if ps == [] then None
    else if ps[0].id == id then Some(0)
    else match FindProxy(ps[1..], id)
      case None => None
      case Some(k) => Some(k + 1)
  }

  /** `domains.find(d => d.name === name)`, as an index. */
  function FindDomain(ds: seq<Domain>, name: string): (r: Option<nat>)
    ensures r.Some? ==> r.value < |ds| && ds[r.value].name == name
    ensures r.Some? ==> forall k :: 0 <= k < r.value ==> ds[k].name != name
    ensures r.None? <==> forall k :: 0 <= k < |ds| ==> ds[k].name != name
  {
    if ds == [] then None
    else if ds[0].name == name then Some(0)
    else match FindDomain(ds[1..], name)
      case None => None
      case Some(k) => Some(k + 1)
  }

  /** `proxies.filter(p => p.id !== id)`. */
  function WithoutProxy(ps: seq<Proxy>, id: string): seq<Proxy> {
    if ps == [] then []
    else (if ps[0].id != id then [ps[0]] else []) + WithoutProxy(ps[1..], id)
  }

  /** `domains.filter(d => d.name !== name)`. */
  function WithoutDomain(ds: seq<Domain>, name: string): seq<Domain> {
    if ds == [] then []
    else (if ds[0].name != name then [ds[0]] else []) + WithoutDomain(ds[1..], name)
  }

  /** The number of proxies carrying `id`. */
  function CountId(ps: seq<Proxy>, id: string): nat {
    if ps == [] then 0 else (if ps[0].id == id then 1 else 0) + CountId(ps[1..], id)
  }

  lemma {:induction false} WithoutProxyCharacterized(ps: seq<Proxy>, id: string)
    ensures forall q :: q in WithoutProxy(ps, id) <==> q in ps && q.id != id
    ensures |WithoutProxy(ps, id)| + CountId(ps, id) == |ps|
  {
    if ps != [] {
      WithoutProxyCharacterized(ps[1..], id);
      assert ps == [ps[0]] + ps[1..];
    }
  }

  lemma {:induction false} WithoutDomainCharacterized(ds: seq<Domain>, name: string)
    ensures forall d :: d in WithoutDomain(ds, name) <==> d in ds && d.name != name
  {
    if ds != [] {
      WithoutDomainCharacterized(ds[1..], name);
      assert ds == [ds[0]] + ds[1..];
    }
  }

  lemma {:induction false} WithoutDomainAbsent(ds: seq<Domain>, name: string)
    requires forall k :: 0 <= k < |ds| ==> ds[k].name != name
    ensures WithoutDomain(ds, name) == ds
  {
    if ds != [] {
      WithoutDomainAbsent(ds[1..], name);
    }
  }

  lemma {:induction false} WithoutDomainAppend(a: seq<Domain>, b: seq<Domain>, name: string)
    ensures WithoutDomain(a + b, name) == WithoutDomain(a, name) + WithoutDomain(b, name)
  {
    if a != [] {
      assert (a + b)[1..] == a[1..] + b;
      WithoutDomainAppend(a[1..], b, name);
    } else {
      assert a + b == b;
    }
  }

  /** Filtering keeps names distinct when they were distinct. */
  lemma {:induction false} WithoutDomainKeepsUnique(ds: seq<Domain>, name: string)
    requires UniqueNames(ds)
    ensures UniqueNames(WithoutDomain(ds, name))
  {
    if ds != [] {
      WithoutDomainKeepsUnique(ds[1..], name);
      WithoutDomainCharacterized(ds[1..], name);
      var rest := WithoutDomain(ds[1..], name);
      if ds[0].name != name {
        forall k | 0 <= k < |rest|
          ensures rest[k].name != ds[0].name
        {
          assert rest[k] in ds[1..];
        }
      }
    }
  }

  function WithProxyAt(s: State, i: nat, p: Proxy): State
    requires i < |s.proxies|
  {
    State(s.proxies[i := p])
  }

  // ---------------------------------------------------------------------
  // Invariants the design asks for

  predicate UniqueIds(ps: seq<Proxy>) {
    forall i, j :: 0 <= i < j < |ps| ==> ps[i].id != ps[j].id
  }

  predicate UniqueNames(ds: seq<Domain>) {
    forall i, j :: 0 <= i < j < |ds| ==> ds[i].name != ds[j].name
  }

  predicate NamesUniquePerProxy(s: State) {
    forall i :: 0 <= i < |s.proxies| ==> UniqueNames(s.proxies[i].domains)
  }

  // ---------------------------------------------------------------------
  // Mutators

  /** What a mutator does to the registry: the new value and the result it
      returns, or the error it throws. */
  datatype Step<R> = Done(state: State, result: R) | Thrown(error: StoreError)

  /** The proxy handed to `addProxy`; `domains` is `None` when it is not an array. */
  datatype NewProxy = NewProxy(id: string, proto: string, host: string, port: int,
                               domains: Option<seq<RawEntry>>)

  /** An initial domain is accepted when it is an object whose `name` is a
      string that is not blank; it is stored with the name trimmed. */
  function AcceptEntry(e: RawEntry): Option<Domain> {
    if e.Object? && e.name.Some? && JsTrim(e.name.value) != "" then
      Some(Domain(JsTrim(e.name.value), e.tag))
    else None
  }

  /** The `proxy.domains.map(...)` of `addProxy`: throws on the first
      rejected entry. */
  function AcceptEntries(items: seq<RawEntry>): Option<seq<Domain>> {
    if items == [] then Some([])
    else
      var d, ds := AcceptEntry(items[0]), AcceptEntries(items[1..]);
      if d.Some? && ds.Some? then Some([d.value] + ds.value) else None
  }

  lemma {:induction false} AcceptEntriesCharacterized(items: seq<RawEntry>)
    ensures AcceptEntries(items).Some? <==> forall k :: 0 <= k < |items| ==> AcceptEntry(items[k]).Some?
    ensures AcceptEntries(items).Some? ==>
      |AcceptEntries(items).value| == |items| &&
      forall k :: 0 <= k < |items| ==> AcceptEntries(items).value[k] == AcceptEntry(items[k]).value
  {
    if items != [] {
      AcceptEntriesCharacterized(items[1..]);
      var d, ds := AcceptEntry(items[0]), AcceptEntries(items[1..]);
      if d.None? {
        assert AcceptEntries(items).None?;
      } else if ds.None? {
        var k :| 0 <= k < |items| - 1 && AcceptEntry(items[1..][k]).None?;
        assert items[k + 1] == items[1..][k];
      } else {
        forall k | 0 <= k < |items|
          ensures AcceptEntry(items[k]).Some?
          ensures AcceptEntries(items).value[k] == AcceptEntry(items[k]).value
        {
          if k > 0 {
            assert items[k] == items[1..][k - 1];
          }
        }
      }
    }
  }

  predicate IdTaken(s: State, id: string) {
    exists k :: 0 <= k < |s.proxies| && s.proxies[k].id == id
  }

  function AddProxy(s: State, p: NewProxy): (r: Step<NewProxy>)
    ensures IdTaken(s, p.id) ==> r == Thrown(ProxyIdAlreadyExists)
    ensures r.Thrown? ==> r.error == ProxyIdAlreadyExists || r.error == InvalidDomainEntry
    ensures r.Done? ==>
      && r.result == p && |r.state.proxies| == |s.proxies| + 1
      && r.state.proxies[..|s.proxies|] == s.proxies && r.state.proxies[|s.proxies|].id == p.id
  {
    if IdTaken(s, p.id) then Thrown(ProxyIdAlreadyExists)
    else
      var domains := if p.domains.Some? then AcceptEntries(p.domains.value) else Some([]);
      if domains.None? then Thrown(InvalidDomainEntry)
      else Done(State(s.proxies + [Proxy(p.id, p.proto, p.host, p.port, domains.value)]), p)
  }

  /** The fields an `updateProxy` patch carries; `None` for a field it does
      not mention. */
  datatype Patch = Patch(id: Option<string>, proto: Option<string>, host: Option<string>,
                         port: Option<int>, domains: Option<seq<Domain>>)

  /** `{ ...p, ...patch }`. */
  function ApplyPatch(p: Proxy, patch: Patch): Proxy {
    Proxy(if patch.id.Some? then patch.id.value else p.id,
          if patch.proto.Some? then patch.proto.value else p.proto,
          if patch.host.Some? then patch.host.value else p.host,
          if patch.port.Some? then patch.port.value else p.port,
          if patch.domains.Some? then patch.domains.value else p.domains)
  }

  function UpdateProxy(s: State, id: string, patch: Patch): (r: Step<Proxy>)
    ensures r.Thrown? <==> !IdTaken(s, id)
    ensures r.Thrown? ==> r.error == ProxyNotFound
    ensures r.Done? ==> |r.state.proxies| == |s.proxies| && r.result in r.state.proxies
  {
    match FindProxy(s.proxies, id)
    case None => Thrown(ProxyNotFound)
    case Some(i) =>
      var merged := ApplyPatch(s.proxies[i], patch);
      assert WithProxyAt(s, i, merged).proxies[i] == merged;
      Done(WithProxyAt(s, i, merged), merged)
  }

  function DeleteProxy(s: State, id: string): (r: Step<bool>)
    ensures r.Thrown? ==> r.error == ProxyNotFound
    ensures r.Done? ==> r.result && forall q :: q in r.state.proxies ==> q.id != id
  {
    WithoutProxyCharacterized(s.proxies, id);
    var kept := WithoutProxy(s.proxies, id);
    if |kept| == |s.proxies| then Thrown(ProxyNotFound) else Done(State(kept), true)
  }

  function AddDomain(s: State, id: string, domain: RawEntry): (r: Step<Domain>)
    ensures r.Thrown? ==> r.error == ProxyNotFound || r.error == DomainNameRequired
    ensures r.Done? ==> IdTaken(s, id) && r.result.name != [] && |r.state.proxies| == |s.proxies|
  {
    match FindProxy(s.proxies, id)
    case None => Thrown(ProxyNotFound)
    case Some(i) =>
      match AcceptEntry(domain)
      case None => Thrown(DomainNameRequired)
      case Some(entry) =>
        var p := s.proxies[i];
        if FindDomain(p.domains, entry.name).Some? then Done(s, entry)
        else Done(WithProxyAt(s, i, p.(domains := p.domains + [entry])), entry)
  }

  function RemoveDomain(s: State, id: string, name: string): (r: Step<bool>)
    ensures r.Thrown? <==> !IdTaken(s, id)
    ensures r.Thrown? ==> r.error == ProxyNotFound
    ensures r.Done? ==> r.result && |r.state.proxies| == |s.proxies|
  {
    match FindProxy(s.proxies, id)
    case None => Thrown(ProxyNotFound)
    case Some(i) =>
      var p := s.proxies[i];
      Done(WithProxyAt(s, i, p.(domains := WithoutDomain(p.domains, name))), true)
  }

  function UpdateDomainTag(s: State, id: string, name: string, tag: Option<string>): (r: Step<Domain>)
    ensures r.Thrown? ==> r.error == ProxyNotFound || r.error == DomainNotFound
    ensures r.Done? ==> r.result == Domain(name, tag) && |r.state.proxies| == |s.proxies|
  {
    match FindProxy(s.proxies, id)
    case None => Thrown(ProxyNotFound)
    case Some(i) =>
      var p := s.proxies[i];
      match FindDomain(p.domains, name)
      case None => Thrown(DomainNotFound)
      case Some(j) =>
        var d := p.domains[j].(tag := tag);
        Done(WithProxyAt(s, i, p.(domains := p.domains[j := d])), d)
  }

  // ---------------------------------------------------------------------
  // What the mutators promise

  /** `addProxy` throws exactly when the id is taken (checked first) or some
      initial domain is rejected; otherwise it appends one proxy at the end
      whose domains are the input's, each with its name trimmed and not blank. */
  lemma AddProxyOutcome(s: State, p: NewProxy)
    ensures IdTaken(s, p.id) ==> AddProxy(s, p) == Thrown(ProxyIdAlreadyExists)
    ensures AddProxy(s, p) == Thrown(InvalidDomainEntry) <==>
      !IdTaken(s, p.id) && p.domains.Some? &&
      exists k :: 0 <= k < |p.domains.value| && AcceptEntry(p.domains.value[k]).None?
    ensures AddProxy(s, p).Done? ==>
      var ps := AddProxy(s, p).state.proxies;
      var added := ps[|ps| - 1];
      && AddProxy(s, p).result == p
      && |ps| == |s.proxies| + 1 && ps[..|s.proxies|] == s.proxies
      && added.id == p.id && added.proto == p.proto && added.host == p.host && added.port == p.port
      && (p.domains.None? ==> added.domains == [])
      && (p.domains.Some? ==>
            |added.domains| == |p.domains.value| &&
            forall k :: 0 <= k < |added.domains| ==>
              var e := p.domains.value[k];
              e.Object? && e.name.Some? && added.domains[k] == Domain(JsTrim(e.name.value), e.tag)
              && added.domains[k].name != "")
  {
    if p.domains.Some? {
      AcceptEntriesCharacterized(p.domains.value);
    }
  }

  /** Ids stay distinct across `addProxy`. */
  lemma AddProxyKeepsIdsUnique(s: State, p: NewProxy)
    requires UniqueIds(s.proxies) && AddProxy(s, p).Done?
    ensures UniqueIds(AddProxy(s, p).state.proxies)
  {
    var ps := AddProxy(s, p).state.proxies;
    forall i, j | 0 <= i < j < |ps|
      ensures ps[i].id != ps[j].id
    {
      if j == |ps| - 1 {
        assert ps[i] == s.proxies[i];
      } else {
        assert ps[i] == s.proxies[i] && ps[j] == s.proxies[j];
      }
    }
  }

  /** `addProxy` does not de-duplicate its initial domains: two entries whose
      names trim to the same text are both stored. */
  lemma AddProxyStoresDuplicates(s: State, p: NewProxy, e0: RawEntry, e1: RawEntry)
    requires !IdTaken(s, p.id) && p.domains == Some([e0, e1])
    requires AcceptEntry(e0).Some? && AcceptEntry(e1).Some?
    requires AcceptEntry(e0).value.name == AcceptEntry(e1).value.name
    ensures AddProxy(s, p).Done? && !NamesUniquePerProxy(AddProxy(s, p).state)
  {
    AcceptEntriesCharacterized([e0, e1]);
    assert AddProxy(s, p).Done?;
    AddProxyOutcome(s, p);
    var ps := AddProxy(s, p).state.proxies;
    var ds := ps[|ps| - 1].domains;
    assert ds[0].name == ds[1].name;
    assert !UniqueNames(ds);
  }

  /** `"a.com"` and `" a.com "` are such a pair. */
  lemma PaddedNameTrims()
    ensures JsTrim("a.com") == "a.com" && JsTrim(" a.com ") == "a.com"
  {
    TrimUntouched("a.com", IsJsSpace);
    var padded, tail := " a.com ", "a.com ";
    assert padded[0] == ' ' && IsJsSpace(padded[0]) && padded[1..] == tail;
    assert tail[0] == 'a' && !IsJsSpace(tail[0]);
    assert TrimStart(padded, IsJsSpace) == tail;
    assert tail[5] == ' ' && IsJsSpace(tail[5]) && tail[..5] == "a.com";
  }

  /** `updateProxy` throws exactly when no proxy has the id; otherwise it
      overwrites the fields the patch names, at the index of the first proxy
      with that id, and touches nothing else. */
  lemma UpdateProxyOutcome(s: State, id: string, patch: Patch)
    ensures UpdateProxy(s, id, patch).Thrown? <==> !IdTaken(s, id)
    ensures UpdateProxy(s, id, patch).Thrown? ==> UpdateProxy(s, id, patch).error == ProxyNotFound
    ensures UpdateProxy(s, id, patch).Done? ==>
      var ps := UpdateProxy(s, id, patch).state.proxies;
      exists i :: 0 <= i < |s.proxies| && s.proxies[i].id == id
        && (forall k :: 0 <= k < i ==> s.proxies[k].id != id)
        && |ps| == |s.proxies|
        && (forall k :: 0 <= k < |ps| && k != i ==> ps[k] == s.proxies[k])
        && ps[i] == UpdateProxy(s, id, patch).result
        && ps[i].id == (if patch.id.Some? then patch.id.value else id)
        && ps[i].proto == (if patch.proto.Some? then patch.proto.value else s.proxies[i].proto)
        && ps[i].host == (if patch.host.Some? then patch.host.value else s.proxies[i].host)
        && ps[i].port == (if patch.port.Some? then patch.port.value else s.proxies[i].port)
        && ps[i].domains == (if patch.domains.Some? then patch.domains.value else s.proxies[i].domains)
  {
    if UpdateProxy(s, id, patch).Done? {
      var i := FindProxy(s.proxies, id).value;
      assert s.proxies[i].id == id;
    }
  }

  /** `updateProxy` does not re-check id uniqueness: a patch carrying another
      proxy's id yields two proxies with the same id. */
  lemma UpdateProxyCanDuplicateIds()
    ensures var s := State([Proxy("a", "SOCKS", "h", 1, []), Proxy("b", "SOCKS", "h", 2, [])]);
            var step := UpdateProxy(s, "b", Patch(Some("a"), None, None, None, None));
            UniqueIds(s.proxies) && step.Done? && !UniqueIds(step.state.proxies)
  {
    var s := State([Proxy("a", "SOCKS", "h", 1, []), Proxy("b", "SOCKS", "h", 2, [])]);
    assert FindProxy(s.proxies, "b") == Some(1) by {
      assert s.proxies[1..] == [Proxy("b", "SOCKS", "h", 2, [])];
    }
    var ps := UpdateProxy(s, "b", Patch(Some("a"), None, None, None, None)).state.proxies;
    assert ps == [Proxy("a", "SOCKS", "h", 1, []), Proxy("a", "SOCKS", "h", 2, [])];
    assert ps[0].id == ps[1].id;
  }

  /** `deleteProxy` throws exactly when no proxy has the id; otherwise it
      removes every proxy with the id and keeps all others. */
  lemma DeleteProxyOutcome(s: State, id: string)
    ensures DeleteProxy(s, id).Thrown? <==> !IdTaken(s, id)
    ensures DeleteProxy(s, id).Thrown? ==> DeleteProxy(s, id).error == ProxyNotFound
    ensures DeleteProxy(s, id).Done? ==>
      var ps := DeleteProxy(s, id).state.proxies;
      && (forall q :: q in ps <==> q in s.proxies && q.id != id)
      && |ps| == |s.proxies| - CountId(s.proxies, id)
  {
    WithoutProxyCharacterized(s.proxies, id);
    CountIdPositive(s.proxies, id);
  }

  lemma {:induction false} CountIdPositive(ps: seq<Proxy>, id: string)
    ensures CountId(ps, id) > 0 <==> exists k :: 0 <= k < |ps| && ps[k].id == id
  {
    if ps != [] {
      CountIdPositive(ps[1..], id);
      if CountId(ps[1..], id) > 0 {
        var k :| 0 <= k < |ps[1..]| && ps[1..][k].id == id;
        assert ps[k + 1].id == id;
      }
      if exists k :: 0 <= k < |ps| && ps[k].id == id {
        var k :| 0 <= k < |ps| && ps[k].id == id;
        if k > 0 {
          assert ps[1..][k - 1].id == id;
        }
      }
    }
  }

  /** Deleting keeps ids distinct. */
  lemma DeleteProxyKeepsIdsUnique(s: State, id: string)
    requires UniqueIds(s.proxies) && DeleteProxy(s, id).Done?
    ensures UniqueIds(DeleteProxy(s, id).state.proxies)
  {
    WithoutProxyKeepsUnique(s.proxies, id);
  }

  lemma {:induction false} WithoutProxyKeepsUnique(ps: seq<Proxy>, id: string)
    requires UniqueIds(ps)
    ensures UniqueIds(WithoutProxy(ps, id))
  {
    if ps != [] {
      WithoutProxyKeepsUnique(ps[1..], id);
      WithoutProxyCharacterized(ps[1..], id);
      var rest := WithoutProxy(ps[1..], id);
      if ps[0].id != id {
        forall k | 0 <= k < |rest|
          ensures rest[k].id != ps[0].id
        {
          assert rest[k] in ps[1..];
        }
      }
    }
  }

  /** `addDomain` needs an existing proxy (checked first) and a non-blank name. */
  lemma AddDomainErrors(s: State, id: string, domain: RawEntry)
    ensures !IdTaken(s, id) ==> AddDomain(s, id, domain) == Thrown(ProxyNotFound)
    ensures IdTaken(s, id) ==> (AddDomain(s, id, domain).Thrown? <==> AcceptEntry(domain).None?)
    ensures IdTaken(s, id) && AcceptEntry(domain).None? ==> AddDomain(s, id, domain) == Thrown(DomainNameRequired)
  {
  }

  /** On success `addDomain` returns the trimmed entry and appends it to the
      first proxy with the id unless a domain of that name is already there;
      nothing else changes. */
  lemma AddDomainOutcome(s: State, id: string, domain: RawEntry)
    requires AddDomain(s, id, domain).Done?
    ensures
      var step := AddDomain(s, id, domain);
      var i := FindProxy(s.proxies, id).value;
      var old_ds := s.proxies[i].domains;
      && domain.Object? && domain.name.Some?
      && step.result == Domain(JsTrim(domain.name.value), domain.tag) && step.result.name != ""
      && |step.state.proxies| == |s.proxies|
      && (forall k :: 0 <= k < |s.proxies| && k != i ==> step.state.proxies[k] == s.proxies[k])
      && step.state.proxies[i].(domains := old_ds) == s.proxies[i]
      && step.state.proxies[i].domains ==
           if exists k :: 0 <= k < |old_ds| && old_ds[k].name == step.result.name then old_ds
           else old_ds + [step.result]
  {
    var i := FindProxy(s.proxies, id).value;
    var p := s.proxies[i];
    var entry := AcceptEntry(domain).value;
    match FindDomain(p.domains, entry.name)
    case Some(j) =>
      assert AddDomain(s, id, domain) == Done(s, entry);
      assert p.domains[j].name == entry.name;
    case None =>
      var p' := p.(domains := p.domains + [entry]);
      assert AddDomain(s, id, domain) == Done(WithProxyAt(s, i, p'), entry);
      assert p'.(domains := p.domains) == p;
  }

  /** Adding the same domain twice is the same as adding it once. */
  lemma AddDomainIdempotent(s: State, id: string, domain: RawEntry)
    requires AddDomain(s, id, domain).Done?
    ensures AddDomain(AddDomain(s, id, domain).state, id, domain) == AddDomain(s, id, domain)
  {
    var i := FindProxy(s.proxies, id).value;
    var entry := AcceptEntry(domain).value;
    var p := s.proxies[i];
    if FindDomain(p.domains, entry.name).None? {
      var p' := p.(domains := p.domains + [entry]);
      var s1 := WithProxyAt(s, i, p');
      assert AddDomain(s, id, domain) == Done(s1, entry);
      FindProxyAfterUpdate(s, i, p');
      assert s1.proxies[i] == p';
      assert p'.domains[|p.domains|].name == entry.name;
      assert FindDomain(p'.domains, entry.name).Some?;
      assert AddDomain(s1, id, domain) == Done(s1, entry);
    }
  }

  /** Replacing the first proxy with an id by one with the same id keeps it the
      first proxy with that id. */
  lemma FindProxyAfterUpdate(s: State, i: nat, p: Proxy)
    requires i < |s.proxies| && p.id == s.proxies[i].id
    requires FindProxy(s.proxies, p.id) == Some(i)
    ensures FindProxy(WithProxyAt(s, i, p).proxies, p.id) == Some(i)
  {
    var ps := WithProxyAt(s, i, p).proxies;
    assert ps[i].id == p.id;
  }

  /** Adding a domain that was not there and then removing it by name gives
      back the registry as it was. */
  lemma AddThenRemoveDomain(s: State, id: string, domain: RawEntry)
    requires AddDomain(s, id, domain).Done?
    requires FindDomain(s.proxies[FindProxy(s.proxies, id).value].domains, AddDomain(s, id, domain).result.name).None?
    ensures RemoveDomain(AddDomain(s, id, domain).state, id, AddDomain(s, id, domain).result.name) == Done(s, true)
  {
    var step := AddDomain(s, id, domain);
    AddDomainOutcome(s, id, domain);
    var i := FindProxy(s.proxies, id).value;
    var s1, e := step.state, step.result;
    var ds := s.proxies[i].domains;
    assert s1.proxies[i].domains == ds + [e];
    assert s1 == WithProxyAt(s, i, s1.proxies[i]);
    FindProxyAfterUpdate(s, i, s1.proxies[i]);
    WithoutAppendedFresh(ds, e);
    var restored := s1.proxies[i].(domains := WithoutDomain(ds + [e], e.name));
    assert restored == s.proxies[i];
    assert WithProxyAt(s1, i, restored) == s;
  }

  lemma WithoutAppendedFresh(ds: seq<Domain>, e: Domain)
    requires forall k :: 0 <= k < |ds| ==> ds[k].name != e.name
    ensures WithoutDomain(ds + [e], e.name) == ds
  {
    WithoutDomainAppend(ds, [e], e.name);
    WithoutDomainAbsent(ds, e.name);
    assert WithoutDomain([e], e.name) == [];
  }

  /** `removeDomain` needs an existing proxy; it then succeeds whether or not
      the name is present, drops every entry with the name from the first
      proxy with the id, keeps every other entry, and changes nothing else. */
  lemma RemoveDomainOutcome(s: State, id: string, name: string)
    ensures RemoveDomain(s, id, name).Thrown? <==> !IdTaken(s, id)
    ensures RemoveDomain(s, id, name).Thrown? ==> RemoveDomain(s, id, name).error == ProxyNotFound
    ensures RemoveDomain(s, id, name).Done? ==>
      var step := RemoveDomain(s, id, name);
      var i := FindProxy(s.proxies, id).value;
      && step.result
      && |step.state.proxies| == |s.proxies|
      && (forall k :: 0 <= k < |s.proxies| && k != i ==> step.state.proxies[k] == s.proxies[k])
      && step.state.proxies[i].(domains := s.proxies[i].domains) == s.proxies[i]
      && (forall d :: d in step.state.proxies[i].domains <==> d in s.proxies[i].domains && d.name != name)
      && (FindDomain(s.proxies[i].domains, name).None? ==> step.state == s)
  {
    if IdTaken(s, id) {
      var i := FindProxy(s.proxies, id).value;
      WithoutDomainCharacterized(s.proxies[i].domains, name);
      if FindDomain(s.proxies[i].domains, name).None? {
        WithoutDomainAbsent(s.proxies[i].domains, name);
        assert s.proxies[i].(domains := s.proxies[i].domains) == s.proxies[i];
        assert s.proxies[i := s.proxies[i]] == s.proxies;
      }
    }
  }

  /** `updateDomainTag` throws "Proxy not found" when no proxy has the id,
      and "Domain not found" exactly when that proxy has no domain with the
      name. */
  lemma UpdateDomainTagErrors(s: State, id: string, name: string, tag: Option<string>)
    ensures !IdTaken(s, id) ==> UpdateDomainTag(s, id, name, tag) == Thrown(ProxyNotFound)
    ensures IdTaken(s, id) ==>
      (UpdateDomainTag(s, id, name, tag) == Thrown(DomainNotFound) <==>
         forall d :: d in s.proxies[FindProxy(s.proxies, id).value].domains ==> d.name != name)
  {
    if IdTaken(s, id) {
      var ds := s.proxies[FindProxy(s.proxies, id).value].domains;
      if FindDomain(ds, name).None? {
        forall d | d in ds ensures d.name != name {
          var k :| 0 <= k < |ds| && ds[k] == d;
        }
      } else {
        assert ds[FindDomain(ds, name).value] in ds;
      }
    }
  }

  /** Otherwise it changes the tag of the first domain with the name in the
      first proxy with the id, returns that domain, and changes nothing else. */
  lemma UpdateDomainTagOutcome(s: State, id: string, name: string, tag: Option<string>)
    requires UpdateDomainTag(s, id, name, tag).Done?
    ensures
      var step := UpdateDomainTag(s, id, name, tag);
      var i := FindProxy(s.proxies, id).value;
      var ds := s.proxies[i].domains;
      var ds' := step.state.proxies[i].domains;
      var j := FindDomain(ds, name).value;
      && j < |ds| && ds[j].name == name && (forall k :: 0 <= k < j ==> ds[k].name != name)
      && |step.state.proxies| == |s.proxies|
      && (forall k :: 0 <= k < |s.proxies| && k != i ==> step.state.proxies[k] == s.proxies[k])
      && step.state.proxies[i].(domains := ds) == s.proxies[i]
      && |ds'| == |ds|
      && (forall k :: 0 <= k < |ds| && k != j ==> ds'[k] == ds[k])
      && ds'[j] == Domain(name, tag) && step.result == ds'[j]
  {
    var i := FindProxy(s.proxies, id).value;
    var ds := s.proxies[i].domains;
    var j := FindDomain(ds, name).value;
    assert ds[j].(tag := tag) == Domain(name, tag);
  }

  /** Putting a proxy whose names are distinct in place of another keeps
      names distinct in every proxy. */
  lemma WithProxyAtKeepsNamesUnique(s: State, i: nat, p: Proxy)
    requires NamesUniquePerProxy(s) && i < |s.proxies| && UniqueNames(p.domains)
    ensures NamesUniquePerProxy(WithProxyAt(s, i, p))
  {
    var ps := WithProxyAt(s, i, p).proxies;
    forall k | 0 <= k < |ps|
      ensures UniqueNames(ps[k].domains)
    {
      if k != i {
        assert ps[k] == s.proxies[k];
      }
    }
  }

  lemma AppendFreshKeepsUnique(ds: seq<Domain>, e: Domain)
    requires UniqueNames(ds) && forall k :: 0 <= k < |ds| ==> ds[k].name != e.name
    ensures UniqueNames(ds + [e])
  {
  }

  lemma RetagKeepsUnique(ds: seq<Domain>, j: nat, tag: Option<string>)
    requires UniqueNames(ds) && j < |ds|
    ensures UniqueNames(ds[j := ds[j].(tag := tag)])
  {
    var ds' := ds[j := ds[j].(tag := tag)];
    assert forall k :: 0 <= k < |ds| ==> ds'[k].name == ds[k].name;
  }

  lemma AddDomainKeepsNamesUnique(s: State, id: string, domain: RawEntry)
    requires NamesUniquePerProxy(s) && AddDomain(s, id, domain).Done?
    ensures NamesUniquePerProxy(AddDomain(s, id, domain).state)
  {
    var i := FindProxy(s.proxies, id).value;
    var p := s.proxies[i];
    var entry := AcceptEntry(domain).value;
    if FindDomain(p.domains, entry.name).None? {
      AppendFreshKeepsUnique(p.domains, entry);
      WithProxyAtKeepsNamesUnique(s, i, p.(domains := p.domains + [entry]));
    }
  }

  lemma RemoveDomainKeepsNamesUnique(s: State, id: string, name: string)
    requires NamesUniquePerProxy(s) && RemoveDomain(s, id, name).Done?
    ensures NamesUniquePerProxy(RemoveDomain(s, id, name).state)
  {
    var i := FindProxy(s.proxies, id).value;
    var p := s.proxies[i];
    WithoutDomainKeepsUnique(p.domains, name);
    WithProxyAtKeepsNamesUnique(s, i, p.(domains := WithoutDomain(p.domains, name)));
  }

  lemma UpdateDomainTagKeepsNamesUnique(s: State, id: string, name: string, tag: Option<string>)
    requires NamesUniquePerProxy(s) && UpdateDomainTag(s, id, name, tag).Done?
    ensures NamesUniquePerProxy(UpdateDomainTag(s, id, name, tag).state)
  {
    var i := FindProxy(s.proxies, id).value;
    var p := s.proxies[i];
    var j := FindDomain(p.domains, name).value;
    RetagKeepsUnique(p.domains, j, tag);
    WithProxyAtKeepsNamesUnique(s, i, p.(domains := p.domains[j := p.domains[j].(tag := tag)]));
  }

  /** The mutators that address domains keep names distinct within each proxy. */
  lemma DomainMutatorsKeepNamesUnique(s: State, id: string, domain: RawEntry, name: string, tag: Option<string>)
    requires NamesUniquePerProxy(s)
    ensures AddDomain(s, id, domain).Done? ==> NamesUniquePerProxy(AddDomain(s, id, domain).state)
    ensures RemoveDomain(s, id, name).Done? ==> NamesUniquePerProxy(RemoveDomain(s, id, name).state)
    ensures UpdateDomainTag(s, id, name, tag).Done? ==> NamesUniquePerProxy(UpdateDomainTag(s, id, name, tag).state)
  {
    if AddDomain(s, id, domain).Done? {
      AddDomainKeepsNamesUnique(s, id, domain);
    }
    if RemoveDomain(s, id, name).Done? {
      RemoveDomainKeepsNamesUnique(s, id, name);
    }
    if UpdateDomainTag(s, id, name, tag).Done? {
      UpdateDomainTagKeepsNamesUnique(s, id, name, tag);
    }
  }
}
