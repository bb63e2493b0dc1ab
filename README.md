# tunnel-stack core, modelled in Dafny

tunnel-stack routes selected domains through proxies. The core has five parts,
each modelled here:

- **The PAC service's store** (`docker/pac-service/src/store.js`). It holds a
  registry of proxies, each with an ordered list of domains and optional tags.
  - `load` reads the registry lazily from a JSON file and normalises it.
  - Six mutators change it: add/update/delete a proxy and add/remove/re-tag a
    domain. Each runs inside `commitMutation`, which persists with `save` and
    rolls the in-memory registry back when either step fails.
  - `save` writes a temporary file and renames it over the backing file. It
    retries on `EBUSY`/`EPERM` with a growing delay. It falls back to
    copy-and-unlink on `EXDEV` or when the retries run out.
  - `generatePac` compiles the registry into a `FindProxyForURL` script.
- **The PAC service's request logic** (`docker/pac-service/src/index.js`):
  the proxy-body validator and the optional Basic-auth gate.
- **The allowlist UI** (`docker/allowlist-ui/app.py`). It keeps a 3proxy
  allowlist file of `allow * <cidr>` lines under a comment header. The model
  covers the line expression `ALLOW_RE`, `read_allowlist`, `read_header`,
  `write_allowlist` and the `add_ip`/`delete_ip` logic.
- **The native messaging host** (`native-host/pac_host.py`): 4-byte
  little-endian length-prefixed frames, the `handle` dispatcher and the
  read–handle–write loop.
- **The extension popup's URL logic** (`chrome-extension/popup.js`):
  `buildPacUrl`, the `force=1` marker and the `v=<time>` cache-buster.

Modules:

| file | module | flavour |
|---|---|---|
| `wrappers.dfy` | `Wrappers` | `Option` and `Result` |
| `strings.dfy` | `Strings` | whitespace of JavaScript and Python, trimming, `join`, `split`, decimal rendering |
| `lexsort.dfy` | `LexSort` | Python's string order and `sorted(set(xs))` |
| `registry.dfy` | `Registry` | the registry value, `load` normalisation, the six mutators as step functions |
| `persist.dfy` | `Persist` | `save`: a method with the attempt loop, proved against a plan function |
| `pac.dfy` | `Pac` | the PAC script text |
| `store.dfy` | `Store` | class `ProxyStore` (fields `cache` and `file`), `commitMutation` and the exported operations |
| `api.dfy` | `Api` | `validateProxyInput` as a method with its checks in order; `basicAuth` |
| `allowlist.dfy` | `Allowlist` | class `AllowFile` (field `content`) whose methods keep the source's loops |
| `nativehost.dfy` | `NativeHost` | frames, `handle`, and `main` as a method `Serve` with its loop |
| `popup.dfy` | `Popup` | pure URL functions |

Some parts of the system are inputs to the model:

- **Foreign code is a function parameter.** This covers:
  - `validate_cidr`, i.e. `ip_network` (`normalize`);
  - base64 decoding in `basicAuth` (`decode`);
  - UTF-8 decoding, `json.loads` and `json.dumps` in the host (`Codec`);
  - the Windows registry write in the host (`registry`).
- **Filesystem outcomes are input values.** This covers:
  - what reading the backing file yields (`FileContent`);
  - each write, rename, copy and unlink answer (`Persist.Disk`);
  - what the backing file holds after a `copyFile` that failed part-way (`copyLeft`);
  - the allowlist file's content (`Option<string>`, `None` while it does not
    exist).
- **The clock is a number** (`now`).

## Model

| member | source | states |
|---|---|---|
| Registry.LoadState | docker/pac-service/src/store.js:10-32 | an unreadable, unparseable or `proxies`-less file loads as an empty registry; otherwise there is one proxy per stored proxy, in order, with its id, proto, host and port, and as domains the surviving entries of its `domains` array, or none when that is not an array |
| Registry.NormalizeProxy | docker/pac-service/src/store.js:20-30 | a stored proxy keeps its fields; a non-array `domains` gives no domains, and otherwise a domain is kept exactly when some entry is an object with that string name and tag |
| Registry.NormalizeItemsMembers | docker/pac-service/src/store.js:21-28 | a domain survives normalisation exactly when some stored entry is an object with that string name and tag |
| Registry.NormalizeItemsAppend | docker/pac-service/src/store.js:22-28 | normalisation works entry by entry, so it distributes over concatenation |
| Registry.NormalizeItemsKeepsNamed | docker/pac-service/src/store.js:23-27 | nothing is dropped or reordered when every entry is an object with a string name |
| Registry.LoadAfterSave | docker/pac-service/src/store.js:10-32 | loading the document that was saved gives back the registry that was saved |
| Registry.FindProxy | docker/pac-service/src/store.js:132 | the index of the first proxy with the id, or none exactly when no proxy has it |
| Registry.FindDomain | docker/pac-service/src/store.js:174 | the index of the first domain with the name, or none exactly when no domain has it |
| Registry.WithoutProxyCharacterized | docker/pac-service/src/store.js:142 | the filter keeps exactly the proxies with another id, and it shrinks by the number that carried the id |
| Registry.WithoutDomainCharacterized | docker/pac-service/src/store.js:165 | the filter keeps exactly the domains with another name |
| Registry.AcceptEntriesCharacterized | docker/pac-service/src/store.js:118-124 | the initial domains are accepted exactly when every entry is, and the result is each entry's accepted (trimmed) form, in order |
| Registry.AddProxy | docker/pac-service/src/store.js:114-128 | a taken id throws "Proxy id already exists"; the only other error is an invalid domain entry; on success the proxy is returned and appended after the unchanged earlier proxies, with its id last |
| Registry.AddProxyOutcome | docker/pac-service/src/store.js:114-128 | a taken id throws first; an invalid domain entry throws; otherwise the proxy is appended with trimmed domains and returned |
| Registry.AddProxyKeepsIdsUnique | docker/pac-service/src/store.js:116-125 | ids that were distinct stay distinct after an add |
| Registry.AddProxyStoresDuplicates | docker/pac-service/src/store.js:118-125 | initial domains are not de-duplicated: two entries that trim to one name are both stored, so the added proxy breaks per-proxy name uniqueness |
| Registry.PaddedNameTrims | docker/pac-service/src/store.js:120-122 | a padded domain name is stored trimmed: `"a.com"` and `" a.com "` both become `a.com`, a colliding pair |
| Registry.UpdateProxy | docker/pac-service/src/store.js:130-137 | throws "Proxy not found" exactly when no proxy has the id; on success the number of proxies is unchanged and the returned proxy is one of them |
| Registry.UpdateProxyOutcome | docker/pac-service/src/store.js:130-137 | throws "Proxy not found" exactly when no proxy has the id; otherwise the first match is patched field by field and returned, and the rest are unchanged |
| Registry.UpdateProxyCanDuplicateIds | docker/pac-service/src/store.js:134 | a patch that carries another proxy's id is accepted, so ids can collide |
| Registry.DeleteProxy | docker/pac-service/src/store.js:139-146 | the only error is "Proxy not found"; on success it returns true and no proxy with the id remains |
| Registry.DeleteProxyOutcome | docker/pac-service/src/store.js:139-146 | throws exactly when no proxy has the id; otherwise every proxy with it is removed |
| Registry.DeleteProxyKeepsIdsUnique | docker/pac-service/src/store.js:142 | deleting keeps ids distinct |
| Registry.AddDomain | docker/pac-service/src/store.js:148-158 | the only errors are "Proxy not found" and a missing or blank name; on success the proxy exists, the returned name is non-empty and the number of proxies is unchanged |
| Registry.AddDomainErrors | docker/pac-service/src/store.js:148-153 | an unknown proxy throws first, then a missing or blank name |
| Registry.AddDomainOutcome | docker/pac-service/src/store.js:148-158 | the trimmed entry is returned; it is appended to the first matching proxy only if no domain there has its name; nothing else changes |
| Registry.AddDomainIdempotent | docker/pac-service/src/store.js:155 | adding the same domain twice is the same as adding it once |
| Registry.AddThenRemoveDomain | docker/pac-service/src/store.js:148-168 | adding a new domain and removing it by name restores the registry |
| Registry.RemoveDomain | docker/pac-service/src/store.js:160-168 | throws exactly when no proxy has the id, and only "Proxy not found"; on success it returns true and the number of proxies is unchanged |
| Registry.RemoveDomainOutcome | docker/pac-service/src/store.js:160-168 | throws only for an unknown proxy; otherwise it removes every domain of that name from the first match, present or not |
| Registry.UpdateDomainTag | docker/pac-service/src/store.js:170-179 | the only errors are "Proxy not found" and "Domain not found"; on success the returned domain has the given name and tag, and the number of proxies is unchanged |
| Registry.UpdateDomainTagErrors | docker/pac-service/src/store.js:170-179 | "Proxy not found" when no proxy has the id; "Domain not found" exactly when that proxy has no domain of that name |
| Registry.UpdateDomainTagOutcome | docker/pac-service/src/store.js:170-179 | on success only the first domain of that name, in the first proxy with the id, gets the new tag, keeps its name and is returned; every other domain and proxy is unchanged |
| Registry.DomainMutatorsKeepNamesUnique | docker/pac-service/src/store.js:148-179 | adding, removing and re-tagging domains keep names distinct within each proxy |
| Persist.Save | docker/pac-service/src/store.js:45-79 | the attempt loop performs exactly the calls and reaches exactly the result of the plan for the filesystem's answers |
| Persist.SavePlan | docker/pac-service/src/store.js:45-79 | the run always writes the temp file first; it stops right there exactly when that write fails, and otherwise goes on to rename attempt 1 |
| Persist.DecidingAttempt | docker/pac-service/src/store.js:49-57 | the loop stops at the first attempt whose rename does not fail with `EBUSY`/`EPERM`, and at attempt 5 at the latest |
| Persist.BackoffAt | docker/pac-service/src/store.js:49-76 | failed renames alternate with delays of 50 ms times the attempt number |
| Persist.SaveFromStops | docker/pac-service/src/store.js:51-77 | at the deciding attempt the loop renames once more and stops with that rename's consequence |
| Persist.SaveFromRetries | docker/pac-service/src/store.js:49-76 | before the deciding attempt a locking error means a rename, a delay of 50 ms times the attempt, and the next attempt with the same outcome |
| Persist.SaveFromShape | docker/pac-service/src/store.js:49-77 | from any attempt, the run is the retried renames with their delays, then the deciding rename's epilogue |
| Persist.SaveOutcome | docker/pac-service/src/store.js:45-79 | a failed temp write throws at once. Otherwise: renames 1..k; success on a rename; copy-and-unlink on `EXDEV` or exhausted locking errors, throwing the rename error if the copy fails; any other code throws after unlinking |
| Persist.BackoffNoCopy | docker/pac-service/src/store.js:57-62 | no copy is attempted while retries remain |
| Pac.EscapeTagIsSafe | docker/pac-service/src/store.js:196 | an escaped tag never contains `*/`, and it begins as the tag does |
| Pac.EscapeTagKeepsSafeText | docker/pac-service/src/store.js:196 | a tag without `*/` is emitted unchanged |
| Pac.GroupPlaced | docker/pac-service/src/store.js:190-201 | within the `proxies` object, each proxy's group starts after the groups before it (two lines plus one per domain each) and sits there whole and in order |
| Pac.KeyPlaced | docker/pac-service/src/store.js:191 | a group opens with its `"proto host:port": [` line |
| Pac.ClosePlaced | docker/pac-service/src/store.js:200 | a group closes with `]`, followed by a comma unless it is the last group |
| Pac.PacListsProxy | docker/pac-service/src/store.js:183-202 | every proxy, in registry order and even with no domains, gets its `"proto host:port": [` line, its domain lines with commas between them and its closing line |
| Pac.DomainPlaced | docker/pac-service/src/store.js:192-199 | the j-th domain of a proxy is the (j+1)-th line of its group, with a comma unless it is the last domain |
| Pac.PacEndsWithMatcher | docker/pac-service/src/store.js:203-214 | the script is the prelude, the groups and then the fixed first-match loop ending in `return "DIRECT";` |
| Pac.PacExample | docker/pac-service/src/store.js:181-215 | the text for one SOCKS5 proxy with a tagged domain, line by line |
| Pac.GeneratePac | docker/pac-service/src/store.js:181-215 | the script starts with its first prelude line and a line break, whatever the registry |
| Store.Commit | docker/pac-service/src/store.js:83-97 | any failure leaves the snapshot in memory and does not replace the file; a mutator error reaches the caller unchanged and touches no file; success exactly when the mutator returns and `save` succeeds, which replaces the file; a failed copy (line 62) is reported exactly when the mutator returned and `save` failed after trying it |
| Store.FailedCopyLosesRegistry | docker/pac-service/src/store.js:57-73 | when `save` fails after a copy attempt, memory rolls back (line 93) while the file is left as the copy left it, which for a truncated file no longer loads as the registry in memory |
| Store.RollbackKeepsEarlierCommit | docker/pac-service/src/store.js:86-95 | a rejected add after an accepted one rolls back to the registry that includes the first add, not further |
| Store.ProxyStore.constructor | docker/pac-service/src/store.js:7 | the cache starts empty over the given file |
| Store.ProxyStore.Load | docker/pac-service/src/store.js:10-32 | returns the cached registry, or the normalised file, which it then caches; coherence with the file is kept |
| Store.ProxyStore.CommitMutation | docker/pac-service/src/store.js:83-97 | the cache, file and reply afterwards are those of `Commit` on the loaded registry, the file being whatever a failed copy left; coherence of cache and file is kept unless `save` failed after a copy attempt |
| Store.ProxyStore.GetState | docker/pac-service/src/store.js:99-102 | a copy of the loaded registry |
| Store.ProxyStore.ListProxies | docker/pac-service/src/store.js:104-107 | the loaded proxies, in order |
| Store.ProxyStore.GetProxy | docker/pac-service/src/store.js:109-112 | null exactly when no proxy has the id, else the first that does |
| Store.ProxyStore.GeneratePac | docker/pac-service/src/store.js:181-215 | the PAC text of the loaded registry |
| Store.ProxyStore.AddProxy | docker/pac-service/src/store.js:114-128 | `addProxy` committed through `commitMutation`: reply, cache and file as `Commit` gives them, including the file a failed copy leaves; coherence is kept unless `save` failed after a copy attempt |
| Store.ProxyStore.UpdateProxy | docker/pac-service/src/store.js:130-137 | `updateProxy` committed through `commitMutation`: reply, cache and file as `Commit` gives them, including the file a failed copy leaves; coherence is kept unless `save` failed after a copy attempt |
| Store.ProxyStore.DeleteProxy | docker/pac-service/src/store.js:139-146 | `deleteProxy` committed through `commitMutation`: reply, cache and file as `Commit` gives them, including the file a failed copy leaves; coherence is kept unless `save` failed after a copy attempt |
| Store.ProxyStore.AddDomain | docker/pac-service/src/store.js:148-158 | `addDomain` committed through `commitMutation`: reply, cache and file as `Commit` gives them, including the file a failed copy leaves; coherence is kept unless `save` failed after a copy attempt |
| Store.ProxyStore.RemoveDomain | docker/pac-service/src/store.js:160-168 | `removeDomain` committed through `commitMutation`: reply, cache and file as `Commit` gives them, including the file a failed copy leaves; coherence is kept unless `save` failed after a copy attempt |
| Store.ProxyStore.UpdateDomainTag | docker/pac-service/src/store.js:170-179 | `updateDomainTag` committed through `commitMutation`: reply, cache and file as `Commit` gives them, including the file a failed copy leaves; coherence is kept unless `save` failed after a copy attempt |
| Api.CheckField | docker/pac-service/src/index.js:53-75 | one check appends its field's message exactly when the field is checked and fails |
| Api.ValidateProxyInput | docker/pac-service/src/index.js:51-77 | the error list is each failing field's message, in check order |
| Api.ConcatIsMessages | docker/pac-service/src/index.js:52-76 | the accumulated list is the messages of the fields that fail |
| Api.FailingFieldsSpec | docker/pac-service/src/index.js:53-75 | the failing fields are exactly those whose check fails, in check order |
| Api.ValidationOutcome | docker/pac-service/src/index.js:51-77 | no errors exactly when no checked field fails; each failing field's message appears once, in order |
| Api.MessagesFacts | docker/pac-service/src/index.js:55-73 | a field's message is in the list exactly when the field failed, and no message appears twice |
| Api.ErrorMessageInjective | docker/pac-service/src/index.js:55-73 | each field has its own message |
| Api.EmptyPatchValid | docker/pac-service/src/index.js:53-67 | an empty body is a valid patch: partial mode checks only the fields present |
| Api.EmptyBodyInvalid | docker/pac-service/src/index.js:53-67 | as a full body the empty body lacks id, proto, host and port, reported in that order, and no domains message |
| Api.FractionalPortAccepted | docker/pac-service/src/index.js:66 | only the sign and type of `port` are checked: 0.5 passes, 0 and a string fail |
| Api.BasicAuth | docker/pac-service/src/index.js:27-47 | `/health` and `/pac` always pass; an unconfigured user or password lets everything pass; otherwise `auth_required` exactly without a `Basic ` header, and with one the request passes exactly when the decoded text is `user:pass`, possibly followed by `:` and more, for a colon-free configured pair |
| Api.BasicAuthAcceptsExactPair | docker/pac-service/src/index.js:37-41 | a `Basic` token decoding to exactly `user:pass` passes |
| Api.BasicAuthIgnoresExtraPieces | docker/pac-service/src/index.js:40-41 | a token decoding to `user:pass:<anything>` passes too, because only the first two pieces of the split are compared |
| Api.ColonPasswordNeverAccepted | docker/pac-service/src/index.js:40-41 | a configured password containing a colon can never be presented |
| Api.BasicAuthNeedsScheme | docker/pac-service/src/index.js:33-36 | no header, or another scheme, gives `auth_required` |
| Strings.Split | docker/pac-service/src/index.js:40 | the pieces hold no separator and join back to the input |
| Strings.TrimEmptyIff | docker/pac-service/src/index.js:54 | a string trims to empty exactly when it is all whitespace |
| LexSort.LexLessTotal | docker/allowlist-ui/app.py:66 | Python's string order is total on distinct strings |
| LexSort.LexLessTransitive | docker/allowlist-ui/app.py:66 | Python's string order is transitive |
| LexSort.SortedSet | docker/allowlist-ui/app.py:66 | `sorted(set(xs))` is strictly increasing and has exactly the elements of `xs` |
| LexSort.StrictlySortedUnique | docker/allowlist-ui/app.py:66 | a strictly sorted list is determined by its elements |
| LexSort.SortedSetBySet | docker/allowlist-ui/app.py:66 | the result depends only on the set of inputs, and sorting it again changes nothing |
| Allowlist.TakeToken | docker/allowlist-ui/app.py:38 | the `[^\s#]+` group is the longest prefix of token characters |
| Allowlist.MatchAllow | docker/allowlist-ui/app.py:38 | a match captures a non-empty run of characters that are neither whitespace nor `#` |
| Allowlist.MatchAllowComplete | docker/allowlist-ui/app.py:38 | every line of the expression's shape matches: space, `allow` in any case, space, `*`, space, a token, space, optional `#` comment; it captures the token |
| Allowlist.MatchAllowSound | docker/allowlist-ui/app.py:38 | every match of a newline-free line decomposes into that shape with the captured token |
| Allowlist.AllowLineMatches | docker/allowlist-ui/app.py:72 | the line written for an entry matches `ALLOW_RE` (line 38) and captures the entry |
| Allowlist.CommentLineNoMatch | docker/allowlist-ui/app.py:38 | a line starting with `#` after stripping never matches |
| Allowlist.SplitLines | docker/allowlist-ui/app.py:49 | `splitlines` yields lines without line boundaries |
| Allowlist.SplitLinesJoined | docker/allowlist-ui/app.py:74 | lines joined by `\n` with a final `\n` split back into the same lines |
| Allowlist.SplitLinesJoinedOpen | docker/allowlist-ui/app.py:69 | without the final `\n` they split back too, an empty last line excepted |
| Allowlist.LineEntry | docker/allowlist-ui/app.py:52-60 | a line contributes at most one entry, and none unless it matches |
| Allowlist.EntriesAppend | docker/allowlist-ui/app.py:51-61 | entries keep file order |
| Allowlist.EntriesSkipUnmatched | docker/allowlist-ui/app.py:52-54 | lines that do not match contribute nothing |
| Allowlist.EntriesSettled | docker/allowlist-ui/app.py:55-57 | with a canonical `validate_cidr`, every entry read is a token that `validate_cidr` leaves unchanged |
| Allowlist.BlankFileEmpty | docker/allowlist-ui/app.py:41-61 | a file holding only a newline has no entries |
| Allowlist.ReadEntries | docker/allowlist-ui/app.py:41-61 | a missing file has no entries |
| Allowlist.TakeWhile | docker/allowlist-ui/app.py:83-87 | the longest prefix of lines all satisfying the test |
| Allowlist.CollectWhile | docker/allowlist-ui/app.py:83-87 | the header loop collects exactly the longest prefix of header lines |
| Allowlist.TakeWhileStops | docker/allowlist-ui/app.py:83-87 | a prefix that passes and ends at the end or at a failing line is that longest prefix |
| Allowlist.HeaderText | docker/allowlist-ui/app.py:77-88 | a missing file gives the default header |
| Allowlist.DefaultHeaderLines | docker/allowlist-ui/app.py:79 | the default header (also line 88) is two comment lines |
| Allowlist.HeaderTextIsComment | docker/allowlist-ui/app.py:77-88 | `read_header` returns only comment or blank lines |
| Allowlist.JoinedHeaderIsComment | docker/allowlist-ui/app.py:84-88 | header lines joined by `\n` split back into header lines |
| Allowlist.NonBlank | docker/allowlist-ui/app.py:68-71 | the kept header lines are exactly those not blank after stripping |
| Allowlist.CollectKept | docker/allowlist-ui/app.py:68-71 | the header loop of `write_allowlist` keeps exactly the lines its test accepts, in order |
| Allowlist.AllowLines | docker/allowlist-ui/app.py:72 | one `allow * <c>` line per entry, in order |
| Allowlist.EntriesOfAllowLines | docker/allowlist-ui/app.py:72 | written entry lines read back as the entries, in order |
| Allowlist.KeptHeaderSilent | docker/allowlist-ui/app.py:68-71 | kept comment-header lines hold no entries and no line breaks |
| Allowlist.AllowText | docker/allowlist-ui/app.py:64-74 | the text written always ends with a newline |
| Allowlist.ReadJoined | docker/allowlist-ui/app.py:49 | the text written by joining (line 74) reads back as the entries of its lines |
| Allowlist.ReadAfterWrite | docker/allowlist-ui/app.py:64-74 | reading the file after `write_allowlist` with a comment header gives `sorted(set(cidrs))` |
| Allowlist.Remove | docker/allowlist-ui/app.py:148-151 | removal leaves exactly the other elements |
| Allowlist.AddIpSpec | docker/allowlist-ui/app.py:129-138 | every refusal is a 400 and leaves the file alone; a success returns the normal form of the given `cidr` and writes the file |
| Allowlist.AddIpOutcome | docker/allowlist-ui/app.py:129-138 | a missing or empty `cidr` is a 400 "Missing 'cidr'" and an invalid one a 400 "Invalid IP/CIDR"; both leave the file alone. On success the normal form is returned and the file reads back as the old entries plus it, sorted and distinct, under the old header |
| Allowlist.AddedReadsBack | docker/allowlist-ui/app.py:135-137 | after adding a canonical entry the file reads back as the old entries plus it, sorted and distinct; an entry already present changes nothing |
| Allowlist.DeleteIpSpec | docker/allowlist-ui/app.py:141-157 | every refusal leaves the file alone; a success returns an entry read from the file and writes the file |
| Allowlist.RewriteReadsBack | docker/allowlist-ui/app.py:137 | rewriting the file under its own header, as `add_ip` does here and `delete_ip` at line 156, reads back as the sorted distinct items |
| Allowlist.DeleteIpOutcome | docker/allowlist-ui/app.py:141-157 | a rejected string is a 400 and an absent entry a 404 "Not Found"; both leave the file alone. Otherwise the file reads back as the old entries minus the removed one, which is returned |
| Allowlist.DeleteIpFallbackUnused | docker/allowlist-ui/app.py:147-152 | with canonical entries the raw-string fallback never removes anything the normal form would not |
| Allowlist.AllowFile.constructor | docker/allowlist-ui/app.py:13 | the file holds the given content (`None` when absent) |
| Allowlist.AllowFile.ReadAllowlist | docker/allowlist-ui/app.py:41-61 | the loop returns the entries of the file's lines |
| Allowlist.AllowFile.ReadHeader | docker/allowlist-ui/app.py:77-88 | the loop returns the leading header lines joined, or the default header |
| Allowlist.AllowFile.WriteAllowlist | docker/allowlist-ui/app.py:64-74 | the file now holds the kept header lines and the sorted distinct entry lines |
| Allowlist.AllowFile.AddIp | docker/allowlist-ui/app.py:129-138 | the reply and the new file are those `add_ip` specifies |
| Allowlist.AllowFile.DeleteIp | docker/allowlist-ui/app.py:141-157 | the reply and the new file are those `delete_ip` specifies |
| NativeHost.LE32 | native-host/pac_host.py:40 | the 4-byte little-endian encoding decodes back to the number |
| NativeHost.LE32OfFromLE32 | native-host/pac_host.py:28 | every 4-byte prefix is the encoding of the length it decodes to |
| NativeHost.WriteFrame | native-host/pac_host.py:38-42 | a frame exists exactly for payloads under 2^32 bytes, and it is the length prefix followed by the payload |
| NativeHost.ReadFrame | native-host/pac_host.py:24-31 | a frame read is the length prefix, that many payload bytes and the rest of the input |
| NativeHost.ReadWrittenFrame | native-host/pac_host.py:24-42 | reading a written frame gives back the payload and leaves what follows |
| NativeHost.ReadMsg | native-host/pac_host.py:24-35 | a message read consumes input |
| NativeHost.ReadMsgAsWritten | native-host/pac_host.py:24-35 | the reader as written consumes input whenever it yields a message |
| NativeHost.Decoded | native-host/pac_host.py:32-35 | a payload decodes to no message exactly when it is UTF-8 text that parses as JSON `null` |
| NativeHost.ReadMsgOutcome | native-host/pac_host.py:24-35 | empty input or a short payload stops the host; 1–3 prefix bytes raise; a full frame yields its decoded message and the rest, except that a payload decoding to JSON `null` stops the host like end of input |
| NativeHost.UndecodableIsInvalid | native-host/pac_host.py:32-35 | a payload that is not UTF-8 or not JSON becomes `{"cmd": "__invalid__", "raw": ...}` with the replace-decoded text |
| NativeHost.NonUtf8CrashesAsWritten | native-host/pac_host.py:32-35 | as written, a non-UTF-8 payload raises out of `read_msg`, where the corrected reader gives the placeholder |
| NativeHost.NullPayloadStops | native-host/pac_host.py:33 | a frame whose payload parses as JSON `null` makes both readers return the stop signal (line 75) |
| NativeHost.ReadersAgreeOnUtf8 | native-host/pac_host.py:32-35 | on UTF-8 payloads the written and corrected readers agree |
| NativeHost.Handle | native-host/pac_host.py:55-69 | every answer carries a boolean `ok` |
| NativeHost.HandleOutcome | native-host/pac_host.py:55-69 | `ping` answers `ok`/`pong`; any other command but `set` is refused with "Unknown cmd: " and its `str()`, `None` when missing |
| NativeHost.BlankUrlLeavesRegistry | native-host/pac_host.py:57-60 | a missing or blank url is refused with "Missing url" whatever the registry would do |
| NativeHost.RegistryGetsStrippedUrl | native-host/pac_host.py:58-65 | the registry receives the stripped url; its success echoes the url, and its error is returned as the refusal |
| NativeHost.Serve | native-host/pac_host.py:72-78 | with the reader as written or corrected, the loop's output and crash flag are those of the session that reads each message, answers it with `handle` over the registry and writes the framed answer, until the reader stops or an exception escapes |
| NativeHost.NonUtf8EndsSessionAsWritten | native-host/pac_host.py:72-78 | as written, a leading non-UTF-8 frame ends the session with no output and an escaped exception; the corrected reader answers it with the placeholder |
| NativeHost.NullFrameEndsSession | native-host/pac_host.py:74-76 | a leading `null` frame ends the session cleanly with no output, for either reader |
| NativeHost.Responses | native-host/pac_host.py:77-78 | one response per payload, each the framed answer to it |
| NativeHost.ServeInOrder | native-host/pac_host.py:72-78 | for either reader and any handler that answers every message, frames the reader can read are answered strictly in order, one response frame each, and the host ends cleanly when the reader stops at the end, at a truncated frame or at a `null` payload |
| NativeHost.PlaceholderIsUnknownCmd | native-host/pac_host.py:68-69 | the placeholder for an undecodable payload (line 35) is answered as the unknown command `__invalid__`, whatever the registry would do |
| Popup.BuildPacUrl | chrome-extension/popup.js:333-337 | empty exactly for a falsy base |
| Popup.BuildPacUrlExtendsBase | chrome-extension/popup.js:333-337 | the URL is the base, a slash unless the base ends with one, `pac`, and `?force=1` when forced |
| Popup.TrailingSlashIgnored | chrome-extension/popup.js:335 | one trailing slash on the base makes no difference |
| Popup.OnlyOneSlashStripped | chrome-extension/popup.js:335 | only one trailing slash is removed |
| Popup.WithParam | chrome-extension/popup.js:427 | as here and at line 415, the parameter is appended after `&` when the URL already has `?`, else after `?`; the URL is kept as its prefix |
| Popup.ForceSurvivesAppend | chrome-extension/popup.js:435-439 | a `force=1` marker survives any appended text that does not start with a digit |
| Popup.EnsureForce | chrome-extension/popup.js:414-416 | an empty URL or one with the marker is unchanged; any other gets `force=1` by the separator rule; a non-empty result carries the marker |
| Popup.EnsureForceIdempotent | chrome-extension/popup.js:414-416 | applying the force-append twice is applying it once |
| Popup.EnsureForceOnForcedPacUrl | chrome-extension/popup.js:413-416 | the force-append is a no-op on the URL built with `force` |
| Popup.ForceNeedsWholeValue | chrome-extension/popup.js:414 | `force=10` is not the marker, so `&force=1` is appended |
| Popup.SilentForceUrl | chrome-extension/popup.js:409-417 | the URL sent after domain changes is the forced PAC URL |
| Popup.SetPacTarget | chrome-extension/popup.js:425 | the URL the "Set PAC" button starts from is empty exactly when the trimmed input is empty and the base is falsy |
| Popup.ForcePacTarget | chrome-extension/popup.js:434-437 | the forced URL is empty in the same case only, and otherwise carries the `force=1` marker |
| Popup.SetPacUrlAsWritten | chrome-extension/popup.js:423-429 | as written, the URL passed on is never empty |
| Popup.ForcePacUrlAsWritten | chrome-extension/popup.js:431-441 | as written, the URL passed on is never empty |
| Popup.BlankConfigSendsBareBuster | chrome-extension/popup.js:425-428 | with a blank input and blank base both buttons send `?v=<time>`, past the empty-URL guard of line 380, where the corrected requests send nothing |
| Popup.Request | chrome-extension/popup.js:379-383 | no request exactly for an empty URL; otherwise the URL followed by its separator and `v=<time>` (line 427) |
| Popup.SetPacRequest | chrome-extension/popup.js:425-428 | the corrected "Set PAC" button sends nothing exactly when the trimmed input is empty and the base is falsy |
| Popup.ForcePacRequest | chrome-extension/popup.js:434-440 | the corrected forced button sends nothing in the same case only |
| Popup.SetPacRequestOutcome | chrome-extension/popup.js:425-428 | the typed URL wins over the base; a request goes out exactly when one of them is set |
| Popup.ForcePacRequestForces | chrome-extension/popup.js:434-440 | the forced request goes out exactly when the input or base is set, and it always carries the `force=1` marker after the cache-buster |

## Left out

- Express wiring, the route handlers and their status codes, and `nanoid` ids (`docker/pac-service/src/index.js:18-22,79-192`): they are framework plumbing around the modelled operations.
- `queueWrite` (`docker/pac-service/src/store.js:34-43`): the model runs one mutation at a time, so it does not capture how concurrent writes interleave.
- Real filesystem calls, `setTimeout` and `JSON.parse`/`JSON.stringify`: their outcomes are inputs (`FileContent`, `Persist.Disk`, and `copyLeft`, what the backing file holds after a failed `copyFile`), and the delays are recorded as numbers.
- Registry.LoadState: a stored `proxies` that is truthy but not an array, or that holds `null`, throws in `load`; the raw document type cannot express it.
- Registry.LoadState: a backing file whose JSON is `null`, or a number, string or boolean, throws in `load` (`store.js:19`), and a top-level array loads and is saved back as an array; the raw document is always an object, so neither is modelled.
- Registry.NormalizeProxy: fields a stored proxy has beyond id, proto, host, port and domains are kept by the spread (`store.js:29`) but are not modelled, and so neither is their round trip through the file.
- Registry.UpdateProxy: the patch has the five modelled fields; other body fields merged by the spread (`store.js:134`) are dropped.
- Registry.Domain: a tag is a string or absent; a tag of another JSON type (a number, `false`), which the PAC comment renders with `String(tag)` or omits when falsy, is not modelled.
- Registry.Proxy: `port` is an integer; a fractional port, which validation accepts (`Api.FractionalPortAccepted`) and the PAC text would print as written, is not modelled in the registry.
- Store.ProxyStore.GetProxy: `getProxy` returns the cached object itself (`store.js:111`), while `listProxies` returns copies (`store.js:106`); on values there is no aliasing to model.
- The PAC script is text, not executed: `dnsDomainIs` and first-match routing at browser run time are not modelled. Quotes or newlines in domain names and tags are emitted unescaped, as the source does.
- `validate_cidr`/`ip_network` (`docker/allowlist-ui/app.py:91-97`) is the parameter `normalize`; its canonical-output property (`Canonical`) is assumed in the lemmas that need it.
- The allowlist file's existence and I/O are the field `AllowFile.content`; the Docker restart (`app.py:100-116`), `check_auth`, `healthz`, `get_ips` and `apply` are endpoint wiring.
- Allowlist.AllowFile.AddIp: the payload's `cidr` is modelled as a string or missing; a non-string JSON value is not modelled.
- Allowlist.AllowFile.WriteAllowlist: the header `None` and `""` are one case, as `if header:` treats them.
- Allowlist.MatchAllowSound: proved only for lines without `\n`, which is every line `splitlines` produces.
- Python sets are lists whose order does not matter; `sorted(set(...))` is `LexSort.SortedSet`.
- Base64 in `basicAuth` (`index.js:39`) is the parameter `decode`, and `btoa` on the extension side is not part of this model.
- UTF-8 decoding, `json.loads` and `json.dumps` in the native host are the `Codec` parameter; `str()` of float, list or object values is carried as an opaque `Other(text)`.
- `set_autoconfig` and `winreg` (`pac_host.py:45-52`) are the parameter `registry`, which also stands for the non-Windows error.
- `sys.stdin.buffer.read(n)` is modelled as returning the next `min(n, remaining)` bytes of one finite input.
- chrome-extension/api.js and options.js are not part of this model. Neither are the popup's DOM, storage and messaging (`checkNativeHost`, `setSystemPac`'s status texts, `updatePacUrlInputFromConfig` beyond `buildPacUrl`).
- Popup.BuildPacUrl: a non-string truthy base, which would throw in `replace`, is not modelled; the base is a string or absent.
- `Date.now()` is the parameter `now`.

## Findings

| source | as written | input that shows it | evidently intended | confidence | as-written member | corrected member |
|---|---|---|---|---|---|---|
| native-host/pac_host.py:32-35 | `data.decode('utf-8')` raises `UnicodeDecodeError`, which the `except json.JSONDecodeError` does not catch, so the host exits | a frame whose payload is the single byte 0xFF | answer with the `__invalid__` placeholder carrying the replace-decoded text, as for any other undecodable payload | high, not executed | NativeHost.NonUtf8CrashesAsWritten | NativeHost.UndecodableIsInvalid |
| chrome-extension/popup.js:425-428 | the cache-buster is appended before `setSystemPac`'s `if (!url)` guard (popup.js:380), so the guard never fires | a blank URL input with a blank saved PAC base (options.js:90 saves an emptied field as `""`): the host is asked to set `?v=<time>` | show "No PAC URL" and send nothing | medium, not executed | Popup.BlankConfigSendsBareBuster | Popup.SetPacRequestOutcome |
