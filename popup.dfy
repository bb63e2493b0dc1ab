/** The URL logic of the browser extension's popup: the PAC address built
    from the configured base, the `force=1` marker and the `v=<time>`
    cache-buster the "Set PAC" buttons append before handing the address to
    the native host. */
module Popup {
  import opened Wrappers
  import opened Strings

  /** JavaScript truthiness of the configured base (`undefined` or `""` is
      falsy). */
  predicate Truthy(base: Option<string>) {
    base.Some? && base.value != ""
  }

  predicate EndsWithSlash(s: string) {
    s != [] && s[|s| - 1] == '/'
  }

  /** `base.replace(/\/$/, '')`: without the `m` flag `$` only matches at the
      very end, so at most one slash goes. */
  function StripSlash(s: string): string {
    if EndsWithSlash(s) then s[..|s| - 1] else s
  }

  /** `buildPacUrl(base, force)`. */
  function BuildPacUrl(base: Option<string>, force: bool): (r: string)
    ensures r == "" <==> !Truthy(base)
  {
    if !Truthy(base) then ""
    else StripSlash(base.value) + "/pac" + (if force then "?force=1" else "")
  }

  /** The URL is the base itself followed by `pac`, with a slash put in
      only where the base does not already end with one. */
  lemma BuildPacUrlExtendsBase(base: string, force: bool)
    requires base != ""
    ensures var q := if force then "?force=1" else "";
      BuildPacUrl(Some(base), force)
      == base + (if EndsWithSlash(base) then "" else "/") + "pac" + q
  {
    if EndsWithSlash(base) {
      assert base == base[..|base| - 1] + "/";
    }
  }

  /** A single trailing slash on the base makes no difference ... */
  lemma TrailingSlashIgnored(base: string, force: bool)
    requires base != "" && !EndsWithSlash(base)
    ensures BuildPacUrl(Some(base + "/"), force) == BuildPacUrl(Some(base), force)
  {
    assert (base + "/")[..|base|] == base;
  }

  /** ... but only one is removed: a second one stays in the path. */
  lemma OnlyOneSlashStripped(base: string, force: bool)
    requires base != "" && !EndsWithSlash(base)
    ensures BuildPacUrl(Some(base + "//"), force)
            == base + "/" + BuildPacUrl(Some(base), force)[|base|..]
  {
    assert (base + "//")[..|base| + 1] == base + "/";
  }

  predicate IsDigit(c: char) {
    '0' <= c <= '9'
  }

  /** `[?&]force=1(?!\d)` matches at position `i`. */
  predicate ForceAt(url: string, i: nat) {
    i + 8 <= |url|
    && (url[i] == '?' || url[i] == '&')
    && url[i + 1..i + 8] == "force=1"
    && (i + 8 == |url| || !IsDigit(url[i + 8]))
  }

  /** `/[?&]force=1(?!\d)/.test(url)`. */
  predicate HasForce(url: string) {
    exists i :: 0 <= i < |url| && ForceAt(url, i)
  }

  /** `url + (url.includes('?') ? '&' : '?') + param`. */
  function WithParam(url: string, param: string): (r: string)
    ensures |r| == |url| + 1 + |param|
    ensures r[..|url|] == url && r[|url| + 1..] == param
    ensures r[|url|] == (if '?' in url then '&' else '?')
    ensures '?' in r
  {
    var sep := if '?' in url then '&' else '?';
    var r := url + [sep] + param;
    assert r[|url|] == sep;
    MarkKept(url, [sep] + param, '?');
    r
  }

  lemma MarkKept(s: string, more: string, c: char)
    ensures c in s ==> c in s + more
  {
    if c in s {
      var k :| 0 <= k < |s| && s[k] == c;
      assert (s + more)[k] == c;
    }
  }

  lemma SplitAt(s: string, n: nat)
    requires n <= |s|
    ensures s == s[..n] + s[n..]
  {
  }

  /** A `force=1` marker already present stays a marker when text is
      appended that does not begin with a digit. */
  lemma ForceSurvivesAppend(url: string, more: string)
    requires HasForce(url)
    requires more == [] || !IsDigit(more[0])
    ensures HasForce(url + more)
  {
    var i :| 0 <= i < |url| && ForceAt(url, i);
    var r := url + more;
    assert r[i + 1..i + 8] == url[i + 1..i + 8];
    assert ForceAt(r, i);
  }

  lemma ForceAppended(url: string)
    ensures HasForce(WithParam(url, "force=1"))
  {
    var r := WithParam(url, "force=1");
    assert ForceAt(r, |url|);
  }

  /** The force-append of popup.js: a non-empty URL without the marker
      gets `force=1` added with the separator rule. */
  function EnsureForce(url: string): (r: string)
    ensures url == "" || HasForce(url) ==> r == url
    ensures url != "" ==> HasForce(r)
    ensures |url| <= |r| && r[..|url|] == url
    ensures r != url ==> r == WithParam(url, "force=1")
  {
    if url != "" && !HasForce(url) then
      ForceAppended(url);
      WithParam(url, "force=1")
    else url
  }

  lemma EnsureForceIdempotent(url: string)
    ensures EnsureForce(EnsureForce(url)) == EnsureForce(url)
  {
  }

  /** The URL built with `force` already carries the marker, so the
      force-append after it does nothing. */
  lemma EnsureForceOnForcedPacUrl(base: Option<string>)
    ensures EnsureForce(BuildPacUrl(base, true)) == BuildPacUrl(base, true)
    ensures Truthy(base) ==> HasForce(BuildPacUrl(base, true))
  {
    if Truthy(base) {
      var u := BuildPacUrl(base, true);
      var c := StripSlash(base.value);
      assert u == c + "/pac" + "?force=1";
      assert ForceAt(u, |c| + 4);
    }
  }

  /** `force=10` is a different value: the lookahead rejects it and the
      marker is appended. */
  lemma ForceNeedsWholeValue()
    ensures EnsureForce("h?force=10") == "h?force=10&force=1"
  {
    var u := "h?force=10";
    forall i | 0 <= i < |u|
      ensures !ForceAt(u, i)
    {
      if i == 1 {
        assert u[9] == '0';
      }
    }
  }

  /** The cache-buster: `v=` and the decimal time. */
  function CacheBuster(now: nat): string {
    "v=" + NatToString(now)
  }

  /** `applyForcePacSilently`: the URL sent after domain changes. */
  function SilentForceUrl(base: Option<string>): (r: string)
    ensures r == BuildPacUrl(base, true)
  {
    EnsureForceOnForcedPacUrl(base);
    EnsureForce(BuildPacUrl(base, true))
  }

  /** The URL the "Set PAC" button starts from: the trimmed input, else the
      one built from the base. */
  function SetPacTarget(input: string, base: Option<string>): (url: string)
    ensures url == "" <==> JsTrim(input) == "" && !Truthy(base)
  {
    var typed := JsTrim(input);
    if typed != "" then typed else BuildPacUrl(base, false)
  }

  /** The URL the "Set PAC (force)" button starts from, with the marker. */
  function ForcePacTarget(input: string, base: Option<string>): (url: string)
    ensures url == "" <==> JsTrim(input) == "" && !Truthy(base)
    ensures url != "" ==> HasForce(url)
  {
    var typed := JsTrim(input);
    EnsureForce(if typed != "" then typed else BuildPacUrl(base, true))
  }

  /** What the "Set PAC" button passes to `setSystemPac` as written: the
      cache-buster is appended even to an empty URL. */
  function SetPacUrlAsWritten(input: string, base: Option<string>, now: nat): (r: string)
    ensures r != ""
  {
    WithParam(SetPacTarget(input, base), CacheBuster(now))
  }

  /** What the "Set PAC (force)" button passes to `setSystemPac` as written. */
  function ForcePacUrlAsWritten(input: string, base: Option<string>, now: nat): (r: string)
    ensures r != ""
  {
    WithParam(ForcePacTarget(input, base), CacheBuster(now))
  }

  /** With a blank input and a blank saved base, both buttons hand the
      host `?v=<time>`: the `No PAC URL` guard of `setSystemPac` never
      fires because the cache-buster already made the URL non-empty. */
  lemma BlankConfigSendsBareBuster(input: string, now: nat)
    requires JsTrim(input) == ""
    ensures SetPacUrlAsWritten(input, Some(""), now) == "?" + CacheBuster(now)
    ensures ForcePacUrlAsWritten(input, Some(""), now) == "?" + CacheBuster(now)
    ensures SetPacRequest(input, Some(""), now) == None
    ensures ForcePacRequest(input, Some(""), now) == None
  {
    assert ForcePacTarget(input, Some("")) == "";
    var r := WithParam("", CacheBuster(now));
    assert r == [r[0]] + r[1..];
  }

  /** The request the buttons should make: nothing (`No PAC URL`) when
      there is no address, otherwise the address with its cache-buster. */
  function Request(target: string, now: nat): (r: Option<string>)
    ensures r == None <==> target == ""
    ensures r.Some? ==> |r.value| == |target| + 1 + |CacheBuster(now)|
                        && r.value[..|target|] == target
                        && r.value[|target| + 1..] == CacheBuster(now)
  {
    if target == "" then None else Some(WithParam(target, CacheBuster(now)))
  }

  /** What the "Set PAC" button should hand to `setSystemPac`. */
  function SetPacRequest(input: string, base: Option<string>, now: nat): (r: Option<string>)
    ensures r == None <==> JsTrim(input) == "" && !Truthy(base)
  {
    Request(SetPacTarget(input, base), now)
  }

  /** What the "Set PAC (force)" button should hand to `setSystemPac`. */
  function ForcePacRequest(input: string, base: Option<string>, now: nat): (r: Option<string>)
    ensures r == None <==> JsTrim(input) == "" && !Truthy(base)
  {
    Request(ForcePacTarget(input, base), now)
  }

  /** A typed address wins over the configured base; without one the base
      decides, and a request goes out exactly when one of them is set. */
  lemma SetPacRequestOutcome(input: string, base: Option<string>, now: nat)
    ensures SetPacRequest(input, base, now).Some? <==> JsTrim(input) != "" || Truthy(base)
    ensures JsTrim(input) != "" ==>
      SetPacRequest(input, base, now) == Some(WithParam(JsTrim(input), CacheBuster(now)))
    ensures JsTrim(input) == "" && Truthy(base) ==>
      SetPacRequest(input, base, now) == Some(WithParam(BuildPacUrl(base, false), CacheBuster(now)))
  {
  }

  /** The forced request always carries the `force=1` marker, and the
      cache-buster after it does not disturb it. */
  lemma ForcePacRequestForces(input: string, base: Option<string>, now: nat)
    ensures ForcePacRequest(input, base, now).Some? <==> JsTrim(input) != "" || Truthy(base)
    ensures ForcePacRequest(input, base, now).Some? ==>
      HasForce(ForcePacRequest(input, base, now).value)
  {
    var t := ForcePacTarget(input, base);
    if t != "" {
      var r := WithParam(t, CacheBuster(now));
      SplitAt(r, |t|);
      ForceSurvivesAppend(t, r[|t|..]);
    }
  }
}
