/** The HTTP API's own logic (docker/pac-service/src/index.js): the proxy
    body validator used by create (full mode) and update (partial mode), and
    the optional Basic authentication gate in front of every route. */
module Api {
  import opened Wrappers
  import opened Strings

  /** A JSON value as `express.json()` hands it over; `Undefined` stands for
      a member the body does not have. */
  datatype JsValue = Undefined | Null | Bool(b: bool) | Num(n: real) | Str(s: string)
                   | Arr(items: seq<JsValue>) | Obj(members: map<string, JsValue>)

  /** `obj[key]`: `undefined` when the member is absent. */
  function Member(obj: map<string, JsValue>, key: string): JsValue {
    if key in obj then obj[key] else Undefined
  }

  /** The five fields the validator checks, in the order it checks them. */
  datatype Field = Id | Proto | Host | Port | Domains

  const Fields: seq<Field> := [Id, Proto, Host, Port, Domains]

  function Key(f: Field): string {
    match f
    case Id => "id"
    case Proto => "proto"
    case Host => "host"
    case Port => "port"
    case Domains => "domains"
  }

  /** The fixed error message of each field: its name, then what it must be. */
  function ErrorMessage(f: Field): string {
    Key(f) + Requirement(f)
  }

  function Requirement(f: Field): string {
    match f
    case Id => " must be non-empty string"
    case Proto => " must be SOCKS or SOCKS5 or PROXY"
    case Host => " must be non-empty string"
    case Port => " must be positive number"
    case Domains => " must be array of objects {name, tag?}"
  }

  /** A string that is not blank after `trim()`. */
  predicate NonBlankString(v: JsValue) {
    v.Str? && JsTrim(v.s) != ""
  }

  /** A domain entry is acceptable when it is an object whose `name` is a
      non-blank string (a falsy or non-object entry has no string `name`). */
  predicate DomainEntryOk(v: JsValue) {
    v.Obj? && NonBlankString(Member(v.members, "name"))
  }

  /** Whether the value of field `f` passes its check. */
  predicate FieldOk(f: Field, v: JsValue) {
    match f
    case Id => NonBlankString(v)
    case Proto => v == Str("SOCKS") || v == Str("SOCKS5") || v == Str("PROXY")
    case Host => NonBlankString(v)
    case Port => v.Num? && !(v.n <= 0.0)
    case Domains => v.Arr? && forall k :: 0 <= k < |v.items| ==> DomainEntryOk(v.items[k])
  }

  /** Whether field `f` is checked: the four scalar fields always in full
      mode and when present in partial mode; `domains` only when present. */
  predicate Checked(f: Field, body: map<string, JsValue>, partial: bool) {
    if f == Domains then Member(body, Key(f)) != Undefined
    else !partial || Member(body, Key(f)) != Undefined
  }

  predicate Fails(f: Field, body: map<string, JsValue>, partial: bool) {
    Checked(f, body, partial) && !FieldOk(f, Member(body, Key(f)))
  }

  /** The fields of `fs` that satisfy `bad`, in the order of `fs`. */
  function Filter(fs: seq<Field>, bad: Field -> bool): seq<Field> {
    if fs == [] then [] else (if bad(fs[0]) then [fs[0]] else []) + Filter(fs[1..], bad)
  }

  /** The fields that fail, in check order. */
  function FailingFields(body: map<string, JsValue>, partial: bool): seq<Field> {
    Filter(Fields, f => Fails(f, body, partial))
  }

  function Messages(fs: seq<Field>): seq<string> {
    seq(|fs|, i requires 0 <= i < |fs| => ErrorMessage(fs[i]))
  }

  /** The message a field contributes: its own when it fails, else none. */
  function MessageIf(f: Field, body: map<string, JsValue>, partial: bool): seq<string> {
    if Fails(f, body, partial) then [ErrorMessage(f)] else []
  }

  /** The parts of `fs`, in order, joined. */
  function Concat(fs: seq<Field>, part: Field -> seq<string>): seq<string> {
    if fs == [] then [] else part(fs[0]) + Concat(fs[1..], part)
  }

  /** The error list: each field's message if it fails, in check order. */
  function Report(body: map<string, JsValue>, partial: bool): seq<string> {
    Concat(Fields, f => MessageIf(f, body, partial))
  }

  lemma ConcatStep(fs: seq<Field>, part: Field -> seq<string>)
    requires fs != []
    ensures Concat(fs, part) == part(fs[0]) + Concat(fs[1..], part)
  {
  }

  lemma ConcatFields(part: Field -> seq<string>)
    ensures Concat(Fields, part) == part(Id) + part(Proto) + part(Host) + part(Port) + part(Domains)
  {
    var f4: seq<Field> := [Domains];
    var f3: seq<Field> := [Port, Domains];
    var f2: seq<Field> := [Host, Port, Domains];
    var f1: seq<Field> := [Proto, Host, Port, Domains];
    assert f4[1..] == [];
    assert Concat(f4, part) == part(Domains);
    assert f3[1..] == f4;
    ConcatStep(f3, part);
    assert f2[1..] == f3;
    ConcatStep(f2, part);
    assert f1[1..] == f2;
    ConcatStep(f1, part);
    assert Fields[1..] == f1;
    ConcatStep(Fields, part);
  }

  /** One field's check: push its message when it is checked and fails. */
  method CheckField(errors: seq<string>, f: Field, body: map<string, JsValue>, partial: bool)
    returns (out: seq<string>)
    ensures out == errors + MessageIf(f, body, partial)
  {
    out := errors;
    if Checked(f, body, partial) {
      if !FieldOk(f, Member(body, Key(f))) {
        out := out + [ErrorMessage(f)];
      }
    }
  }

  /** `validateProxyInput`: the five checks in order, each pushing its
      field's message when it fails. */
  method ValidateProxyInput(body: map<string, JsValue>, partial: bool) returns (errors: seq<string>)
    ensures errors == Report(body, partial)
  {
    errors := [];
    errors := CheckField(errors, Id, body, partial);
    assert errors == MessageIf(Id, body, partial);
    errors := CheckField(errors, Proto, body, partial);
    errors := CheckField(errors, Host, body, partial);
    errors := CheckField(errors, Port, body, partial);
    errors := CheckField(errors, Domains, body, partial);
    ReportParts(body, partial);
  }

  /** The error list is the five fields' contributions in check order. */
  lemma ReportParts(body: map<string, JsValue>, partial: bool)
    ensures Report(body, partial)
      == MessageIf(Id, body, partial) + MessageIf(Proto, body, partial) + MessageIf(Host, body, partial)
         + MessageIf(Port, body, partial) + MessageIf(Domains, body, partial)
  {
    ConcatFields(f => MessageIf(f, body, partial));
  }

  lemma MessagesAppend(a: seq<Field>, b: seq<Field>)
    ensures Messages(a + b) == Messages(a) + Messages(b)
  {
  }

  /** The error list is the messages of the failing fields. */
  lemma {:induction false} ConcatIsMessages(fs: seq<Field>, body: map<string, JsValue>, partial: bool)
    ensures Concat(fs, f => MessageIf(f, body, partial)) == Messages(Filter(fs, f => Fails(f, body, partial)))
  {
    if fs != [] {
      var bad := f => Fails(f, body, partial);
      ConcatIsMessages(fs[1..], body, partial);
      var head := if bad(fs[0]) then [fs[0]] else [];
      MessagesAppend(head, Filter(fs[1..], bad));
      assert Messages(head) == MessageIf(fs[0], body, partial);
    }
  }

  /** The position of a field in the check order. */
  function Rank(f: Field): nat {
    match f
    case Id => 0
    case Proto => 1
    case Host => 2
    case Port => 3
    case Domains => 4
  }

  /** Filtering keeps exactly the fields that satisfy the predicate. */
  lemma {:induction false} FilterMembers(fs: seq<Field>, bad: Field -> bool)
    ensures forall f :: f in Filter(fs, bad) <==> f in fs && bad(f)
  {
    if fs != [] {
      FilterMembers(fs[1..], bad);
      assert fs == [fs[0]] + fs[1..];
    }
  }

  /** Fields in strictly increasing check order. */
  predicate Ordered(fs: seq<Field>) {
    forall a, b :: 0 <= a < b < |fs| ==> Rank(fs[a]) < Rank(fs[b])
  }

  /** Filtering a rank-ordered list of fields keeps the rank order. */
  lemma {:induction false} FilterOrdered(fs: seq<Field>, bad: Field -> bool)
    requires Ordered(fs)
    ensures Ordered(Filter(fs, bad))
  {
    if fs != [] {
      var rest := Filter(fs[1..], bad);
      FilterOrdered(fs[1..], bad);
      FilterMembers(fs[1..], bad);
      var r := Filter(fs, bad);
      if bad(fs[0]) {
        assert r == [fs[0]] + rest;
        forall a, b | 0 <= a < b < |r|
          ensures Rank(r[a]) < Rank(r[b])
        {
          if a == 0 {
            assert r[b] == rest[b - 1];
            assert rest[b - 1] in fs[1..];
            var k :| 0 <= k < |fs[1..]| && fs[1..][k] == rest[b - 1];
            assert fs[k + 1] == r[b];
          } else {
            assert r[a] == rest[a - 1] && r[b] == rest[b - 1];
          }
        }
      } else {
        assert r == rest;
      }
    }
  }

  /** Each field has its own message. */
  lemma ErrorMessageInjective(f: Field, g: Field)
    requires ErrorMessage(f) == ErrorMessage(g)
    ensures f == g
  {
    assert ErrorMessage(f)[..2] == Key(f)[..2];
    assert ErrorMessage(g)[..2] == Key(g)[..2];
  }

  /** What `validateProxyInput` promises: no messages exactly when every
      checked field passes; a field's message exactly when that field is
      checked and fails; no message twice; messages in the order id, proto,
      host, port, domains. */
  lemma ValidationOutcome(body: map<string, JsValue>, partial: bool)
    ensures var e := Report(body, partial);
      && (e == [] <==> forall f :: !Fails(f, body, partial))
      && (forall f :: ErrorMessage(f) in e <==> Fails(f, body, partial))
      && (forall a, b :: 0 <= a < b < |e| ==> e[a] != e[b])
  {
    ConcatIsMessages(Fields, body, partial);
    FilteredFieldsOutcome(f => Fails(f, body, partial));
  }

  /** The messages of the fields that satisfy `bad`: none exactly when no
      field does, one for each field that does, none twice. */
  lemma FilteredFieldsOutcome(bad: Field -> bool)
    ensures var e := Messages(Filter(Fields, bad));
      && (e == [] <==> forall f :: !bad(f))
      && (forall f :: ErrorMessage(f) in e <==> bad(f))
      && (forall a, b :: 0 <= a < b < |e| ==> e[a] != e[b])
  {
    var ff := Filter(Fields, bad);
    FieldsListed();
    FilterMembers(Fields, bad);
    if ff == [] {
      forall f
        ensures !bad(f)
      {
        assert f !in ff;
      }
    } else {
      assert ff[0] in ff;
    }
    MessagesOfFiltered(Fields, bad);
  }

  /** The messages of a filtered rank-ordered list: one for each field that
      satisfies the predicate, none twice. */
  lemma MessagesOfFiltered(fs: seq<Field>, bad: Field -> bool)
    requires Ordered(fs)
    ensures var e := Messages(Filter(fs, bad));
      && (forall f :: ErrorMessage(f) in e <==> f in fs && bad(f))
      && (forall a, b :: 0 <= a < b < |e| ==> e[a] != e[b])
  {
    var ff := Filter(fs, bad);
    FilterMembers(fs, bad);
    FilterOrdered(fs, bad);
    MessagesFacts(ff);
  }

  /** The failing fields are exactly those whose check fails, in check order. */
  lemma FailingFieldsSpec(body: map<string, JsValue>, partial: bool)
    ensures forall f :: f in FailingFields(body, partial) <==> Fails(f, body, partial)
    ensures Ordered(FailingFields(body, partial))
  {
    var bad := f => Fails(f, body, partial);
    FilterMembers(Fields, bad);
    FieldsListed();
    FilterOrdered(Fields, bad);
  }

  /** The check order lists every field once, by rank. */
  lemma FieldsListed()
    ensures forall f :: f in Fields
    ensures Ordered(Fields)
  {
    forall f
      ensures f in Fields
    {
      assert Fields[Rank(f)] == f;
    }
  }

  /** The messages of rank-ordered fields: one per field, none twice. */
  lemma MessagesFacts(ff: seq<Field>)
    requires Ordered(ff)
    ensures forall f :: ErrorMessage(f) in Messages(ff) <==> f in ff
    ensures var e := Messages(ff); forall a, b :: 0 <= a < b < |e| ==> e[a] != e[b]
  {
    var e := Messages(ff);
    forall f
      ensures ErrorMessage(f) in e <==> f in ff
    {
      if ErrorMessage(f) in e {
        var a :| 0 <= a < |e| && e[a] == ErrorMessage(f);
        ErrorMessageInjective(ff[a], f);
      }
      if f in ff {
        var a :| 0 <= a < |ff| && ff[a] == f;
        assert e[a] == ErrorMessage(f);
      }
    }
    forall a, b | 0 <= a < b < |e|
      ensures e[a] != e[b]
    {
      assert Rank(ff[a]) < Rank(ff[b]);
      if e[a] == e[b] {
        ErrorMessageInjective(ff[a], ff[b]);
      }
    }
  }

  /** In partial mode an empty patch is valid ... */
  lemma EmptyPatchValid()
    ensures Report(map[], true) == []
  {
    ReportParts(map[], true);
  }

  /** ... and in full mode an empty body lacks the four scalar fields. */
  lemma EmptyBodyInvalid()
    ensures Report(map[], false) == [ErrorMessage(Id), ErrorMessage(Proto), ErrorMessage(Host), ErrorMessage(Port)]
  {
    ReportParts(map[], false);
    MissingFieldMessage(Id);
    MissingFieldMessage(Proto);
    MissingFieldMessage(Host);
    MissingFieldMessage(Port);
    MissingFieldMessage(Domains);
  }

  /** In full mode a missing scalar field fails; a missing `domains` is
      not checked. */
  lemma MissingFieldMessage(f: Field)
    ensures MessageIf(f, map[], false) == if f == Domains then [] else [ErrorMessage(f)]
  {
  }

  /** A fractional port passes: only the sign is checked, not integrality. */
  lemma FractionalPortAccepted()
    ensures !Fails(Port, map["port" := Num(0.5)], false)
    ensures Fails(Port, map["port" := Num(0.0)], true)
    ensures Fails(Port, map["port" := Str("8080")], true)
  {
  }

  // ---------------------------------------------------------------------
  // Basic authentication

  /** The gate's answer: pass on, 401 `auth_required`, or 401 `invalid_credentials`. */
  datatype AuthDecision = Allow | AuthRequired | InvalidCredentials

  /** A configured credential: `process.env.X || null` turns an unset or
      empty variable into null. */
  predicate Configured(v: Option<string>) {
    v.Some? && v.value != ""
  }

  predicate Exempt(path: string) {
    path == "/health" || path == "/pac"
  }

  predicate HasPrefix(s: string, prefix: string) {
    |prefix| <= |s| && s[..|prefix|] == prefix
  }

  /** The decoded credentials `text` present `u` and `p` to the gate: the
      first two colon-separated pieces are `u` and `p`, so the text is
      `u:p`, possibly followed by a colon and anything. */
  predicate Presents(text: string, u: string, p: string) {
    ':' !in u && ':' !in p && (text == u + ":" + p || HasPrefix(text, u + ":" + p + ":"))
  }

  /** `basicAuth` for a request to `path` with the given `Authorization`
      header, under the configured user and password. `decode` is the
      base64-to-UTF-8 decoding, which is not part of this model. */
  function BasicAuth(path: string, user: Option<string>, pass: Option<string>,
                     header: Option<string>, decode: string -> string): (d: AuthDecision)
    ensures Exempt(path) ==> d == Allow
    ensures !Configured(user) || !Configured(pass) ==> d == Allow
    ensures !Exempt(path) && Configured(user) && Configured(pass) ==>
      (d == AuthRequired <==> header.None? || !HasPrefix(header.value, "Basic "))
    ensures !Exempt(path) && Configured(user) && Configured(pass) && header.Some? && HasPrefix(header.value, "Basic ") ==>
      (d == Allow <==> Presents(decode(header.value[6..]), user.value, pass.value))
  {
    if Exempt(path) then Allow
    else if !Configured(user) || !Configured(pass) then Allow
    else if header.None? || header.value == "" || !HasPrefix(header.value, "Basic ") then AuthRequired
    else
      var text := decode(header.value[6..]);
      var pieces := Split(text, ':');
      SplitPresents(text, user.value, pass.value);
      if pieces[0] == user.value && |pieces| >= 2 && pieces[1] == pass.value then Allow
      else InvalidCredentials
  }

  /** Splitting at the first colon of `u:rest`, where `u` has none. */
  lemma SplitCons(u: string, rest: string)
    requires ':' !in u
    ensures Split(u + ":" + rest, ':') == [u] + Split(rest, ':')
  {
    var s := u + ":" + rest;
    IndexOfFirst(s, ':', |u|);
    assert s[..|u|] == u;
    assert s[|u| + 1..] == rest;
  }

  /** The first occurrence is at `n` when `s[n]` is `c` and nothing before
      it is. */
  lemma {:induction false} IndexOfFirst(s: string, c: char, n: nat)
    requires n < |s| && s[n] == c
    requires forall k :: 0 <= k < n ==> s[k] != c
    ensures IndexOf(s, c) == n
  {
    if n > 0 {
      assert s[1..][n - 1] == c;
      IndexOfFirst(s[1..], c, n - 1);
    }
  }

  /** The first two pieces are `u` and `p` exactly when the text presents
      them. */
  lemma SplitPresents(text: string, u: string, p: string)
    ensures (|Split(text, ':')| >= 2 && Split(text, ':')[0] == u && Split(text, ':')[1] == p)
            <==> Presents(text, u, p)
  {
    var pieces := Split(text, ':');
    if |pieces| >= 2 && pieces[0] == u && pieces[1] == p {
      SplitFirstTwo(text, u, p);
    }
    if Presents(text, u, p) {
      PresentsSplit(text, u, p);
    }
  }

  lemma SplitFirstTwo(text: string, u: string, p: string)
    requires |Split(text, ':')| >= 2 && Split(text, ':')[0] == u && Split(text, ':')[1] == p
    ensures Presents(text, u, p)
  {
    var i := IndexOf(text, ':');
    var r := text[i + 1..];
    assert Split(text, ':') == [text[..i]] + Split(r, ':');
    assert text == text[..i] + [text[i]] + r;
    if ':' in r {
      var j := IndexOf(r, ':');
      assert r[..j] == p;
      assert r == r[..j] + [r[j]] + r[j + 1..];
      var t := u + ":" + p + ":";
      assert text == t + r[j + 1..];
      assert text[..|t|] == t;
    } else {
      assert r == p;
    }
  }

  lemma PresentsSplit(text: string, u: string, p: string)
    requires Presents(text, u, p)
    ensures |Split(text, ':')| >= 2 && Split(text, ':')[0] == u && Split(text, ':')[1] == p
  {
    if text == u + ":" + p {
      SplitCons(u, p);
      assert ':' !in p;
    } else {
      var k := |u + ":" + p + ":"|;
      var w := text[k..];
      assert text == text[..k] + w;
      assert text == u + ":" + (p + ":" + w);
      SplitCons(u, p + ":" + w);
      SplitCons(p, w);
    }
  }

  /** Splitting `u:p` at colons when neither part has one gives the two parts. */
  lemma SplitPair(u: string, p: string)
    requires ':' !in u && ':' !in p
    ensures Split(u + ":" + p, ':') == [u, p]
  {
    var s := u + ":" + p;
    assert s[|u|] == ':';
    assert s[..|u|] == u;
    var i := IndexOf(s, ':');
    assert i == |u|;
    assert s[i + 1..] == p;
  }

  /** With credentials configured, a request carrying `Basic` and a token
      that decodes to `u:p` (neither part holding a colon) passes exactly when
      `u` and `p` are the configured user and password. */
  lemma BasicAuthAcceptsExactPair(path: string, user: string, pass: string,
                                  token: string, decode: string -> string, u: string, p: string)
    requires !Exempt(path) && user != "" && pass != ""
    requires ':' !in u && ':' !in p && decode(token) == u + ":" + p
    ensures BasicAuth(path, Some(user), Some(pass), Some("Basic " + token), decode) == Allow
      <==> u == user && p == pass
    ensures BasicAuth(path, Some(user), Some(pass), Some("Basic " + token), decode) != AuthRequired
  {
    var h := "Basic " + token;
    assert h[..6] == "Basic ";
    assert h[6..] == token;
    SplitPair(u, p);
  }

  /** Anything after a second colon is ignored: `user:pass:extra` is
      accepted like `user:pass`. */
  lemma BasicAuthIgnoresExtraPieces(path: string, user: string, pass: string,
                                    token: string, decode: string -> string, rest: string)
    requires !Exempt(path) && user != "" && pass != ""
    requires ':' !in user && ':' !in pass && decode(token) == user + ":" + pass + ":" + rest
    ensures BasicAuth(path, Some(user), Some(pass), Some("Basic " + token), decode) == Allow
  {
    var h := "Basic " + token;
    assert h[..6] == "Basic ";
    assert h[6..] == token;
    var t := user + ":" + pass + ":";
    assert decode(token)[..|t|] == t;
  }

  /** Only the text between the first and second colon is compared with
      the password, so a configured password that itself holds a colon is
      never accepted (section 2 of RFC 7617 splits at the first colon only). */
  lemma ColonPasswordNeverAccepted(path: string, user: string, pass: string,
                                   header: Option<string>, decode: string -> string)
    requires !Exempt(path) && user != "" && ':' in pass
    ensures BasicAuth(path, Some(user), Some(pass), header, decode) != Allow
  {
  }

  /** Without a header, or with another scheme, the answer is `auth_required`. */
  lemma BasicAuthNeedsScheme(path: string, user: string, pass: string, header: Option<string>, decode: string -> string)
    requires !Exempt(path) && user != "" && pass != ""
    requires header.None? || !HasPrefix(header.value, "Basic ")
    ensures BasicAuth(path, Some(user), Some(pass), header, decode) == AuthRequired
  {
  }
}
