/** The PAC compiler (`generatePac` in docker/pac-service/src/store.js): the
    text of a `FindProxyForURL` script listing, for each proxy in registry
    order, its `"proto host:port"` key and its domains in stored order, then a
    fixed first-match loop that falls back to `"DIRECT"`. */
module Pac {
  import opened Wrappers
  import opened Strings
  import opened Registry

  const Prelude: seq<string> := ["function FindProxyForURL(url, host) {", "  var proxies = {"]

  const Matcher: seq<string> := [
    "  };",
    "  for (var proxy in proxies) {",
    "    for (var i = 0; i < proxies[proxy].length; i++) {",
    "      var domain = proxies[proxy][i];",
    "      if (dnsDomainIs(host, domain)) {",
    "        return proxy;",
    "      }",
    "    }",
    "  }",
    "  return \"DIRECT\";",
    "}"
  ]

  /** The key of a proxy's group: proto, host and port. */
  function ProxyString(p: Proxy): string {
    p.proto + " " + p.host + ":" + IntToString(p.port)
  }

  // The tag escape: every star-slash pair, scanned left to right without
  // overlap, becomes star, backslash, slash (`replaceAll` with a string pattern).
  function EscapeTag(t: string): string {
    if |t| < 2 then t
    else if t[0] == '*' && t[1] == '/' then "*\\/" + EscapeTag(t[2..])
    else [t[0]] + EscapeTag(t[1..])
  }

  /** Whether `s` holds the two characters that close a block comment. */
  predicate HasCommentCloser(s: string) {
    exists i :: 0 <= i < |s| - 1 && s[i] == '*' && s[i + 1] == '/'
  }

  /** The escaped tag can no longer close a comment, and it starts with the
      tag's own first character. */
  lemma {:induction false} EscapeTagIsSafe(t: string)
    ensures !HasCommentCloser(EscapeTag(t))
    ensures t != [] ==> EscapeTag(t) != [] && EscapeTag(t)[0] == t[0]
    decreases |t|
  {
    var r := EscapeTag(t);
    if |t| >= 2 {
      if t[0] == '*' && t[1] == '/' {
        EscapeTagIsSafe(t[2..]);
        var rest := EscapeTag(t[2..]);
        forall i | 0 <= i < |r| - 1
          ensures !(r[i] == '*' && r[i + 1] == '/')
        {
          if i >= 3 {
            assert r[i] == rest[i - 3] && r[i + 1] == rest[i - 2];
          }
        }
      } else {
        EscapeTagIsSafe(t[1..]);
        var rest := EscapeTag(t[1..]);
        forall i | 0 <= i < |r| - 1
          ensures !(r[i] == '*' && r[i + 1] == '/')
        {
          if i >= 1 {
            assert r[i] == rest[i - 1] && r[i + 1] == rest[i];
          } else {
            assert r[1] == rest[0] == t[1];
          }
        }
      }
    } else if |t| == 1 {
      assert r == t;
    }
  }

  /** A tag without the closer is emitted unchanged. */
  lemma {:induction false} EscapeTagKeepsSafeText(t: string)
    requires !HasCommentCloser(t)
    ensures EscapeTag(t) == t
    decreases |t|
  {
    if |t| >= 2 {
      assert !(t[0] == '*' && t[1] == '/');
      var rest := t[1..];
      assert !HasCommentCloser(rest) by {
        forall i | 0 <= i < |rest| - 1
          ensures !(rest[i] == '*' && rest[i + 1] == '/')
        {
          assert rest[i] == t[i + 1] && rest[i + 1] == t[i + 2];
        }
      }
      EscapeTagKeepsSafeText(rest);
      assert [t[0]] + rest == t;
    }
  }

  /** The inline annotation: only a truthy (present, non-empty) tag gets one. */
  function Comment(tag: Option<string>): string {
    if tag.Some? && tag.value != "" then " // " + EscapeTag(tag.value) else ""
  }

  function DomainLine(d: Domain, comma: bool): string {
    "      \"" + d.name + "\"" + (if comma then "," else "") + Comment(d.tag)
  }

  /** The lines of one proxy's group: the key, one line per domain (a comma
      after every one but the last), and the closing bracket. */
  function GroupLines(p: Proxy, comma: bool): seq<string> {
    ["    \"" + ProxyString(p) + "\": ["]
    + seq(|p.domains|, j requires 0 <= j < |p.domains| => DomainLine(p.domains[j], j < |p.domains| - 1))
    + ["    ]" + (if comma then "," else "")]
  }

  function Flatten(blocks: seq<seq<string>>): seq<string> {
    if blocks == [] then [] else Flatten(blocks[..|blocks| - 1]) + blocks[|blocks| - 1]
  }

  /** The block of lines `group` gives each proxy, in order; every block but
      the last is told to end with a comma. */
  function Blocks(ps: seq<Proxy>, group: (Proxy, bool) -> seq<string>): seq<seq<string>> {
    seq(|ps|, i requires 0 <= i < |ps| => group(ps[i], i < |ps| - 1))
  }

  function GroupBlocks(ps: seq<Proxy>): seq<seq<string>> {
    Blocks(ps, GroupLines)
  }

  /** The entries of the `proxies` object: every group, in registry order. */
  function Body(ps: seq<Proxy>): seq<string> {
    Flatten(GroupBlocks(ps))
  }

  function PacLines(ps: seq<Proxy>): seq<string> {
    Prelude + Body(ps) + Matcher
  }

  /** The script text, lines joined by `\n`. */
  function GeneratePac(ps: seq<Proxy>): (text: string)
    ensures |text| > |Prelude[0]| && text[..|Prelude[0]| + 1] == Prelude[0] + "\n"
  {
    var lines := PacLines(ps);
    assert lines[0] == Prelude[0];
    var rest := Join(lines[1..], "\n");
    assert Join(lines, "\n") == Prelude[0] + "\n" + rest;
    assert (Prelude[0] + "\n" + rest)[..|Prelude[0]| + 1] == Prelude[0] + "\n";
    Join(lines, "\n")
  }

  // ---------------------------------------------------------------------
  // Where each group and each domain lands

  /** The line of the `proxies` object at which the group of `ps[i]`
      starts: after every earlier group (its domains plus two lines). */
  function GroupStart(ps: seq<Proxy>, i: nat): nat
    requires i <= |ps|
  {
    if i == 0 then 0 else GroupStart(ps, i - 1) + |ps[i - 1].domains| + 2
  }

  function BlockStart(blocks: seq<seq<string>>, i: nat): nat
    requires i <= |blocks|
  {
    if i == 0 then 0 else BlockStart(blocks, i - 1) + |blocks[i - 1]|
  }

  lemma {:induction false} BlockStartPrefix(blocks: seq<seq<string>>, n: nat, i: nat)
    requires i <= n <= |blocks|
    ensures BlockStart(blocks[..n], i) == BlockStart(blocks, i)
  {
    if i > 0 {
      BlockStartPrefix(blocks, n, i - 1);
    }
  }

  lemma {:induction false} FlattenLength(blocks: seq<seq<string>>)
    ensures |Flatten(blocks)| == BlockStart(blocks, |blocks|)
    decreases |blocks|
  {
    if blocks != [] {
      var init := blocks[..|blocks| - 1];
      FlattenLength(init);
      BlockStartPrefix(blocks, |blocks| - 1, |blocks| - 1);
    }
  }

  /** Flattening keeps every block, whole and in order. */
  lemma {:induction false} FlattenAt(blocks: seq<seq<string>>, i: nat, j: nat)
    requires i < |blocks| && j < |blocks[i]|
    ensures BlockStart(blocks, i) + j < |Flatten(blocks)|
    ensures Flatten(blocks)[BlockStart(blocks, i) + j] == blocks[i][j]
    decreases |blocks|
  {
    var init := blocks[..|blocks| - 1];
    FlattenLength(init);
    BlockStartPrefix(blocks, |blocks| - 1, |blocks| - 1);
    if i < |blocks| - 1 {
      FlattenAt(init, i, j);
      BlockStartPrefix(blocks, |blocks| - 1, i);
    }
  }

  lemma GroupLinesLength(p: Proxy, comma: bool)
    ensures |GroupLines(p, comma)| == |p.domains| + 2
  {
  }

  /** Each proxy's block is two lines longer than its domain list. */
  ghost predicate Sized(group: (Proxy, bool) -> seq<string>) {
    forall p: Proxy, comma: bool :: |group(p, comma)| == |p.domains| + 2
  }

  lemma GroupLinesSized()
    ensures Sized(GroupLines)
  {
    forall p: Proxy, comma: bool
      ensures |GroupLines(p, comma)| == |p.domains| + 2
    {
      GroupLinesLength(p, comma);
    }
  }

  lemma {:induction false} BlocksStart(ps: seq<Proxy>, group: (Proxy, bool) -> seq<string>, i: nat)
    requires Sized(group) && i <= |ps|
    ensures GroupStart(ps, i) == BlockStart(Blocks(ps, group), i)
  {
    if i > 0 {
      BlocksStart(ps, group, i - 1);
      assert Blocks(ps, group)[i - 1] == group(ps[i - 1], i - 1 < |ps| - 1);
    }
  }

  lemma BlocksPlaced(ps: seq<Proxy>, group: (Proxy, bool) -> seq<string>, i: nat, j: nat)
    requires Sized(group) && i < |ps| && j < |ps[i].domains| + 2
    ensures GroupStart(ps, i) + j < |Flatten(Blocks(ps, group))|
    ensures Flatten(Blocks(ps, group))[GroupStart(ps, i) + j] == group(ps[i], i < |ps| - 1)[j]
  {
    BlocksStart(ps, group, i);
    FlattenAt(Blocks(ps, group), i, j);
  }

  lemma GroupStartIsBlockStart(ps: seq<Proxy>, i: nat)
    requires i <= |ps|
    ensures GroupStart(ps, i) == BlockStart(GroupBlocks(ps), i)
  {
    GroupLinesSized();
    BlocksStart(ps, GroupLines, i);
  }

  /** The group of `ps[i]` occupies lines `GroupStart(ps, i)` onward, whole
      and in order. */
  lemma GroupPlaced(ps: seq<Proxy>, i: nat, j: nat)
    requires i < |ps| && j < |ps[i].domains| + 2
    ensures GroupStart(ps, i) + j < |Body(ps)|
    ensures Body(ps)[GroupStart(ps, i) + j] == GroupLines(ps[i], i < |ps| - 1)[j]
  {
    GroupLinesSized();
    BlocksPlaced(ps, GroupLines, i, j);
  }

  lemma GroupLinesKey(p: Proxy, comma: bool)
    ensures GroupLines(p, comma)[0] == "    \"" + ProxyString(p) + "\": ["
  {
  }

  lemma GroupLinesDomain(p: Proxy, comma: bool, j: nat)
    requires j < |p.domains|
    ensures |GroupLines(p, comma)| == |p.domains| + 2
    ensures GroupLines(p, comma)[1 + j] == DomainLine(p.domains[j], j < |p.domains| - 1)
  {
  }

  lemma GroupLinesClose(p: Proxy, comma: bool)
    ensures |GroupLines(p, comma)| == |p.domains| + 2
    ensures GroupLines(p, comma)[|p.domains| + 1] == "    ]" + (if comma then "," else "")
  {
  }

  lemma KeyPlaced(ps: seq<Proxy>, i: nat)
    requires i < |ps|
    ensures GroupStart(ps, i) < |Body(ps)|
    ensures Body(ps)[GroupStart(ps, i)] == "    \"" + ProxyString(ps[i]) + "\": ["
  {
    GroupLinesKey(ps[i], i < |ps| - 1);
    GroupPlaced(ps, i, 0);
  }

  lemma DomainPlaced(ps: seq<Proxy>, i: nat, j: nat)
    requires i < |ps| && j < |ps[i].domains|
    ensures GroupStart(ps, i) + 1 + j < |Body(ps)|
    ensures Body(ps)[GroupStart(ps, i) + 1 + j] == DomainLine(ps[i].domains[j], j < |ps[i].domains| - 1)
  {
    GroupLinesDomain(ps[i], i < |ps| - 1, j);
    GroupPlaced(ps, i, 1 + j);
  }

  lemma ClosePlaced(ps: seq<Proxy>, i: nat)
    requires i < |ps|
    ensures GroupStart(ps, i) + |ps[i].domains| + 1 < |Body(ps)|
    ensures Body(ps)[GroupStart(ps, i) + |ps[i].domains| + 1] == "    ]" + (if i < |ps| - 1 then "," else "")
  {
    GroupLinesClose(ps[i], i < |ps| - 1);
    GroupPlaced(ps, i, |ps[i].domains| + 1);
  }

  /** Every proxy, in registry order and even with no domains, gets a group
      keyed by its `"proto host:port"`; its domains follow quoted, in stored
      order, with a comma after each but the last; the group closes with a
      bracket followed by a comma unless it is the last group. */
  lemma PacListsProxy(ps: seq<Proxy>, i: nat)
    requires i < |ps|
    ensures GroupStart(ps, i) + |ps[i].domains| + 1 < |Body(ps)|
    ensures Body(ps)[GroupStart(ps, i)] == "    \"" + ProxyString(ps[i]) + "\": ["
    ensures forall j :: 0 <= j < |ps[i].domains| ==>
      Body(ps)[GroupStart(ps, i) + 1 + j] == DomainLine(ps[i].domains[j], j < |ps[i].domains| - 1)
    ensures Body(ps)[GroupStart(ps, i) + |ps[i].domains| + 1] == "    ]" + (if i < |ps| - 1 then "," else "")
  {
    KeyPlaced(ps, i);
    ClosePlaced(ps, i);
    DomainsPlaced(ps, i);
  }

  lemma DomainsPlaced(ps: seq<Proxy>, i: nat)
    requires i < |ps|
    ensures GroupStart(ps, i) + |ps[i].domains| < |Body(ps)|
    ensures forall j :: 0 <= j < |ps[i].domains| ==>
      Body(ps)[GroupStart(ps, i) + 1 + j] == DomainLine(ps[i].domains[j], j < |ps[i].domains| - 1)
  {
    ClosePlaced(ps, i);
    forall j | 0 <= j < |ps[i].domains|
      ensures GroupStart(ps, i) + 1 + j < |Body(ps)|
      ensures Body(ps)[GroupStart(ps, i) + 1 + j] == DomainLine(ps[i].domains[j], j < |ps[i].domains| - 1)
    {
      DomainPlaced(ps, i, j);
    }
  }

  /** The script always ends with the first-match loop and `return "DIRECT";`. */
  lemma PacEndsWithMatcher(ps: seq<Proxy>)
    ensures GeneratePac(ps) == Join(Prelude + Body(ps), "\n") + "\n" + Join(Matcher, "\n")
    ensures |PacLines(ps)| == |Prelude| + |Body(ps)| + |Matcher|
  {
    JoinConcat(Prelude + Body(ps), Matcher, "\n");
  }

  const ExampleProxy := Proxy("p1", "SOCKS5", "10.0.0.1", 1080, [Domain("example.com", Some("work"))])

  const ExampleGroup: seq<string> := ["    \"SOCKS5 10.0.0.1:1080\": [", "      \"example.com\" // work", "    ]"]

  lemma ExampleKey()
    ensures ProxyString(ExampleProxy) == "SOCKS5 10.0.0.1:1080"
  {
    assert NatToString(1080) == "1080" by {
      assert NatToString(1) == "1";
      assert NatToString(10) == "10";
      assert NatToString(108) == "108";
    }
    ExampleKeyText();
  }

  lemma ExampleKeyText()
    ensures "SOCKS5" + " " + "10.0.0.1" + ":" + "1080" == "SOCKS5 10.0.0.1:1080"
  {
  }

  lemma ExampleDomainLine()
    ensures DomainLine(ExampleProxy.domains[0], false) == "      \"example.com\" // work"
  {
    assert !HasCommentCloser("work");
    EscapeTagKeepsSafeText("work");
    ExampleDomainText();
  }

  lemma ExampleDomainText()
    ensures "      \"" + "example.com" + "\"" + "" + " // " + "work" == "      \"example.com\" // work"
  {
  }

  lemma ExampleKeyLineText()
    ensures "    \"" + "SOCKS5 10.0.0.1:1080" + "\": [" == "    \"SOCKS5 10.0.0.1:1080\": ["
  {
  }

  lemma ExampleGroupKey()
    ensures GroupLines(ExampleProxy, false)[0] == ExampleGroup[0]
  {
    ExampleKey();
    GroupLinesKey(ExampleProxy, false);
    ExampleKeyLineText();
  }

  lemma ExampleGroupDomain()
    ensures |GroupLines(ExampleProxy, false)| == 3
    ensures GroupLines(ExampleProxy, false)[1] == ExampleGroup[1]
  {
    ExampleDomainLine();
    GroupLinesDomain(ExampleProxy, false, 0);
  }

  lemma ExampleGroupClose()
    ensures GroupLines(ExampleProxy, false)[2] == ExampleGroup[2]
  {
    GroupLinesClose(ExampleProxy, false);
  }

  lemma ExampleGroupLines()
    ensures GroupLines(ExampleProxy, false) == ExampleGroup
  {
    ExampleGroupKey();
    ExampleGroupDomain();
    ExampleGroupClose();
  }

  /** The service's worked example: one SOCKS5 proxy at 10.0.0.1:1080 with the
      domain example.com tagged "work" yields a single group with one line. */
  lemma PacExample()
    ensures PacLines([ExampleProxy]) == Prelude + ExampleGroup + Matcher
  {
    ExampleGroupLines();
    var blocks := GroupBlocks([ExampleProxy]);
    assert blocks == [ExampleGroup];
    assert Flatten(blocks) == ExampleGroup by {
      assert blocks[..0] == [];
    }
  }
}
