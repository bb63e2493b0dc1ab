/** The allowlist file of the allowlist UI (docker/allowlist-ui/app.py): a
    text file of `allow * <IP-or-CIDR>` lines under a comment header, read
    with a regular expression, rewritten sorted and de-duplicated, and edited
    by the add and delete endpoints. Whether a file exists and its text are
    the `content` of a class; `validate_cidr` (Python's `ip_network`) is a
    function parameter. */
module Allowlist {
  import opened Wrappers
  import opened Strings
  import opened LexSort

  // ---------------------------------------------------------------------
  // ALLOW_RE: ^\s*allow\s+\*\s+(?P<cidr>[^\s#]+)\s*(?:#.*)?$ , IGNORECASE
  // ---------------------------------------------------------------------

  predicate AllSpace(w: string) {
    forall k :: 0 <= k < |w| ==> IsPySpace(w[k])
  }

  /** `allow`, case-insensitively (none of its letters has a special
      Unicode case folding, so only the ASCII capitals are added). */
  predicate AllowWord(w: string) {
    && |w| == 5
    && (w[0] == 'a' || w[0] == 'A')
    && (w[1] == 'l' || w[1] == 'L')
    && (w[2] == 'l' || w[2] == 'L')
    && (w[3] == 'o' || w[3] == 'O')
    && (w[4] == 'w' || w[4] == 'W')
  }

  /** A character of the `cidr` group: `[^\s#]`. */
  predicate TokenChar(c: char) {
    !IsPySpace(c) && c != '#'
  }

  predicate IsToken(t: string) {
    t != [] && forall k :: 0 <= k < |t| ==> TokenChar(t[k])
  }

  /** The pieces of a line the expression matches: leading space, the word,
      space, `*`, space, the captured token, trailing space, and an optional
      `#` comment. */
  datatype AllowParts = AllowParts(
    lead: string, word: string, gap1: string, gap2: string,
    token: string, trail: string, comment: string)

  function Compose(p: AllowParts): string {
    p.lead + (p.word + (p.gap1 + ("*" + (p.gap2 + (p.token + (p.trail + p.comment))))))
  }

  /** The parts fit the expression. `.` does not match a newline, so the
      comment has none. */
  predicate WellFormed(p: AllowParts) {
    && AllSpace(p.lead)
    && AllowWord(p.word)
    && p.gap1 != [] && AllSpace(p.gap1)
    && p.gap2 != [] && AllSpace(p.gap2)
    && IsToken(p.token)
    && AllSpace(p.trail)
    && (p.comment == [] || (p.comment[0] == '#' && '\n' !in p.comment))
  }

  /** The longest prefix of token characters. */
  function TakeToken(s: string): (t: string)
    ensures |t| <= |s| && t == s[..|t|]
    ensures forall k :: 0 <= k < |t| ==> TokenChar(t[k])
    ensures |t| < |s| ==> !TokenChar(s[|t|])
  {
    if s != [] && TokenChar(s[0]) then [s[0]] + TakeToken(s[1..]) else []
  }

  /** `ALLOW_RE.match(line)` followed by `m.group("cidr")`. The expression
      has a single way to match: every `\s` run is maximal and the token is
      the longest run of token characters, so a left-to-right scan decides,
      one stage per piece of the expression. */
  function MatchAllow(line: string): (r: Option<string>)
    ensures r.Some? ==> IsToken(r.value)
  {
    AfterLead(TrimStart(line, IsPySpace))
  }

  /** From the word `allow` on. */
  function AfterLead(a: string): (r: Option<string>)
    ensures r.Some? ==> IsToken(r.value)
  {
    if |a| < 5 || !AllowWord(a[..5]) then None else AfterWord(a[5..])
  }

  /** From the space after the word on. */
  function AfterWord(b: string): (r: Option<string>)
    ensures r.Some? ==> IsToken(r.value)
  {
    var c := TrimStart(b, IsPySpace);
    if |c| == |b| || c == [] || c[0] != '*' then None else AfterStar(c[1..])
  }

  /** From the space after `*` on. */
  function AfterStar(d: string): (r: Option<string>)
    ensures r.Some? ==> IsToken(r.value)
  {
    var e := TrimStart(d, IsPySpace);
    if |e| == |d| then None else AfterGap(e)
  }

  /** From the token on. */
  function AfterGap(e: string): (r: Option<string>)
    ensures r.Some? ==> IsToken(r.value)
  {
    var t := TakeToken(e);
    if t == [] || !Tail(e[|t|..]) then None else Some(t)
  }

  /** What may follow the token: space, then nothing or a `#` comment. */
  predicate Tail(r: string) {
    var rest := TrimStart(r, IsPySpace);
    rest == [] || rest[0] == '#'
  }

  lemma {:induction false} TrimStartSkips(w: string, s: string)
    requires AllSpace(w)
    requires s == [] || !IsPySpace(s[0])
    ensures TrimStart(w + s, IsPySpace) == s
    decreases |w|
  {
    if w != [] {
      assert (w + s)[1..] == w[1..] + s;
      TrimStartSkips(w[1..], s);
    } else {
      assert w + s == s;
    }
  }

  lemma {:induction false} TakeTokenStops(t: string, s: string)
    requires forall k :: 0 <= k < |t| ==> TokenChar(t[k])
    requires s == [] || !TokenChar(s[0])
    ensures TakeToken(t + s) == t
    decreases |t|
  {
    if t != [] {
      assert (t + s)[1..] == t[1..] + s;
      TakeTokenStops(t[1..], s);
    } else {
      assert t + s == s;
    }
  }

  lemma GapComplete(token: string, trail: string, comment: string)
    requires IsToken(token) && AllSpace(trail)
    requires comment == [] || comment[0] == '#'
    ensures AfterGap(token + (trail + comment)) == Some(token)
  {
    TakeTokenStops(token, trail + comment);
    assert (token + (trail + comment))[|token|..] == trail + comment;
    TrimStartSkips(trail, comment);
  }

  lemma StarComplete(gap2: string, rest: string)
    requires gap2 != [] && AllSpace(gap2)
    requires rest != [] && !IsPySpace(rest[0])
    ensures AfterStar(gap2 + rest) == AfterGap(rest)
  {
    TrimStartSkips(gap2, rest);
  }

  lemma WordComplete(gap1: string, rest: string)
    requires gap1 != [] && AllSpace(gap1)
    ensures AfterWord(gap1 + ("*" + rest)) == AfterStar(rest)
  {
    TrimStartSkips(gap1, "*" + rest);
    assert ("*" + rest)[1..] == rest;
  }

  lemma LeadComplete(lead: string, word: string, rest: string)
    requires AllSpace(lead) && AllowWord(word)
    ensures MatchAllow(lead + (word + rest)) == AfterWord(rest)
  {
    TrimStartSkips(lead, word + rest);
    assert (word + rest)[..5] == word && (word + rest)[5..] == rest;
  }

  /** Every line of the expression's shape matches, capturing its token. */
  lemma MatchAllowComplete(p: AllowParts)
    requires WellFormed(p)
    ensures MatchAllow(Compose(p)) == Some(p.token)
  {
    var r4 := p.token + (p.trail + p.comment);
    LeadComplete(p.lead, p.word, p.gap1 + ("*" + (p.gap2 + r4)));
    WordComplete(p.gap1, p.gap2 + r4);
    StarComplete(p.gap2, r4);
    GapComplete(p.token, p.trail, p.comment);
  }

  lemma NoNewlineSuffix(x: string, y: string)
    requires '\n' !in x + y
    ensures '\n' !in y
  {
    assert forall k :: 0 <= k < |y| ==> y[k] == (x + y)[|x| + k];
  }

  lemma GapSound(e: string) returns (trail: string, comment: string)
    requires AfterGap(e).Some? && '\n' !in e
    ensures IsToken(AfterGap(e).value) && AllSpace(trail)
    ensures comment == [] || (comment[0] == '#' && '\n' !in comment)
    ensures e == AfterGap(e).value + (trail + comment)
  {
    trail, comment := TailSplit(e, TakeToken(e));
  }

  lemma TailSplit(e: string, t: string) returns (trail: string, comment: string)
    requires t == TakeToken(e) && t != [] && Tail(e[|t|..]) && '\n' !in e
    ensures IsToken(t) && AllSpace(trail)
    ensures comment == [] || (comment[0] == '#' && '\n' !in comment)
    ensures e == t + (trail + comment)
  {
    var r := e[|t|..];
    assert e == t + r;
    NoNewlineSuffix(t, r);
    trail, comment := TailParts(r);
  }

  /** What follows the token: space, then nothing or the comment. */
  lemma TailParts(r: string) returns (trail: string, comment: string)
    requires Tail(r) && '\n' !in r
    ensures AllSpace(trail) && r == trail + comment
    ensures comment == [] || (comment[0] == '#' && '\n' !in comment)
  {
    comment := TrimStart(r, IsPySpace);
    trail := SpacePrefix(r, comment);
    NoNewlineSuffix(trail, comment);
  }

  /** The space `TrimStart` removes is a prefix of all-space characters. */
  lemma SpacePrefix(s: string, r: string) returns (w: string)
    requires r == TrimStart(s, IsPySpace)
    ensures AllSpace(w) && s == w + r && |w| == |s| - |r|
  {
    w := s[..|s| - |r|];
    assert s == w + r;
    TrimStartRemovesSpace(s, IsPySpace);
    forall k | 0 <= k < |w|
      ensures IsPySpace(w[k])
    {
      assert w[k] == s[k];
    }
  }

  lemma StarSound(d: string) returns (gap2: string, e: string)
    requires AfterStar(d).Some?
    ensures gap2 != [] && AllSpace(gap2) && d == gap2 + e
    ensures AfterStar(d) == AfterGap(e)
  {
    e := TrimStart(d, IsPySpace);
    gap2 := SpacePrefix(d, e);
  }

  lemma WordSound(b: string) returns (gap1: string, d: string)
    requires AfterWord(b).Some?
    ensures gap1 != [] && AllSpace(gap1) && b == gap1 + ("*" + d)
    ensures AfterWord(b) == AfterStar(d)
  {
    var c := WordStar(b);
    gap1, d := StarSplit(b, c);
  }

  /** What follows the space after the word: `*` and the rest. */
  lemma WordStar(b: string) returns (c: string)
    requires AfterWord(b).Some?
    ensures c == TrimStart(b, IsPySpace) && |c| < |b| && c != [] && c[0] == '*'
    ensures AfterWord(b) == AfterStar(c[1..])
  {
    c := TrimStart(b, IsPySpace);
  }

  lemma StarSplit(b: string, c: string) returns (gap1: string, d: string)
    requires c == TrimStart(b, IsPySpace) && |c| < |b| && c != [] && c[0] == '*'
    ensures gap1 != [] && AllSpace(gap1) && b == gap1 + ("*" + d) && d == c[1..]
  {
    gap1 := SpacePrefix(b, c);
    d := c[1..];
    assert c == "*" + d;
  }

  lemma LeadSound(line: string) returns (lead: string, word: string, b: string)
    requires MatchAllow(line).Some?
    ensures AllSpace(lead) && AllowWord(word) && line == lead + (word + b)
    ensures MatchAllow(line) == AfterWord(b)
  {
    var a := TrimStart(line, IsPySpace);
    AfterLeadSound(a);
    lead, word, b := LeadSplit(line, a);
  }

  lemma AfterLeadSound(a: string)
    requires AfterLead(a).Some?
    ensures |a| >= 5 && AllowWord(a[..5])
    ensures AfterLead(a) == AfterWord(a[5..])
  {
  }

  lemma LeadSplit(line: string, a: string) returns (lead: string, word: string, b: string)
    requires a == TrimStart(line, IsPySpace) && |a| >= 5
    ensures AllSpace(lead) && line == lead + (word + b)
    ensures word == a[..5] && b == a[5..]
  {
    lead := SpacePrefix(line, a);
    word, b := a[..5], a[5..];
    assert a == word + b;
  }

  /** Every match comes from a line of the expression's shape (for a line
      without a newline, as `splitlines` produces). */
  lemma MatchAllowSound(line: string) returns (p: AllowParts)
    requires MatchAllow(line).Some? && '\n' !in line
    ensures WellFormed(p) && Compose(p) == line
    ensures p.token == MatchAllow(line).value
  {
    var lead, word, b := LeadSound(line);
    var gap1, d := WordSound(b);
    var gap2, e := StarSound(d);
    NoNewlineSuffix(lead, word + b);
    NoNewlineSuffix(word, b);
    NoNewlineSuffix(gap1, "*" + d);
    NoNewlineSuffix("*", d);
    NoNewlineSuffix(gap2, e);
    var trail, comment := GapSound(e);
    p := AllowParts(lead, word, gap1, gap2, AfterGap(e).value, trail, comment);
  }

  /** The line `write_allowlist` writes for an entry. */
  function AllowLine(c: string): string {
    "allow * " + c
  }

  /** Reading back a written line gives back its entry. */
  lemma AllowLineMatches(c: string)
    requires IsToken(c)
    ensures MatchAllow(AllowLine(c)) == Some(c)
  {
    var p := AllowParts("", "allow", " ", " ", c, "", "");
    assert Compose(p) == AllowLine(c);
    MatchAllowComplete(p);
  }

  /** A comment line (after stripping) never matches. */
  lemma CommentLineNoMatch(line: string)
    requires PyStrip(line) != [] && PyStrip(line)[0] == '#'
    ensures MatchAllow(line) == None
  {
    var a := StrippedStart(line);
    HashNoLead(a);
  }

  lemma HashNoLead(a: string)
    requires a != [] && a[0] == '#'
    ensures AfterLead(a) == None
  {
    if |a| >= 5 {
      assert a[..5][0] == '#';
    }
  }

  /** The stripped text starts where the leading space ends. */
  lemma StrippedStart(line: string) returns (a: string)
    requires PyStrip(line) != []
    ensures a == TrimStart(line, IsPySpace)
    ensures |a| >= |PyStrip(line)| && a[0] == PyStrip(line)[0]
  {
    a := TrimStart(line, IsPySpace);
    assert PyStrip(line) == TrimEnd(a, IsPySpace);
  }

  // ---------------------------------------------------------------------
  // str.splitlines
  // ---------------------------------------------------------------------

  /** The line boundaries of Python's `str.splitlines`. */
  predicate IsLineBreak(c: char) {
    ('\n' <= c <= '\r') || ('\U{1C}' <= c <= '\U{1E}') || c == '\U{85}'
    || c == '\U{2028}' || c == '\U{2029}'
  }

  predicate NoBreak(s: string) {
    forall k :: 0 <= k < |s| ==> !IsLineBreak(s[k])
  }

  /** The first line break, or `|s|` when there is none. */
  function BreakAt(s: string): (i: nat)
    ensures i <= |s| && NoBreak(s[..i])
    ensures i < |s| ==> IsLineBreak(s[i])
  {
    if s == [] || IsLineBreak(s[0]) then 0
    else
      var i := BreakAt(s[1..]);
      assert s[..i + 1] == [s[0]] + s[1..][..i];
      i + 1
  }

  /** `s.splitlines()`: the lines without their terminators (`\r\n` counts as
      one); a final terminator does not start an empty line. */
  function SplitLines(s: string): (lines: seq<string>)
    ensures forall i :: 0 <= i < |lines| ==> NoBreak(lines[i])
    decreases |s|
  {
    var i := BreakAt(s);
    if s == [] then []
    else if i == |s| then [s]
    else
      var skip := if s[i] == '\r' && i + 1 < |s| && s[i + 1] == '\n' then 2 else 1;
      [s[..i]] + SplitLines(s[i + skip..])
  }

  lemma BreakAtLine(line: string, rest: string)
    requires NoBreak(line)
    ensures BreakAt(line + "\n" + rest) == |line|
    decreases |line|
  {
    if line != [] {
      assert (line + "\n" + rest)[1..] == line[1..] + "\n" + rest;
      BreakAtLine(line[1..], rest);
    }
  }

  lemma BreakAtNone(line: string)
    requires NoBreak(line)
    ensures BreakAt(line) == |line|
    decreases |line|
  {
    if line != [] {
      BreakAtNone(line[1..]);
    }
  }

  /** A line ended by `\n` splits off as the first line. */
  lemma SplitLinesStep(line: string, rest: string)
    requires NoBreak(line)
    ensures SplitLines(line + "\n" + rest) == [line] + SplitLines(rest)
  {
    var s := line + "\n" + rest;
    BreakAtLine(line, rest);
    assert s[|line|] == '\n';
    assert s[..|line|] == line;
    assert s[|line| + 1..] == rest;
  }

  /** Lines joined with newlines and terminated by one split back into the
      same lines. */
  lemma {:induction false} SplitLinesJoined(lines: seq<string>)
    requires lines != []
    requires forall i :: 0 <= i < |lines| ==> NoBreak(lines[i])
    ensures SplitLines(Join(lines, "\n") + "\n") == lines
    decreases |lines|
  {
    if |lines| == 1 {
      assert Join(lines, "\n") + "\n" == lines[0] + "\n" + "";
      SplitLinesStep(lines[0], "");
    } else {
      SplitLinesJoined(lines[1..]);
      SplitLinesJoinedCons(lines);
    }
  }

  /** The step of `SplitLinesJoined`: the first line splits off. */
  lemma SplitLinesJoinedCons(lines: seq<string>)
    requires |lines| >= 2 && NoBreak(lines[0])
    requires SplitLines(Join(lines[1..], "\n") + "\n") == lines[1..]
    ensures SplitLines(Join(lines, "\n") + "\n") == lines
  {
    var rest := Join(lines[1..], "\n") + "\n";
    JoinedCons(lines);
    SplitLinesStep(lines[0], rest);
    assert lines == [lines[0]] + lines[1..];
  }

  /** Joining then terminating peels off the first line. */
  lemma JoinedCons(lines: seq<string>)
    requires |lines| >= 2
    ensures Join(lines, "\n") + "\n" == lines[0] + "\n" + (Join(lines[1..], "\n") + "\n")
  {
    assert Join(lines, "\n") == lines[0] + "\n" + Join(lines[1..], "\n");
  }

  /** A line without a break is one line, or none when it is empty. */
  lemma SplitOneLine(line: string)
    requires NoBreak(line)
    ensures SplitLines(line) == if line == [] then [] else [line]
  {
    BreakAtNone(line);
  }

  /** What `SplitLinesJoinedOpen` states for `lines`. */
  predicate SplitsBackOpen(lines: seq<string>)
    requires lines != []
  {
    SplitLines(Join(lines, "\n")) ==
      if lines[|lines| - 1] == [] then lines[..|lines| - 1] else lines
  }

  lemma SplitsBackOpenStep(lines: seq<string>)
    requires |lines| >= 2 && NoBreak(lines[0]) && SplitsBackOpen(lines[1..])
    ensures SplitsBackOpen(lines)
  {
    assert Join(lines, "\n") == lines[0] + "\n" + Join(lines[1..], "\n");
    SplitLinesStep(lines[0], Join(lines[1..], "\n"));
    DropEmptyLastCons(lines);
  }

  /** Dropping a final empty line commutes with taking off the first line. */
  lemma DropEmptyLastCons(lines: seq<string>)
    requires |lines| >= 2
    ensures var tail := lines[1..];
      [lines[0]] + (if tail[|tail| - 1] == [] then tail[..|tail| - 1] else tail)
      == if lines[|lines| - 1] == [] then lines[..|lines| - 1] else lines
  {
    var tail := lines[1..];
    if tail[|tail| - 1] == [] {
      assert lines[..|lines| - 1] == [lines[0]] + tail[..|tail| - 1];
    } else {
      assert lines == [lines[0]] + tail;
    }
  }

  /** Lines joined with newlines, without a final one, split back into the
      same lines, except that a final empty line is lost. */
  lemma {:induction false} SplitLinesJoinedOpen(lines: seq<string>)
    requires lines != []
    requires forall i :: 0 <= i < |lines| ==> NoBreak(lines[i])
    ensures SplitsBackOpen(lines)
    decreases |lines|
  {
    if |lines| == 1 {
      SplitOneLine(lines[0]);
      assert lines == [lines[0]];
    } else {
      SplitLinesJoinedOpen(lines[1..]);
      SplitsBackOpenStep(lines);
    }
  }

  /** Every line break is whitespace, so a token never holds one. */
  lemma LineBreakIsSpace(c: char)
    requires IsLineBreak(c)
    ensures IsPySpace(c)
  {
  }

  // ---------------------------------------------------------------------
  // read_allowlist
  // ---------------------------------------------------------------------

  /** What one line contributes to `read_allowlist`: its captured entry,
      stripped and passed through `validate_cidr`, or nothing when the line
      does not match or the entry is rejected. */
  function LineEntry(line: string, normalize: string -> Option<string>): (r: seq<string>)
    ensures |r| <= 1
    ensures MatchAllow(line).None? ==> r == []
  {
    match MatchAllow(line)
    case None => []
    case Some(t) =>
      match normalize(PyStrip(t))
      case None => []
      case Some(n) => [n]
  }

  /** The concatenation of `f(line)` over the lines, in order. */
  function Collect(lines: seq<string>, f: string -> seq<string>): seq<string>
    decreases |lines|
  {
    if lines == [] then []
    else Collect(lines[..|lines| - 1], f) + f(lines[|lines| - 1])
  }

  /** The entries of the given lines, in file order. */
  function Entries(lines: seq<string>, normalize: string -> Option<string>): seq<string> {
    Collect(lines, line => LineEntry(line, normalize))
  }

  /** `read_allowlist()` for a file that is missing (`None`) or holds the text. */
  function ReadEntries(content: Option<string>, normalize: string -> Option<string>): (r: seq<string>)
    ensures content.None? ==> r == []
  {
    if content.None? then [] else Entries(SplitLines(content.value), normalize)
  }

  /** Collecting keeps order: a concatenation collects to the parts' results. */
  lemma {:induction false} CollectAppend(a: seq<string>, b: seq<string>, f: string -> seq<string>)
    ensures Collect(a + b, f) == Collect(a, f) + Collect(b, f)
    decreases |b|
  {
    if b != [] {
      var init := b[..|b| - 1];
      assert (a + b)[..|a + b| - 1] == a + init;
      assert (a + b)[|a + b| - 1] == b[|b| - 1];
      CollectAppend(a, init, f);
    } else {
      assert a + b == a;
    }
  }

  lemma {:induction false} CollectNone(lines: seq<string>, f: string -> seq<string>)
    requires forall i :: 0 <= i < |lines| ==> f(lines[i]) == []
    ensures Collect(lines, f) == []
    decreases |lines|
  {
    if lines != [] {
      CollectNone(lines[..|lines| - 1], f);
    }
  }

  lemma {:induction false} CollectSingles(lines: seq<string>, f: string -> seq<string>, cs: seq<string>)
    requires |lines| == |cs|
    requires forall i :: 0 <= i < |lines| ==> f(lines[i]) == [cs[i]]
    ensures Collect(lines, f) == cs
    decreases |lines|
  {
    if lines != [] {
      CollectSingles(lines[..|lines| - 1], f, cs[..|cs| - 1]);
      assert cs == cs[..|cs| - 1] + [cs[|cs| - 1]];
    }
  }

  lemma {:induction false} CollectMembers(lines: seq<string>, f: string -> seq<string>, x: string)
    requires x in Collect(lines, f)
    ensures exists i :: 0 <= i < |lines| && x in f(lines[i])
    decreases |lines|
  {
    var init := lines[..|lines| - 1];
    if x !in f(lines[|lines| - 1]) {
      CollectMembers(init, f, x);
      var i :| 0 <= i < |init| && x in f(init[i]);
      assert init[i] == lines[i];
    }
  }

  /** Entries keep file order: those of a concatenation are those of its parts. */
  lemma EntriesAppend(a: seq<string>, b: seq<string>, normalize: string -> Option<string>)
    ensures Entries(a + b, normalize) == Entries(a, normalize) + Entries(b, normalize)
  {
    CollectAppend(a, b, line => LineEntry(line, normalize));
  }

  /** One more line adds its own entry, if any, at the end. */
  lemma EntriesStep(lines: seq<string>, i: nat, normalize: string -> Option<string>)
    requires i < |lines|
    ensures Entries(lines[..i + 1], normalize) == Entries(lines[..i], normalize) + LineEntry(lines[i], normalize)
  {
    assert lines[..i + 1][..i] == lines[..i];
  }

  /** Lines that do not match contribute nothing. */
  lemma EntriesSkipUnmatched(lines: seq<string>, normalize: string -> Option<string>)
    requires forall i :: 0 <= i < |lines| ==> MatchAllow(lines[i]).None?
    ensures Entries(lines, normalize) == []
  {
    CollectNone(lines, line => LineEntry(line, normalize));
  }

  /** `validate_cidr`'s results are canonical: each is a single token (as
      `str(ip_network(...))` is) and validates to itself. */
  ghost predicate Canonical(normalize: string -> Option<string>) {
    forall s :: normalize(s).Some? ==>
      IsToken(normalize(s).value) && normalize(normalize(s).value) == Some(normalize(s).value)
  }

  /** Fixed points of `validate_cidr` that are tokens. */
  ghost predicate Settled(cs: seq<string>, normalize: string -> Option<string>) {
    forall c :: c in cs ==> IsToken(c) && normalize(c) == Some(c)
  }

  /** Everything `read_allowlist` returns is canonical. */
  lemma EntriesSettled(lines: seq<string>, normalize: string -> Option<string>)
    requires Canonical(normalize)
    ensures Settled(Entries(lines, normalize), normalize)
  {
    forall c | c in Entries(lines, normalize)
      ensures IsToken(c) && normalize(c) == Some(c)
    {
      CollectMembers(lines, line => LineEntry(line, normalize), c);
      var i :| 0 <= i < |lines| && c in LineEntry(lines[i], normalize);
      LineEntrySettled(lines[i], normalize, c);
    }
  }

  /** The entry of one line is canonical. */
  lemma LineEntrySettled(line: string, normalize: string -> Option<string>, c: string)
    requires Canonical(normalize)
    requires c in LineEntry(line, normalize)
    ensures IsToken(c) && normalize(c) == Some(c)
  {
    var t := MatchAllow(line).value;
    assert normalize(PyStrip(t)) == Some(c);
  }

  // ---------------------------------------------------------------------
  // read_header
  // ---------------------------------------------------------------------

  const HeaderTitle: string := "# Managed by Allowlist UI"
  const HeaderUsage: string := "# Each line: allow * <IP-or-CIDR>"

  /** The header `read_header` falls back to. */
  const DefaultHeader: string := HeaderTitle + "\n" + HeaderUsage

  /** A line that belongs to the header: a comment or blank after stripping. */
  predicate IsHeaderLine(line: string) {
    var t := PyStrip(line);
    (t != [] && t[0] == '#') || t == []
  }

  /** The longest prefix of `lines` whose lines all satisfy `keep`. */
  function TakeWhile(lines: seq<string>, keep: string -> bool): (h: seq<string>)
    ensures |h| <= |lines| && h == lines[..|h|]
    ensures forall i :: 0 <= i < |h| ==> keep(h[i])
    ensures |h| < |lines| ==> !keep(lines[|h|])
  {
    if lines == [] || !keep(lines[0]) then []
    else [lines[0]] + TakeWhile(lines[1..], keep)
  }

  /** A prefix that `keep` accepts and that ends at the end or at a line
      `keep` rejects is the one `TakeWhile` returns. */
  lemma {:induction false} TakeWhileStops(lines: seq<string>, keep: string -> bool, i: nat)
    requires i <= |lines|
    requires forall k :: 0 <= k < i ==> keep(lines[k])
    requires i == |lines| || !keep(lines[i])
    ensures TakeWhile(lines, keep) == lines[..i]
    decreases i
  {
    if i > 0 {
      TakeWhileStops(lines[1..], keep, i - 1);
      assert lines[..i] == [lines[0]] + lines[1..][..i - 1];
    }
  }

  /** The longest prefix of header lines. */
  function LeadingHeader(lines: seq<string>): seq<string> {
    TakeWhile(lines, IsHeaderLine)
  }

  /** `read_header()`: the leading comment and blank lines joined by
      newlines, or the default header for a missing file or when there are
      none. */
  function HeaderText(content: Option<string>): (h: string)
    ensures content.None? ==> h == DefaultHeader
  {
    if content.None? then DefaultHeader
    else
      var h := LeadingHeader(SplitLines(content.value));
      if h == [] then DefaultHeader else Join(h, "\n")
  }

  /** A header all of whose lines are comments or blank. */
  ghost predicate CommentHeader(header: string) {
    forall l :: l in SplitLines(header) ==> IsHeaderLine(l)
  }

  lemma CommentLine(line: string)
    requires line != [] && line[0] == '#' && !IsPySpace(line[|line| - 1])
    ensures IsHeaderLine(line)
  {
    TrimUntouched(line, IsPySpace);
  }

  lemma HeaderTitleNoBreak()
    ensures NoBreak(HeaderTitle)
  {
  }

  lemma HeaderUsageNoBreak()
    ensures NoBreak(HeaderUsage)
  {
  }

  lemma HeaderTitleIsComment()
    ensures IsHeaderLine(HeaderTitle)
  {
    CommentLine(HeaderTitle);
  }

  lemma HeaderUsageIsComment()
    ensures IsHeaderLine(HeaderUsage)
  {
    CommentLine(HeaderUsage);
  }

  /** Two lines joined by a newline split back into the two lines. */
  lemma SplitTwoLines(a: string, b: string)
    requires NoBreak(a) && NoBreak(b) && b != []
    ensures SplitLines(a + "\n" + b) == [a, b]
  {
    assert Join([a, b], "\n") == a + "\n" + b;
    SplitLinesJoinedOpen([a, b]);
  }

  /** The default header is two comment lines. */
  lemma DefaultHeaderLines()
    ensures SplitLines(DefaultHeader) == [HeaderTitle, HeaderUsage]
    ensures IsHeaderLine(HeaderTitle) && IsHeaderLine(HeaderUsage)
  {
    HeaderTitleNoBreak();
    HeaderUsageNoBreak();
    SplitTwoLines(HeaderTitle, HeaderUsage);
    HeaderTitleIsComment();
    HeaderUsageIsComment();
  }

  /** What `read_header` returns consists of header lines only. */
  lemma HeaderTextIsComment(content: Option<string>)
    ensures CommentHeader(HeaderText(content))
  {
    if content.None? || LeadingHeader(SplitLines(content.value)) == [] {
      DefaultHeaderIsComment();
    } else {
      var lines := SplitLines(content.value);
      var h := LeadingHeader(lines);
      forall i | 0 <= i < |h|
        ensures NoBreak(h[i]) && IsHeaderLine(h[i])
      {
        assert h[i] == lines[i];
      }
      JoinedHeaderIsComment(h);
    }
  }

  lemma DefaultHeaderIsComment()
    ensures CommentHeader(DefaultHeader)
  {
    DefaultHeaderLines();
  }

  /** Header lines joined by newlines split back into header lines. */
  lemma JoinedHeaderIsComment(h: seq<string>)
    requires h != []
    requires forall i :: 0 <= i < |h| ==> NoBreak(h[i]) && IsHeaderLine(h[i])
    ensures CommentHeader(Join(h, "\n"))
  {
    SplitLinesJoinedOpen(h);
    forall l | l in SplitLines(Join(h, "\n"))
      ensures IsHeaderLine(l)
    {
      assert l in h;
    }
  }

  // ---------------------------------------------------------------------
  // write_allowlist
  // ---------------------------------------------------------------------

  /** The lines `keep` accepts, in order. */
  function Filter(lines: seq<string>, keep: string -> bool): (r: seq<string>)
    ensures forall l :: l in r ==> l in lines && keep(l)
    ensures forall l :: l in lines && keep(l) ==> l in r
    decreases |lines|
  {
    if lines == [] then []
    else
      var last := lines[|lines| - 1];
      var init := lines[..|lines| - 1];
      assert lines == init + [last];
      Filter(init, keep) + (if keep(last) then [last] else [])
  }

  lemma FilterStep(lines: seq<string>, keep: string -> bool, i: nat)
    requires i < |lines|
    ensures Filter(lines[..i + 1], keep)
            == Filter(lines[..i], keep) + (if keep(lines[i]) then [lines[i]] else [])
  {
    assert lines[..i + 1][..i] == lines[..i];
  }

  predicate NotBlank(line: string) {
    PyStrip(line) != []
  }

  /** The lines that are not blank after stripping, in order. */
  function NonBlank(lines: seq<string>): (r: seq<string>)
    ensures forall l :: l in r ==> l in lines && PyStrip(l) != []
    ensures forall l :: l in lines && PyStrip(l) != [] ==> l in r
  {
    Filter(lines, NotBlank)
  }

  /** The header lines `write_allowlist` keeps: none for an empty header. */
  function KeptHeader(header: string): seq<string> {
    if header == "" then [] else NonBlank(SplitLines(header))
  }

  function AllowLines(cs: seq<string>): (r: seq<string>)
    ensures |r| == |cs| && forall i :: 0 <= i < |cs| ==> r[i] == AllowLine(cs[i])
  {
    seq(|cs|, i requires 0 <= i < |cs| => AllowLine(cs[i]))
  }

  /** The text `write_allowlist(cidrs, header)` writes. */
  function AllowText(cidrs: seq<string>, header: string): (text: string)
    ensures |text| > 0 && text[|text| - 1] == '\n'
  {
    Join(KeptHeader(header) + AllowLines(SortedSet(cidrs)), "\n") + "\n"
  }

  lemma AllowLineNoBreak(c: string)
    requires IsToken(c)
    ensures NoBreak(AllowLine(c))
  {
    forall k | 0 <= k < |AllowLine(c)|
      ensures !IsLineBreak(AllowLine(c)[k])
    {
      if k >= 8 {
        assert AllowLine(c)[k] == c[k - 8];
        if IsLineBreak(c[k - 8]) {
          LineBreakIsSpace(c[k - 8]);
        }
      }
    }
  }

  /** Written entries read back as themselves, in order. */
  lemma EntriesOfAllowLines(cs: seq<string>, normalize: string -> Option<string>)
    requires Settled(cs, normalize)
    ensures Entries(AllowLines(cs), normalize) == cs
  {
    var lines := AllowLines(cs);
    forall i | 0 <= i < |lines|
      ensures LineEntry(lines[i], normalize) == [cs[i]]
    {
      assert cs[i] in cs;
      LineEntryOfAllowLine(cs[i], normalize);
    }
    CollectSingles(lines, line => LineEntry(line, normalize), cs);
  }

  lemma LineEntryOfAllowLine(c: string, normalize: string -> Option<string>)
    requires IsToken(c) && normalize(c) == Some(c)
    ensures LineEntry(AllowLine(c), normalize) == [c]
  {
    AllowLineMatches(c);
    TrimUntouched(c, IsPySpace);
  }

  lemma SortedSetSettled(cidrs: seq<string>, normalize: string -> Option<string>)
    requires Settled(cidrs, normalize)
    ensures Settled(SortedSet(cidrs), normalize)
  {
    forall c | c in SortedSet(cidrs)
      ensures IsToken(c) && normalize(c) == Some(c)
    {
      assert c in Elems(SortedSet(cidrs));
      assert c in Elems(cidrs);
    }
  }

  /** The header lines kept by the writer hold no entries and no breaks. */
  lemma KeptHeaderSilent(header: string, normalize: string -> Option<string>)
    requires CommentHeader(header)
    ensures Entries(KeptHeader(header), normalize) == []
    ensures forall i :: 0 <= i < |KeptHeader(header)| ==> NoBreak(KeptHeader(header)[i])
  {
    var kept := KeptHeader(header);
    forall i | 0 <= i < |kept|
      ensures MatchAllow(kept[i]).None? && NoBreak(kept[i])
    {
      assert kept[i] in kept;
      CommentLineNoMatch(kept[i]);
    }
    EntriesSkipUnmatched(kept, normalize);
  }

  lemma AllowLinesNoBreak(cs: seq<string>, normalize: string -> Option<string>)
    requires Settled(cs, normalize)
    ensures forall i :: 0 <= i < |AllowLines(cs)| ==> NoBreak(AllowLines(cs)[i])
  {
    forall i | 0 <= i < |cs|
      ensures NoBreak(AllowLines(cs)[i])
    {
      assert cs[i] in cs;
      AllowLineNoBreak(cs[i]);
    }
  }

  /** A file holding only a newline has no entries. */
  lemma BlankFileEmpty(normalize: string -> Option<string>)
    ensures ReadEntries(Some("\n"), normalize) == []
  {
    assert SplitLines("\n") == [""];
    CollectNone([""], line => LineEntry(line, normalize));
  }

  /** Lines written by joining: what reads back is the entries of the lines. */
  lemma ReadJoined(lines: seq<string>, normalize: string -> Option<string>)
    requires forall i :: 0 <= i < |lines| ==> NoBreak(lines[i])
    ensures ReadEntries(Some(Join(lines, "\n") + "\n"), normalize) == Entries(lines, normalize)
  {
    if lines == [] {
      assert Join(lines, "\n") + "\n" == "\n";
      BlankFileEmpty(normalize);
    } else {
      SplitLinesJoined(lines);
    }
  }

  /** Reading the file back after `write_allowlist` gives the sorted,
      de-duplicated entries, provided they are canonical and the header has
      only comment and blank lines. */
  lemma ReadAfterWrite(cidrs: seq<string>, header: string, normalize: string -> Option<string>)
    requires Settled(cidrs, normalize)
    requires CommentHeader(header)
    ensures ReadEntries(Some(AllowText(cidrs, header)), normalize) == SortedSet(cidrs)
  {
    var sorted := SortedSet(cidrs);
    var kept := KeptHeader(header);
    var written := AllowLines(sorted);
    SortedSetSettled(cidrs, normalize);
    EntriesOfAllowLines(sorted, normalize);
    KeptHeaderSilent(header, normalize);
    AllowLinesNoBreak(sorted, normalize);
    ConcatNoBreak(kept, written);
    EntriesAppend(kept, written, normalize);
    ReadJoined(kept + written, normalize);
  }

  lemma ConcatNoBreak(a: seq<string>, b: seq<string>)
    requires forall i :: 0 <= i < |a| ==> NoBreak(a[i])
    requires forall i :: 0 <= i < |b| ==> NoBreak(b[i])
    ensures forall i :: 0 <= i < |a + b| ==> NoBreak((a + b)[i])
  {
    forall i | 0 <= i < |a + b|
      ensures NoBreak((a + b)[i])
    {
      if i >= |a| {
        assert (a + b)[i] == b[i - |a|];
      }
    }
  }

  // ---------------------------------------------------------------------
  // add_ip and delete_ip
  // ---------------------------------------------------------------------

  /** An `HTTPException`: status code and detail. */
  datatype HttpError = HttpError(status: nat, detail: string)

  /** An endpoint's reply (the added or deleted entry) and the file after it. */
  datatype Served = Served(reply: Result<string, HttpError>, content: Option<string>)

  /** `set.remove`: the list without `x`. */
  function Remove(items: seq<string>, x: string): (r: seq<string>)
    ensures Elems(r) == Elems(items) - {x}
    decreases |items|
  {
    if items == [] then []
    else
      var rest := Remove(items[1..], x);
      assert items == [items[0]] + items[1..];
      ElemsCons(items[0], items[1..]);
      if items[0] == x then rest
      else
        ElemsCons(items[0], rest);
        [items[0]] + rest
  }

  /** `add_ip`: a missing or empty `cidr` is a 400, one `validate_cidr`
      rejects is a 400 naming it; otherwise its normal form joins the set of
      entries read from the file, and the file is rewritten under the header
      read from it. */
  function AddIpSpec(content: Option<string>, cidr: Option<string>, normalize: string -> Option<string>): (r: Served)
    ensures r.reply.Failure? ==> r.content == content && r.reply.error.status == 400
    ensures r.reply.Success? ==> cidr.Some? && normalize(cidr.value) == Some(r.reply.value) && r.content.Some?
  {
    if cidr.None? || cidr.value == "" then
      Served(Failure(HttpError(400, "Missing 'cidr'")), content)
    else
      match normalize(cidr.value)
      case None => Served(Failure(HttpError(400, "Invalid IP/CIDR: " + cidr.value)), content)
      case Some(n) =>
        var items := ReadEntries(content, normalize) + [n];
        Served(Success(n), Some(AllowText(SortedSet(items), HeaderText(content))))
  }

  /** `delete_ip`: the normal form of `cidr` is removed if present, else the
      raw string if present, else the reply is a 404; the file is rewritten
      without it. */
  function DeleteIpSpec(content: Option<string>, cidr: string, normalize: string -> Option<string>): (r: Served)
    ensures r.reply.Failure? ==> r.content == content
    ensures r.reply.Success? ==> r.reply.value in ReadEntries(content, normalize) && r.content.Some?
  {
    match normalize(cidr)
    case None => Served(Failure(HttpError(400, "Invalid IP/CIDR: " + cidr)), content)
    case Some(n) =>
      var items := ReadEntries(content, normalize);
      if n in items then
        Served(Success(n), Some(AllowText(SortedSet(Remove(items, n)), HeaderText(content))))
      else if cidr in items then
        Served(Success(cidr), Some(AllowText(SortedSet(Remove(items, cidr)), HeaderText(content))))
      else
        Served(Failure(HttpError(404, "Not Found")), content)
  }

  lemma ReadEntriesSettled(content: Option<string>, normalize: string -> Option<string>)
    requires Canonical(normalize)
    ensures Settled(ReadEntries(content, normalize), normalize)
  {
    if content.Some? {
      EntriesSettled(SplitLines(content.value), normalize);
    }
  }

  /** What `add_ip` promises: the errors leave the file alone; on success the
      entries read back are the old ones plus the new entry, sorted and
      de-duplicated, so an entry already present changes nothing in the set. */
  lemma AddIpOutcome(content: Option<string>, cidr: Option<string>, normalize: string -> Option<string>)
    requires Canonical(normalize)
    ensures var r := AddIpSpec(content, cidr, normalize);
      && (cidr.None? || cidr.value == "" ==>
            r == Served(Failure(HttpError(400, "Missing 'cidr'")), content))
      && (cidr.Some? && cidr.value != "" && normalize(cidr.value).None? ==>
            r == Served(Failure(HttpError(400, "Invalid IP/CIDR: " + cidr.value)), content))
      && (r.reply.Success? <==> cidr.Some? && cidr.value != "" && normalize(cidr.value).Some?)
      && (r.reply.Success? ==>
            var old_ := ReadEntries(content, normalize);
            var now := ReadEntries(r.content, normalize);
            && r.reply.value == normalize(cidr.value).value
            && now == SortedSet(old_ + [r.reply.value])
            && Elems(now) == Elems(old_) + {r.reply.value}
            && (r.reply.value in old_ ==> now == SortedSet(old_)))
  {
    var r := AddIpSpec(content, cidr, normalize);
    if r.reply.Success? {
      AddedReadsBack(content, r.reply.value, normalize);
    }
  }

  lemma AddedReadsBack(content: Option<string>, n: string, normalize: string -> Option<string>)
    requires Canonical(normalize) && IsToken(n) && normalize(n) == Some(n)
    ensures var old_ := ReadEntries(content, normalize);
      var now := ReadEntries(Some(AllowText(SortedSet(old_ + [n]), HeaderText(content))), normalize);
      && now == SortedSet(old_ + [n])
      && Elems(now) == Elems(old_) + {n}
      && (n in old_ ==> now == SortedSet(old_))
  {
    var old_ := ReadEntries(content, normalize);
    var items := old_ + [n];
    ReadEntriesSettled(content, normalize);
    SettledSnoc(old_, n, normalize);
    RewriteReadsBack(content, items, normalize);
    ElemsSnoc(old_, n);
    if n in old_ {
      assert n in Elems(old_);
      SortedSetBySet(items, old_);
    }
  }

  lemma SettledSnoc(cs: seq<string>, n: string, normalize: string -> Option<string>)
    requires Settled(cs, normalize) && IsToken(n) && normalize(n) == Some(n)
    ensures Settled(cs + [n], normalize)
  {
  }

  /** Rewriting the file with `sorted(items)` under its own header reads
      back as `sorted(set(items))`. */
  lemma RewriteReadsBack(content: Option<string>, items: seq<string>, normalize: string -> Option<string>)
    requires Settled(items, normalize)
    ensures ReadEntries(Some(AllowText(SortedSet(items), HeaderText(content))), normalize) == SortedSet(items)
  {
    SortedSetSettled(items, normalize);
    HeaderTextIsComment(content);
    ReadAfterWrite(SortedSet(items), HeaderText(content), normalize);
    SortedSetBySet(items, items);
  }

  /** What `delete_ip` promises: a 400 for a rejected string, a 404 when
      neither its normal form nor the raw string is an entry, and otherwise
      exactly the removed entry is gone from what reads back. */
  lemma DeleteIpOutcome(content: Option<string>, cidr: string, normalize: string -> Option<string>)
    requires Canonical(normalize)
    ensures var r := DeleteIpSpec(content, cidr, normalize);
      var old_ := ReadEntries(content, normalize);
      && (normalize(cidr).None? ==>
            r == Served(Failure(HttpError(400, "Invalid IP/CIDR: " + cidr)), content))
      && (normalize(cidr).Some? && normalize(cidr).value !in old_ && cidr !in old_ ==>
            r == Served(Failure(HttpError(404, "Not Found")), content))
      && (r.reply.Success? ==>
            var now := ReadEntries(r.content, normalize);
            && r.reply.value in old_
            && (r.reply.value == normalize(cidr).value || r.reply.value == cidr)
            && now == SortedSet(Remove(old_, r.reply.value))
            && Elems(now) == Elems(old_) - {r.reply.value})
  {
    var r := DeleteIpSpec(content, cidr, normalize);
    if r.reply.Success? {
      var x := r.reply.value;
      var old_ := ReadEntries(content, normalize);
      ReadEntriesSettled(content, normalize);
      var kept := Remove(old_, x);
      assert Settled(SortedSet(kept), normalize) by {
        forall c | c in SortedSet(kept)
          ensures IsToken(c) && normalize(c) == Some(c)
        {
          assert c in Elems(SortedSet(kept));
          assert c in Elems(kept);
          assert c in old_;
        }
      }
      HeaderTextIsComment(content);
      ReadAfterWrite(SortedSet(kept), HeaderText(content), normalize);
      SortedSetBySet(kept, kept);
    }
  }

  /** With canonical entries the raw-string fallback of `delete_ip` never
      fires: a raw string that is an entry is its own normal form. */
  lemma DeleteIpFallbackUnused(content: Option<string>, cidr: string, normalize: string -> Option<string>)
    requires Canonical(normalize)
    ensures var r := DeleteIpSpec(content, cidr, normalize);
      r.reply.Success? ==> r.reply == Success(normalize(cidr).value)
  {
    var r := DeleteIpSpec(content, cidr, normalize);
    ReadEntriesSettled(content, normalize);
    var old_ := ReadEntries(content, normalize);
    if cidr in old_ {
      assert normalize(cidr) == Some(cidr);
    }
  }

  /** The loop of `read_header`: collects lines until the first one `keep`
      rejects. */
  method CollectWhile(lines: seq<string>, keep: string -> bool) returns (h: seq<string>)
    ensures h == TakeWhile(lines, keep)
  {
    h := [];
    var i := 0;
    while i < |lines|
      invariant 0 <= i <= |lines|
      invariant h == lines[..i]
      invariant forall k :: 0 <= k < i ==> keep(lines[k])
    {
      if keep(lines[i]) {
        h := h + [lines[i]];
      } else {
        break;
      }
      i := i + 1;
    }
    TakeWhileStops(lines, keep, i);
  }

  /** The header loop of `write_allowlist`, which keeps the lines not
      blank after stripping (`keep` is that test). */
  method CollectKept(hlines: seq<string>, keep: string -> bool) returns (lines: seq<string>)
    ensures lines == Filter(hlines, keep)
  {
    lines := [];
    var i := 0;
    while i < |hlines|
      invariant 0 <= i <= |hlines|
      invariant lines == Filter(hlines[..i], keep)
    {
      FilterStep(hlines, keep, i);
      if keep(hlines[i]) {
        lines := lines + [hlines[i]];
      }
      i := i + 1;
    }
    assert hlines[..|hlines|] == hlines;
  }

  /** The allowlist file at `ALLOW_FILE`: `None` while it does not exist. */
  class AllowFile {
    var content: Option<string>

    constructor(c: Option<string>)
      ensures content == c
    {
      content := c;
    }

    /** `read_allowlist`: the loop over the file's lines. */
    method ReadAllowlist(normalize: string -> Option<string>) returns (entries: seq<string>)
      ensures entries == ReadEntries(content, normalize)
    {
      if content.None? {
        return [];
      }
      var lines := SplitLines(content.value);
      entries := [];
      var i := 0;
      while i < |lines|
        invariant 0 <= i <= |lines|
        invariant entries == Entries(lines[..i], normalize)
      {
        var line := lines[i];
        EntriesStep(lines, i, normalize);
        i := i + 1;
        var m := MatchAllow(line);
        if m.None? {
          continue;
        }
        var raw := PyStrip(m.value);
        var n := normalize(raw);
        if n.None? {
          continue;
        }
        entries := entries + [n.value];
      }
      assert lines[..|lines|] == lines;
    }

    /** `read_header`: the leading header lines of the file joined by
        newlines, or the default header. */
    method ReadHeader() returns (header: string)
      ensures header == HeaderText(content)
    {
      if content.None? {
        return DefaultHeader;
      }
      var headerLines := CollectWhile(SplitLines(content.value), IsHeaderLine);
      header := if headerLines != [] then Join(headerLines, "\n") else DefaultHeader;
    }

    /** `write_allowlist`: the kept header lines, then one line per entry. */
    method WriteAllowlist(cidrs: seq<string>, header: string)
      modifies this
      ensures content == Some(AllowText(cidrs, header))
    {
      var uniq := SortedSet(cidrs);
      var lines: seq<string> := [];
      if header != "" {
        lines := CollectKept(SplitLines(header), NotBlank);
      }
      lines := lines + AllowLines(uniq);
      content := Some(Join(lines, "\n") + "\n");
    }

    /** `add_ip`. */
    method AddIp(cidr: Option<string>, normalize: string -> Option<string>) returns (reply: Result<string, HttpError>)
      modifies this
      ensures Served(reply, content) == AddIpSpec(old(content), cidr, normalize)
    {
      if cidr.None? || cidr.value == "" {
        return Failure(HttpError(400, "Missing 'cidr'"));
      }
      var normalized := normalize(cidr.value);
      if normalized.None? {
        return Failure(HttpError(400, "Invalid IP/CIDR: " + cidr.value));
      }
      var items := ReadAllowlist(normalize);
      items := items + [normalized.value];
      var header := ReadHeader();
      WriteAllowlist(SortedSet(items), header);
      reply := Success(normalized.value);
    }

    /** `delete_ip`. */
    method DeleteIp(cidr: string, normalize: string -> Option<string>) returns (reply: Result<string, HttpError>)
      modifies this
      ensures Served(reply, content) == DeleteIpSpec(old(content), cidr, normalize)
    {
      var normalized := normalize(cidr);
      if normalized.None? {
        return Failure(HttpError(400, "Invalid IP/CIDR: " + cidr));
      }
      var items := ReadAllowlist(normalize);
      var removed: string;
      if normalized.value in items {
        items := Remove(items, normalized.value);
        removed := normalized.value;
      } else if cidr in items {
        items := Remove(items, cidr);
        removed := cidr;
      } else {
        return Failure(HttpError(404, "Not Found"));
      }
      var header := ReadHeader();
      WriteAllowlist(SortedSet(items), header);
      reply := Success(removed);
    }
  }
}
