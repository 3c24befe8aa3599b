/** Wrapping source text as a fenced code block (web-client/overlay/client/src/utils/artifacts.ts). */
module Fences {
  import opened Wrappers

  // ---- Runs at the start of a line.

  function Leading(s: string, c: char): (n: nat)
    ensures n <= |s| && (forall i | 0 <= i < n :: s[i] == c) && (n < |s| ==> s[n] != c)
  {
    if s == [] || s[0] != c then 0 else 1 + Leading(s[1..], c)
  }

  /** The backtick run after at most three spaces, or 0. */
  function LeadRun(s: string): (n: nat)
    ensures n <= |s|
  {
    var k := Leading(s, ' ');
    if k > 3 then 0 else Leading(s[k..], '`')
  }

  // ---- The source's scan.

  /** Where a multiline `^` matches: line terminators of ECMAScript. */
  predicate JsTerminator(c: char) { c == '\n' || c == '\r' || c as int == 0x2028 || c as int == 0x2029 }

  predicate LineStart(s: string, p: nat) { p <= |s| && (p == 0 || JsTerminator(s[p - 1])) }

  datatype Match = Match(start: nat, end: nat, run: nat)

  predicate MatchesAt(s: string, p: nat) { LineStart(s, p) && LeadRun(s[p..]) > 0 }

  /** `re.exec` with lastIndex == from: the first match at or after it. */
  function Exec(s: string, from: nat): (m: Option<Match>)
    requires from <= |s|
    decreases |s| - from
  {
    if MatchesAt(s, from) then
      var run := LeadRun(s[from..]);
      Some(Match(from, from + Leading(s[from..], ' ') + run, run))
    else if from == |s| then None
    else Exec(s, from + 1)
  }

  /** No line of s starts with a longer run, and some line starts with this one (unless it is 0). */
  ghost predicate IsLongestRun(s: string, max: nat) { RunsAtMost(s, max) && (max > 0 ==> HasRun(s, max)) }

  ghost predicate RunsAtMost(s: string, max: nat) {
    forall p: nat | LineStart(s, p) :: LeadRun(s[p..]) <= max
  }

  ghost predicate HasRun(s: string, run: nat) { exists p: nat :: LineStart(s, p) && LeadRun(s[p..]) == run }

  /** `max` is the longest run of the lines that start before `upTo`. */
  ghost predicate LongestBefore(s: string, upTo: nat, max: nat) {
    && (forall p: nat | p < upTo && LineStart(s, p) :: LeadRun(s[p..]) <= max)
    && (max > 0 ==> HasRun(s, max))
  }

  /** The match moves the scan forward, and taking its run into account covers the lines up to its end. */
  ghost predicate Advances(s: string, from: nat, m: Match, max: nat) {
    from < m.end <= |s| && LongestBefore(s, m.end, if m.run > max then m.run else max)
  }

  /** A match consumes no line terminator, so no line starts inside it or right after it. */
  lemma NoStartInside(s: string, p: nat, q: nat)
    requires MatchesAt(s, p) && p < q <= p + Leading(s[p..], ' ') + LeadRun(s[p..])
    ensures !LineStart(s, q)
  {
    var t := s[p..];
    var k := Leading(t, ' ');
    assert t[q - 1 - p] == s[q - 1];
    if q - 1 - p >= k {
      assert t[q - 1 - p] == t[k..][q - 1 - p - k];
    }
  }

  lemma {:induction false} ExecFinds(s: string, from: nat, max: nat)
    requires from <= |s| && LongestBefore(s, from, max)
    ensures Exec(s, from).None? ==> IsLongestRun(s, max)
    ensures Exec(s, from).Some? ==> Advances(s, from, Exec(s, from).value, max)
    decreases |s| - from
  {
    hide LeadRun;
    if MatchesAt(s, from) {
      var run := LeadRun(s[from..]);
      var end := from + Leading(s[from..], ' ') + run;
      MatchFits(s[from..]);
      forall q: nat | from < q < end ensures !LineStart(s, q) { NoStartInside(s, from, q); }
      assert run > max ==> HasRun(s, run);
    } else if from < |s| {
      ExecFinds(s, from + 1, max);
    }
  }

  lemma MatchFits(t: string)
    requires LeadRun(t) > 0
    ensures Leading(t, ' ') + LeadRun(t) <= |t|
  {
  }

  method LongestLeadingBacktickRun(source: string) returns (max: nat)
    ensures IsLongestRun(source, max)
  {
    hide LeadRun, Exec, LongestBefore, IsLongestRun;
    max := 0;
    var lastIndex := 0;
    assert LongestBefore(source, 0, 0) by { NothingBefore(source); }
    ExecFinds(source, lastIndex, max);
    var m := Exec(source, lastIndex);
    while m.Some?
      invariant lastIndex <= |source| && m == Exec(source, lastIndex)
      invariant m.None? ==> IsLongestRun(source, max)
      invariant m.Some? ==> Advances(source, lastIndex, m.value, max)
      decreases |source| - lastIndex
    {
      if m.value.run > max {
        max := m.value.run;
      }
      lastIndex := m.value.end;
      ExecFinds(source, lastIndex, max);
      m := Exec(source, lastIndex);
    }
  }

  lemma NothingBefore(s: string)
    ensures LongestBefore(s, 0, 0)
  {
  }

  function Repeat(c: char, n: nat): (s: string)
    ensures |s| == n && forall i | 0 <= i < n :: s[i] == c
  {
    seq(n, _ => c)
  }

  /** `source` without one trailing line feed. */
  function Body(source: string): string {
    if source != "" && source[|source| - 1] == '\n' then source[..|source| - 1] else source
  }

  /** Longer than the longest run, and at least 3. */
  function FenceLength(longest: nat): nat { if longest + 1 > 3 then longest + 1 else 3 }

  function Wrapped(source: string, lang: string, n: nat): string {
    Repeat('`', n) + lang + "\n" + Body(source) + "\n" + Repeat('`', n)
  }

  // ---- A reader following section 4.5 of CommonMark 0.31.

  predicate Ending(c: char) { c == '\n' || c == '\r' }

  /** The length of the line ending at the start of s: LF, CR LF, or CR. */
  function EndingLength(s: string): (n: nat)
    requires s != "" && Ending(s[0])
    ensures 1 <= n <= |s| && (forall i | 0 <= i < n :: Ending(s[i]))
  {
    if s[0] == '\r' && |s| > 1 && s[1] == '\n' then 2 else 1
  }

  function LineLength(s: string): (n: nat)
    ensures n <= |s| && (forall i | 0 <= i < n :: !Ending(s[i])) && (n < |s| ==> Ending(s[n]))
  {
    if s == "" || Ending(s[0]) then 0 else 1 + LineLength(s[1..])
  }

  /** Where the second line starts, or the end of the text. */
  function NextLine(s: string): (q: nat)
    requires s != ""
    ensures 0 < q <= |s| && LineLength(s) <= q
  {
    var n := LineLength(s);
    if n == |s| then n else n + EndingLength(s[n..])
  }

  /** The lines of a text: each is closed by a line ending or by the end of the text. */
  function Lines(s: string): seq<string> {
    if s == "" then [] else [s[..LineLength(s)]] + Lines(s[NextLine(s)..])
  }

  predicate SpaceOrTab(c: char) { c == ' ' || c == '\t' }

  predicate OnlySpacesOrTabs(s: string) { forall c | c in s :: SpaceOrTab(c) }

  /** A closing fence for an opening fence of n backticks. */
  predicate Closes(line: string, n: nat) {
    var k := Leading(line, ' ');
    var run := Leading(line[k..], '`');
    k <= 3 && run >= n && OnlySpacesOrTabs(line[k + run..])
  }

  datatype Block = Block(info: string, content: seq<string>, closed: bool, rest: seq<string>)

  function Unindent(line: string, k: nat): string {
    var have := Leading(line, ' ');
    line[if have < k then have else k..]
  }

  /** The lines up to the closing fence. */
  function ReadContent(lines: seq<string>, info: string, indent: nat, n: nat): Block {
    if lines == [] then Block(info, [], false, [])
    else if Closes(lines[0], n) then Block(info, [], true, lines[1..])
    else
      var b := ReadContent(lines[1..], info, indent, n);
      b.(content := [Unindent(lines[0], indent)] + b.content)
  }

  /** Without spaces and tabs at either end. */
  function Trim(s: string): (r: string)
    ensures r == "" || (!SpaceOrTab(r[0]) && !SpaceOrTab(r[|r| - 1]))
    decreases |s|
  {
    if s == "" then ""
    else if SpaceOrTab(s[0]) then Trim(s[1..])
    else if SpaceOrTab(s[|s| - 1]) then Trim(s[..|s| - 1])
    else s
  }

  /** A backtick-fenced code block at the start of the text. */
  function ReadFenced(doc: string): Option<Block> {
    var lines := Lines(doc);
    if lines == [] then None
    else
      var k := Leading(lines[0], ' ');
      var n := Leading(lines[0][k..], '`');
      var info := lines[0][k + n..];
      if k > 3 || n < 3 || '`' in info then None
      else Some(ReadContent(lines[1..], Trim(info), k, n))
  }

  // ---- Lines.

  lemma LineLengthIs(s: string, n: nat)
    requires n <= |s| && (forall i | 0 <= i < n :: !Ending(s[i])) && (n < |s| ==> Ending(s[n]))
    ensures LineLength(s) == n
  {
  }

  /** Text after a line feed starts new lines. */
  lemma {:induction false} LinesSplit(b: string, t: string)
    ensures Lines(b + "\n" + t) == Lines(b + "\n") + Lines(t)
  {
    hide NextLine, LineLength;
    var s, u := b + "\n", b + "\n" + t;
    var n, q := LineLength(s), NextLine(s);
    SameNextLine(b, t);
    assert u[..n] == s[..n];
    if q == |s| {
      assert s[q..] == "" && u[q..] == t;
    } else {
      assert s[q..] == b[q..] + "\n" && u[q..] == b[q..] + "\n" + t;
      LinesSplit(b[q..], t);
    }
  }

  lemma SameNextLine(b: string, t: string)
    ensures var s := b + "\n";
            && LineLength(s + t) == LineLength(s) && NextLine(s + t) == NextLine(s)
            && (NextLine(s) == |s| || NextLine(s) <= |b|)
  {
    var s := b + "\n";
    var n := LineLength(s);
    assert s[|b|] == '\n' && n <= |b|;
    LineLengthIs(s + t, n);
    assert (s + t)[n] == s[n];
    assert n + 1 < |s| ==> (s + t)[n + 1] == s[n + 1];
    assert n + 1 == |s| ==> s[n] == '\n';
  }

  /** One line without line endings, closed by a line feed. */
  lemma FirstLine(x: string, t: string)
    requires forall c | c in x :: !Ending(c)
    ensures Lines(x + "\n" + t) == [x] + Lines(t)
  {
    var s := x + "\n";
    LineLengthIs(s, |x|);
    assert s[|x|..] == "\n" && s[..|x|] == x;
    assert Lines(s) == [x] by { assert s[NextLine(s)..] == ""; }
    LinesSplit(x, t);
  }

  /** Closing the last line of a non-empty text with a line feed changes no line, unless one is closed already. */
  lemma {:induction false} CloseLast(s: string)
    requires s != "" && s[|s| - 1] != '\n'
    ensures Lines(s + "\n") == Lines(s)
  {
    var t := s + "\n";
    var n := LineLength(s);
    LineLengthIs(t, n);
    assert t[..n] == s[..n];
    if n == |s| {
      assert t[n..] == "\n" && t[NextLine(t)..] == "" && s[NextLine(s)..] == "";
    } else if n + 1 == |s| {
      assert t[n..] == "\r\n" && t[NextLine(t)..] == "" && s[NextLine(s)..] == "";
    } else {
      assert t[n] == s[n] && t[n + 1] == s[n + 1];
      assert s[n..][1] == s[n + 1] && t[n..][1] == t[n + 1];
      var q := NextLine(s);
      assert NextLine(t) == q && q < |s| by {
        assert s[n + 1] == '\n' ==> n + 2 < |s|;
      }
      assert t[q..] == s[q..] + "\n";
      CloseLast(s[q..]);
    }
  }

  /** The lines a reader should recover: those of the source, a single blank one if it is empty. */
  function SourceLines(source: string): seq<string> {
    if source == "" then [""] else Lines(source)
  }

  lemma BodyLines(source: string)
    ensures Lines(Body(source) + "\n") == SourceLines(source)
  {
    if source == "" {
      FirstLine("", "");
      assert "" + "\n" + "" == Body(source) + "\n";
    } else if source[|source| - 1] == '\n' {
      assert Body(source) + "\n" == source;
    } else {
      CloseLast(source);
    }
  }

  // ---- Runs.

  lemma LeadingIs(s: string, c: char, n: nat)
    requires n <= |s| && (forall i | 0 <= i < n :: s[i] == c) && (n < |s| ==> s[n] != c)
    ensures Leading(s, c) == n
  {
  }

  lemma LeadingOfPrefix(s: string, c: char, n: nat)
    requires n <= |s| && (n < |s| ==> s[n] != c)
    ensures Leading(s[..n], c) == Leading(s, c)
  {
    LeadingIs(s, c, Leading(s[..n], c));
  }

  /** The run of a line is the run of the text from where the line starts. */
  lemma RunOfLine(s: string)
    ensures LeadRun(s[..LineLength(s)]) == LeadRun(s)
  {
    var n := LineLength(s);
    var line := s[..n];
    LeadingOfPrefix(s, ' ', n);
    var k := Leading(s, ' ');
    assert line[k..] == s[k..][..n - k];
    assert n < |s| ==> s[k..][n - k] == s[n];
    LeadingOfPrefix(s[k..], '`', n - k);
  }

  lemma {:induction false} RunsOfLines(s: string, max: nat)
    requires RunsAtMost(s, max)
    ensures forall line | line in Lines(s) :: LeadRun(line) <= max
  {
    if s != "" {
      assert LineStart(s, 0) && s[0..] == s;
      RunOfLine(s);
      RunsOfLines(s[NextLine(s)..], max);
    }
  }

  // ---- Main result.

  lemma {:induction false} ContentUpToFence(lines: seq<string>, fence: string, info: string, n: nat)
    requires forall line | line in lines :: !Closes(line, n)
    requires Closes(fence, n)
    ensures ReadContent(lines + [fence], info, 0, n) == Block(info, lines, true, [])
  {
    hide Closes, Leading;
    if lines == [] {
      assert lines + [fence] == [fence];
    } else {
      assert (lines + [fence])[1..] == lines[1..] + [fence];
      ContentUpToFence(lines[1..], fence, info, n);
      assert Unindent(lines[0], 0) == lines[0];
      assert [lines[0]] + lines[1..] == lines;
    }
  }

  lemma FenceCloses(n: nat)
    ensures Closes(Repeat('`', n), n)
  {
    var fence := Repeat('`', n);
    LeadingIs(fence, ' ', 0);
    assert fence[0..] == fence;
    LeadingIs(fence, '`', n);
  }

  lemma NoLineCloses(source: string, longest: nat, n: nat)
    requires RunsAtMost(source, longest) && n > longest
    ensures forall line | line in SourceLines(source) :: !Closes(line, n)
  {
    RunsOfLines(source, longest);
    forall line | line in SourceLines(source) ensures !Closes(line, n) {
      assert LeadRun(line) <= longest;
    }
  }

  lemma Opener(n: nat, lang: string)
    requires '`' !in lang
    ensures var line := Repeat('`', n) + lang;
            n > 0 ==> Leading(line, ' ') == 0 && Leading(line[0..], '`') == n && line[n..] == lang
  {
    var line := Repeat('`', n) + lang;
    if n > 0 {
      LeadingIs(line, ' ', 0);
      assert line[0..] == line;
      assert n < |line| ==> line[n] == lang[0] && lang[0] in lang;
      LeadingIs(line, '`', n);
    }
  }

  /** The lines of the wrapped text: the opening fence, the source's lines, the closing fence. */
  lemma WrappedLines(source: string, lang: string, n: nat)
    requires n > 0 && forall c | c in lang :: !Ending(c)
    ensures Lines(Wrapped(source, lang, n)) == [Repeat('`', n) + lang] + SourceLines(source) + [Repeat('`', n)]
  {
    var fence := Repeat('`', n);
    var body := Body(source);
    assert Wrapped(source, lang, n) == (fence + lang) + "\n" + (body + "\n" + fence);
    FirstLine(fence + lang, body + "\n" + fence);
    LinesSplit(body, fence);
    BodyLines(source);
    assert Lines(fence) == [fence] by {
      LineLengthIs(fence, |fence|);
      assert fence[..|fence|] == fence && fence[|fence|..] == "";
    }
  }

  lemma LongestIsBound(source: string, longest: nat)
    requires IsLongestRun(source, longest)
    ensures RunsAtMost(source, longest)
  {
  }

  /**
   For every source and every info string without backticks or line endings, the reader takes the
   whole text as one closed code block with that info string, trimmed, and exactly the source's lines.
   */
  lemma ReaderRecoversSource(source: string, lang: string, longest: nat, n: nat)
    requires IsLongestRun(source, longest) && n == FenceLength(longest)
    requires forall c | c in lang :: c != '`' && !Ending(c)
    ensures ReadFenced(Wrapped(source, lang, n)) == Some(Block(Trim(lang), SourceLines(source), true, []))
  {
    hide Lines, SourceLines, Wrapped, IsLongestRun, Leading, Closes, Trim;
    var fence := Repeat('`', n);
    var lines := SourceLines(source);
    assert RunsAtMost(source, longest) by { LongestIsBound(source, longest); }
    WrappedLines(source, lang, n);
    Opener(n, lang);
    NoLineCloses(source, longest, n);
    FenceCloses(n);
    ContentUpToFence(lines, fence, Trim(lang), n);
    assert ([fence + lang] + lines + [fence])[1..] == lines + [fence];
  }

  method WrapAsFencedCodeBlock(source: string, lang: string) returns (doc: string)
    ensures exists longest: nat :: IsLongestRun(source, longest) && doc == Wrapped(source, lang, FenceLength(longest))
    ensures (forall c | c in lang :: c != '`' && !Ending(c)) ==>
              ReadFenced(doc) == Some(Block(Trim(lang), SourceLines(source), true, []))
  {
    hide IsLongestRun, ReadFenced, SourceLines, FenceLength, Trim;
    var run := LongestLeadingBacktickRun(source);
    var fenceLength := FenceLength(run);
    var fence := Repeat('`', fenceLength);
    doc := fence + lang + "\n" + Body(source) + "\n" + fence;
    if forall c | c in lang :: c != '`' && !Ending(c) {
      ReaderRecoversSource(source, lang, run, fenceLength);
    }
  }
}
