/** Updating a recipe is a fixpoint, exactly when the outputs and the document meet a condition that
    can be checked before the update. */
module RecipesFixpoint {
  import opened Text
  import opened Recipes

  // ----- the condition -----

  predicate EndsInFence(command: string) {
    |command| >= 3 && command[|command| - 3..] == "```"
  }

  /** The block took no comment, although one opens right behind it: that comment is never closed. */
  predicate Dangling(content: string, b: CodeBlock) {
    b.end >= 4 && At(content, b.end - 4, FENCE_CLOSE) && At(content, b.end, COMMENT_OPEN)
  }

  /** Each replaced block gets an output without a comment end and has a command that does not end in
      three backticks; no block that is kept leaves a comment open in front of a replaced one. */
  predicate Safe(content: string, blocks: seq<CodeBlock>, results: seq<string>) {
    if blocks == [] then true
    else if Golden(blocks[0]) && results != [] then
      !Contains(results[0], COMMENT_CLOSE) && !EndsInFence(blocks[0].command)
      && Safe(content, blocks[1..], results[1..])
    else
      !(Dangling(content, blocks[0]) && Replaces(blocks[1..], results)) && Safe(content, blocks[1..], results)
  }

  /** Some block of the list is going to be replaced. */
  predicate Replaces(blocks: seq<CodeBlock>, results: seq<string>) {
    results != [] && exists i | 0 <= i < |blocks| :: Golden(blocks[i])
  }

  /** Where the blocks of a document are to be found after the update. */
  function Images(blocks: seq<CodeBlock>, results: seq<string>, delta: int): seq<CodeBlock> {
    if blocks == [] then []
    else
      var b := blocks[0];
      if Golden(b) && results != [] then
        var length := |FormatBlock(b, results[0])|;
        [b.(start := Moved(b.start, delta), end := Moved(b.start, delta) + length)]
        + Images(blocks[1..], results[1..], delta + length - (b.end - b.start))
      else
        [b.(start := Moved(b.start, delta), end := Moved(b.end, delta))] + Images(blocks[1..], results, delta)
  }

  function Moved(position: nat, delta: int): nat {
    if position + delta < 0 then 0 else position + delta
  }

  // ----- first occurrences -----

  lemma FindShift(a: string, b: string, p: string, i: nat)
    ensures Find(a + b, p, |a| + i) ==
            match Find(b, p, i) case None => None case Some(k) => Some(|a| + k)
  {
    hide Find;
    forall j: nat ensures At(a + b, |a| + j, p) == At(b, j, p) { AtShift(a, b, j, p); }
    match Find(b, p, i) {
      case None =>
        forall j: nat | |a| + i <= j ensures !At(a + b, j, p) {
          AtShift(a, b, j - |a|, p);
        }
        FindNone(a + b, p, |a| + i);
      case Some(k) =>
        forall j: nat | |a| + i <= j < |a| + k ensures !At(a + b, j, p) {
          AtShift(a, b, j - |a|, p);
        }
        FindIs(a + b, p, |a| + i, |a| + k);
    }
  }

  lemma FindNone(s: string, p: string, from: nat)
    requires forall j: nat | from <= j :: !At(s, j, p)
    ensures Find(s, p, from) == None
  {
  }

  /** An occurrence that ends inside a common prefix is the first one in both texts. */
  lemma FindAgree(s: string, t: string, p: string, from: nat, n: nat)
    requires n <= |s| && n <= |t| && s[..n] == t[..n]
    requires Find(s, p, from).Some? && Find(s, p, from).value + |p| <= n
    ensures Find(t, p, from) == Find(s, p, from)
  {
    hide Find;
    var k := Find(s, p, from).value;
    forall j: nat | from <= j <= k ensures At(t, j, p) == At(s, j, p) { AtAgree(s, t, j, p, n); }
    FindIs(t, p, from, k);
  }

  // ----- text without a match -----

  /** Once an opening fence fails to match, nothing behind it matches either. */
  lemma FailedFence(s: string, i: nat)
    requires At(s, 0, FENCE_OPEN) && MatchFence(s).None? && i <= |s|
    ensures MatchFence(s[i..]).None?
  {
    if MatchFence(s[i..]).Some? {
      assert s == s[..i] + s[i..];
      var nl' := Find(s[i..], "\n", 8).value;
      AtShift(s[..i], s[i..], nl', "\n");
      AtShift(s[..i], s[i..], Find(s[i..], FENCE_CLOSE, nl' + 1).value, FENCE_CLOSE);
    }
  }

  lemma {:induction false} NoMatchNoChange(s: string, results: seq<string>, offset: nat)
    requires forall i: nat | i <= |s| :: MatchFence(s[i..]).None?
    ensures Rewrite(s, results) == s && Extract(s, offset) == []
    decreases |s|
  {
    if s != "" {
      assert s[0..] == s;
      forall i: nat | i <= |s[1..]| ensures MatchFence(s[1..][i..]).None? {
        assert s[1..][i..] == s[i + 1..];
      }
      NoMatchNoChange(s[1..], results, offset + 1);
    }
  }

  lemma FormatFront(b: CodeBlock, output: string)
    ensures |FormatBlock(b, output)| >= 16 && FormatBlock(b, output)[..8] == FENCE_OPEN
  {
  }

  ghost predicate SameFront(s: string, t: string) {
    s == t || (|s| >= 8 && |t| >= 8 && s[..8] == t[..8])
  }

  lemma SameFrontAt(s: string, t: string, p: string)
    requires SameFront(s, t) && |p| <= 8
    ensures At(s, 0, p) == At(t, 0, p)
  {
    if s != t {
      AtAgree(s, t, 0, p, 8);
    }
  }

  /** An update changes nothing before the end of the first opening fence. */
  lemma {:induction false} FrontKept(s: string, results: seq<string>)
    ensures SameFront(s, Rewrite(s, results))
    decreases |s|
  {
    hide FormatBlock;
    if s != "" {
      match MatchFence(s) {
        case None =>
          FrontKept(s[1..], results);
          FrontCons(s[0], s[1..], Rewrite(s[1..], results));
        case Some(m) =>
          if Golden(BlockOf(m, 0)) && results != [] {
            FormatFront(BlockOf(m, 0), results[0]);
          }
      }
    }
  }

  lemma FrontCons(c: char, s: string, t: string)
    requires SameFront(s, t)
    ensures SameFront([c] + s, [c] + t)
  {
    if s != t {
      assert ([c] + s)[..8] == [c] + s[..8][..7];
      assert ([c] + t)[..8] == [c] + t[..8][..7];
    }
  }

  /** A position without a match still has none after the update. */
  lemma NoMatchKept(s: string, results: seq<string>)
    requires s != "" && MatchFence(s).None?
    ensures MatchFence(Rewrite(s, results)).None?
  {
    if At(s, 0, FENCE_OPEN) {
      forall i: nat | i <= |s| ensures MatchFence(s[i..]).None? { FailedFence(s, i); }
      NoMatchNoChange(s, results, 0);
    } else {
      FrontKept(s, results);
      SameFrontAt(s, Rewrite(s, results), FENCE_OPEN);
    }
  }

  // ----- a block that is kept -----

  lemma PatternLengths()
    ensures |FENCE_OPEN| == 8 && |FENCE_CLOSE| == 4 && |COMMENT_OPEN| == 5 && |COMMENT_CLOSE| == 3
  {
  }

  lemma FenceKept(s: string, t: string, m: FenceMatch)
    requires MatchFence(s) == Some(m) && m.end <= |t| && s[..m.end] == t[..m.end]
    ensures MatchFence(t) == Some(m.(end := CommentEnd(t, m.fenceEnd)))
  {
    hide Find; hide FENCE_OPEN; hide FENCE_CLOSE; hide COMMENT_OPEN; hide COMMENT_CLOSE; hide At; hide CommentEnd;
    PatternLengths();
    AtAgree(s, t, 0, FENCE_OPEN, m.end);
    var nl := Find(s, "\n", 8).value;
    var close := Find(s, FENCE_CLOSE, nl + 1).value;
    FindAgree(s, t, "\n", 8, m.end);
    FindAgree(s, t, FENCE_CLOSE, nl + 1, m.end);
    SliceAgree(s, t, m.end, 8, nl);
    SliceAgree(s, t, m.end, nl + 1, close);
  }

  lemma SliceAgree(s: string, t: string, n: nat, i: nat, j: nat)
    requires n <= |s| && n <= |t| && s[..n] == t[..n] && i <= j <= n
    ensures s[i..j] == t[i..j]
  {
    forall k | i <= k < j ensures s[k] == t[k] {
      assert s[..n][k] == t[..n][k];
    }
  }

  lemma TakeDrop(s: string, n: nat)
    requires n <= |s|
    ensures s == s[..n] + s[n..] && |s[..n]| == n
  {
  }

  /** Behind a common prefix, equal fronts have the same first few characters. */
  lemma AtFront(s: string, t: string, n: nat, p: string)
    requires n <= |s| && n <= |t| && |p| <= 8 && SameFront(s[n..], t[n..])
    ensures At(s, n, p) == At(t, n, p) == At(s[n..], 0, p)
  {
    TakeDrop(s, n);
    TakeDrop(t, n);
    AtShift(s[..n], s[n..], 0, p);
    AtShift(t[..n], t[n..], 0, p);
    SameFrontAt(s[n..], t[n..], p);
  }

  /** A block that took a comment keeps it, whatever follows with the same front. */
  lemma CommentKept(s: string, t: string, m: FenceMatch)
    requires MatchFence(s) == Some(m) && m.end <= |t| && s[..m.end] == t[..m.end]
    requires m.end > m.fenceEnd && SameFront(s[m.end..], t[m.end..])
    ensures CommentEnd(t, m.fenceEnd) == m.end
  {
    hide Find; hide FENCE_OPEN; hide FENCE_CLOSE; hide COMMENT_OPEN; hide COMMENT_CLOSE;
    PatternLengths();
    AtAgree(s, t, m.fenceEnd, COMMENT_OPEN, m.end);
    FindAgree(s, t, COMMENT_CLOSE, m.fenceEnd + 5, m.end);
    var a := Find(s, COMMENT_CLOSE, m.fenceEnd + 5).value;
    if m.end == a + 3 {
      AtFront(s, t, m.end, "\n");
    } else {
      AtAgree(s, t, a + 3, "\n", m.end);
    }
  }

  /** A block that took a comment does not end like a closing fence. */
  lemma CommentIsNoFence(s: string, m: FenceMatch)
    requires MatchFence(s) == Some(m) && m.end > m.fenceEnd
    ensures !At(s, m.end - 4, FENCE_CLOSE)
  {
    hide FENCE_OPEN; hide COMMENT_OPEN;
    ArrowChars(s, Find(s, COMMENT_CLOSE, m.fenceEnd + 5).value);
    CloseChars(s, m.end - 4);
  }

  /** A block without a comment stays without one unless a comment opens behind it and is now closed. */
  lemma NoCommentKept(s: string, t: string, m: FenceMatch)
    requires MatchFence(s) == Some(m) && m.end <= |t| && s[..m.end] == t[..m.end]
    requires m.end == m.fenceEnd && SameFront(s[m.end..], t[m.end..])
    ensures At(s, m.end - 4, FENCE_CLOSE)
    ensures CommentEnd(t, m.fenceEnd) == m.end
       <==> !(At(s, m.end, COMMENT_OPEN) && Find(t[m.end..], COMMENT_CLOSE, 5).Some?)
    ensures At(s, m.end, COMMENT_OPEN) ==> Find(s[m.end..], COMMENT_CLOSE, 5).None?
  {
    hide Find; hide FENCE_OPEN; hide FENCE_CLOSE; hide COMMENT_OPEN; hide COMMENT_CLOSE;
    PatternLengths();
    AtFront(s, t, m.end, COMMENT_OPEN);
    TakeDrop(s, m.end);
    TakeDrop(t, m.end);
    FindShift(s[..m.end], s[m.end..], COMMENT_CLOSE, 5);
    FindShift(t[..m.end], t[m.end..], COMMENT_CLOSE, 5);
  }

  // ----- a block that is printed -----

  /** What the scanner guarantees about a block, and the printer relies on. */
  ghost predicate Scanned(b: CodeBlock) {
    && Trimmed(b.command)
    && !Contains(b.command, FENCE_CLOSE)
    && StrictlySorted(b.tags)
    && forall w | w in b.tags :: IsWord(w)
  }

  lemma AtSlice(s: string, i: nat, j: nat, k: nat, p: string)
    requires i <= j <= |s| && At(s[i..j], k, p)
    ensures At(s, i + k, p)
  {
    assert s[i + k..i + k + |p|] == p by {
      forall n | 0 <= n < |p| ensures s[i + k + n] == p[n] {
        assert s[i..j][k..k + |p|][n] == p[n];
      }
    }
  }

  lemma BlocksAreScanned(s: string, m: FenceMatch, offset: nat)
    requires MatchFence(s) == Some(m)
    ensures Scanned(BlockOf(m, offset))
  {
    hide Find; hide Words; hide SortedSet; hide Less; hide Strip; hide FENCE_OPEN; hide FENCE_CLOSE; hide COMMENT_OPEN; hide COMMENT_CLOSE;
    PatternLengths();
    var b := BlockOf(m, offset);
    var i, j := StripIsSlice(m.body);
    SortedSetSorts(Words(Strip(m.info)));
    WordsAreWords(Strip(m.info));
    var nl := Find(s, "\n", 8).value;
    var close := Find(s, FENCE_CLOSE, nl + 1).value;
    forall k: nat | k <= |b.command| ensures !At(b.command, k, FENCE_CLOSE) {
      if At(b.command, k, FENCE_CLOSE) {
        AtSlice(m.body, i, j, k, FENCE_CLOSE);
        AtSlice(s, nl + 1, close, i + k, FENCE_CLOSE);
      }
    }
  }

  lemma CloseChars(t: string, j: nat)
    ensures At(t, j, FENCE_CLOSE)
       <==> j + 4 <= |t| && t[j] == '`' && t[j + 1] == '`' && t[j + 2] == '`' && t[j + 3] == '\n'
  {
    if j + 4 <= |t| {
      var w := t[j..j + 4];
      assert t[j] == w[0] && t[j + 1] == w[1] && t[j + 2] == w[2] && t[j + 3] == w[3];
      assert w == [w[0], w[1], w[2], w[3]];
    }
  }

  lemma ArrowChars(t: string, j: nat)
    ensures At(t, j, COMMENT_CLOSE) <==> j + 3 <= |t| && t[j] == '-' && t[j + 1] == '-' && t[j + 2] == '>'
  {
    if j + 3 <= |t| {
      var w := t[j..j + 3];
      assert t[j] == w[0] && t[j + 1] == w[1] && t[j + 2] == w[2];
      assert w == [w[0], w[1], w[2]];
    }
  }

  predicate Starts(t: string, s: string) {
    |s| <= |t| && forall k | 0 <= k < |s| :: t[k] == s[k]
  }

  /** The closing fence behind a command is found where it was printed, unless the command ends in one. */
  lemma FindCloseIn(t: string, command: string)
    requires !Contains(command, FENCE_CLOSE) && Starts(t, command) && At(t, |command| + 1, FENCE_CLOSE)
    requires t[|command|] == '\n'
    ensures Find(t, FENCE_CLOSE, 0) == Some(if EndsInFence(command) then |command| - 3 else |command| + 1)
  {
    hide Find;
    var n := |command|;
    FenceTail(command);
    forall j: nat | j <= n + 1
      ensures At(t, j, FENCE_CLOSE) <==> (EndsInFence(command) && j == n - 3) || j == n + 1
    {
      CloseChars(t, j);
      CloseChars(t, n + 1);
      CloseChars(command, j);
    }
    FindIs(t, FENCE_CLOSE, 0, if EndsInFence(command) then n - 3 else n + 1);
  }

  lemma FenceTail(command: string)
    ensures var n := |command|;
      EndsInFence(command) <==> n >= 3 && command[n - 3] == '`' && command[n - 2] == '`' && command[n - 1] == '`'
  {
    var n := |command|;
    if n >= 3 {
      assert command[n - 3..] == [command[n - 3], command[n - 2], command[n - 1]];
    }
  }

  /** The comment end behind an output is found where it was printed iff the output contains none. */
  lemma FindArrowIn(t: string, output: string)
    requires Starts(t, output) && At(t, |output| + 1, COMMENT_CLOSE) && t[|output|] == '\n'
    ensures var r := Find(t, COMMENT_CLOSE, 0);
      && r.Some? && (if Contains(output, COMMENT_CLOSE) then r.value + 3 <= |output| else r.value == |output| + 1)
  {
    hide Find;
    var n := |output|;
    forall j: nat | j <= n + 1
      ensures At(t, j, COMMENT_CLOSE) <==> At(output, j, COMMENT_CLOSE) || j == n + 1
    {
      ArrowChars(t, j);
      ArrowChars(t, n + 1);
      ArrowChars(output, j);
    }
    if Contains(output, COMMENT_CLOSE) {
      var j: nat :| j <= n && At(output, j, COMMENT_CLOSE);
      assert At(t, j, COMMENT_CLOSE);
    }
  }

  lemma Framed(a: string, p: string, rest: string)
    ensures var t := a + ("\n" + (p + rest));
      Starts(t, a) && t[|a|] == '\n' && At(t, |a| + 1, p) && t[|a| + 1..] == p + rest
  {
    var t := a + ("\n" + (p + rest));
    assert t == (a + "\n") + (p + rest);
    AtShift(a + "\n", p + rest, 0, p);
    assert (p + rest)[..|p|] == p;
  }

  lemma HeaderParses(tags: seq<string>)
    requires StrictlySorted(tags) && forall w | w in tags :: IsWord(w)
    ensures var h := Header(tags);
      && At(h, 0, FENCE_OPEN) && |h| >= 8
      && (forall k | 8 <= k < |h| :: h[k] != '\n')
      && SortedSet(Words(Strip(h[8..]))) == tags
  {
    var h := Header(tags);
    var j := Join(tags, ' ');
    WordsOfJoin(tags);
    StripOfTrimmed(j);
    assert h[8..] == if tags == [] then "" else " " + j;
    JoinHasNoLineFeed(tags);
    SortedSetSorts(tags);
    SortedUnique(SortedSet(tags), tags);
  }

  lemma {:induction false} JoinHasNoLineFeed(ws: seq<string>)
    requires forall w | w in ws :: IsWord(w)
    ensures forall k | 0 <= k < |Join(ws, ' ')| :: Join(ws, ' ')[k] != '\n'
  {
    assert forall w | w in ws :: forall k | 0 <= k < |w| :: w[k] != '\n';
    if |ws| > 1 {
      JoinHasNoLineFeed(ws[1..]);
    }
  }

  /** A printed block up to its output, with the text "rest" behind it. */
  function UpToOutput(b: CodeBlock, output: string, rest: string): string {
    Header(b.tags) + ("\n" + (b.command + ("\n" + (FENCE_CLOSE + (COMMENT_OPEN + (output + rest))))))
  }

  lemma UpToOutputAppend(b: CodeBlock, output: string, x: string, y: string)
    ensures UpToOutput(b, output, x) + y == UpToOutput(b, output, x + y)
    ensures |UpToOutput(b, output, x)| == |Header(b.tags)| + |b.command| + |output| + |x| + 11
  {
    hide Header; hide FENCE_CLOSE; hide COMMENT_OPEN;
    PatternLengths();
    var p3 := FENCE_CLOSE + (COMMENT_OPEN + (output + x));
    Regroup(output, x, "", y);
    NestedAppend(FENCE_CLOSE, COMMENT_OPEN, output + x, y);
    NestedAppend(b.command, "\n", p3, y);
    NestedAppend(Header(b.tags), "\n", b.command + ("\n" + p3), y);
    assert output + (x + y) == (output + x) + y;
  }

  lemma PrintThenAppend(b: CodeBlock, output: string, rest: string)
    ensures FormatBlock(b, output) + rest == PrintBlock(b, output, rest)
    ensures |FormatBlock(b, output)| == |Header(b.tags)| + |b.command| + |output| + 16
  {
    hide Header; hide FENCE_CLOSE; hide COMMENT_OPEN; hide COMMENT_CLOSE;
    PatternLengths();
    var x := "\n" + (COMMENT_CLOSE + ("\n" + ""));
    UpToOutputAppend(b, output, x, rest);
    assert x + rest == "\n" + (COMMENT_CLOSE + ("\n" + rest));
  }

  lemma PrintedHasCommentEnd(b: CodeBlock, output: string, rest: string) returns (j: nat)
    ensures j >= 8 && At(FormatBlock(b, output) + rest, j, COMMENT_CLOSE)
  {
    hide Header; hide FENCE_CLOSE; hide COMMENT_OPEN; hide COMMENT_CLOSE;
    PrintThenAppend(b, output, rest);
    var x := COMMENT_CLOSE + ("\n" + rest);
    UpToOutputAppend(b, output, "\n", x);
    AtPrefix(COMMENT_CLOSE, "\n" + rest);
    j := |UpToOutput(b, output, "\n")|;
    AtShift(UpToOutput(b, output, "\n"), x, 0, COMMENT_CLOSE);
  }

  lemma NestedAppend(a: string, b: string, c: string, d: string)
    ensures (a + (b + c)) + d == a + (b + (c + d))
  {
    assert (a + (b + c)) + d == a + ((b + c) + d);
  }

  /** Where the closing fence of a printed block is found: at the first three backticks before a line feed. */
  function CloseOf(b: CodeBlock): int {
    |Header(b.tags)| + 1 + if EndsInFence(b.command) then |b.command| - 3 else |b.command| + 1
  }

  /** How the scanner reads the opening line and the fences of a printed block. */
  lemma PrintedMatch(b: CodeBlock, output: string, rest: string)
    requires Scanned(b)
    ensures var h, c, t, close := Header(b.tags), b.command, FormatBlock(b, output) + rest, CloseOf(b);
      && 8 <= |h| < close && close + 4 <= |t|
      && MatchFence(t) == Some(FenceMatch(h[8..], (c + "\n")[..close - |h| - 1], close + 4, CommentEnd(t, close + 4)))
      && SortedSet(Words(Strip(h[8..]))) == b.tags
  {
    hide Find; hide Header; hide FENCE_OPEN; hide FENCE_CLOSE; hide COMMENT_OPEN; hide COMMENT_CLOSE; hide FormatBlock;
    hide Words; hide SortedSet; hide Strip; hide Contains; hide CommentEnd;
    PatternLengths();
    PrintThenAppend(b, output, rest);
    HeaderParses(b.tags);
    var h, c, t := Header(b.tags), b.command, FormatBlock(b, output) + rest;
    var v := c + ("\n" + (FENCE_CLOSE + (COMMENT_OPEN + (output + ("\n" + (COMMENT_CLOSE + ("\n" + rest)))))));
    assert t == h + ("\n" + v);
    InfoLine(t, h, v);
    FindClosePrinted(c, COMMENT_OPEN + (output + ("\n" + (COMMENT_CLOSE + ("\n" + rest)))));
    FindShift(h + "\n", v, FENCE_CLOSE, 0);
    Regroup(h, "\n", "", v);
    BodyOf(h, c, FENCE_CLOSE + (COMMENT_OPEN + (output + ("\n" + (COMMENT_CLOSE + ("\n" + rest))))), CloseOf(b) - |h| - 1);
  }

  lemma BodyOf(h: string, c: string, rest: string, n: int)
    requires 0 <= n <= |c| + 1
    ensures (h + ("\n" + (c + ("\n" + rest))))[|h| + 1..|h| + 1 + n] == (c + "\n")[..n]
  {
  }

  /** After an early fence no comment follows, but the rest of the backticks' line. */
  lemma NoCommentAfterEarlyFence(b: CodeBlock, output: string, rest: string)
    requires Scanned(b) && EndsInFence(b.command)
    ensures var t := FormatBlock(b, output) + rest; CloseOf(b) + 4 <= |t| && CommentEnd(t, CloseOf(b) + 4) == CloseOf(b) + 4
  {
    hide Header; hide FENCE_CLOSE; hide COMMENT_OPEN; hide COMMENT_CLOSE; hide FormatBlock; hide Contains; hide CommentEnd;
    PatternLengths();
    PrintThenAppend(b, output, rest);
    var h, c, t := Header(b.tags), b.command, FormatBlock(b, output) + rest;
    var v2 := COMMENT_OPEN + (output + ("\n" + (COMMENT_CLOSE + ("\n" + rest))));
    var front := h + "\n" + c + "\n";
    FourParts(h, "\n", c, "\n", FENCE_CLOSE + v2);
    assert t == front + (FENCE_CLOSE + v2);
    NoCommentAtFence(front, v2);
    assert |front| == CloseOf(b) + 4;
  }

  lemma FourParts(a: string, b: string, c: string, d: string, e: string)
    ensures (a + b + c + d) + e == a + (b + (c + (d + e)))
  {
    Regroup(a, b, c, d + e);
    Regroup(a + b, c, d, e);
  }

  lemma CommentAfterFence(b: CodeBlock, output: string, rest: string)
    requires Scanned(b) && !EndsInFence(b.command)
    ensures var t := FormatBlock(b, output) + rest;
      && CloseOf(b) + 4 <= |t|
      && (CommentEnd(t, CloseOf(b) + 4) == |FormatBlock(b, output)| <==> !Contains(output, COMMENT_CLOSE))
  {
    hide Header; hide FENCE_CLOSE; hide COMMENT_OPEN; hide COMMENT_CLOSE; hide FormatBlock; hide Contains; hide CommentEnd;
    PatternLengths();
    PrintThenAppend(b, output, rest);
    var h, c, t := Header(b.tags), b.command, FormatBlock(b, output) + rest;
    var v2 := COMMENT_OPEN + (output + ("\n" + (COMMENT_CLOSE + ("\n" + rest))));
    var front := h + "\n" + c + "\n";
    FourParts(h, "\n", c, "\n", FENCE_CLOSE + v2);
    Regroup(front, FENCE_CLOSE, "", v2);
    assert t == (front + FENCE_CLOSE) + v2;
    CommentPrinted(front + FENCE_CLOSE, output, rest);
    assert |front + FENCE_CLOSE| == CloseOf(b) + 4;
  }

  /** A printed block is read back as one block, whatever follows it, exactly when its output contains
      no comment end and its command does not end in three backticks. */
  lemma PrintedBlockParses(b: CodeBlock, output: string, rest: string, offset: nat)
    requires Scanned(b)
    ensures MatchFence(FormatBlock(b, output) + rest).Some?
    ensures var m, length := MatchFence(FormatBlock(b, output) + rest).value, |FormatBlock(b, output)|;
      && (m.end == length <==> !Contains(output, COMMENT_CLOSE) && !EndsInFence(b.command))
      && (!EndsInFence(b.command) ==> BlockOf(m, offset) == b.(start := offset, end := offset + m.end))
  {
    hide Header; hide FormatBlock; hide MatchFence; hide CommentEnd; hide COMMENT_CLOSE;
    hide Words; hide SortedSet; hide Strip; hide EndsInFence; hide Contains;
    PrintedMatch(b, output, rest);
    PrintThenAppend(b, output, rest);
    if EndsInFence(b.command) {
      NoCommentAfterEarlyFence(b, output, rest);
      FenceLength(b.command);
    } else {
      CommentAfterFence(b, output, rest);
      assert (b.command + "\n")[..|b.command| + 1] == b.command + "\n";
      StripOfTrimmed(b.command);
    }
  }

  lemma FenceLength(command: string)
    ensures EndsInFence(command) ==> |command| >= 3
  {
  }

  lemma NoCommentAtFence(front: string, rest: string)
    ensures CommentEnd(front + (FENCE_CLOSE + rest), |front|) == |front|
  {
    AtShift(front, FENCE_CLOSE + rest, 0, COMMENT_OPEN);
    var w := FENCE_CLOSE + rest;
    assert COMMENT_OPEN[0] == '<' && w[0] == '`';
    assert |w| >= 5 ==> w[0..5][0] == '`';
  }

  /** The printed comment is taken whole iff the output contains no comment end. */
  lemma CommentPrinted(front: string, output: string, rest: string)
    ensures var t := front + (COMMENT_OPEN + (output + ("\n" + (COMMENT_CLOSE + ("\n" + rest)))));
      if Contains(output, COMMENT_CLOSE) then CommentEnd(t, |front|) <= |front| + |output| + 6
      else CommentEnd(t, |front|) == |front| + |output| + 10
  {
    hide Find; hide COMMENT_OPEN; hide COMMENT_CLOSE; hide Contains; hide CommentEnd; hide At; hide Starts;
    PatternLengths();
    var v4 := COMMENT_CLOSE + ("\n" + rest);
    var v3 := output + ("\n" + v4);
    var t := front + (COMMENT_OPEN + v3);
    Framed(output, COMMENT_CLOSE, "\n" + rest);
    FindArrowIn(v3, output);
    Regroup(front, COMMENT_OPEN, "", v3);
    AtPrefix(COMMENT_OPEN, v3);
    AtShift(front, COMMENT_OPEN + v3, 0, COMMENT_OPEN);
    FindShift(front + COMMENT_OPEN, v3, COMMENT_CLOSE, 0);
    LineFeedBehind(output, COMMENT_CLOSE, rest);
    AtShift(front + COMMENT_OPEN, v3, |output| + 4, "\n");
    CommentEndAt(t, |front|);
  }

  lemma CommentEndAt(t: string, from: nat)
    requires At(t, from, COMMENT_OPEN) && Find(t, COMMENT_CLOSE, from + 5).Some?
    ensures from <= |t|
    ensures var a := Find(t, COMMENT_CLOSE, from + 5).value;
      CommentEnd(t, from) == if At(t, a + 3, "\n") then a + 4 else a + 3
  {
    hide Find; hide COMMENT_CLOSE;
  }

  lemma LineFeedBehind(a: string, p: string, rest: string)
    ensures At(a + ("\n" + (p + ("\n" + rest))), |a| + 1 + |p|, "\n")
  {
    AtPrefix("\n", rest);
    AtShift(p, "\n" + rest, 0, "\n");
    AtShift("\n", p + ("\n" + rest), |p|, "\n");
    AtShift(a, "\n" + (p + ("\n" + rest)), 1 + |p|, "\n");
  }

  lemma AtPrefix(p: string, rest: string)
    ensures At(p + rest, 0, p)
  {
    assert (p + rest)[..|p|] == p;
  }

  /** The opening line ends at the first line feed. */
  lemma InfoLine(t: string, h: string, v: string)
    requires t == h + ("\n" + v) && |h| >= 8 && At(h, 0, FENCE_OPEN)
    requires forall k | 8 <= k < |h| :: h[k] != '\n'
    ensures At(t, 0, FENCE_OPEN) && Find(t, "\n", 8) == Some(|h|) && t[8..|h|] == h[8..]
  {
    hide Find;
    assert t[..|h|] == h == h[..|h|];
    AtAgree(h, t, 0, FENCE_OPEN, |h|);
    assert t[|h|..|h| + 1] == "\n";
    forall j: nat | 8 <= j < |h| ensures !At(t, j, "\n") {
      assert t[j] == h[j];
      assert t[j..j + 1][0] == h[j];
    }
    FindIs(t, "\n", 8, |h|);
  }

  lemma FindClosePrinted(command: string, rest: string)
    requires !Contains(command, FENCE_CLOSE)
    ensures var v := command + ("\n" + (FENCE_CLOSE + rest));
      Find(v, FENCE_CLOSE, 0) == Some(if EndsInFence(command) then |command| - 3 else |command| + 1)
  {
    Framed(command, FENCE_CLOSE, rest);
    FindCloseIn(command + ("\n" + (FENCE_CLOSE + rest)), command);
  }

  // ----- the documents -----

  /** A text in which some block is replaced contains a comment end afterwards. */
  lemma {:induction false} ReplacedHasCommentEnd(s: string, results: seq<string>, offset: nat) returns (j: nat)
    requires Replaces(Extract(s, offset), results)
    ensures j >= 8 && At(Rewrite(s, results), j, COMMENT_CLOSE)
    decreases |s|
  {
    hide MatchFence; hide FormatBlock; hide COMMENT_CLOSE; hide Golden; hide BlockOf;
    match MatchFence(s) {
      case None =>
        j := ReplacedHasCommentEnd(s[1..], results, offset + 1);
        AtShift([s[0]], Rewrite(s[1..], results), j, COMMENT_CLOSE);
        j := j + 1;
      case Some(m) =>
        BlockShift(m, offset);
        if Golden(BlockOf(m, offset)) {
          j := PrintedHasCommentEnd(BlockOf(m, 0), results[0], Rewrite(s[m.end..], results[1..]));
        } else {
          ReplacesTail(BlockOf(m, offset), Extract(s[m.end..], offset + m.end), results);
          j := ReplacedHasCommentEnd(s[m.end..], results, offset + m.end);
          AtShift(s[..m.end], Rewrite(s[m.end..], results), j, COMMENT_CLOSE);
          j := j + m.end;
        }
    }
  }

  lemma ReplacesTail(b: CodeBlock, blocks: seq<CodeBlock>, results: seq<string>)
    requires Replaces([b] + blocks, results) && !Golden(b)
    ensures Replaces(blocks, results)
  {
    var i :| 0 <= i < |[b] + blocks| && Golden(([b] + blocks)[i]);
    assert Golden(blocks[i - 1]);
  }

  lemma {:induction false} NothingReplaced(s: string, results: seq<string>, offset: nat)
    requires !Replaces(Extract(s, offset), results)
    ensures Rewrite(s, results) == s
    decreases |s|
  {
    hide MatchFence; hide FormatBlock; hide Golden; hide BlockOf;
    if results == [] {
      RewriteNothing(s);
    } else if s != "" {
      match MatchFence(s) {
        case None => NothingReplaced(s[1..], results, offset + 1);
        case Some(m) =>
          var b, rest := BlockOf(m, offset), Extract(s[m.end..], offset + m.end);
          BlockShift(m, offset);
          assert ([b] + rest)[0] == b;
          forall i | 0 <= i < |rest| ensures !Golden(rest[i]) {
            assert ([b] + rest)[i + 1] == rest[i];
          }
          NothingReplaced(s[m.end..], results, offset + m.end);
      }
    }
  }

  lemma ConsEqual(x: CodeBlock, xs: seq<CodeBlock>, y: CodeBlock, ys: seq<CodeBlock>)
    ensures [x] + xs == [y] + ys <==> x == y && xs == ys
  {
    assert ([x] + xs)[0] == x && ([y] + ys)[0] == y;
    assert ([x] + xs)[1..] == xs && ([y] + ys)[1..] == ys;
  }

  lemma SafeCons(content: string, b: CodeBlock, blocks: seq<CodeBlock>, results: seq<string>)
    ensures Safe(content, [b] + blocks, results) ==
            if Golden(b) && results != [] then
              !Contains(results[0], COMMENT_CLOSE) && !EndsInFence(b.command) && Safe(content, blocks, results[1..])
            else
              !(Dangling(content, b) && Replaces(blocks, results)) && Safe(content, blocks, results)
  {
    hide FormatBlock; hide Golden; hide Dangling; hide Contains; hide EndsInFence;
    assert ([b] + blocks)[1..] == blocks;
  }

  lemma ImagesCons(b: CodeBlock, blocks: seq<CodeBlock>, results: seq<string>, delta: int)
    ensures Images([b] + blocks, results, delta) ==
            if Golden(b) && results != [] then
              [b.(start := Moved(b.start, delta), end := Moved(b.start, delta) + |FormatBlock(b, results[0])|)]
              + Images(blocks, results[1..], delta + |FormatBlock(b, results[0])| - (b.end - b.start))
            else
              [b.(start := Moved(b.start, delta), end := Moved(b.end, delta))] + Images(blocks, results, delta)
  {
    hide FormatBlock; hide Golden;
    assert ([b] + blocks)[1..] == blocks;
  }

  ghost predicate Stable(content: string, offset: nat, results: seq<string>, offset': nat)
    requires offset <= |content|
  {
    var s := content[offset..];
    Extract(Rewrite(s, results), offset') == Images(Extract(s, offset), results, offset' - offset)
    <==> Safe(content, Extract(s, offset), results)
  }

  /** Main step, for the text behind any position: the updated text scans to the moved blocks exactly
      when the condition holds. */
  lemma {:induction false} Stability(content: string, offset: nat, results: seq<string>, offset': nat)
    requires offset <= |content|
    ensures Stable(content, offset, results, offset')
    decreases |content| - offset
  {
    hide MatchFence; hide FormatBlock; hide Golden; hide BlockOf; hide Dangling; hide Contains; hide EndsInFence;
    var s := content[offset..];
    if s != "" {
      var t := Rewrite(s, results);
      match MatchFence(s) {
        case None =>
          NoMatchKept(s, results);
          assert content[offset + 1..] == s[1..];
          Stability(content, offset + 1, results, offset' + 1);
        case Some(m) =>
          BlockShift(m, offset);
          assert content[offset + m.end..] == s[m.end..];
          if Golden(BlockOf(m, offset)) && results != [] {
            Stability(content, offset + m.end, results[1..], offset' + |FormatBlock(BlockOf(m, offset), results[0])|);
            StableReplaced(content, offset, results, offset', m);
          } else {
            Stability(content, offset + m.end, results, offset' + m.end);
            StableKept(content, offset, results, offset', m);
          }
      }
    }
  }

  lemma StableReplaced(content: string, offset: nat, results: seq<string>, offset': nat, m: FenceMatch)
    requires offset < |content| && MatchFence(content[offset..]) == Some(m)
    requires Golden(BlockOf(m, offset)) && results != []
    requires Stable(content, offset + m.end, results[1..], offset' + |FormatBlock(BlockOf(m, offset), results[0])|)
    ensures Stable(content, offset, results, offset')
  {
    hide MatchFence; hide FormatBlock; hide Golden; hide BlockOf; hide Dangling; hide Contains; hide EndsInFence; hide At; hide Find; hide Replaces; hide Safe; hide Images; hide Extract; hide Rewrite; hide Scanned; hide COMMENT_CLOSE;
    var s := content[offset..];
    var b := BlockOf(m, offset);
    var rest := Extract(s[m.end..], b.end);
    BlockShift(m, offset);
    ScanStep(s, results, m, offset);
    assert content[b.end..] == s[m.end..];
    var printed := FormatBlock(b, results[0]);
    var u := Rewrite(s[m.end..], results[1..]);
    var t := printed + u;
    BlocksAreScanned(s, m, offset);
    PrintedBlockParses(b, results[0], u, offset');
    var m' := MatchFence(t).value;
    ScanStep(t, results, m', offset');
    BlockShift(m', offset');
    SafeCons(content, b, rest, results);
    ImagesCons(b, rest, results, offset' - offset);
    ConsEqual(BlockOf(m', offset'), Extract(t[m'.end..], offset' + m'.end),
              b.(start := offset', end := offset' + |printed|),
              Images(rest, results[1..], offset' + |printed| - b.end));
    if m'.end == |printed| {
      assert t[|printed|..] == u;
    }
  }

  lemma StableKept(content: string, offset: nat, results: seq<string>, offset': nat, m: FenceMatch)
    requires offset < |content| && MatchFence(content[offset..]) == Some(m)
    requires !(Golden(BlockOf(m, offset)) && results != [])
    requires Stable(content, offset + m.end, results, offset' + m.end)
    ensures Stable(content, offset, results, offset')
  {
    hide MatchFence; hide FormatBlock; hide Golden; hide BlockOf; hide Dangling; hide Contains; hide EndsInFence; hide At; hide Find; hide Replaces; hide Safe; hide Images; hide Extract; hide Rewrite;
    var s := content[offset..];
    var b := BlockOf(m, offset);
    var rest := Extract(s[m.end..], b.end);
    BlockShift(m, offset);
    ScanStep(s, results, m, offset);
    assert content[b.end..] == s[m.end..];
    var u := Rewrite(s[m.end..], results);
    var t := s[..m.end] + u;
    KeptBlockParses(content, offset, results, m);
    var m' := MatchFence(t).value;
    ScanStep(t, results, m', offset');
    BlockShift(m', offset');
    SafeCons(content, b, rest, results);
    ImagesCons(b, rest, results, offset' - offset);
    ConsEqual(BlockOf(m', offset'), Extract(t[m'.end..], offset' + m'.end),
              b.(start := offset', end := offset' + m.end),
              Images(rest, results, offset' - offset));
    SameBlock(m, m', offset, offset');
    if m'.end == m.end {
      assert t[m.end..] == u;
    }
  }

  lemma SameBlock(m: FenceMatch, m': FenceMatch, offset: nat, offset': nat)
    requires m' == m.(end := m'.end)
    ensures BlockOf(m', offset') == BlockOf(m, offset).(start := offset', end := offset' + m'.end)
  {
  }

  /** A kept block is read back as it was, unless it leaves a comment open in front of a replaced block. */
  lemma KeptBlockParses(content: string, offset: nat, results: seq<string>, m: FenceMatch)
    requires offset < |content| && MatchFence(content[offset..]) == Some(m)
    ensures var s := content[offset..];
      var t := s[..m.end] + Rewrite(s[m.end..], results);
      && MatchFence(t).Some? && MatchFence(t).value == m.(end := MatchFence(t).value.end)
      && (MatchFence(t).value.end == m.end
          <==> !(Dangling(content, BlockOf(m, offset)) && Replaces(Extract(s[m.end..], offset + m.end), results)))
  {
    hide Find; hide FENCE_OPEN; hide FENCE_CLOSE; hide COMMENT_OPEN; hide COMMENT_CLOSE;
    hide Replaces; hide Extract; hide Rewrite; hide BlockOf; hide MatchFence; hide CommentEnd;
    PatternLengths();
    var s := content[offset..];
    var u := Rewrite(s[m.end..], results);
    var t := s[..m.end] + u;
    BlockShift(m, offset);
    FrontKept(s[m.end..], results);
    assert t[..m.end] == s[..m.end] && t[m.end..] == u;
    FenceKept(s, t, m);
    TakeDrop(content, offset);
    AtShift(content[..offset], s, m.end - 4, FENCE_CLOSE);
    AtShift(content[..offset], s, m.end, COMMENT_OPEN);
    if m.end > m.fenceEnd {
      CommentKept(s, t, m);
      CommentIsNoFence(s, m);
    } else {
      NoCommentKept(s, t, m);
      if Replaces(Extract(s[m.end..], offset + m.end), results) {
        var j := ReplacedHasCommentEnd(s[m.end..], results, offset + m.end);
        FindExists(u, COMMENT_CLOSE, 5, j);
      } else {
        NothingReplaced(s[m.end..], results, offset + m.end);
      }
    }
  }

  lemma FindExists(s: string, p: string, from: nat, j: nat)
    requires from <= j && At(s, j, p)
    ensures Find(s, p, from).Some?
  {
  }

  /** The new text of a recipe whose golden blocks produced these outputs. */
  function Update(content: string, results: seq<string>): string {
    Splice(content, GoldenBlocks(ExtractCodeBlocks(content)), results, 0)
  }

  lemma UpdateIsRewrite(content: string, results: seq<string>)
    ensures Update(content, results) == Rewrite(content, results)
  {
    assert content[0..] == content;
    SpliceIsRewrite(content, 0, results);
  }

  /** Main theorem, first half: the updated document scans to the same commands and tags, each block
      exactly where it was written or moved, if and only if the update is safe. */
  lemma UpdateStable(content: string, results: seq<string>)
    ensures var blocks := ExtractCodeBlocks(content);
      ExtractCodeBlocks(Update(content, results)) == Images(blocks, results, 0) <==> Safe(content, blocks, results)
  {
    hide Rewrite; hide Extract; hide Splice; hide Images; hide Safe;
    assert content[0..] == content;
    UpdateIsRewrite(content, results);
    Stability(content, 0, results, 0);
  }

  /** Moving blocks changes neither their commands nor their tags. */
  lemma {:induction false} ImagesSame(blocks: seq<CodeBlock>, results: seq<string>, delta: int)
    ensures var images := Images(blocks, results, delta);
      && |images| == |blocks|
      && (forall i | 0 <= i < |blocks| :: images[i].command == blocks[i].command && images[i].tags == blocks[i].tags)
  {
    hide FormatBlock; hide Golden;
    if blocks != [] {
      var b := blocks[0];
      if Golden(b) && results != [] {
        ImagesSame(blocks[1..], results[1..], delta + |FormatBlock(b, results[0])| - (b.end - b.start));
      } else {
        ImagesSame(blocks[1..], results, delta);
      }
    }
  }

  /** Main theorem, second half: a safe update is a fixpoint. */
  lemma UpdateFixpoint(content: string, results: seq<string>)
    requires Safe(content, ExtractCodeBlocks(content), results)
    ensures Update(Update(content, results), results) == Update(content, results)
  {
    hide Rewrite; hide Extract; hide Safe; hide Splice;
    assert content[0..] == content;
    UpdateIsRewrite(content, results);
    UpdateIsRewrite(Update(content, results), results);
    RewriteTwice(content, 0, results);
  }

  lemma {:induction false} RewriteTwice(content: string, offset: nat, results: seq<string>)
    requires offset <= |content| && Safe(content, Extract(content[offset..], offset), results)
    ensures Rewrite(Rewrite(content[offset..], results), results) == Rewrite(content[offset..], results)
    decreases |content| - offset
  {
    hide MatchFence; hide FormatBlock; hide Golden; hide BlockOf; hide Dangling; hide Contains; hide EndsInFence; hide Safe;
    var s := content[offset..];
    if s != "" {
      match MatchFence(s) {
        case None =>
          NoMatchKept(s, results);
          assert content[offset + 1..] == s[1..];
          RewriteTwice(content, offset + 1, results);
        case Some(m) =>
          BlockShift(m, offset);
          SafeCons(content, BlockOf(m, offset), Extract(s[m.end..], offset + m.end), results);
          assert content[offset + m.end..] == s[m.end..];
          if Golden(BlockOf(m, offset)) && results != [] {
            RewriteTwice(content, offset + m.end, results[1..]);
            TwiceReplaced(s, results, m);
          } else {
            RewriteTwice(content, offset + m.end, results);
            KeptBlockParses(content, offset, results, m);
            TwiceKept(s, results, m);
          }
      }
    }
  }

  lemma TwiceReplaced(s: string, results: seq<string>, m: FenceMatch)
    requires s != "" && MatchFence(s) == Some(m) && Golden(BlockOf(m, 0)) && results != []
    requires !Contains(results[0], COMMENT_CLOSE) && !EndsInFence(BlockOf(m, 0).command)
    requires var u := Rewrite(s[m.end..], results[1..]); Rewrite(u, results[1..]) == u
    ensures Rewrite(Rewrite(s, results), results) == Rewrite(s, results)
  {
    hide MatchFence; hide Golden; hide BlockOf; hide Contains; hide EndsInFence; hide FormatBlock;
    var b := BlockOf(m, 0);
    var printed, u := FormatBlock(b, results[0]), Rewrite(s[m.end..], results[1..]);
    BlocksAreScanned(s, m, 0);
    PrintedBlockParses(b, results[0], u, 0);
    assert (printed + u)[|printed|..] == u;
    PositionsDoNotPrint(b, MatchFence(printed + u).value);
  }

  lemma PositionsDoNotPrint(b: CodeBlock, m: FenceMatch)
    requires BlockOf(m, 0) == b.(start := 0, end := m.end)
    ensures forall o :: FormatBlock(BlockOf(m, 0), o) == FormatBlock(b, o)
    ensures Golden(BlockOf(m, 0)) == Golden(b)
  {
  }

  lemma TwiceKept(s: string, results: seq<string>, m: FenceMatch)
    requires s != "" && MatchFence(s) == Some(m) && !(Golden(BlockOf(m, 0)) && results != [])
    requires var u := Rewrite(s[m.end..], results);
      Rewrite(u, results) == u && MatchFence(s[..m.end] + u) == Some(m)
    ensures Rewrite(Rewrite(s, results), results) == Rewrite(s, results)
  {
    hide MatchFence; hide Golden; hide BlockOf; hide FormatBlock;
    var u := Rewrite(s[m.end..], results);
    var t := s[..m.end] + u;
    assert t[m.end..] == u && t[..m.end] == s[..m.end];
  }

  // ----- the text outside the replaced blocks -----

  /** The text in front of, between and behind the listed blocks. */
  function Outside(content: string, blocks: seq<CodeBlock>, from: nat): seq<string>
    decreases blocks
  {
    if blocks == [] then [Slice(content, from, |content|)]
    else [Slice(content, from, blocks[0].start)] + Outside(content, blocks[1..], blocks[0].end)
  }

  function Least(a: nat, b: nat): nat {
    if a <= b then a else b
  }

  /** Every character outside the replaced blocks survives, in place, also when there are fewer outputs
      than blocks.  "done" is the text already written for content[..from]. */
  lemma {:induction false} SpliceOutside(content: string, blocks: seq<CodeBlock>, results: seq<string>, from: nat, done: string)
    requires InOrder(blocks, from, |content|) && forall b | b in blocks :: Golden(b)
    ensures var k := Least(|blocks|, |results|);
      var images := Images(blocks, results, |done| - from);
      && k <= |images|
      && Outside(done + Splice(content, blocks, results, from), images[..k], |done|) == Outside(content, blocks[..k], from)
    decreases blocks
  {
    hide FormatBlock; hide Slice; hide Golden; hide Outside; hide Images;
    InOrderEnd(blocks, from, |content|);
    var t := done + Splice(content, blocks, results, from);
    var images := Images(blocks, results, |done| - from);
    ImagesSame(blocks, results, |done| - from);
    OutsideNil(t, |done|);
    OutsideNil(content, from);
    if blocks == [] || results == [] {
      SliceAll(content, from);
      SliceBehind(done, content[from..]);
    } else {
      var b := blocks[0];
      InOrderEnd(blocks[1..], b.end, |content|);
      OneSpliced(content, blocks, results, from, done);
      var done' := done + Slice(content, from, b.start) + FormatBlock(b, results[0]);
      var images' := Images(blocks[1..], results[1..], |done'| - b.end);
      var image := b.(start := |done| + (b.start - from), end := |done'|);
      var k := Least(|blocks|, |results|);
      assert t == done' + Splice(content, blocks[1..], results[1..], b.end);
      SpliceOutside(content, blocks[1..], results[1..], b.end, done');
      assert images[..k] == [image] + images'[..k - 1];
      assert blocks[..k] == [b] + blocks[1..][..k - 1];
      OutsideCons(t, image, images'[..k - 1], |done|);
      OutsideCons(content, b, blocks[1..][..k - 1], from);
    }
  }

  /** One step of the splice: the gap is copied, the block is printed, and its image says where. */
  lemma OneSpliced(content: string, blocks: seq<CodeBlock>, results: seq<string>, from: nat, done: string)
    requires blocks != [] && results != [] && Golden(blocks[0])
    requires from <= blocks[0].start <= blocks[0].end <= |content|
    ensures var b := blocks[0];
      var t := done + Splice(content, blocks, results, from);
      var done' := done + Slice(content, from, b.start) + FormatBlock(b, results[0]);
      var image := b.(start := |done| + (b.start - from), end := |done'|);
      && t == done' + Splice(content, blocks[1..], results[1..], b.end)
      && Slice(t, |done|, image.start) == Slice(content, from, b.start)
      && Slice(t, image.start, image.end) == FormatBlock(b, results[0])
      && Images(blocks, results, |done| - from) == [image] + Images(blocks[1..], results[1..], |done'| - b.end)
  {
    hide FormatBlock; hide Slice; hide Golden; hide Images; hide Splice;
    var b := blocks[0];
    SpliceUnfold(content, blocks, results, from);
    SliceLength(content, from, b.start);
    SplicePieces(done, Slice(content, from, b.start), FormatBlock(b, results[0]),
                 Splice(content, blocks[1..], results[1..], b.end));
    FirstImage(blocks, results, |done| - from);
  }

  lemma FirstImage(blocks: seq<CodeBlock>, results: seq<string>, delta: int)
    requires blocks != [] && results != [] && Golden(blocks[0]) && blocks[0].start + delta >= 0
    ensures var b := blocks[0];
      var length := |FormatBlock(b, results[0])|;
      Images(blocks, results, delta)
      == [b.(start := b.start + delta, end := b.start + delta + length)]
         + Images(blocks[1..], results[1..], delta + length - (b.end - b.start))
  {
    hide FormatBlock; hide Golden; hide Images;
    assert blocks == [blocks[0]] + blocks[1..];
    ImagesCons(blocks[0], blocks[1..], results, delta);
  }

  lemma SpliceUnfold(content: string, blocks: seq<CodeBlock>, results: seq<string>, from: nat)
    requires blocks != [] && results != []
    ensures Splice(content, blocks, results, from)
         == Slice(content, from, blocks[0].start)
            + (FormatBlock(blocks[0], results[0]) + Splice(content, blocks[1..], results[1..], blocks[0].end))
  {
    hide FormatBlock; hide Slice;
  }

  /** Each replaced block holds its own printed output. */
  lemma {:induction false} SplicePrints(content: string, blocks: seq<CodeBlock>, results: seq<string>, from: nat, done: string)
    requires InOrder(blocks, from, |content|) && forall b | b in blocks :: Golden(b)
    ensures var t := done + Splice(content, blocks, results, from);
      var images := Images(blocks, results, |done| - from);
      && |images| == |blocks|
      && (forall i | 0 <= i < |blocks| && i < |results| ::
            Slice(t, images[i].start, images[i].end) == FormatBlock(blocks[i], results[i]))
    decreases blocks
  {
    hide FormatBlock; hide Slice; hide Golden; hide Images;
    ImagesSame(blocks, results, |done| - from);
    if blocks != [] && results != [] {
      InOrderEnd(blocks[1..], blocks[0].end, |content|);
      OneSpliced(content, blocks, results, from, done);
      SplicePrints(content, blocks[1..], results[1..], blocks[0].end,
                   done + Slice(content, from, blocks[0].start) + FormatBlock(blocks[0], results[0]));
    }
  }

  lemma OutsideNil(s: string, from: nat)
    ensures Outside(s, [], from) == [Slice(s, from, |s|)]
  {
  }

  lemma OutsideCons(s: string, b: CodeBlock, blocks: seq<CodeBlock>, from: nat)
    ensures Outside(s, [b] + blocks, from) == [Slice(s, from, b.start)] + Outside(s, blocks, b.end)
  {
    assert ([b] + blocks)[1..] == blocks;
  }

  lemma SliceAll(s: string, i: nat)
    requires i <= |s|
    ensures Slice(s, i, |s|) == s[i..]
  {
  }

  lemma SliceBehind(a: string, b: string)
    ensures Slice(a + b, |a|, |a + b|) == b
  {
  }

  lemma SliceLength(s: string, i: nat, j: nat)
    requires i <= j <= |s|
    ensures |Slice(s, i, j)| == j - i
  {
  }

  lemma SplicePieces(done: string, gap: string, printed: string, tail: string)
    ensures var t := done + (gap + (printed + tail));
      && t == (done + gap + printed) + tail
      && Slice(t, |done|, |done| + |gap|) == gap
      && Slice(t, |done| + |gap|, |done| + |gap| + |printed|) == printed
  {
    Regroup(done, gap, printed, tail);
    Regroup(done, gap, "", printed + tail);
    assert ((done + gap) + (printed + tail))[|done| + |gap|..|done| + |gap| + |printed|] == printed;
  }

  /** The golden blocks of the updated document are the images of the golden blocks. */
  lemma {:induction false} GoldenImages(blocks: seq<CodeBlock>, results: seq<string>, delta: int)
    ensures GoldenBlocks(Images(blocks, results, delta)) == Images(GoldenBlocks(blocks), results, delta)
  {
    hide FormatBlock; hide Golden; hide Images; hide GoldenBlocks; hide Moved;
    ImagesNil(results, delta);
    if blocks != [] {
      var b, rest := blocks[0], blocks[1..];
      assert blocks == [b] + rest;
      ImagesCons(b, rest, results, delta);
      ImagesCons(b, GoldenBlocks(rest), results, delta);
      GoldenCons(b, rest);
      if Golden(b) && results != [] {
        var length := |FormatBlock(b, results[0])|;
        var image := b.(start := Moved(b.start, delta), end := Moved(b.start, delta) + length);
        GoldenImages(rest, results[1..], delta + length - (b.end - b.start));
        GoldenCons(image, Images(rest, results[1..], delta + length - (b.end - b.start)));
        GoldenTags(b, image);
      } else {
        var image := b.(start := Moved(b.start, delta), end := Moved(b.end, delta));
        GoldenImages(rest, results, delta);
        GoldenCons(image, Images(rest, results, delta));
        GoldenTags(b, image);
      }
    }
  }

  lemma ImagesNil(results: seq<string>, delta: int)
    ensures Images([], results, delta) == [] && GoldenBlocks([]) == []
  {
  }

  lemma GoldenTags(b: CodeBlock, c: CodeBlock)
    requires b.tags == c.tags
    ensures Golden(b) == Golden(c)
  {
  }

  lemma {:induction false} GoldenAreGolden(blocks: seq<CodeBlock>)
    ensures forall b | b in GoldenBlocks(blocks) :: Golden(b)
  {
    if blocks != [] {
      GoldenAreGolden(blocks[1..]);
    }
  }

  /** Any update, safe or not, changes nothing outside the replaced blocks, and prints each output where
      the image of its block is. */
  lemma OutsideSurvives(content: string, results: seq<string>)
    ensures var golden := GoldenBlocks(ExtractCodeBlocks(content));
      var k := Least(|golden|, |results|);
      var images := Images(golden, results, 0);
      var t := Update(content, results);
      && k <= |images|
      && Outside(t, images[..k], 0) == Outside(content, golden[..k], 0)
      && (forall i | 0 <= i < k :: Slice(t, images[i].start, images[i].end) == FormatBlock(golden[i], results[i]))
  {
    hide Splice; hide FormatBlock; hide Slice; hide Outside; hide Images; hide Golden;
    var golden := GoldenBlocks(ExtractCodeBlocks(content));
    ExtractInOrder(content, 0);
    GoldenInOrder(ExtractCodeBlocks(content), 0, |content|);
    GoldenAreGolden(ExtractCodeBlocks(content));
    SpliceOutside(content, golden, results, 0, "");
    SplicePrints(content, golden, results, 0, "");
    assert "" + Update(content, results) == Update(content, results);
  }

  lemma RewriteFirst(t: string, output: string)
    requires MatchFence(t).Some? && Golden(BlockOf(MatchFence(t).value, 0))
    ensures var m := MatchFence(t).value;
      Rewrite(t, [output]) == FormatBlock(BlockOf(m, 0), output) + t[m.end..]
  {
    hide MatchFence; hide Golden; hide BlockOf; hide FormatBlock;
    var m := MatchFence(t).value;
    RewriteNothing(t[m.end..]);
    assert [output][1..] == [];
  }

  /** What is printed depends on the command and the tags. */
  lemma PrintsAlike(b: CodeBlock, c: CodeBlock, output: string)
    requires b.command == c.command && b.tags == c.tags
    ensures FormatBlock(b, output) == FormatBlock(c, output) && Golden(b) == Golden(c)
  {
  }

  lemma {:induction false} StripRightSpaces(s: string)
    ensures |StripRight(s)| <= |s| && StripRight(s) == s[..|StripRight(s)|]
    ensures forall i | |StripRight(s)| <= i < |s| :: IsSpace(s[i])
  {
    hide IsSpace;
    if s != "" && IsSpace(s[|s| - 1]) {
      StripRightSpaces(s[..|s| - 1]);
    }
  }

  /** Stripping the front of a trimmed command only takes white space from its end. */
  lemma StripFront(c: string, n: nat)
    requires Trimmed(c) && n <= |c|
    ensures var k := |Strip(c[..n])|;
      k <= n && Strip(c[..n]) == c[..k] && forall i | k <= i < n :: IsSpace(c[i])
  {
    hide IsSpace;
    assert StripLeft(c[..n]) == c[..n];
    StripRightSpaces(c[..n]);
  }

  lemma PrintedChars(b: CodeBlock, output: string, rest: string)
    ensures var t, n, k := FormatBlock(b, output) + rest, |Header(b.tags)| + 1, |b.command|;
      && |t| >= n + k + 5
      && (forall i | 0 <= i < k :: t[n + i] == b.command[i])
      && t[n + k + 1] == '`'
  {
    hide Header; hide COMMENT_OPEN; hide COMMENT_CLOSE;
    PrintThenAppend(b, output, rest);
    var h := Header(b.tags);
    var v := FENCE_CLOSE + (COMMENT_OPEN + (output + ("\n" + (COMMENT_CLOSE + ("\n" + rest)))));
    assert PrintBlock(b, output, rest) == h + ("\n" + (b.command + ("\n" + v)));
    FourParts(h, "\n", b.command, "\n", v);
    assert v[0] == '`';
  }

  /** A command that ends in three backticks is cut there, and printing the rest gives another text. */
  lemma CutCommandDiffers(b: CodeBlock, c: CodeBlock, output: string, rest: string)
    requires Scanned(b) && EndsInFence(b.command) && c.tags == b.tags
    requires c.command == Strip(b.command[..|b.command| - 3])
    ensures CloseOf(b) + 4 <= |FormatBlock(b, output) + rest|
    ensures var t := FormatBlock(b, output) + rest; FormatBlock(c, output) + t[CloseOf(b) + 4..] != t
  {
    hide Header; hide FormatBlock; hide Strip; hide IsSpace; hide Contains; hide COMMENT_CLOSE; hide CommentEnd;
    var t, h, n, k := FormatBlock(b, output) + rest, |Header(b.tags)| + 1, |b.command|, |c.command|;
    NoCommentAfterEarlyFence(b, output, rest);
    PrintThenAppend(b, output, rest);
    PrintThenAppend(c, output, t[CloseOf(b) + 4..]);
    StripFront(b.command, n - 3);
    PrintedChars(b, output, rest);
    PrintedChars(c, output, t[CloseOf(b) + 4..]);
    BacktickIsNoSpace();
    if |FormatBlock(c, output) + t[CloseOf(b) + 4..]| == |t| {
      assert n == k + |output| + 14;
      assert IsSpace(b.command[k + 1]) && t[h + (k + 1)] == b.command[k + 1];
    }
  }

  lemma BacktickIsNoSpace()
    ensures !IsSpace('`')
  {
  }

  /** None of the two conditions on a replaced block can be dropped: for any document that begins with a golden
      block, and one output for it, the second update changes nothing if and only if the output has no comment
      end and the command does not end in three backticks. */
  lemma UpdateTwiceFirstBlock(content: string, output: string)
    requires MatchFence(content).Some? && Golden(BlockOf(MatchFence(content).value, 0))
    ensures var b := BlockOf(MatchFence(content).value, 0);
      Update(Update(content, [output]), [output]) == Update(content, [output])
      <==> !Contains(output, COMMENT_CLOSE) && !EndsInFence(b.command)
  {
    hide MatchFence; hide Golden; hide BlockOf; hide Contains; hide EndsInFence; hide FormatBlock; hide Rewrite; hide Update;
    hide COMMENT_CLOSE; hide Scanned;
    var m := MatchFence(content).value;
    var b := BlockOf(m, 0);
    var rest := content[m.end..];
    var updated := FormatBlock(b, output) + rest;
    UpdateIsRewrite(content, [output]);
    UpdateIsRewrite(updated, [output]);
    BlocksAreScanned(content, m, 0);
    RewriteFirst(content, output);
    SecondUpdate(b, output, rest);
  }

  lemma SecondUpdate(b: CodeBlock, output: string, rest: string)
    requires Scanned(b) && Golden(b)
    ensures var t := FormatBlock(b, output) + rest;
      Rewrite(t, [output]) == t <==> !Contains(output, COMMENT_CLOSE) && !EndsInFence(b.command)
  {
    hide Contains; hide EndsInFence; hide FormatBlock; hide Rewrite; hide MatchFence; hide Golden; hide BlockOf;
    hide COMMENT_CLOSE; hide Scanned;
    var t := FormatBlock(b, output) + rest;
    PrintedBlockParses(b, output, rest, 0);
    var m := MatchFence(t).value;
    var c := BlockOf(m, 0);
    if EndsInFence(b.command) {
      CutBlock(b, output, rest);
      PrintsAlikeTags(b, c);
      RewriteFirst(t, output);
      CutCommandDiffers(b, c, output, rest);
    } else {
      PrintsAlike(b, c, output);
      RewriteFirst(t, output);
      SameLengthAgain(FormatBlock(b, output), rest, m.end);
    }
  }

  lemma PrintsAlikeTags(b: CodeBlock, c: CodeBlock)
    ensures b.tags == c.tags ==> Golden(b) == Golden(c)
  {
  }

  lemma SameLengthAgain(printed: string, rest: string, end: nat)
    requires end <= |printed + rest|
    ensures printed + (printed + rest)[end..] == printed + rest <==> end == |printed|
  {
    assert end == |printed| ==> (printed + rest)[end..] == rest;
  }

  lemma CutBlock(b: CodeBlock, output: string, rest: string)
    requires Scanned(b) && EndsInFence(b.command)
    ensures MatchFence(FormatBlock(b, output) + rest).Some? && |b.command| >= 3
    ensures var m := MatchFence(FormatBlock(b, output) + rest).value;
      && m.end == CloseOf(b) + 4
      && BlockOf(m, 0).tags == b.tags && BlockOf(m, 0).command == Strip(b.command[..|b.command| - 3])
  {
    hide Header; hide FormatBlock; hide MatchFence; hide CommentEnd; hide Words; hide SortedSet; hide Strip; hide Contains;
    PrintedMatch(b, output, rest);
    NoCommentAfterEarlyFence(b, output, rest);
    assert (b.command + "\n")[..|b.command| - 3] == b.command[..|b.command| - 3];
  }
}
