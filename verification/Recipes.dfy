/** The recipe document engine: the Markdown scanner, the block printer, the splicing rewriter
    and the modes of tools/recipes.py. */
module Recipes {
  import opened Text

  const FENCE_OPEN := "```shell"
  const FENCE_CLOSE := "```\n"
  const COMMENT_OPEN := "<!--\n"
  const COMMENT_CLOSE := "-->"

  /** A set of tags is kept as its sorted list, so two tag sets are equal exactly when the lists are. */
  datatype CodeBlock = CodeBlock(command: string, start: nat, end: nat, tags: seq<string>)

  // ----- the scanner -----

  /** One match of the block pattern at the front of a text: the rest of the opening line, the
      body, where the closing fence ends, and where the match ends (after an optional comment). */
  datatype FenceMatch = FenceMatch(info: string, body: string, fenceEnd: nat, end: nat)

  /** The pattern is anchored at the front of "s".  The info part cannot cross a line feed, and the
      body and the comment are lazy, so each ends at a first occurrence. */
  function MatchFence(s: string): (r: Option<FenceMatch>)
    ensures r.Some? ==> 13 <= r.value.fenceEnd <= r.value.end <= |s|
  {
    if !At(s, 0, FENCE_OPEN) then None
    else match Find(s, "\n", 8)
      case None => None
      case Some(nl) =>
        match Find(s, FENCE_CLOSE, nl + 1)
        case None => None
        case Some(close) => Some(FenceMatch(s[8..nl], s[nl + 1..close], close + 4, CommentEnd(s, close + 4)))
  }

  /** The optional group: a comment that opens right here and is closed somewhere later. */
  function CommentEnd(s: string, from: nat): (end: nat)
    requires from <= |s|
    ensures from <= end <= |s|
  {
    if !At(s, from, COMMENT_OPEN) then from
    else match Find(s, COMMENT_CLOSE, from + 5)
      case None => from
      case Some(a) => if At(s, a + 3, "\n") then a + 4 else a + 3
  }

  function BlockOf(m: FenceMatch, offset: nat): CodeBlock {
    CodeBlock(Strip(m.body), offset, offset + m.end, SortedSet(Words(Strip(m.info))))
  }

  /** finditer: leftmost matches, each search going on where the previous match ended.
      "s" is the text from position "offset" on. */
  function Extract(s: string, offset: nat): seq<CodeBlock>
    decreases |s|
  {
    if s == "" then []
    else match MatchFence(s)
      case None => Extract(s[1..], offset + 1)
      case Some(m) => [BlockOf(m, offset)] + Extract(s[m.end..], offset + m.end)
  }

  function ExtractCodeBlocks(content: string): seq<CodeBlock> {
    Extract(content, 0)
  }

  // ----- the printer and the rewriter -----

  /** The printed opening line, without its line feed. */
  function Header(tags: seq<string>): string {
    FENCE_OPEN + (if tags == [] then "" else " " + Join(tags, ' '))
  }

  /** A printed block with the text "rest" behind it. */
  function PrintBlock(b: CodeBlock, output: string, rest: string): string {
    Header(b.tags) + ("\n" + (b.command + ("\n" + (FENCE_CLOSE +
      (COMMENT_OPEN + (output + ("\n" + (COMMENT_CLOSE + ("\n" + rest)))))))))
  }

  function FormatBlock(b: CodeBlock, output: string): string {
    PrintBlock(b, output, "")
  }

  /** s[i:j] in Python: bounds beyond the end are clamped. */
  function Slice(s: string, i: nat, j: nat): string {
    if j <= i || |s| <= i then "" else s[i..if j <= |s| then j else |s|]
  }

  /** What the rewriting loop still has to emit once everything before "last" is written. */
  function Splice(content: string, blocks: seq<CodeBlock>, results: seq<string>, last: nat): string
    decreases blocks
  {
    if blocks == [] || results == [] then Slice(content, last, |content|)
    else
      Slice(content, last, blocks[0].start)
      + (FormatBlock(blocks[0], results[0]) + Splice(content, blocks[1..], results[1..], blocks[0].end))
  }

  method ReconstructContent(content: string, blocks: seq<CodeBlock>, results: seq<string>)
    returns (newContent: string)
    ensures newContent == Splice(content, blocks, results, 0)
  {
    hide FormatBlock;
    var lastPos := 0;
    newContent := "";
    var i := 0;
    while i < |blocks| && i < |results|
      invariant 0 <= i <= |blocks| && i <= |results|
      invariant newContent + Splice(content, blocks[i..], results[i..], lastPos) == Splice(content, blocks, results, 0)
    {
      assert blocks[i..][1..] == blocks[i + 1..] && results[i..][1..] == results[i + 1..];
      var gap, printed := Slice(content, lastPos, blocks[i].start), FormatBlock(blocks[i], results[i]);
      Regroup(newContent, gap, printed, Splice(content, blocks[i + 1..], results[i + 1..], blocks[i].end));
      newContent := newContent + gap + printed;
      lastPos := blocks[i].end;
      i := i + 1;
    }
    newContent := newContent + Slice(content, lastPos, |content|);
  }

  lemma Regroup(a: string, b: string, c: string, d: string)
    ensures (a + b + c) + d == a + (b + (c + d)) && (a + b) + d == a + (b + d)
  {
  }

  /** The blocks lie in order between "from" and "to". */
  ghost predicate InOrder(blocks: seq<CodeBlock>, from: nat, to: nat)
    decreases blocks
  {
    if blocks == [] then from <= to
    else from <= blocks[0].start <= blocks[0].end && InOrder(blocks[1..], blocks[0].end, to)
  }

  /** The blocks that carry golden output. */
  predicate Golden(b: CodeBlock) {
    "#golden" in b.tags
  }

  function GoldenBlocks(blocks: seq<CodeBlock>): seq<CodeBlock> {
    if blocks == [] then []
    else (if Golden(blocks[0]) then [blocks[0]] else []) + GoldenBlocks(blocks[1..])
  }

  /** Reference definition of an update: walk the text once; replace each golden block as long as
      results last, and copy every other character. */
  function Rewrite(s: string, results: seq<string>): string
    decreases |s|
  {
    if s == "" then ""
    else match MatchFence(s)
      case None => [s[0]] + Rewrite(s[1..], results)
      case Some(m) =>
        if Golden(BlockOf(m, 0)) && results != [] then
          FormatBlock(BlockOf(m, 0), results[0]) + Rewrite(s[m.end..], results[1..])
        else
          s[..m.end] + Rewrite(s[m.end..], results)
  }

  lemma {:induction false} ExtractInOrder(s: string, offset: nat)
    ensures InOrder(Extract(s, offset), offset, offset + |s|)
    decreases |s|
  {
    if s != "" {
      match MatchFence(s) {
        case None =>
          ExtractInOrder(s[1..], offset + 1);
          InOrderWiden(Extract(s[1..], offset + 1), offset, offset + 1, offset + |s|);
        case Some(m) =>
          ExtractInOrder(s[m.end..], offset + m.end);
          InOrderCons(BlockOf(m, offset), Extract(s[m.end..], offset + m.end), offset, offset + |s|);
      }
    }
  }

  lemma {:induction false} GoldenInOrder(blocks: seq<CodeBlock>, from: nat, to: nat)
    requires InOrder(blocks, from, to)
    ensures InOrder(GoldenBlocks(blocks), from, to)
  {
    if blocks != [] {
      GoldenInOrder(blocks[1..], blocks[0].end, to);
      assert blocks == [blocks[0]] + blocks[1..];
      GoldenCons(blocks[0], blocks[1..]);
      InOrderCons(blocks[0], GoldenBlocks(blocks[1..]), from, to);
      InOrderWiden(GoldenBlocks(blocks[1..]), from, blocks[0].end, to);
    }
  }

  lemma InOrderCons(b: CodeBlock, blocks: seq<CodeBlock>, from: nat, to: nat)
    requires from <= b.start <= b.end && InOrder(blocks, b.end, to)
    ensures InOrder([b] + blocks, from, to)
  {
    assert ([b] + blocks)[1..] == blocks;
  }

  lemma InOrderWiden(blocks: seq<CodeBlock>, from: nat, from': nat, to: nat)
    requires from <= from' && InOrder(blocks, from', to)
    ensures InOrder(blocks, from, to)
  {
  }

  lemma GoldenCons(b: CodeBlock, blocks: seq<CodeBlock>)
    ensures GoldenBlocks([b] + blocks) == if Golden(b) then [b] + GoldenBlocks(blocks) else GoldenBlocks(blocks)
  {
    assert ([b] + blocks)[1..] == blocks;
  }

  lemma SpliceCons(content: string, b: CodeBlock, blocks: seq<CodeBlock>, results: seq<string>)
    requires results != []
    ensures Splice(content, [b] + blocks, results, b.start)
         == FormatBlock(b, results[0]) + Splice(content, blocks, results[1..], b.end)
  {
    assert ([b] + blocks)[1..] == blocks;
    assert Slice(content, b.start, b.start) == "";
  }

  lemma SpliceNothing(content: string, s: string, results: seq<string>, last: nat)
    requires (s == "" || results == []) && last <= |content|
    ensures Splice(content, GoldenBlocks(Extract(s, last)), results, last) == content[last..]
  {
  }

  /** Text in front of the next block is copied. */
  lemma SpliceGap(content: string, blocks: seq<CodeBlock>, results: seq<string>, last: nat, next: nat)
    requires last <= next && InOrder(blocks, next, |content|)
    ensures next <= |content|
    ensures Splice(content, blocks, results, last) == content[last..next] + Splice(content, blocks, results, next)
  {
    hide FormatBlock;
    InOrderEnd(blocks, next, |content|);
    if blocks == [] || results == [] {
      SliceSplit(content, last, next, |content|);
    } else {
      InOrderEnd(blocks[1..], blocks[0].end, |content|);
      SliceSplit(content, last, next, blocks[0].start);
      Regroup(content[last..next], Slice(content, next, blocks[0].start), "",
              FormatBlock(blocks[0], results[0]) + Splice(content, blocks[1..], results[1..], blocks[0].end));
    }
  }

  lemma SliceSplit(s: string, i: nat, k: nat, j: nat)
    requires i <= k <= j <= |s|
    ensures Slice(s, i, j) == s[i..k] + Slice(s, k, j)
  {
  }

  lemma {:induction false} InOrderEnd(blocks: seq<CodeBlock>, from: nat, to: nat)
    requires InOrder(blocks, from, to)
    ensures from <= to
    decreases blocks
  {
    if blocks != [] {
      InOrderEnd(blocks[1..], blocks[0].end, to);
    }
  }

  /** Splicing the golden blocks is the reference update. */
  lemma {:induction false} SpliceIsRewrite(content: string, offset: nat, results: seq<string>)
    requires offset <= |content|
    ensures InOrder(GoldenBlocks(Extract(content[offset..], offset)), offset, |content|)
    ensures Splice(content, GoldenBlocks(Extract(content[offset..], offset)), results, offset)
         == Rewrite(content[offset..], results)
    decreases |content| - offset
  {
    hide FormatBlock; hide MatchFence; hide Splice; hide Golden; hide BlockOf; hide GoldenBlocks; hide Extract; hide Rewrite; hide InOrder;
    var s := content[offset..];
    ExtractInOrder(s, offset);
    GoldenInOrder(Extract(s, offset), offset, |content|);
    if results == [] || s == "" {
      RewriteNothing(s);
      RewriteEmpty(results);
      SpliceNothing(content, s, results, offset);
    } else {
      match MatchFence(s) {
        case None =>
          assert s[1..] == content[offset + 1..];
          SkipStep(s, results, offset);
          SpliceIsRewrite(content, offset + 1, results);
          SpliceGap(content, GoldenBlocks(Extract(s[1..], offset + 1)), results, offset, offset + 1);
          assert content[offset..offset + 1] == [s[0]];
        case Some(m) =>
          var b := BlockOf(m, offset);
          var rest := Extract(s[m.end..], b.end);
          BlockShift(m, offset);
          assert s[m.end..] == content[b.end..];
          ScanStep(s, results, m, offset);
          GoldenCons(b, rest);
          if Golden(b) {
            SpliceIsRewrite(content, b.end, results[1..]);
            SpliceCons(content, b, GoldenBlocks(rest), results);
          } else {
            SpliceIsRewrite(content, b.end, results);
            SpliceGap(content, GoldenBlocks(rest), results, offset, b.end);
            assert content[offset..b.end] == s[..m.end];
          }
      }
    }
  }

  lemma BlockShift(m: FenceMatch, offset: nat)
    ensures Golden(BlockOf(m, offset)) == Golden(BlockOf(m, 0))
    ensures forall o :: FormatBlock(BlockOf(m, offset), o) == FormatBlock(BlockOf(m, 0), o)
    ensures BlockOf(m, offset).start == offset && BlockOf(m, offset).end == offset + m.end
    ensures BlockOf(m, offset).command == BlockOf(m, 0).command
  {
  }

  lemma SkipStep(s: string, results: seq<string>, offset: nat)
    requires s != "" && MatchFence(s).None?
    ensures Extract(s, offset) == Extract(s[1..], offset + 1) && Rewrite(s, results) == [s[0]] + Rewrite(s[1..], results)
  {
    hide MatchFence;
  }

  lemma ScanStep(s: string, results: seq<string>, m: FenceMatch, offset: nat)
    requires MatchFence(s) == Some(m)
    ensures s != "" && Extract(s, offset) == [BlockOf(m, offset)] + Extract(s[m.end..], offset + m.end)
    ensures Rewrite(s, results) ==
            if Golden(BlockOf(m, offset)) && results != [] then
              FormatBlock(BlockOf(m, offset), results[0]) + Rewrite(s[m.end..], results[1..])
            else s[..m.end] + Rewrite(s[m.end..], results)
  {
    hide MatchFence; hide FormatBlock; hide Golden; hide BlockOf;
    BlockShift(m, offset);
  }

  lemma RewriteEmpty(results: seq<string>)
    ensures Rewrite("", results) == ""
  {
  }

  lemma {:induction false} RewriteNothing(s: string)
    ensures Rewrite(s, []) == s
    decreases |s|
  {
    if s != "" {
      match MatchFence(s) {
        case None => RewriteNothing(s[1..]);
        case Some(m) => RewriteNothing(s[m.end..]);
      }
    }
  }
}
