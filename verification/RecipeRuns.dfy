/** Whole runs of tools/recipes.py: the script that is built, the log that is cut into outputs, and
    what the three modes do to a recipe file. */
module RecipeRuns {
  import opened Text
  import opened Recipes
  import opened RecipesFixpoint

  // ----- the log -----

  const START_MARKER := "XPK_RECIPE_EXECUTOR_BLOCK_START"
  const END_MARKER := "XPK_RECIPE_EXECUTOR_BLOCK_END"

  /** The outputs found in the log from "pos" on, and whether the log stops inside a block. */
  function ParseLog(log: string, pos: nat): (seq<string>, bool)
    decreases |log| - pos
  {
    match Find(log, START_MARKER, pos)
    case None => ([], false)
    case Some(start) =>
      var bodyStart := start + |START_MARKER|;
      match Find(log, END_MARKER, bodyStart)
      case None => ([Strip(log[bodyStart..])], true)
      case Some(end) =>
        var (results, failed) := ParseLog(log, end + |END_MARKER|);
        ([Strip(log[bodyStart..end])] + results, failed)
  }

  method ExtractScriptOutputs(output: string) returns (results: seq<string>, failed: bool)
    ensures (results, failed) == ParseLog(output, 0)
  {
    hide Find; hide Strip; hide START_MARKER; hide END_MARKER;
    MarkersUnbordered();
    results := [];
    var currentPos := 0;
    while true
      invariant results + ParseLog(output, currentPos).0 == ParseLog(output, 0).0
      invariant ParseLog(output, currentPos).1 == ParseLog(output, 0).1
      decreases |output| - currentPos
    {
      var startIdx := Find(output, START_MARKER, currentPos);
      if startIdx.None? {
        assert results + [] == results;
        return results, false;
      }
      var contentStart := startIdx.value + |START_MARKER|;
      var endIdx := Find(output, END_MARKER, contentStart);
      if endIdx.None? {
        return results + [Strip(output[contentStart..])], true;
      }
      var next := endIdx.value + |END_MARKER|;
      var found := Strip(output[contentStart..endIdx.value]);
      assert (results + [found]) + ParseLog(output, next).0 == results + ([found] + ParseLog(output, next).0);
      results := results + [found];
      currentPos := next;
    }
  }

  /** One executed block: what is printed before its start marker, and its body. */
  datatype Section = Section(noise: string, body: string)

  /** A log: complete blocks, then either noise only or noise and a block that is cut short. */
  datatype Log = Log(sections: seq<Section>, tail: string, cut: Option<string>)

  function Render(l: Log): string
    decreases |l.sections|
  {
    if l.sections == [] then
      l.tail + (match l.cut case None => "" case Some(body) => START_MARKER + body)
    else
      l.sections[0].noise + (START_MARKER + (l.sections[0].body + (END_MARKER + Render(l.(sections := l.sections[1..])))))
  }

  /** Noise contains no start marker, bodies contain no end marker. */
  ghost predicate Clean(l: Log) {
    && (forall s | s in l.sections :: !Contains(s.noise, START_MARKER) && !Contains(s.body, END_MARKER))
    && !Contains(l.tail, START_MARKER)
    && (l.cut.Some? ==> !Contains(l.cut.value, END_MARKER))
  }

  function Bodies(l: Log): seq<string>
    decreases |l.sections|
  {
    if l.sections == [] then (match l.cut case None => [] case Some(body) => [Strip(body)])
    else [Strip(l.sections[0].body)] + Bodies(l.(sections := l.sections[1..]))
  }

  /** A marker has no proper prefix that is also a suffix, so it cannot begin inside the text in front of it. */
  ghost predicate Unbordered(p: string) {
    forall n: nat | 0 < n < |p| :: p[..n] != p[|p| - n..]
  }

  lemma MarkersUnbordered()
    ensures Unbordered(START_MARKER) && Unbordered(END_MARKER)
    ensures |START_MARKER| == 31 && |END_MARKER| == 29
  {
    LettersDiffer(START_MARKER, 'X', 12);
    LettersDiffer(END_MARKER, 'X', 12);
  }

  /** The first letter recurs only at "k", and there the next letter is wrong. */
  lemma LettersDiffer(p: string, c: char, k: nat)
    requires |p| > k + 1 && p[0] == c && p[1] != p[k + 1]
    requires forall i | 0 < i < |p| && i != k :: p[i] != c
    ensures Unbordered(p)
  {
    forall n: nat | 0 < n < |p| ensures p[..n] != p[|p| - n..] {
      assert p[..n][0] == c && p[|p| - n..][0] == p[|p| - n];
      if |p| - n == k {
        assert p[..n][1] == p[1] && p[|p| - n..][1] == p[k + 1];
      }
    }
  }

  /** Behind text that does not contain it, an unbordered marker is first found where it was written. */
  lemma FindMarker(front: string, p: string, rest: string)
    requires !Contains(front, p) && Unbordered(p) && p != ""
    ensures Find(front + (p + rest), p, 0) == Some(|front|)
  {
    hide Find;
    var t := front + (p + rest);
    AtPrefix(p, rest);
    AtShift(front, p + rest, 0, p);
    forall j: nat | j < |front| ensures !At(t, j, p) {
      if At(t, j, p) {
        if j + |p| > |front| {
          Border(front, p, rest, j);
        } else {
          assert t[..|front|] == front == front[..|front|];
          AtAgree(front, t, j, p, |front|);
        }
      }
    }
    FindIs(t, p, 0, |front|);
  }

  /** Two overlapping occurrences make a border. */
  lemma Border(front: string, p: string, rest: string, j: nat)
    requires j < |front| < j + |p| && At(front + (p + rest), j, p)
    ensures var n := j + |p| - |front|; p[..n] == p[|p| - n..]
  {
    var t := front + (p + rest);
    var n := j + |p| - |front|;
    forall k | 0 <= k < n ensures p[k] == p[|p| - n + k] {
      assert t[j..j + |p|][|p| - n + k] == t[|front| + k] == p[k];
    }
  }

  /** One block of the log, or its end. */
  lemma ParseStep(log: string, pos: nat)
    ensures var start := Find(log, START_MARKER, pos);
      start.None? ==> ParseLog(log, pos) == ([], false)
    ensures var start := Find(log, START_MARKER, pos);
      start.Some? ==>
        var bodyStart := start.value + |START_MARKER|;
        var end := Find(log, END_MARKER, bodyStart);
        bodyStart <= |log|
        && (end.None? ==> ParseLog(log, pos) == ([Strip(log[bodyStart..])], true))
        && (end.Some? ==>
              var next := end.value + |END_MARKER|;
              end.value <= next <= |log| && |END_MARKER| > 0
              && ParseLog(log, pos) == ([Strip(log[bodyStart..end.value])] + ParseLog(log, next).0, ParseLog(log, next).1))
  {
    hide Find; hide Strip; hide START_MARKER; hide END_MARKER; hide Unbordered;
    MarkersUnbordered();
  }

  /** The position only matters for where the search starts. */
  lemma {:induction false} ParseLogShift(front: string, rest: string, pos: nat)
    ensures ParseLog(front + rest, |front| + pos) == ParseLog(rest, pos)
    decreases |rest| - pos
  {
    hide Find; hide Strip; hide START_MARKER; hide END_MARKER; hide At; hide ParseLog;
    var t := front + rest;
    ParseStep(t, |front| + pos);
    ParseStep(rest, pos);
    FindShift(front, rest, START_MARKER, pos);
    if Find(rest, START_MARKER, pos).Some? {
      var bodyStart := Find(rest, START_MARKER, pos).value + |START_MARKER|;
      FindShift(front, rest, END_MARKER, bodyStart);
      if Find(rest, END_MARKER, bodyStart).Some? {
        var end := Find(rest, END_MARKER, bodyStart).value;
        SliceShift(front, rest, bodyStart, end);
        ParseLogShift(front, rest, end + |END_MARKER|);
      } else {
        SliceShift(front, rest, bodyStart, |rest|);
      }
    }
  }

  lemma SliceShift(front: string, rest: string, i: nat, j: nat)
    requires i <= j <= |rest|
    ensures (front + rest)[|front| + i..|front| + j] == rest[i..j]
    ensures (front + rest)[|front| + i..] == rest[i..]
  {
  }

  lemma ParseCutBlock(noise: string, body: string)
    requires !Contains(noise, START_MARKER) && !Contains(body, END_MARKER)
    ensures ParseLog(noise + (START_MARKER + body), 0) == ([Strip(body)], true)
  {
    hide Find; hide Strip; hide START_MARKER; hide END_MARKER; hide Unbordered; hide Contains;
    MarkersUnbordered();
    FindMarker(noise, START_MARKER, body);
    var front := noise + START_MARKER;
    Regroup(noise, START_MARKER, "", body);
    assert (front + body)[|front|..] == body;
    FindShift(front, body, END_MARKER, 0);
    FindAbsent(body, END_MARKER, 0);
  }

  lemma ParseBlock(noise: string, body: string, rest: string)
    requires !Contains(noise, START_MARKER) && !Contains(body, END_MARKER)
    ensures var t := noise + (START_MARKER + (body + (END_MARKER + rest)));
      ParseLog(t, 0) == ([Strip(body)] + ParseLog(rest, 0).0, ParseLog(rest, 0).1)
  {
    hide Find; hide Strip; hide START_MARKER; hide END_MARKER; hide Unbordered; hide Contains;
    MarkersUnbordered();
    var v := body + (END_MARKER + rest);
    var front := noise + START_MARKER;
    FindMarker(noise, START_MARKER, v);
    FindMarker(body, END_MARKER, rest);
    Regroup(noise, START_MARKER, "", v);
    FindShift(front, v, END_MARKER, 0);
    SplitSection(front, body, END_MARKER, rest);
    ParseLogShift(front + body + END_MARKER, rest, 0);
  }

  /** Parsing a clean log gives the stripped bodies in order, and "failed" exactly when a block is cut. */
  lemma {:induction false} ParseOfRender(l: Log)
    requires Clean(l)
    ensures ParseLog(Render(l), 0) == (Bodies(l), l.cut.Some?)
    decreases |l.sections|
  {
    hide Find; hide Strip; hide START_MARKER; hide END_MARKER; hide Contains; hide ParseLog;
    if l.sections == [] {
      match l.cut {
        case None => ParseNoBlock(l.tail);
        case Some(body) => ParseCutBlock(l.tail, body);
      }
    } else {
      var s := l.sections[0];
      var l' := l.(sections := l.sections[1..]);
      assert s in l.sections;
      ParseOfRender(l');
      ParseBlock(s.noise, s.body, Render(l'));
    }
  }

  lemma ParseNoBlock(noise: string)
    requires !Contains(noise, START_MARKER)
    ensures ParseLog(noise + "", 0) == ([], false)
  {
    assert noise + "" == noise;
    FindAbsent(noise, START_MARKER, 0);
  }

  lemma SplitSection(front: string, body: string, p: string, rest: string)
    ensures var t := front + (body + (p + rest));
      && t[|front|..|front| + |body|] == body
      && t == (front + body + p) + rest
  {
    Regroup(front, body, p, rest);
  }

  lemma FindAbsent(s: string, p: string, from: nat)
    requires !Contains(s, p)
    ensures Find(s, p, from).None?
  {
    forall j: nat | from <= j ensures !At(s, j, p) {
      if j <= |s| {
        assert !At(s, j, p);
      }
    }
    FindNone(s, p, from);
  }

  /** Every log is the rendering of a clean one, so the theorem above describes every run. */
  lemma {:induction false} EveryLogIsClean(log: string) returns (l: Log)
    ensures Clean(l) && Render(l) == log
    decreases |log|
  {
    hide Strip; hide START_MARKER; hide END_MARKER; hide Unbordered; hide Find; hide Render;
    MarkersUnbordered();
    match Find(log, START_MARKER, 0) {
      case None =>
        l := Log([], log, None);
        RenderTail(l);
        assert log + "" == log;
      case Some(start) =>
        NoEarlier(log, START_MARKER, start);
        var noise, after := log[..start], log[start + |START_MARKER|..];
        assert log == noise + (START_MARKER + after);
        match Find(after, END_MARKER, 0) {
          case None =>
            l := Log([], noise, Some(after));
            RenderTail(l);
          case Some(end) =>
            NoEarlier(after, END_MARKER, end);
            var body := after[..end];
            var l' := EveryLogIsClean(after[end + |END_MARKER|..]);
            assert after == body + (END_MARKER + Render(l'));
            l := l'.(sections := [Section(noise, body)] + l'.sections);
            RenderHead(Section(noise, body), l');
        }
    }
  }

  lemma NoEarlier(s: string, p: string, k: nat)
    requires Find(s, p, 0) == Some(k) && p != ""
    ensures !Contains(s[..k], p)
  {
    forall j: nat | j <= k ensures !At(s[..k], j, p) {
      if At(s[..k], j, p) {
        AtSlice(s, 0, k, j, p);
      }
    }
  }

  lemma RenderTail(l: Log)
    requires l.sections == []
    ensures Render(l) == l.tail + (match l.cut case None => "" case Some(body) => START_MARKER + body)
  {
  }

  lemma RenderHead(s: Section, l: Log)
    ensures Render(l.(sections := [s] + l.sections)) == s.noise + (START_MARKER + (s.body + (END_MARKER + Render(l))))
  {
    hide START_MARKER; hide END_MARKER;
    assert ([s] + l.sections)[1..] == l.sections;
  }

  // ----- the script -----

  datatype Mode = GoldenMode | UpdateMode | RunMode

  const DRY_RUN_WRAPPER := "\n" + "        xpk() {\n            command xpk \"$@\" --dry-run\n        }\n        export -f xpk\n        "

  /** Each single quote becomes quote, backslash, quote, quote. */
  function EscapeQuotes(s: string): string {
    if s == "" then "" else (if s[0] == '\'' then "'\\''" else [s[0]]) + EscapeQuotes(s[1..])
  }

  function BlockScripts(blocks: seq<CodeBlock>): seq<string> {
    if blocks == [] then []
    else
      ["echo '" + START_MARKER + "'", "echo '$ " + EscapeQuotes(blocks[0].command) + "'", blocks[0].command,
       "echo '" + END_MARKER + "'"] + BlockScripts(blocks[1..])
  }

  /** What comes before the commands: the error mode, and for golden and update runs the dry-run wrapper. */
  function Preamble(mode: Mode): seq<string> {
    if mode.RunMode? then ["set -e"] else ["set -e", DRY_RUN_WRAPPER]
  }

  function Parts(blocks: seq<CodeBlock>, mode: Mode): seq<string> {
    Preamble(mode) + BlockScripts(blocks)
  }

  function BuildScript(blocks: seq<CodeBlock>, mode: Mode): string {
    Join(Parts(blocks, mode), '\n')
  }

  /** The parts of a script by position: the error mode, the wrapper unless commands are really run, and then for
      each block the start marker, the command to be shown, the command, and the end marker. */
  lemma {:induction false} ScriptShape(blocks: seq<CodeBlock>, mode: Mode)
    ensures var parts, first := Parts(blocks, mode), if mode.RunMode? then 1 else 2;
      && |parts| == first + 4 * |blocks| && parts[0] == "set -e" && (!mode.RunMode? ==> parts[1] == DRY_RUN_WRAPPER)
      && forall k | 0 <= k < |blocks| :: BlockAt(parts, first + 4 * k, blocks[k])
  {
    hide EscapeQuotes; hide DRY_RUN_WRAPPER; hide START_MARKER; hide END_MARKER;
    var first := if mode.RunMode? then 1 else 2;
    forall k | 0 <= k < |blocks| ensures 4 * k + 3 < |BlockScripts(blocks)| && BlockAt(BlockScripts(blocks), 4 * k, blocks[k]) {
      BlockScriptsAt(blocks, k);
    }
    BlockScriptsLength(blocks);
    assert forall n | first <= n < first + |BlockScripts(blocks)| :: Parts(blocks, mode)[n] == BlockScripts(blocks)[n - first];
  }

  predicate BlockAt(parts: seq<string>, n: nat, b: CodeBlock) {
    && n + 3 < |parts|
    && parts[n] == "echo '" + START_MARKER + "'" && parts[n + 1] == "echo '$ " + EscapeQuotes(b.command) + "'"
    && parts[n + 2] == b.command && parts[n + 3] == "echo '" + END_MARKER + "'"
  }

  lemma {:induction false} BlockScriptsLength(blocks: seq<CodeBlock>)
    ensures |BlockScripts(blocks)| == 4 * |blocks|
  {
    hide EscapeQuotes; hide START_MARKER; hide END_MARKER;
    if blocks != [] {
      BlockScriptsLength(blocks[1..]);
    }
  }

  lemma {:induction false} BlockScriptsAt(blocks: seq<CodeBlock>, k: nat)
    requires k < |blocks|
    ensures BlockAt(BlockScripts(blocks), 4 * k, blocks[k])
  {
    hide EscapeQuotes; hide START_MARKER; hide END_MARKER;
    if k > 0 {
      BlockScriptsAt(blocks[1..], k - 1);
      assert forall n | 4 <= n < |BlockScripts(blocks)| :: BlockScripts(blocks)[n] == BlockScripts(blocks[1..])[n - 4];
    }
  }

  lemma {:induction false} ScriptNeedsCommandsOnly(a: seq<CodeBlock>, b: seq<CodeBlock>)
    requires |a| == |b| && forall i | 0 <= i < |a| :: a[i].command == b[i].command
    ensures BlockScripts(a) == BlockScripts(b)
  {
    hide EscapeQuotes; hide START_MARKER; hide END_MARKER;
    if a != [] {
      ScriptNeedsCommandsOnly(a[1..], b[1..]);
    }
  }

  // ----- whole runs -----

  function Selected(content: string, mode: Mode): seq<CodeBlock> {
    if mode.RunMode? then ExtractCodeBlocks(content) else GoldenBlocks(ExtractCodeBlocks(content))
  }

  /** The outputs of a run; "run" stands for the shell, which answers each script with a log. */
  function Outputs(content: string, mode: Mode, run: string -> string): (seq<string>, bool) {
    ParseLog(run(BuildScript(Selected(content, mode), mode)), 0)
  }

  class RecipeFile {
    var content: string

    constructor (text: string)
      ensures content == text
    {
      content := text;
    }

    /** process_file: what is written back, and whether the run passes. */
    method Process(mode: Mode, run: string -> string) returns (passed: bool)
      modifies this
      ensures mode.UpdateMode? ==> passed && content == Update(old(content), Outputs(old(content), mode, run).0)
      ensures !mode.UpdateMode? ==> content == old(content)
      ensures mode.GoldenMode? ==> (passed <==> Update(content, Outputs(content, mode, run).0) == content)
      ensures mode.RunMode? ==> (passed <==> !Outputs(content, mode, run).1)
    {
      hide Splice; hide Extract; hide ParseLog; hide BuildScript;
      var blocks := Selected(content, mode);
      var results, failed := ExtractScriptOutputs(run(BuildScript(blocks, mode)));
      if mode.RunMode? {
        return !failed;
      }
      var newContent := ReconstructContent(content, blocks, results);
      if mode.UpdateMode? {
        content := newContent;
        return true;
      }
      return content == newContent;
    }
  }

  /** After a safe update the same script is built again, so it gives the same outputs. */
  lemma UpdateKeepsOutputs(content: string, run: string -> string)
    requires Safe(content, ExtractCodeBlocks(content), Outputs(content, UpdateMode, run).0)
    ensures var results := Outputs(content, UpdateMode, run).0;
      Outputs(Update(content, results), GoldenMode, run) == Outputs(content, UpdateMode, run)
  {
    hide Update; hide ParseLog; hide Safe; hide Images; hide GoldenBlocks; hide DRY_RUN_WRAPPER; hide Join; hide Extract;
    var results := Outputs(content, UpdateMode, run).0;
    var blocks := ExtractCodeBlocks(content);
    UpdateStable(content, results);
    GoldenImages(blocks, results, 0);
    ImagesSame(GoldenBlocks(blocks), results, 0);
    ScriptNeedsCommandsOnly(GoldenBlocks(blocks), Images(GoldenBlocks(blocks), results, 0));
  }

  /** Updating a recipe and then verifying it with the same shell passes, and updating it again
      changes nothing. */
  lemma UpdateThenVerify(content: string, run: string -> string)
    requires Safe(content, ExtractCodeBlocks(content), Outputs(content, UpdateMode, run).0)
    ensures var updated := Update(content, Outputs(content, UpdateMode, run).0);
      && Update(updated, Outputs(updated, GoldenMode, run).0) == updated
      && Update(updated, Outputs(updated, UpdateMode, run).0) == updated
  {
    hide Update; hide Safe; hide ExtractCodeBlocks; hide ParseLog; hide GoldenBlocks;
    UpdateKeepsOutputs(content, run);
    UpdateFixpoint(content, Outputs(content, UpdateMode, run).0);
  }

  // ----- the script and the log -----

  /** How a shell reads a word of single-quoted pieces and escaped characters, from inside a quote on; None for
      anything else. */
  function InQuote(s: string): Option<string>
    decreases |s|
  {
    if s == "" then None
    else if s[0] == '\'' then OutOfQuote(s[1..])
    else Prepend(s[0], InQuote(s[1..]))
  }

  function OutOfQuote(s: string): Option<string>
    decreases |s|
  {
    if s == "" then Some("")
    else if s[0] == '\'' then InQuote(s[1..])
    else if s[0] == '\\' && |s| >= 2 then Prepend(s[1], OutOfQuote(s[2..]))
    else None
  }

  function Prepend(c: char, rest: Option<string>): Option<string> {
    match rest case None => None case Some(w) => Some([c] + w)
  }

  /** The text that an echo line prints; None for any other part of a script. */
  function EchoText(part: string): Option<string> {
    if |part| >= 6 && part[..6] == "echo '" then InQuote(part[6..]) else None
  }

  /** What a part of the script prints, and whether it succeeds.  A shell answers echo lines with their text;
      "sh" answers all other parts, by their number in the script. */
  function AnswerTo(sh: (nat, string) -> (string, bool), n: nat, part: string): (string, bool) {
    match EchoText(part)
    case Some(text) => (text + "\n", true)
    case None => sh(n, part)
  }

  /** The log of a script from its n-th part on: "set -e" ends it at the first part that fails. */
  function ScriptLog(sh: (nat, string) -> (string, bool), parts: seq<string>, n: nat): string {
    if parts == [] then ""
    else
      var (output, ok) := AnswerTo(sh, n, parts[0]);
      if ok then output + ScriptLog(sh, parts[1..], n + 1) else output
  }

  lemma QuoteReadsBack(rest: string)
    ensures InQuote("'\\''" + rest) == Prepend('\'', InQuote(rest))
  {
    var inner, escaped, word := "'" + rest, "\\''" + rest, "'\\''" + rest;
    assert inner[1..] == rest && escaped[2..] == inner && word[1..] == escaped;
    assert OutOfQuote(inner) == InQuote(rest);
    assert OutOfQuote(escaped) == Prepend('\'', OutOfQuote(inner));
  }

  /** The escaped command reads back as the command. */
  lemma {:induction false} EscapedReadsBack(command: string)
    ensures InQuote(EscapeQuotes(command) + "'") == Some(command)
  {
    if command == "" {
      assert ("'")[1..] == "";
      assert "" + "'" == "'";
    } else {
      EscapedReadsBack(command[1..]);
      var rest := EscapeQuotes(command[1..]) + "'";
      assert command == [command[0]] + command[1..];
      if command[0] == '\'' {
        QuoteReadsBack(rest);
        assert EscapeQuotes(command) + "'" == "'\\''" + rest;
      } else {
        assert EscapeQuotes(command) + "'" == [command[0]] + rest;
        assert ([command[0]] + rest)[1..] == rest;
      }
    }
  }

  lemma {:induction false} NothingToEscape(text: string)
    requires '\'' !in text
    ensures EscapeQuotes(text) == text
  {
    if text != "" {
      NothingToEscape(text[1..]);
      assert text == [text[0]] + text[1..];
    }
  }

  /** The echo lines of a block print the markers and the command. */
  lemma EchoesOf(command: string)
    ensures EchoText("echo '" + START_MARKER + "'") == Some(START_MARKER)
    ensures EchoText("echo '" + END_MARKER + "'") == Some(END_MARKER)
    ensures EchoText("echo '$ " + EscapeQuotes(command) + "'") == Some("$ " + command)
  {
    hide InQuote; hide EscapeQuotes; hide START_MARKER; hide END_MARKER;
    MarkersUnquoted();
    EchoOf(START_MARKER);
    EchoOf(END_MARKER);
    EchoOf("$ " + command);
    EscapeDollar(command);
    assert "echo '" + ("$ " + EscapeQuotes(command)) + "'" == "echo '$ " + EscapeQuotes(command) + "'";
  }

  lemma EchoOf(text: string)
    ensures EchoText("echo '" + EscapeQuotes(text) + "'") == Some(text)
  {
    hide InQuote; hide EscapeQuotes;
    EscapedReadsBack(text);
    var line := "echo '" + EscapeQuotes(text) + "'";
    assert line[..6] == "echo '" && line[6..] == EscapeQuotes(text) + "'";
  }

  lemma EscapeDollar(command: string)
    ensures EscapeQuotes("$ " + command) == "$ " + EscapeQuotes(command)
  {
    assert ("$ " + command)[1..] == " " + command && (" " + command)[1..] == command;
  }

  /** The markers consist of letters and underscores. */
  lemma MarkerLetters()
    ensures |START_MARKER| == 31 && |END_MARKER| == 29
    ensures forall i | 0 <= i < |START_MARKER| :: START_MARKER[i] >= 'A'
    ensures forall i | 0 <= i < |END_MARKER| :: END_MARKER[i] >= 'A'
  {
  }

  lemma MarkersUnquoted()
    ensures EscapeQuotes(START_MARKER) == START_MARKER && EscapeQuotes(END_MARKER) == END_MARKER
    ensures '\n' !in END_MARKER && ' ' !in END_MARKER && |START_MARKER| == 31 && |END_MARKER| == 29
  {
    MarkerLetters();
    hide START_MARKER; hide END_MARKER; hide EscapeQuotes;
    NothingToEscape(START_MARKER);
    NothingToEscape(END_MARKER);
  }

  /** What the log shows of a block: the command, and what it prints.  Its command is part "n" + 2. */
  function Shown(sh: (nat, string) -> (string, bool), n: nat, command: string): string {
    "$ " + command + "\n" + AnswerTo(sh, n + 2, command).0
  }

  /** The log of the blocks whose parts begin with part "n", behind the text "lead". */
  function LogOf(sh: (nat, string) -> (string, bool), blocks: seq<CodeBlock>, n: nat, lead: string): Log {
    if blocks == [] then Log([], lead, None)
    else
      var body := "\n" + Shown(sh, n, blocks[0].command);
      if AnswerTo(sh, n + 2, blocks[0].command).1 then
        var rest := LogOf(sh, blocks[1..], n + 4, "\n");
        rest.(sections := [Section(lead, body)] + rest.sections)
      else Log([], lead, Some(body))
  }

  lemma OneBlockLog(sh: (nat, string) -> (string, bool), b: CodeBlock, rest: seq<string>, n: nat)
    ensures var parts := ["echo '" + START_MARKER + "'", "echo '$ " + EscapeQuotes(b.command) + "'", b.command,
                          "echo '" + END_MARKER + "'"] + rest;
      var (output, ok) := AnswerTo(sh, n + 2, b.command);
      ScriptLog(sh, parts, n) == START_MARKER + (("\n" + Shown(sh, n, b.command))
        + if ok then END_MARKER + ("\n" + ScriptLog(sh, rest, n + 4)) else "")
  {
    hide EchoText; hide START_MARKER; hide END_MARKER; hide EscapeQuotes;
    EchoesOf(b.command);
    var p0, p1, p2, p3 := "echo '" + START_MARKER + "'", "echo '$ " + EscapeQuotes(b.command) + "'", b.command,
                          "echo '" + END_MARKER + "'";
    var t3, t2, t1, t0 := [p3] + rest, [p2, p3] + rest, [p1, p2, p3] + rest, [p0, p1, p2, p3] + rest;
    assert t0[1..] == t1 && t1[1..] == t2 && t2[1..] == t3 && t3[1..] == rest;
    var (output, ok) := AnswerTo(sh, n + 2, p2);
    var last := ScriptLog(sh, t3, n + 3);
    assert last == END_MARKER + "\n" + ScriptLog(sh, rest, n + 4);
    assert ScriptLog(sh, t2, n + 2) == if ok then output + last else output;
    assert ScriptLog(sh, t1, n + 1) == "$ " + b.command + "\n" + ScriptLog(sh, t2, n + 2);
    assert ScriptLog(sh, t0, n) == START_MARKER + "\n" + ScriptLog(sh, t1, n + 1);
    hide ScriptLog; hide AnswerTo;
    JoinPieces(START_MARKER, b.command, output, END_MARKER, ScriptLog(sh, rest, n + 4));
  }

  lemma JoinPieces(start: string, command: string, output: string, end: string, rest: string)
    ensures start + "\n" + ("$ " + command + "\n" + (output + (end + "\n" + rest)))
         == start + (("\n" + ("$ " + command + "\n" + output)) + (end + ("\n" + rest)))
    ensures start + "\n" + ("$ " + command + "\n" + output)
         == start + (("\n" + ("$ " + command + "\n" + output)) + "")
  {
    var shown := "$ " + command + "\n";
    assert "\n" + (shown + (output + (end + "\n" + rest))) == ("\n" + (shown + output)) + (end + ("\n" + rest));
  }

  lemma {:induction false} LogIsRendered(sh: (nat, string) -> (string, bool), blocks: seq<CodeBlock>, n: nat, lead: string)
    ensures lead + ScriptLog(sh, BlockScripts(blocks), n) == Render(LogOf(sh, blocks, n, lead))
    decreases blocks
  {
    hide START_MARKER; hide END_MARKER; hide EscapeQuotes; hide AnswerTo; hide Shown; hide ScriptLog; hide Render;
    if blocks == [] {
      RenderTail(Log([], lead, None));
      EmptyLog(sh, n);
    } else {
      var body := "\n" + Shown(sh, n, blocks[0].command);
      OneBlockLog(sh, blocks[0], BlockScripts(blocks[1..]), n);
      if AnswerTo(sh, n + 2, blocks[0].command).1 {
        LogIsRendered(sh, blocks[1..], n + 4, "\n");
        RenderHead(Section(lead, body), LogOf(sh, blocks[1..], n + 4, "\n"));
      } else {
        RenderTail(Log([], lead, Some(body)));
        assert body + "" == body;
      }
    }
  }

  lemma EmptyLog(sh: (nat, string) -> (string, bool), n: nat)
    ensures ScriptLog(sh, [], n) == ""
  {
  }

  /** Neither a command nor what it prints contains the end marker. */
  predicate Speaks(sh: (nat, string) -> (string, bool), n: nat, command: string) {
    !Contains(command, END_MARKER) && !Contains(AnswerTo(sh, n + 2, command).0, END_MARKER)
  }

  lemma Covers(t: string, k: nat, p: string, n: nat)
    requires At(t, k, p) && k <= n < k + |p|
    ensures t[n] in p
  {
    assert p[n - k] == t[k..k + |p|][n - k];
  }

  /** A text without the character "c" lies on one side of it. */
  lemma NotAcross(a: string, c: char, b: string, p: string)
    requires c !in p && p != "" && !Contains(a, p) && !Contains(b, p)
    ensures !Contains(a + [c] + b, p)
  {
    var t := a + [c] + b;
    forall k: nat | k <= |t| ensures !At(t, k, p) {
      if At(t, k, p) {
        if k + |p| <= |a| {
          assert t[..|a|] == a == a[..|a|];
          AtAgree(a, t, k, p, |a|);
        } else if k > |a| {
          assert t == (a + [c]) + b;
          AtShift(a + [c], b, k - |a| - 1, p);
        } else {
          assert t[|a|] == c;
          Covers(t, k, p, |a|);
        }
      }
    }
  }

  lemma ShownIsClean(sh: (nat, string) -> (string, bool), n: nat, command: string)
    requires Speaks(sh, n, command)
    ensures !Contains("\n" + Shown(sh, n, command), END_MARKER)
  {
    hide AnswerTo; hide Contains; hide END_MARKER;
    MarkersUnquoted();
    var output := AnswerTo(sh, n + 2, command).0;
    CleanHead(command, END_MARKER);
    CleanLines("$ " + command, output, END_MARKER);
    assert ("$ " + command) + "\n" + output == Shown(sh, n, command);
  }

  lemma CleanHead(command: string, p: string)
    requires ' ' !in p && |p| > 1 && !Contains(command, p)
    ensures !Contains("$ " + command, p)
  {
    hide Contains;
    ShortIsClean(['$'], p);
    NotAcross(['$'], ' ', command, p);
    assert ['$'] + [' '] == "$ ";
  }

  lemma CleanLines(first: string, second: string, p: string)
    requires '\n' !in p && |p| > 1 && !Contains(first, p) && !Contains(second, p)
    ensures !Contains("\n" + (first + "\n" + second), p)
  {
    hide Contains;
    ShortIsClean([], p);
    NotAcross(first, '\n', second, p);
    NotAcross([], '\n', first + ['\n'] + second, p);
    assert [] + ['\n'] == "\n";
  }

  lemma ShortIsClean(s: string, p: string)
    requires |s| < |p|
    ensures !Contains(s, p)
  {
  }

  lemma {:induction false} LogIsClean(sh: (nat, string) -> (string, bool), blocks: seq<CodeBlock>, n: nat, lead: string)
    requires |lead| <= 1 && forall k | 0 <= k < |blocks| :: Speaks(sh, n + 4 * k, blocks[k].command)
    ensures Clean(LogOf(sh, blocks, n, lead))
    decreases blocks
  {
    hide AnswerTo; hide Contains; hide START_MARKER; hide END_MARKER; hide Shown; hide Speaks;
    MarkersUnquoted();
    ShortIsClean(lead, START_MARKER);
    if blocks != [] {
      assert Speaks(sh, n + 4 * 0, blocks[0].command);
      ShownIsClean(sh, n, blocks[0].command);
      forall k | 0 <= k < |blocks[1..]| ensures Speaks(sh, (n + 4) + 4 * k, blocks[1..][k].command) {
        assert Speaks(sh, n + 4 * (k + 1), blocks[k + 1].command);
      }
      LogIsClean(sh, blocks[1..], n + 4, "\n");
    }
  }

  lemma StripLineFeed(s: string)
    ensures Strip("\n" + s) == Strip(s)
  {
    assert ("\n" + s)[1..] == s;
  }

  /** The k-th block ran without failure. */
  predicate RanWell(sh: (nat, string) -> (string, bool), n: nat, blocks: seq<CodeBlock>, k: nat)
    requires k < |blocks|
  {
    AnswerTo(sh, n + 4 * k + 2, blocks[k].command).1
  }

  /** What a run reports: a result for each block up to the first that fails, each the stripped text of the
      command and of what it printed; and whether one failed. */
  ghost predicate Reports(sh: (nat, string) -> (string, bool), blocks: seq<CodeBlock>, n: nat, results: seq<string>, failed: bool) {
    && |results| <= |blocks|
    && (forall k | 0 <= k < |results| ::
          results[k] == Strip("$ " + blocks[k].command + "\n" + AnswerTo(sh, n + 4 * k + 2, blocks[k].command).0))
    && (failed <==> exists k | 0 <= k < |blocks| :: !RanWell(sh, n, blocks, k))
    && (!failed ==> |results| == |blocks|)
    && (failed ==> |results| > 0 && !RanWell(sh, n, blocks, |results| - 1))
    && (forall k | 0 <= k < |results| - 1 :: RanWell(sh, n, blocks, k))
  }

  lemma {:induction false} BodiesReport(sh: (nat, string) -> (string, bool), blocks: seq<CodeBlock>, n: nat, lead: string)
    ensures var l := LogOf(sh, blocks, n, lead); Reports(sh, blocks, n, Bodies(l), l.cut.Some?)
    decreases blocks
  {
    hide AnswerTo; hide Strip;
    if blocks != [] {
      var b := blocks[0];
      StripLineFeed(Shown(sh, n, b.command));
      assert RanWell(sh, n, blocks, 0) <==> AnswerTo(sh, n + 2, b.command).1;
      if AnswerTo(sh, n + 2, b.command).1 {
        var rest := LogOf(sh, blocks[1..], n + 4, "\n");
        BodiesReport(sh, blocks[1..], n + 4, "\n");
        var l := LogOf(sh, blocks, n, lead);
        assert l.(sections := l.sections[1..]) == rest;
        MoreReports(sh, blocks, n, Bodies(rest), rest.cut.Some?);
      }
    }
  }

  lemma MoreReports(sh: (nat, string) -> (string, bool), blocks: seq<CodeBlock>, n: nat, results: seq<string>, failed: bool)
    requires blocks != [] && RanWell(sh, n, blocks, 0) && Reports(sh, blocks[1..], n + 4, results, failed)
    ensures Reports(sh, blocks, n, [Strip(Shown(sh, n, blocks[0].command))] + results, failed)
  {
    hide AnswerTo; hide Strip;
    var all := [Strip(Shown(sh, n, blocks[0].command))] + results;
    assert forall k | 1 <= k < |blocks| ::
      blocks[k] == blocks[1..][k - 1] && RanWell(sh, n, blocks, k) == RanWell(sh, n + 4, blocks[1..], k - 1);
    assert forall k | 1 <= k < |all| :: all[k] == results[k - 1];
    if failed {
      var k :| 0 <= k < |blocks[1..]| && !RanWell(sh, n + 4, blocks[1..], k);
      assert !RanWell(sh, n, blocks, k + 1);
    }
  }

  /** A shell that answers the script: the parts before the blocks print nothing and succeed, and no command,
      and nothing a command prints, contains the end marker. */
  predicate Answers(run: string -> string, sh: (nat, string) -> (string, bool), blocks: seq<CodeBlock>, mode: Mode) {
    && run(BuildScript(blocks, mode)) == ScriptLog(sh, Parts(blocks, mode), 0)
    && (forall i | 0 <= i < |Preamble(mode)| :: sh(i, Preamble(mode)[i]) == ("", true))
    && (forall k | 0 <= k < |blocks| :: Speaks(sh, |Preamble(mode)| + 4 * k, blocks[k].command))
  }

  lemma PreambleIsSilent(sh: (nat, string) -> (string, bool), mode: Mode, rest: seq<string>)
    requires forall i | 0 <= i < |Preamble(mode)| :: sh(i, Preamble(mode)[i]) == ("", true)
    ensures ScriptLog(sh, Preamble(mode) + rest, 0) == ScriptLog(sh, rest, |Preamble(mode)|)
  {
    NotEchoed();
    hide DRY_RUN_WRAPPER; hide EchoText;
    var parts := Preamble(mode) + rest;
    assert parts[0] == Preamble(mode)[0] == "set -e";
    if mode.RunMode? {
      assert parts[1..] == rest;
    } else {
      assert parts[1] == Preamble(mode)[1] == DRY_RUN_WRAPPER;
      assert parts[1..][1..] == rest;
    }
  }

  lemma NotEchoed()
    ensures EchoText("set -e") == None && EchoText(DRY_RUN_WRAPPER) == None
  {
    assert "set -e"[0] == 's';
    assert DRY_RUN_WRAPPER[0] == '\n';
    NoEchoLine("set -e");
    NoEchoLine(DRY_RUN_WRAPPER);
  }

  lemma NoEchoLine(part: string)
    requires part != "" && part[0] != 'e'
    ensures EchoText(part) == None
  {
    hide InQuote;
    if |part| >= 6 {
      assert part[..6][0] == part[0] && "echo '"[0] == 'e';
    }
  }

  /** Running a recipe reports, for the selected blocks in order, each command with what it printed, up to the
      first command that fails; the run counts as failed exactly if one does. */
  lemma OutputsOfRun(content: string, mode: Mode, run: string -> string, sh: (nat, string) -> (string, bool))
    requires Answers(run, sh, Selected(content, mode), mode)
    ensures var (results, failed) := Outputs(content, mode, run);
      Reports(sh, Selected(content, mode), |Preamble(mode)|, results, failed)
  {
    hide ScriptLog; hide Selected; hide ParseLog; hide Reports; hide Join; hide Speaks; hide BlockScripts; hide Clean;
    hide LogOf; hide Render; hide Bodies;
    var blocks, n := Selected(content, mode), |Preamble(mode)|;
    PreambleIsSilent(sh, mode, BlockScripts(blocks));
    LogIsRendered(sh, blocks, n, "");
    LogIsClean(sh, blocks, n, "");
    assert "" + ScriptLog(sh, BlockScripts(blocks), n) == ScriptLog(sh, BlockScripts(blocks), n);
    ParseOfRender(LogOf(sh, blocks, n, ""));
    BodiesReport(sh, blocks, n, "");
  }

  /** Run mode takes every block; the other modes take, in order, exactly the blocks tagged #golden. */
  lemma SelectedBlocks(content: string, mode: Mode)
    ensures InOrder(Selected(content, mode), 0, |content|)
    ensures forall b :: b in Selected(content, mode) <==>
      b in ExtractCodeBlocks(content) && (mode.RunMode? || "#golden" in b.tags)
  {
    hide Extract;
    var blocks := ExtractCodeBlocks(content);
    ExtractInOrder(content, 0);
    GoldenInOrder(blocks, 0, |content|);
    GoldenMembers(blocks);
  }

  lemma {:induction false} GoldenMembers(blocks: seq<CodeBlock>)
    ensures forall b :: b in GoldenBlocks(blocks) <==> b in blocks && "#golden" in b.tags
  {
    if blocks != [] {
      GoldenMembers(blocks[1..]);
      assert forall b :: b in blocks <==> b == blocks[0] || b in blocks[1..];
    }
  }
}
