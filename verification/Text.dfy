/** The string operations of Python that the modelled code relies on: white space,
    strip, find, split, splitlines, join, and the lexicographic order of strings. */
module Text {

  datatype Option<+T> = None | Some(value: T)

  // ----- occurrences -----

  /** "p" occurs in "s" at index "i". */
  predicate At(s: string, i: nat, p: string) {
    i + |p| <= |s| && s[i..i + |p|] == p
  }

  predicate Contains(s: string, p: string) {
    exists i: nat | i <= |s| :: At(s, i, p)
  }

  /** str.find(p, from): the first occurrence at or after "from". */
  function Find(s: string, p: string, from: nat): (r: Option<nat>)
    ensures r.Some? ==> from <= r.value && At(s, r.value, p)
    ensures r.Some? ==> forall j: nat | from <= j < r.value :: !At(s, j, p)
    ensures r.None? ==> forall j: nat | from <= j :: !At(s, j, p)
    decreases |s| - from
  {
    if At(s, from, p) then Some(from)
    else if from >= |s| then None
    else Find(s, p, from + 1)
  }

  /** The contract of Find determines its value. */
  lemma FindIs(s: string, p: string, from: nat, k: nat)
    requires from <= k && At(s, k, p)
    requires forall j: nat | from <= j < k :: !At(s, j, p)
    ensures Find(s, p, from) == Some(k)
  {
  }

  /** Occurrences only look at the characters they cover. */
  lemma AtAgree(s: string, t: string, i: nat, p: string, n: nat)
    requires n <= |s| && n <= |t| && s[..n] == t[..n] && i + |p| <= n
    ensures At(s, i, p) == At(t, i, p)
  {
    assert s[i..i + |p|] == s[..n][i..i + |p|];
    assert t[i..i + |p|] == t[..n][i..i + |p|];
  }

  lemma AtShift(a: string, b: string, i: nat, p: string)
    ensures At(a + b, |a| + i, p) == At(b, i, p)
  {
    if i + |p| <= |b| {
      assert (a + b)[|a| + i..|a| + i + |p|] == b[i..i + |p|];
    }
  }

  // ----- white space -----

  /** str.isspace for one character. */
  predicate IsSpace(c: char) {
    var n := c as int;
    || 9 <= n <= 13 || 28 <= n <= 32 || n == 0x85 || n == 0xA0 || n == 0x1680
    || 0x2000 <= n <= 0x200A || n == 0x2028 || n == 0x2029 || n == 0x202F || n == 0x205F || n == 0x3000
  }

  function StripLeft(s: string): string {
    if s == "" || !IsSpace(s[0]) then s else StripLeft(s[1..])
  }

  function StripRight(s: string): string {
    if s == "" || !IsSpace(s[|s| - 1]) then s else StripRight(s[..|s| - 1])
  }

  /** str.strip() */
  function Strip(s: string): string {
    StripRight(StripLeft(s))
  }

  /** No white space at either end. */
  predicate Trimmed(s: string) {
    s == "" || (!IsSpace(s[0]) && !IsSpace(s[|s| - 1]))
  }

  lemma StripLeftSuffix(s: string) returns (i: nat)
    ensures i <= |s| && StripLeft(s) == s[i..]
    ensures StripLeft(s) == "" || !IsSpace(StripLeft(s)[0])
  {
    if s == "" || !IsSpace(s[0]) {
      i := 0;
    } else {
      var k := StripLeftSuffix(s[1..]);
      i := k + 1;
    }
  }

  lemma StripRightPrefix(s: string) returns (j: nat)
    ensures j <= |s| && StripRight(s) == s[..j]
    ensures StripRight(s) == "" || !IsSpace(StripRight(s)[|StripRight(s)| - 1])
  {
    if s == "" || !IsSpace(s[|s| - 1]) {
      j := |s|;
    } else {
      j := StripRightPrefix(s[..|s| - 1]);
      assert s[..|s| - 1][..j] == s[..j];
    }
  }

  /** strip returns a trimmed piece of its argument. */
  lemma StripIsSlice(s: string) returns (i: nat, j: nat)
    ensures i <= j <= |s| && Strip(s) == s[i..j] && Trimmed(Strip(s))
  {
    i := StripLeftSuffix(s);
    var k := StripRightPrefix(s[i..]);
    j := i + k;
    assert s[i..][..k] == s[i..j];
  }

  lemma StripOfTrimmed(s: string)
    requires Trimmed(s)
    ensures Strip(s) == s && Strip(s + "\n") == s && Strip(" " + s) == s
  {
    assert (s + "\n")[..|s|] == s;
    if s == "" {
      assert StripLeft("\n") == StripLeft("\n"[1..]) == "";
      assert StripLeft(" ") == StripLeft(" "[1..]) == "";
      assert s + "\n" == "\n" && " " + s == " ";
    } else {
      assert (s + "\n")[0] == s[0];
      assert (" " + s)[1..] == s;
      assert StripRight(s + "\n") == StripRight((s + "\n")[..|s|]);
    }
  }

  // ----- lower case -----

  function LowerChar(c: char): char {
    if 'A' <= c <= 'Z' then (c as int + 32) as char else c
  }

  /** str.lower() on ASCII letters. */
  function Lower(s: string): (r: string)
    ensures |r| == |s| && forall i | 0 <= i < |s| :: r[i] == LowerChar(s[i])
  {
    if s == "" then "" else [LowerChar(s[0])] + Lower(s[1..])
  }

  // ----- split and join on one character -----

  /** str.split(c): always at least one piece. */
  function Split(s: string, c: char): (r: seq<string>)
    ensures |r| >= 1
    ensures forall w | w in r :: c !in w
  {
    if s == "" then [""]
    else
      var rest := Split(s[1..], c);
      if s[0] == c then [""] + rest else [[s[0]] + rest[0]] + rest[1..]
  }

  /** c.join(parts) for a one-character separator */
  function Join(parts: seq<string>, c: char): string {
    if |parts| == 0 then "" else if |parts| == 1 then parts[0]
    else parts[0] + [c] + Join(parts[1..], c)
  }

  lemma SplitNoSeparator(w: string, c: char)
    requires c !in w
    ensures Split(w, c) == [w]
  {
    if w != "" {
      SplitNoSeparator(w[1..], c);
      assert [w[0]] + w[1..] == w;
    }
  }

  lemma SplitHead(w: string, rest: string, c: char)
    requires c !in w
    ensures Split(w + [c] + rest, c) == [w] + Split(rest, c)
  {
    var s := w + [c] + rest;
    if w == "" {
      assert s[1..] == rest;
    } else {
      assert s[1..] == w[1..] + [c] + rest;
      SplitHead(w[1..], rest, c);
      assert [w[0]] + w[1..] == w;
    }
  }

  lemma {:induction false} SplitOfJoin(parts: seq<string>, c: char)
    requires |parts| >= 1
    requires forall w | w in parts :: c !in w
    ensures Split(Join(parts, c), c) == parts
  {
    if |parts| == 1 {
      SplitNoSeparator(parts[0], c);
    } else {
      SplitOfJoin(parts[1..], c);
      SplitHead(parts[0], Join(parts[1..], c), c);
    }
  }

  lemma {:induction false} JoinOfSplit(s: string, c: char)
    ensures Join(Split(s, c), c) == s
  {
    if s != "" {
      JoinOfSplit(s[1..], c);
      var rest := Split(s[1..], c);
      if s[0] == c {
        assert ([""] + rest)[1..] == rest;
      } else {
        var r := [[s[0]] + rest[0]] + rest[1..];
        assert r[1..] == rest[1..];
      }
    }
  }

  // ----- split on white space -----

  /** Length of the leading run of characters that are not white space. */
  function WordLength(s: string): (n: nat)
    ensures n <= |s| && (n < |s| ==> IsSpace(s[n]))
    ensures forall i | 0 <= i < n :: !IsSpace(s[i])
  {
    if s == "" || IsSpace(s[0]) then 0 else 1 + WordLength(s[1..])
  }

  /** str.split() without argument. */
  function Words(s: string): seq<string>
    decreases |s|
  {
    if s == "" then []
    else if IsSpace(s[0]) then Words(s[1..])
    else [s[..WordLength(s)]] + Words(s[WordLength(s)..])
  }

  predicate IsWord(w: string) {
    w != "" && forall i | 0 <= i < |w| :: !IsSpace(w[i])
  }

  lemma WordsAreWords(s: string)
    ensures forall w | w in Words(s) :: IsWord(w)
    ensures forall w | w in Words(s) :: forall c | c in w :: c in s
    decreases |s|
  {
    if s != "" {
      if IsSpace(s[0]) {
        WordsAreWords(s[1..]);
      } else {
        WordsAreWords(s[WordLength(s)..]);
      }
    }
  }

  lemma {:induction false} WordLengthOf(w: string, rest: string)
    requires IsWord(w) && (rest == "" || IsSpace(rest[0]))
    ensures WordLength(w + rest) == |w|
  {
    hide IsSpace;
    assert (w + rest)[0] == w[0];
    if |w| > 1 {
      WordLengthOf(w[1..], rest);
      assert (w + rest)[1..] == w[1..] + rest;
    } else {
      assert (w + rest)[1..] == rest;
    }
  }

  lemma {:induction false} WordsOfJoin(ws: seq<string>)
    requires forall w | w in ws :: IsWord(w)
    ensures Words(Join(ws, ' ')) == ws && Trimmed(Join(ws, ' '))
    ensures |ws| > 0 ==> Join(ws, ' ') != ""
  {
    if |ws| == 1 {
      assert ws[0] + "" == ws[0];
      WordLengthOf(ws[0], "");
    } else if |ws| > 1 {
      var j := Join(ws[1..], ' ');
      var s := ws[0] + " " + j;
      assert s == ws[0] + (" " + j);
      WordsOfJoin(ws[1..]);
      WordLengthOf(ws[0], " " + j);
      assert s[|ws[0]|..] == " " + j;
      assert (" " + j)[1..] == j;
      assert s[..|ws[0]|] == ws[0];
    }
  }

  // ----- splitlines -----

  /** The line boundaries of str.splitlines (a carriage return followed by a line feed is one). */
  predicate IsLineBreak(c: char) {
    var n := c as int;
    10 <= n <= 13 || 28 <= n <= 30 || n == 0x85 || n == 0x2028 || n == 0x2029
  }

  predicate NoLineBreak(s: string) {
    forall i | 0 <= i < |s| :: !IsLineBreak(s[i])
  }

  function LineLength(s: string): (n: nat)
    ensures n <= |s| && NoLineBreak(s[..n]) && (n < |s| ==> IsLineBreak(s[n]))
  {
    if s == "" || IsLineBreak(s[0]) then 0
    else
      var n := LineLength(s[1..]);
      assert s[..n + 1] == [s[0]] + s[1..][..n];
      1 + n
  }

  function SplitLines(s: string): seq<string>
    decreases |s|
  {
    if s == "" then []
    else
      var n := LineLength(s);
      if n == |s| then [s]
      else if s[n] == '\r' && n + 1 < |s| && s[n + 1] == '\n' then [s[..n]] + SplitLines(s[n + 2..])
      else [s[..n]] + SplitLines(s[n + 1..])
  }

  lemma {:induction false} LineLengthOf(w: string, rest: string)
    requires NoLineBreak(w) && (rest == "" || IsLineBreak(rest[0]))
    ensures LineLength(w + rest) == |w|
  {
    hide IsLineBreak;
    if w == "" {
      assert w + rest == rest;
    } else {
      LineLengthOf(w[1..], rest);
      assert (w + rest)[1..] == w[1..] + rest;
    }
  }

  lemma LineInFront(w: string, rest: string)
    requires NoLineBreak(w)
    ensures SplitLines(w + "\n" + rest) == [w] + SplitLines(rest)
  {
    hide NoLineBreak; hide LineLength;
    var s := w + "\n" + rest;
    assert s == w + ("\n" + rest);
    assert IsLineBreak('\n');
    LineLengthOf(w, "\n" + rest);
    assert s[..|w|] == w && s[|w| + 1..] == rest;
  }

  /** Lines joined by line feeds are recovered, except that an empty last line is dropped. */
  lemma {:induction false} SplitLinesOfJoin(lines: seq<string>)
    requires |lines| >= 1 && forall l | l in lines :: NoLineBreak(l)
    requires lines[|lines| - 1] != ""
    ensures SplitLines(Join(lines, '\n')) == lines
  {
    hide NoLineBreak; hide LineLength;
    if |lines| == 1 {
      LastLine(lines[0]);
    } else {
      hide SplitLines;
      assert Join(lines, '\n') == lines[0] + "\n" + Join(lines[1..], '\n');
      hide Join;
      var rest := lines[1..];
      assert lines == [lines[0]] + rest && rest[|rest| - 1] == lines[|lines| - 1];
      assert forall l | l in rest :: l in lines;
      LineInFront(lines[0], Join(rest, '\n'));
      SplitLinesOfJoin(rest);
    }
  }

  lemma LastLine(w: string)
    requires NoLineBreak(w) && w != ""
    ensures SplitLines(w) == [w]
  {
    assert w + "" == w;
    LineLengthOf(w, "");
  }

  // ----- lexicographic order by code point -----

  predicate Less(a: string, b: string) {
    if a == "" then b != ""
    else if b == "" then false
    else if a[0] != b[0] then a[0] < b[0]
    else Less(a[1..], b[1..])
  }

  lemma LessTotal(a: string, b: string)
    ensures Less(a, b) || a == b || Less(b, a)
    ensures !(Less(a, b) && Less(b, a)) && !Less(a, a)
  {
    if a != "" && b != "" && a[0] == b[0] {
      LessTotal(a[1..], b[1..]);
      assert a == [a[0]] + a[1..] && b == [b[0]] + b[1..];
    }
  }

  lemma LessTransitive(a: string, b: string, c: string)
    requires Less(a, b) && Less(b, c)
    ensures Less(a, c)
  {
    if a != "" && c != "" && a[0] == b[0] == c[0] {
      LessTransitive(a[1..], b[1..], c[1..]);
    }
  }

  lemma EmptyOrInhabited(xs: seq<string>)
    ensures xs == [] || exists x :: x in xs
  {
    if xs != [] {
      assert xs[0] in xs;
    }
  }

  // ----- sorted(set) -----

  ghost predicate StrictlySorted(s: seq<string>) {
    forall i, j | 0 <= i < j < |s| :: Less(s[i], s[j])
  }

  /** Insert into a strictly sorted list; a value already present is not repeated. */
  function Insert(x: string, s: seq<string>): seq<string> {
    if s == [] then [x]
    else if Less(x, s[0]) then [x] + s
    else if x == s[0] then s
    else [s[0]] + Insert(x, s[1..])
  }

  /** sorted(set(xs)) */
  function SortedSet(xs: seq<string>): seq<string> {
    if xs == [] then [] else Insert(xs[0], SortedSet(xs[1..]))
  }

  lemma {:induction false} InsertSorts(x: string, s: seq<string>)
    requires StrictlySorted(s)
    ensures StrictlySorted(Insert(x, s))
    ensures forall y :: y in Insert(x, s) <==> y == x || y in s
  {
    if s != [] {
      LessTotal(x, s[0]);
      if Less(x, s[0]) {
        forall j | 0 <= j < |s| ensures Less(x, s[j]) {
          if j > 0 { LessTransitive(x, s[0], s[j]); }
        }
      } else if x != s[0] {
        InsertSorts(x, s[1..]);
        var t := Insert(x, s[1..]);
        forall j | 0 <= j < |t| ensures Less(s[0], t[j]) {
          assert t[j] in t;
        }
        assert s == [s[0]] + s[1..];
      }
    }
  }

  lemma {:induction false} SortedSetSorts(xs: seq<string>)
    ensures StrictlySorted(SortedSet(xs))
    ensures forall y :: y in SortedSet(xs) <==> y in xs
  {
    if xs != [] {
      SortedSetSorts(xs[1..]);
      InsertSorts(xs[0], SortedSet(xs[1..]));
    }
  }

  /** A strictly sorted list is determined by its members. */
  lemma {:induction false} SortedUnique(a: seq<string>, b: seq<string>)
    requires StrictlySorted(a) && StrictlySorted(b)
    requires forall y :: y in a <==> y in b
    ensures a == b
  {
    assert forall i | 0 <= i < |a| :: a[i] in b;
    assert forall i | 0 <= i < |b| :: b[i] in a;
    if a != [] && b != [] {
      HeadIsLeast(a, b[0]);
      HeadIsLeast(b, a[0]);
      LessTotal(a[0], b[0]);
      forall y ensures y in a[1..] <==> y in b[1..] {
        TailWithoutHead(a);
        TailWithoutHead(b);
        assert y in a <==> y == a[0] || y in a[1..];
        assert y in b <==> y == b[0] || y in b[1..];
      }
      SortedUnique(a[1..], b[1..]);
      assert a == [a[0]] + a[1..] && b == [b[0]] + b[1..];
    }
  }

  lemma HeadIsLeast(a: seq<string>, y: string)
    requires StrictlySorted(a) && y in a
    ensures a[0] == y || Less(a[0], y)
  {
  }

  lemma TailWithoutHead(a: seq<string>)
    requires StrictlySorted(a) && a != []
    ensures a[0] !in a[1..]
  {
    LessTotal(a[0], a[0]);
  }

  lemma SortedDistinct(a: seq<string>)
    requires StrictlySorted(a)
    ensures forall i, j | 0 <= i < j < |a| :: a[i] != a[j]
  {
    forall i, j | 0 <= i < j < |a| ensures a[i] != a[j] {
      LessTotal(a[i], a[j]);
    }
  }
}
