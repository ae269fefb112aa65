/** The GKE version of new node pools (get_gke_node_pool_version in src/xpk/core/nodepool.py).
    The source compares version texts as plain strings, so the loop here uses the lexicographic order;
    what its comment asks for is stated with the order of release numbers. */
module NodeVersion {
  import opened Text
  import opened Decimal

  /** version.split('.')[:2] */
  function Minor(version: string): seq<string> {
    var parts := Split(version, '.');
    if |parts| <= 2 then parts else parts[..2]
  }

  /** Eligible from below the master version. */
  predicate Low(v: string, master: string) {
    v != "" && Less(v, master)
  }

  /** Eligible from above: not below the master version, and of the same minor version. */
  predicate Up(v: string, master: string) {
    v != "" && !Less(v, master) && Minor(v) == Minor(master)
  }

  /** The first eligible version in visiting order, or the empty text. */
  function First(valid: seq<string>, master: string): (v: string)
    ensures v == "" || (v in valid && (Low(v, master) || Up(v, master)))
    ensures v == "" <==> forall x | x in valid :: !Low(x, master) && !Up(x, master)
  {
    if valid == [] then ""
    else if Low(valid[0], master) || Up(valid[0], master) then valid[0]
    else First(valid[1..], master)
  }

  ghost predicate IsMaxLow(v: string, valid: seq<string>, master: string) {
    v in valid && Low(v, master) && forall x | x in valid && Low(x, master) :: !Less(v, x)
  }

  ghost predicate IsMinUp(v: string, valid: seq<string>, master: string) {
    v in valid && Up(v, master) && forall x | x in valid && Up(x, master) :: !Less(x, v)
  }

  /** What the loop chooses: on the side of the first eligible version, the one nearest to the master. */
  ghost predicate Chosen(v: string, valid: seq<string>, master: string) {
    var first := First(valid, master);
    if first == "" then v == ""
    else if Low(first, master) then IsMaxLow(v, valid, master)
    else IsMinUp(v, valid, master)
  }

  /** The condition of the loop under which a version replaces the current choice. */
  predicate Takes(v: string, x: string, master: string) {
    || ((v == "" || Less(v, x)) && Less(x, master))
    || ((v == "" || Less(x, v)) && !Less(x, master) && Minor(master) == Minor(x))
  }

  lemma ChosenStep(v: string, valid: seq<string>, i: nat, master: string)
    requires i < |valid| && Chosen(v, valid[..i], master)
    ensures Chosen(if Takes(v, valid[i], master) then valid[i] else v, valid[..i + 1], master)
  {
    hide Minor; hide Less;
    var x, seen := valid[i], valid[..i];
    assert valid[..i + 1] == seen + [x];
    FirstAppend(seen, x, master);
    EmptyIsLeast(x, master);
    EmptyIsLeast(v, x);
    LessTotal(x, x);
    if First(seen, master) == "" {
      assert x in seen + [x] && forall y | y in seen + [x] && (Low(y, master) || Up(y, master)) :: y == x;
    } else if Low(First(seen, master), master) {
      MaxLowStep(v, seen, x, master);
      if Less(x, v) { LessTransitive(x, v, master); }
    } else {
      MinUpStep(v, seen, x, master);
      MinorOfEmpty(v);
      if Less(v, x) && Less(x, master) { LessTransitive(v, x, master); }
    }
  }

  lemma MinorOfEmpty(v: string)
    ensures Minor(v) == Minor("") ==> v == ""
  {
    assert Split("", '.') == [""];
    JoinOfSplit(v, '.');
    if Minor(v) == Minor("") {
      assert |Split(v, '.')| == 1;
    }
  }

  lemma MaxLowStep(v: string, seen: seq<string>, x: string, master: string)
    requires IsMaxLow(v, seen, master)
    ensures IsMaxLow(if Low(x, master) && Less(v, x) then x else v, seen + [x], master)
  {
    hide Minor; hide Less; hide Low;
    LessTotal(v, x);
    forall y | y in seen && Less(v, x) && Less(x, y) ensures Less(v, y) {
      LessTransitive(v, x, y);
    }
    assert forall y :: y in seen + [x] <==> y in seen || y == x;
    LessTotal(x, x);
  }

  lemma MinUpStep(v: string, seen: seq<string>, x: string, master: string)
    requires IsMinUp(v, seen, master)
    ensures IsMinUp(if Up(x, master) && Less(x, v) then x else v, seen + [x], master)
  {
    hide Minor; hide Less; hide Up;
    LessTotal(v, x);
    forall y | y in seen && Less(x, v) && Less(y, x) ensures Less(y, v) {
      LessTransitive(y, x, v);
    }
    assert forall y :: y in seen + [x] <==> y in seen || y == x;
    LessTotal(x, x);
  }

  lemma {:induction false} FirstAppend(seen: seq<string>, x: string, master: string)
    ensures First(seen + [x], master) ==
            if First(seen, master) != "" then First(seen, master)
            else if Low(x, master) || Up(x, master) then x else ""
  {
    hide Low; hide Up;
    if seen != [] {
      FirstAppend(seen[1..], x, master);
      assert (seen + [x])[1..] == seen[1..] + [x];
    }
  }

  lemma EmptyIsLeast(x: string, master: string)
    ensures !Less(x, "") && (x != "" ==> Less("", x))
    ensures x == "" ==> !Less(master, x)
  {
  }

  lemma ChosenFromNothing(valid: seq<string>, master: string)
    requires valid == []
    ensures Chosen("", valid, master)
  {
  }

  /** The loop over the valid versions, in the order in which they are given. */
  method ChooseVersion(valid: seq<string>, master: string) returns (v: string)
    ensures Chosen(v, valid, master)
  {
    hide Chosen; hide Less; hide Minor;
    v := "";
    ChosenFromNothing(valid[..0], master);
    for i := 0 to |valid|
      invariant Chosen(v, valid[..i], master)
    {
      ChosenStep(v, valid, i, master);
      var x := valid[i];
      if ((v == "" || Less(v, x)) && Less(x, master))
        || ((v == "" || Less(x, v)) && !Less(x, master) && Minor(master) == Minor(x)) {
        v := x;
      }
    }
    assert valid[..|valid|] == valid;
  }

  /** get_gke_node_pool_version, with the answer for the master version and the version of the user. */
  method GetNodePoolVersion(masterCode: int, master: string, requested: Option<string>, valid: seq<string>)
    returns (code: int, version: Option<string>)
    ensures masterCode != 0 ==> code == masterCode && version == None
    ensures masterCode == 0 && requested.Some? ==>
      if requested.value in valid then (code, version) == (0, requested) else (code, version) == (1, None)
    ensures masterCode == 0 && requested.None? && First(valid, Strip(master)) != "" ==>
      code == 0 && version.Some? && Chosen(version.value, valid, Strip(master))
    ensures masterCode == 0 && requested.None? && First(valid, Strip(master)) == "" ==>
      if "" in valid then (code, version) == (0, Some("")) else (code, version) == (1, None)
  {
    hide Minor; hide Less; hide Strip; hide Low; hide Up;
    if masterCode != 0 {
      return masterCode, None;
    }
    var v;
    if requested.Some? {
      v := requested.value;
    } else {
      v := ChooseVersion(valid, Strip(master));
    }
    if v !in valid {
      return 1, None;
    }
    return 0, Some(v);
  }

  lemma MaxLowUnique(a: string, b: string, valid: seq<string>, master: string)
    requires IsMaxLow(a, valid, master) && IsMaxLow(b, valid, master)
    ensures a == b
  {
    LessTotal(a, b);
  }

  lemma MinUpUnique(a: string, b: string, valid: seq<string>, master: string)
    requires IsMinUp(a, valid, master) && IsMinUp(b, valid, master)
    ensures a == b
  {
    LessTotal(a, b);
  }

  /** Two visiting orders of the same versions give the same result if and only if they first meet an
      eligible version on the same side; with eligible versions on one side only, the order is irrelevant. */
  lemma OrderMatters(a: string, valid: seq<string>, b: string, valid': seq<string>, master: string)
    requires forall x :: x in valid <==> x in valid'
    requires Chosen(a, valid, master) && Chosen(b, valid', master)
    ensures a == b <==> (Low(First(valid, master), master) <==> Low(First(valid', master), master))
  {
    hide Minor; hide Less;
    var f, f' := First(valid, master), First(valid', master);
    if f != "" {
      assert f' != "";
      if Low(f, master) && Low(f', master) {
        MaxLowUnique(a, b, valid, master);
      } else if !Low(f, master) && !Low(f', master) {
        MinUpUnique(a, b, valid, master);
      }
    }
  }

  // ----- releases -----

  /** major.minor.patch, or major.minor.patch-gke.build */
  datatype Release = Release(major: nat, minor: nat, patch: nat, build: Option<nat>)

  function Suffix(build: Option<nat>): string {
    match build case None => "" case Some(b) => "-gke." + Str(b)
  }

  function Print(v: Release): string {
    Str(v.major) + ("." + (Str(v.minor) + ("." + (Str(v.patch) + Suffix(v.build)))))
  }

  function PrintAll(vs: seq<Release>): (r: seq<string>)
    ensures |r| == |vs| && forall i | 0 <= i < |r| :: r[i] == Print(vs[i])
  {
    seq(|vs|, i requires 0 <= i < |vs| => Print(vs[i]))
  }

  /** The order of releases, number by number. */
  predicate Before(a: Release, b: Release) {
    if a.major != b.major then a.major < b.major
    else if a.minor != b.minor then a.minor < b.minor
    else if a.patch != b.patch then a.patch < b.patch
    else b.build.Some? && (a.build.Some? ==> a.build.value < b.build.value)
  }

  /** The order of their texts: the first numbers that differ are compared as strings of digits. */
  predicate TextBefore(a: Release, b: Release) {
    if a.major != b.major then Less(Str(a.major), Str(b.major))
    else if a.minor != b.minor then Less(Str(a.minor), Str(b.minor))
    else if a.patch != b.patch then Less(Str(a.patch), Str(b.patch))
    else b.build.Some? && (a.build.Some? ==> Less(Str(a.build.value), Str(b.build.value)))
  }

  predicate SameMinor(a: Release, b: Release) {
    a.major == b.major && a.minor == b.minor
  }

  /** A text that ends here or goes on with a character that sorts before all digits. */
  predicate Stops(s: string) {
    s == "" || s[0] < '0'
  }

  lemma LessBehind(w: string, s: string, t: string)
    ensures Less(w + s, w + t) <==> Less(s, t)
  {
    if w == "" {
      assert w + s == s && w + t == t;
    } else {
      assert (w + s)[1..] == w[1..] + s && (w + t)[1..] == w[1..] + t;
      LessBehind(w[1..], s, t);
    }
  }

  lemma {:induction false} LessDigits(x: string, s: string, y: string, t: string)
    requires AllDigits(x) && AllDigits(y) && x != y && Stops(s) && Stops(t)
    ensures Less(x + s, y + t) <==> Less(x, y)
  {
    if x == "" {
      assert x + s == s && (y + t)[0] == y[0];
    } else if y == "" {
      assert y + t == t && (x + s)[0] == x[0];
    } else if x[0] == y[0] {
      assert (x + s)[1..] == x[1..] + s && (y + t)[1..] == y[1..] + t;
      assert x == [x[0]] + x[1..] && y == [y[0]] + y[1..];
      LessDigits(x[1..], s, y[1..], t);
    }
  }

  /** How two texts compare that begin with numbers. */
  lemma LessNumbers(m: nat, s: string, n: nat, t: string)
    requires Stops(s) && Stops(t)
    ensures Less(Str(m) + s, Str(n) + t) <==> if m == n then Less(s, t) else Less(Str(m), Str(n))
  {
    if m == n {
      LessBehind(Str(m), s, t);
    } else {
      if Str(m) == Str(n) { StrInjective(m, n); }
      LessDigits(Str(m), s, Str(n), t);
    }
  }

  /** Printed releases compare as TextBefore says. */
  lemma PrintedOrder(a: Release, b: Release)
    ensures Less(Print(a), Print(b)) <==> TextBefore(a, b)
  {
    hide Str; hide Less; hide Suffix;
    SuffixOrder(a.build, b.build);
    var p, q := Str(a.patch) + Suffix(a.build), Str(b.patch) + Suffix(b.build);
    LessNumbers(a.patch, Suffix(a.build), b.patch, Suffix(b.build));
    LessBehind(".", p, q);
    var s, t := Str(a.minor) + ("." + p), Str(b.minor) + ("." + q);
    LessNumbers(a.minor, "." + p, b.minor, "." + q);
    LessBehind(".", s, t);
    LessNumbers(a.major, "." + s, b.major, "." + t);
  }

  lemma SuffixOrder(a: Option<nat>, b: Option<nat>)
    ensures Stops(Suffix(a)) && Stops(Suffix(b))
    ensures Less(Suffix(a), Suffix(b)) <==> b.Some? && (a.Some? ==> Less(Str(a.value), Str(b.value)))
  {
    hide Str;
    if a.Some? && b.Some? {
      LessBehind("-gke.", Str(a.value), Str(b.value));
    }
  }

  lemma BeforeTotal(a: Release, b: Release)
    ensures Before(a, b) || a == b || Before(b, a)
    ensures !(Before(a, b) && Before(b, a))
  {
  }

  lemma PrintInjective(a: Release, b: Release)
    requires Print(a) == Print(b)
    ensures a == b
  {
    hide Print; hide Less; hide Str;
    LessTotal(Print(a), Print(b));
    PrintedOrder(a, b);
    PrintedOrder(b, a);
    TextBeforeTotal(a, b);
  }

  lemma TextBeforeTotal(a: Release, b: Release)
    ensures TextBefore(a, b) || a == b || TextBefore(b, a)
    ensures !(TextBefore(a, b) && TextBefore(b, a))
  {
    hide Str; hide Less;
    NumberTextsTotal(a.major, b.major);
    NumberTextsTotal(a.minor, b.minor);
    NumberTextsTotal(a.patch, b.patch);
    if a.build.Some? && b.build.Some? {
      NumberTextsTotal(a.build.value, b.build.value);
    }
  }

  lemma NumberTextsTotal(m: nat, n: nat)
    ensures Less(Str(m), Str(n)) || m == n || Less(Str(n), Str(m))
    ensures !(Less(Str(m), Str(n)) && Less(Str(n), Str(m)))
  {
    LessTotal(Str(m), Str(n));
    if Str(m) == Str(n) { StrInjective(m, n); }
  }

  lemma MinorOfPrint(a: Release, b: Release)
    ensures Minor(Print(a)) == Minor(Print(b)) <==> SameMinor(a, b)
    ensures Print(a) != ""
  {
    hide Split; hide Str;
    TwoPieces(a);
    TwoPieces(b);
    if Minor(Print(a)) == Minor(Print(b)) {
      assert Minor(Print(a))[0] == Str(a.major) && Minor(Print(b))[0] == Str(b.major);
      assert Minor(Print(a))[1] == Str(a.minor) && Minor(Print(b))[1] == Str(b.minor);
      StrInjective(a.major, b.major);
      StrInjective(a.minor, b.minor);
    }
  }

  lemma TwoPieces(v: Release)
    ensures Minor(Print(v)) == [Str(v.major), Str(v.minor)] && Print(v) != ""
  {
    hide Split; hide Str;
    var tail := Str(v.patch) + Suffix(v.build);
    assert '.' !in Str(v.major) && '.' !in Str(v.minor);
    SplitHead(Str(v.minor), tail, '.');
    SplitHead(Str(v.major), Str(v.minor) + ['.'] + tail, '.');
    assert Print(v) == Str(v.major) + ['.'] + (Str(v.minor) + ['.'] + tail);
    var parts := [Str(v.major)] + ([Str(v.minor)] + Split(tail, '.'));
    assert Split(Print(v), '.') == parts && parts[..2] == [Str(v.major), Str(v.minor)];
  }

  // ----- what the comment asks for -----

  predicate LowRelease(x: Release, master: Release) {
    Before(x, master)
  }

  predicate UpRelease(x: Release, master: Release) {
    !Before(x, master) && SameMinor(x, master)
  }

  ghost predicate NearestUp(p: Release, valid: seq<Release>, master: Release) {
    p in valid && UpRelease(p, master) && forall x | x in valid && UpRelease(x, master) :: !Before(x, p)
  }

  ghost predicate NearestLow(p: Release, valid: seq<Release>, master: Release) {
    p in valid && LowRelease(p, master) && forall x | x in valid && LowRelease(x, master) :: !Before(p, x)
  }

  /** The least release of the same minor version at or above the master, and only if there is none the
      greatest release below it. */
  ghost predicate Documented(v: string, valid: seq<Release>, master: Release) {
    if exists x :: x in valid && UpRelease(x, master) then exists p :: NearestUp(p, valid, master) && v == Print(p)
    else if exists x :: x in valid && LowRelease(x, master) then exists p :: NearestLow(p, valid, master) && v == Print(p)
    else v == ""
  }

  function FirstEligible(valid: seq<Release>, master: Release): (r: Option<Release>)
    ensures r.Some? ==> r.value in valid && (LowRelease(r.value, master) || UpRelease(r.value, master))
    ensures r.None? ==> forall x | x in valid :: !LowRelease(x, master) && !UpRelease(x, master)
  {
    if valid == [] then None
    else if LowRelease(valid[0], master) || UpRelease(valid[0], master) then Some(valid[0])
    else FirstEligible(valid[1..], master)
  }

  /** There is no release to prefer, or one is listed first. */
  ghost predicate UpperFirst(valid: seq<Release>, master: Release) {
    || (forall x | x in valid :: !UpRelease(x, master))
    || (FirstEligible(valid, master).Some? && UpRelease(FirstEligible(valid, master).value, master))
  }

  /** The order of the texts is the order of the releases. */
  ghost predicate Agree(pool: set<Release>) {
    forall a, b | a in pool && b in pool :: TextBefore(a, b) <==> Before(a, b)
  }

  ghost predicate Drawn(pool: set<Release>, master: Release, valid: seq<Release>) {
    master in pool && forall x | x in valid :: x in pool
  }

  /** Where the orders agree, a text is eligible on the side of its release. */
  lemma SidesAgree(pool: set<Release>, x: Release, master: Release)
    requires Agree(pool) && x in pool && master in pool
    ensures Low(Print(x), Print(master)) <==> LowRelease(x, master)
    ensures Up(Print(x), Print(master)) <==> UpRelease(x, master)
  {
    hide Print; hide Minor; hide Less; hide Before; hide TextBefore;
    PrintedOrder(x, master);
    MinorOfPrint(x, master);
  }

  lemma {:induction false} FirstAgrees(pool: set<Release>, valid: seq<Release>, master: Release)
    requires Agree(pool) && Drawn(pool, master, valid)
    ensures First(PrintAll(valid), Print(master))
         == match FirstEligible(valid, master) case None => "" case Some(x) => Print(x)
  {
    hide Print; hide Low; hide Up; hide LowRelease; hide UpRelease; hide Agree;
    if valid != [] {
      assert valid[0] in valid;
      SidesAgree(pool, valid[0], master);
      assert PrintAll(valid)[1..] == PrintAll(valid[1..]);
      FirstAgrees(pool, valid[1..], master);
    }
  }

  lemma NearestLowAgrees(pool: set<Release>, v: string, valid: seq<Release>, master: Release)
    requires Agree(pool) && Drawn(pool, master, valid) && IsMaxLow(v, PrintAll(valid), Print(master))
    ensures exists p :: NearestLow(p, valid, master) && v == Print(p)
  {
    hide Print; hide Low; hide Less; hide LowRelease; hide Before; hide TextBefore;
    var i :| 0 <= i < |valid| && PrintAll(valid)[i] == v;
    var p := valid[i];
    SidesAgree(pool, p, master);
    forall x | x in valid && LowRelease(x, master) ensures !Before(p, x) {
      var k :| 0 <= k < |valid| && valid[k] == x;
      assert PrintAll(valid)[k] in PrintAll(valid);
      SidesAgree(pool, x, master);
      PrintedOrder(p, x);
    }
  }

  lemma NearestUpAgrees(pool: set<Release>, v: string, valid: seq<Release>, master: Release)
    requires Agree(pool) && Drawn(pool, master, valid) && IsMinUp(v, PrintAll(valid), Print(master))
    ensures exists p :: NearestUp(p, valid, master) && v == Print(p)
  {
    hide Print; hide Up; hide Less; hide UpRelease; hide Before; hide TextBefore;
    var i :| 0 <= i < |valid| && PrintAll(valid)[i] == v;
    var p := valid[i];
    SidesAgree(pool, p, master);
    forall x | x in valid && UpRelease(x, master) ensures !Before(x, p) {
      var k :| 0 <= k < |valid| && valid[k] == x;
      assert PrintAll(valid)[k] in PrintAll(valid);
      SidesAgree(pool, x, master);
      PrintedOrder(x, p);
    }
  }

  /** Where the order of the texts is that of the releases, the loop meets its comment if and only if there is
      no release on the upper side, or the first eligible one is there. */
  lemma LoopMeetsComment(pool: set<Release>, v: string, valid: seq<Release>, master: Release)
    requires Agree(pool) && Drawn(pool, master, valid) && Chosen(v, PrintAll(valid), Print(master))
    ensures Documented(v, valid, master) <==> UpperFirst(valid, master)
  {
    hide Print; hide Minor; hide Less; hide Before; hide TextBefore; hide Agree; hide IsMaxLow; hide IsMinUp;
    hide NearestUp; hide NearestLow;
    FirstAgrees(pool, valid, master);
    var first := FirstEligible(valid, master);
    if first.Some? {
      SidesAgree(pool, first.value, master);
      MinorOfPrint(first.value, master);
      if LowRelease(first.value, master) {
        NearestLowAgrees(pool, v, valid, master);
        LowIsNotUp(pool, v, valid, master);
      } else {
        NearestUpAgrees(pool, v, valid, master);
      }
    }
  }

  lemma LowIsNotUp(pool: set<Release>, v: string, valid: seq<Release>, master: Release)
    requires Agree(pool) && Drawn(pool, master, valid) && IsMaxLow(v, PrintAll(valid), Print(master))
    ensures !exists p :: NearestUp(p, valid, master) && v == Print(p)
  {
    hide Print; hide Minor; hide Less; hide Before; hide TextBefore;
    forall p | NearestUp(p, valid, master) && v == Print(p) ensures false {
      SidesAgree(pool, p, master);
    }
  }

  /** Whatever list over a pool of releases, and whatever master of it: the loop meets its comment exactly when
      the upper side comes first. */
  ghost predicate MeetsComment(pool: set<Release>) {
    forall master, valid, v | Drawn(pool, master, valid) && Chosen(v, PrintAll(valid), Print(master)) ::
      Documented(v, valid, master) <==> UpperFirst(valid, master)
  }

  /** Exactly: comparing texts does what the comment asks of a pool of releases if and only if the texts of
      any two of them compare as the releases do. */
  lemma MeetsCommentExactly(pool: set<Release>)
    ensures MeetsComment(pool) <==> Agree(pool)
  {
    hide Documented; hide UpperFirst; hide Chosen; hide Print; hide Before; hide TextBefore;
    if Agree(pool) {
      forall master, valid, v | Drawn(pool, master, valid) && Chosen(v, PrintAll(valid), Print(master))
        ensures Documented(v, valid, master) <==> UpperFirst(valid, master)
      {
        LoopMeetsComment(pool, v, valid, master);
      }
    } else {
      var a, b :| a in pool && b in pool && !(TextBefore(a, b) <==> Before(a, b));
      BeforeTotal(a, b);
      TextBeforeTotal(a, b);
      if Before(a, b) {
        Misled(pool, a, b);
      } else {
        Misled(pool, b, a);
      }
    }
  }

  /** Two releases whose texts compare the other way round mislead the loop. */
  lemma Misled(pool: set<Release>, a: Release, b: Release)
    requires a in pool && b in pool && Before(a, b) && TextBefore(b, a)
    ensures !MeetsComment(pool)
  {
    hide Print; hide Before; hide TextBefore; hide Minor; hide Less;
    if SameMinor(a, b) {
      MisledUp(a, b);
      assert Drawn(pool, a, [b, a]);
    } else {
      MisledLow(a, b);
      assert Drawn(pool, b, [a]);
    }
  }

  /** For a master that is itself valid, the loop takes a later release whose text sorts below it. */
  lemma MisledUp(a: Release, b: Release)
    requires Before(a, b) && TextBefore(b, a) && SameMinor(a, b)
    ensures Chosen(Print(b), PrintAll([b, a]), Print(a))
    ensures UpperFirst([b, a], a) && !Documented(Print(b), [b, a], a)
  {
    hide Print; hide Before; hide TextBefore; hide Minor; hide Less;
    BeforeTotal(a, b);
    BeforeTotal(a, a);
    PrintedOrder(b, a);
    PrintedOrder(b, b);
    TextBeforeTotal(b, b);
    LessTotal(Print(a), Print(a));
    MinorOfPrint(b, a);
    assert PrintAll([b, a]) == [Print(b), Print(a)];
    assert a in [b, a] && b in [b, a];
    assert UpRelease(a, a) && UpRelease(b, a);
    forall p | NearestUp(p, [b, a], a) && Print(b) == Print(p) ensures false {
      PrintInjective(b, p);
    }
  }

  /** For a master of another minor version, the loop overlooks an earlier release whose text sorts above it. */
  lemma MisledLow(a: Release, b: Release)
    requires Before(a, b) && TextBefore(b, a) && !SameMinor(a, b)
    ensures Chosen("", PrintAll([a]), Print(b))
    ensures UpperFirst([a], b) && !Documented("", [a], b)
  {
    hide Print; hide Before; hide TextBefore; hide Minor; hide Less;
    BeforeTotal(a, b);
    PrintedOrder(a, b);
    TextBeforeTotal(a, b);
    MinorOfPrint(a, b);
    assert PrintAll([a]) == [Print(a)];
    assert a in [a] && LowRelease(a, b);
    forall p ensures Print(p) != "" { MinorOfPrint(p, p); }
  }

  // ----- when the orders agree -----

  /** The orders agree on two numbers with equally many digits. */
  lemma {:induction false} SameDigitCount(m: nat, n: nat)
    requires |Str(m)| == |Str(n)|
    ensures Less(Str(m), Str(n)) <==> m < n
  {
    if m < 10 || n < 10 {
      assert m < 10 && n < 10;
    } else {
      SameDigitCount(m / 10, n / 10);
      LessAppend(Str(m / 10), Digit(m % 10), Str(n / 10), Digit(n % 10));
      if Str(m / 10) == Str(n / 10) { StrInjective(m / 10, n / 10); }
    }
  }

  lemma {:induction false} LessAppend(x: string, c: char, y: string, d: char)
    requires |x| == |y|
    ensures Less(x + [c], y + [d]) <==> Less(x, y) || (x == y && c < d)
  {
    if x == "" {
      assert x + [c] == [c] && y + [d] == [d];
    } else {
      assert (x + [c])[1..] == x[1..] + [c] && (y + [d])[1..] == y[1..] + [d];
      assert x == [x[0]] + x[1..] && y == [y[0]] + y[1..];
      LessAppend(x[1..], c, y[1..], d);
    }
  }

  predicate SameWidth(a: Release, b: Release) {
    && |Str(a.major)| == |Str(b.major)| && |Str(a.minor)| == |Str(b.minor)| && |Str(a.patch)| == |Str(b.patch)|
    && (a.build.Some? && b.build.Some? ==> |Str(a.build.value)| == |Str(b.build.value)|)
  }

  /** In particular they agree on a pool in which corresponding numbers have equally many digits. */
  lemma SameWidthsAgree(pool: set<Release>)
    requires forall a, b | a in pool && b in pool :: SameWidth(a, b)
    ensures Agree(pool)
  {
    hide Str; hide Less;
    forall a, b | a in pool && b in pool ensures TextBefore(a, b) <==> Before(a, b) {
      SameDigitCount(a.major, b.major);
      SameDigitCount(a.minor, b.minor);
      SameDigitCount(a.patch, b.patch);
      if a.build.Some? && b.build.Some? {
        SameDigitCount(a.build.value, b.build.value);
      }
    }
  }

  lemma NineTenEleven()
    ensures Less(Str(10), Str(9)) && Less(Str(11), Str(9)) && Less(Str(10), Str(11))
    ensures !Less(Str(11), Str(10)) && !Less(Str(11), Str(11))
  {
    assert Str(9) == "9" && Str(10) == "10" && Str(11) == "11";
  }

  /** For master 1.30.9 and the valid versions 1.30.10 and 1.30.11 the loop takes 1.30.11, in either order;
      the comment asks for 1.30.10. */
  lemma TenthPatchIsMissed(valid: seq<Release>)
    requires valid == [Release(1, 30, 10, None), Release(1, 30, 11, None)]
          || valid == [Release(1, 30, 11, None), Release(1, 30, 10, None)]
    ensures var master := Release(1, 30, 9, None);
      && Chosen(Print(Release(1, 30, 11, None)), PrintAll(valid), Print(master))
      && UpperFirst(valid, master)
      && Documented(Print(Release(1, 30, 10, None)), valid, master)
      && !Documented(Print(Release(1, 30, 11, None)), valid, master)
  {
    hide Print; hide Minor;
    var master, ten, eleven := Release(1, 30, 9, None), Release(1, 30, 10, None), Release(1, 30, 11, None);
    NineTenEleven();
    hide Str; hide Less;
    PrintedOrder(ten, master);
    PrintedOrder(eleven, master);
    PrintedOrder(eleven, ten);
    PrintedOrder(eleven, eleven);
    MinorOfPrint(ten, master);
    MinorOfPrint(eleven, master);
    assert ten in valid && eleven in valid && UpRelease(ten, master);
    assert NearestUp(ten, valid, master);
    forall p | NearestUp(p, valid, master) && Print(eleven) == Print(p) ensures false {
      PrintInjective(eleven, p);
    }
    assert forall x | x in PrintAll(valid) :: x == Print(ten) || x == Print(eleven);
    assert Print(eleven) in PrintAll(valid) by {
      assert PrintAll(valid)[0] == Print(eleven) || PrintAll(valid)[1] == Print(eleven);
    }
    assert PrintAll(valid)[0] in PrintAll(valid);
  }
}
