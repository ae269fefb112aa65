/** TPU topologies: their texts (src/xpk/utils/topology.py), the generator of the catalogue
    (src/xpk/core/system_characteristics.py), and the super-slicing check (src/xpk/core/scheduling.py). */
module Topology {
  import opened Text
  import opened Decimal

  datatype Topo = Topo(x: nat, y: nat, z: nat)

  const MAX_SIDE := 256
  const MAX_SUPER_SLICING_CUBES := 144
  const FIXED := [Topo(2, 2, 1), Topo(2, 2, 2), Topo(2, 2, 4), Topo(2, 4, 4)]

  /** f'{x}x{y}x{z}' */
  function Print(t: Topo): string {
    Join([Str(t.x), Str(t.y), Str(t.z)], 'x')
  }

  function PrintAll(ts: seq<Topo>): (r: seq<string>)
    ensures |r| == |ts| && forall i | 0 <= i < |ts| :: r[i] == Print(ts[i])
  {
    seq(|ts|, i requires 0 <= i < |ts| => Print(ts[i]))
  }

  // ----- parsing -----

  function ParseAll(parts: seq<string>): Option<seq<int>> {
    if parts == [] then Some([])
    else match (ParseInt(parts[0]), ParseAll(parts[1..]))
      case (Some(v), Some(vs)) => Some([v] + vs)
      case _ => None
  }

  /** parse_topology; None stands for ValueError. */
  function ParseTopology(s: string): Option<seq<int>> {
    if s == "" then None else ParseAll(Split(Lower(s), 'x'))
  }

  function ProductOf(sides: seq<int>): int {
    if sides == [] then 1 else sides[0] * ProductOf(sides[1..])
  }

  lemma LowerOfPrint(s: string)
    requires forall i | 0 <= i < |s| :: IsDigit(s[i]) || s[i] == 'x'
    ensures Lower(s) == s
  {
    assert forall i | 0 <= i < |s| :: Lower(s)[i] == s[i];
  }

  lemma JoinIsLower(parts: seq<string>)
    requires forall p | p in parts :: AllDigits(p)
    ensures forall i | 0 <= i < |Join(parts, 'x')| :: IsDigit(Join(parts, 'x')[i]) || Join(parts, 'x')[i] == 'x'
  {
    if parts != [] {
      assert parts[0] in parts;
    }
    if |parts| > 1 {
      JoinIsLower(parts[1..]);
    }
  }

  /** Round trip of the printed form. */
  lemma ParseOfPrint(t: Topo)
    ensures ParseTopology(Print(t)) == Some([t.x, t.y, t.z])
  {
    hide Join; hide Split; hide ParseInt;
    var parts := [Str(t.x), Str(t.y), Str(t.z)];
    DigitsHaveNoX(parts[0]);
    DigitsHaveNoX(parts[1]);
    DigitsHaveNoX(parts[2]);
    assert forall p | p in parts :: AllDigits(p) && 'x' !in p;
    assert Print(t) == Join(parts, 'x');
    JoinIsLower(parts);
    LowerOfPrint(Join(parts, 'x'));
    SplitOfJoin(parts, 'x');
    PrintNotEmpty(t);
    ParseOfStr(t.x);
    ParseOfStr(t.y);
    ParseOfStr(t.z);
    ParseThree(parts[0], parts[1], parts[2]);
  }

  lemma DigitsHaveNoX(p: string)
    requires AllDigits(p)
    ensures 'x' !in p
  {
  }

  lemma ParseThree(a: string, b: string, c: string)
    requires ParseInt(a).Some? && ParseInt(b).Some? && ParseInt(c).Some?
    ensures ParseAll([a, b, c]) == Some([ParseInt(a).value, ParseInt(b).value, ParseInt(c).value])
  {
    hide ParseInt;
    var one, two, three := [c], [b, c], [a, b, c];
    assert one[1..] == [] && two[1..] == one && three[1..] == two;
    assert ParseAll(one[1..]) == Some([]);
    assert ParseAll(one) == Some([ParseInt(c).value] + []);
    assert ParseAll(two) == Some([ParseInt(b).value] + ([ParseInt(c).value] + []));
    assert ParseAll(three) == Some([ParseInt(a).value] + ([ParseInt(b).value] + ([ParseInt(c).value] + [])));
    assert [ParseInt(a).value] + ([ParseInt(b).value] + ([ParseInt(c).value] + []))
        == [ParseInt(a).value, ParseInt(b).value, ParseInt(c).value];
  }

  lemma PrintNotEmpty(t: Topo)
    ensures Print(t) != ""
  {
    assert [Str(t.x), Str(t.y), Str(t.z)][1..] == [Str(t.y), Str(t.z)];
  }

  lemma PrintInjective(s: Topo, t: Topo)
    requires Print(s) == Print(t)
    ensures s == t
  {
    hide Print; hide ParseTopology;
    ParseOfPrint(s);
    ParseOfPrint(t);
    assert [s.x, s.y, s.z] == [t.x, t.y, t.z];
    assert [s.x, s.y, s.z][0] == t.x && [s.x, s.y, s.z][1] == t.y && [s.x, s.y, s.z][2] == t.z;
  }

  // ----- the generator -----

  function Cubes(t: Topo): nat {
    (t.x / 4) * (t.y / 4) * (t.z / 4)
  }

  predicate Side(n: int) {
    4 <= n <= MAX_SIDE && n % 4 == 0
  }

  predicate NonDecreasing(t: Topo) {
    t.x <= t.y <= t.z
  }

  /** The triples that the documentation of the generator promises. */
  predicate Wanted(t: Topo, maxCubes: int, nonDecreasing: bool) {
    Side(t.x) && Side(t.y) && Side(t.z) && Cubes(t) <= maxCubes && (nonDecreasing ==> NonDecreasing(t))
  }

  predicate Precedes(t: Topo, x: int, y: int, z: int) {
    t.x < x || (t.x == x && (t.y < y || (t.y == y && t.z < z)))
  }

  /** The list holds exactly the wanted triples before a position, each once, in lexicographic order. */
  ghost predicate ListedBefore(ts: seq<Topo>, maxCubes: int, nonDecreasing: bool, x: int, y: int, z: int) {
    && (forall t :: t in ts <==> Wanted(t, maxCubes, nonDecreasing) && Precedes(t, x, y, z))
    && (forall i, j | 0 <= i < j < |ts| :: Precedes(ts[i], ts[j].x, ts[j].y, ts[j].z))
  }

  /** Exactly the wanted triples, each once, in lexicographic order. */
  ghost predicate ListsExactly(ts: seq<Topo>, maxCubes: int, nonDecreasing: bool) {
    && (forall t :: t in ts <==> Wanted(t, maxCubes, nonDecreasing))
    && (forall i, j | 0 <= i < j < |ts| :: Precedes(ts[i], ts[j].x, ts[j].y, ts[j].z))
  }

  /** Moving the position over triples that are not wanted changes nothing. */
  lemma SkipTo(ts: seq<Topo>, maxCubes: int, nd: bool, x: int, y: int, z: int, x': int, y': int, z': int)
    requires ListedBefore(ts, maxCubes, nd, x, y, z)
    requires forall t: Topo | Wanted(t, maxCubes, nd) :: Precedes(t, x, y, z) <==> Precedes(t, x', y', z')
    ensures ListedBefore(ts, maxCubes, nd, x', y', z')
  {
    hide Wanted; hide Precedes;
  }

  lemma AddOne(ts: seq<Topo>, maxCubes: int, nd: bool, x: nat, y: nat, z: nat)
    requires ListedBefore(ts, maxCubes, nd, x, y, z) && z % 4 == 0
    ensures var t := Topo(x, y, z);
      ListedBefore(if Wanted(t, maxCubes, nd) then ts + [t] else ts, maxCubes, nd, x, y, z + 4)
  {
    hide Cubes;
    var t := Topo(x, y, z);
    var ts' := if Wanted(t, maxCubes, nd) then ts + [t] else ts;
    forall u: Topo ensures u in ts' <==> Wanted(u, maxCubes, nd) && Precedes(u, x, y, z + 4) {
      if Wanted(u, maxCubes, nd) && Precedes(u, x, y, z + 4) && !Precedes(u, x, y, z) {
        assert u == t;
      }
    }
    forall i, j | 0 <= i < j < |ts'| ensures Precedes(ts'[i], ts'[j].x, ts'[j].y, ts'[j].z) {
      assert ts[i] in ts;
    }
  }

  /** The texts of the four fixed topologies. */
  lemma FixedTexts()
    ensures PrintAll(FIXED) == ["2x2x1", "2x2x2", "2x2x4", "2x4x4"]
  {
    assert Str(1) == "1" && Str(2) == "2" && Str(4) == "4";
    hide Str; hide Print;
    PrintText(Topo(2, 2, 1));
    PrintText(Topo(2, 2, 2));
    PrintText(Topo(2, 2, 4));
    PrintText(Topo(2, 4, 4));
    Literals();
    var texts := PrintAll(FIXED);
    assert |texts| == 4 && texts == [texts[0], texts[1], texts[2], texts[3]];
  }

  lemma Literals()
    ensures "2" + "x" + "2" + "x" + "1" == "2x2x1" && "2" + "x" + "2" + "x" + "2" == "2x2x2"
    ensures "2" + "x" + "2" + "x" + "4" == "2x2x4" && "2" + "x" + "4" + "x" + "4" == "2x4x4"
  {
  }

  lemma PrintText(t: Topo)
    ensures Print(t) == Str(t.x) + "x" + Str(t.y) + "x" + Str(t.z)
  {
    hide Str;
    var parts := [Str(t.x), Str(t.y), Str(t.z)];
    assert parts[1..] == [Str(t.y), Str(t.z)] && parts[1..][1..] == [Str(t.z)];
    assert Join(parts[1..], 'x') == Str(t.y) + ['x'] + Join([Str(t.z)], 'x');
    assert Print(t) == Str(t.x) + ['x'] + (Str(t.y) + ['x'] + Str(t.z));
  }

  /** What the loops have emitted when they reach a position. */
  ghost predicate Emitted(topologies: seq<string>, ts: seq<Topo>, maxCubes: int, nd: bool, x: int, y: int, z: int) {
    topologies == PrintAll(FIXED) + PrintAll(ts) && ListedBefore(ts, maxCubes, nd, x, y, z)
  }

  /** A loop variable: 4, 8, ..., 256, or the first value beyond. */
  predicate OnGrid(n: int) {
    4 <= n <= MAX_SIDE + 4 && n % 4 == 0
  }

  lemma GridStep(n: int)
    ensures OnGrid(4)
    ensures OnGrid(n) ==> n >= 4 && (n <= MAX_SIDE ==> Side(n) && OnGrid(n + 4))
  {
  }

  /** generate_tpu_topologies */
  method GenerateTpuTopologies(maxCubes: int, nonDecreasing: bool) returns (topologies: seq<string>)
    ensures exists triples :: ListsExactly(triples, maxCubes, nonDecreasing) && topologies == PrintAll(FIXED) + PrintAll(triples)
  {
    hide Emitted; hide OnGrid; hide Side; hide ListsExactly; hide PrintAll; hide Print; hide FIXED; hide Cubes;
    topologies := PrintAll(FIXED);
    ghost var triples: seq<Topo> := [];
    StartList(topologies, maxCubes, nonDecreasing);
    GridStep(4);
    var x := 4;
    while x <= MAX_SIDE
      invariant OnGrid(x) && Emitted(topologies, triples, maxCubes, nonDecreasing, x, 0, 0)
    {
      GridStep(x);
      var y := if nonDecreasing then x else 4;
      NextRow(topologies, triples, maxCubes, nonDecreasing, x);
      while y <= MAX_SIDE
        invariant OnGrid(y) && (nonDecreasing ==> x <= y) && Emitted(topologies, triples, maxCubes, nonDecreasing, x, y, 0)
      {
        GridStep(y);
        var z := if nonDecreasing then y else 4;
        NextColumn(topologies, triples, maxCubes, nonDecreasing, x, y);
        while z <= MAX_SIDE
          invariant OnGrid(z) && (nonDecreasing ==> y <= z) && Emitted(topologies, triples, maxCubes, nonDecreasing, x, y, z)
        {
          GridStep(z);
          Visit(topologies, triples, maxCubes, nonDecreasing, x, y, z);
          if Cubes(Topo(x, y, z)) <= maxCubes {
            topologies := topologies + [Print(Topo(x, y, z))];
            triples := triples + [Topo(x, y, z)];
          }
          z := z + 4;
        }
        EndColumn(topologies, triples, maxCubes, nonDecreasing, x, y, z);
        y := y + 4;
      }
      EndRow(topologies, triples, maxCubes, nonDecreasing, x, y);
      x := x + 4;
    }
    EndList(topologies, triples, maxCubes, nonDecreasing, x);
  }

  lemma PrintAppend(topologies: seq<string>, head: seq<string>, ts: seq<Topo>, t: Topo)
    requires topologies == head + PrintAll(ts)
    ensures topologies + [Print(t)] == head + PrintAll(ts + [t])
  {
    hide Print;
  }

  lemma WantedHere(x: nat, y: nat, z: nat, maxCubes: int, nd: bool)
    requires Side(x) && Side(y) && Side(z) && (nd ==> x <= y <= z)
    ensures Wanted(Topo(x, y, z), maxCubes, nd) <==> (x / 4) * (y / 4) * (z / 4) <= maxCubes
  {
  }

  /** One turn of the innermost loop. */
  lemma Visit(topologies: seq<string>, ts: seq<Topo>, maxCubes: int, nd: bool, x: nat, y: nat, z: nat)
    requires Emitted(topologies, ts, maxCubes, nd, x, y, z)
    requires Side(x) && Side(y) && Side(z) && (nd ==> x <= y <= z)
    ensures var t := Topo(x, y, z);
      if Cubes(t) <= maxCubes then Emitted(topologies + [Print(t)], ts + [t], maxCubes, nd, x, y, z + 4)
      else Emitted(topologies, ts, maxCubes, nd, x, y, z + 4)
  {
    hide Wanted; hide ListedBefore; hide Print; hide FIXED;
    AddOne(ts, maxCubes, nd, x, y, z);
    WantedHere(x, y, z, maxCubes, nd);
    PrintAppend(topologies, PrintAll(FIXED), ts, Topo(x, y, z));
  }

  lemma StartList(topologies: seq<string>, maxCubes: int, nd: bool)
    requires topologies == PrintAll(FIXED)
    ensures Emitted(topologies, [], maxCubes, nd, 4, 0, 0)
  {
    hide Cubes; hide Print; hide FIXED;
    assert PrintAll(FIXED) + PrintAll([]) == PrintAll(FIXED);
  }

  lemma NextRow(topologies: seq<string>, ts: seq<Topo>, maxCubes: int, nd: bool, x: int)
    requires Emitted(topologies, ts, maxCubes, nd, x, 0, 0)
    ensures Emitted(topologies, ts, maxCubes, nd, x, if nd then x else 4, 0)
  {
    hide Cubes; hide ListedBefore; hide PrintAll; hide FIXED;
    SkipTo(ts, maxCubes, nd, x, 0, 0, x, if nd then x else 4, 0);
  }

  lemma NextColumn(topologies: seq<string>, ts: seq<Topo>, maxCubes: int, nd: bool, x: int, y: int)
    requires Emitted(topologies, ts, maxCubes, nd, x, y, 0)
    ensures Emitted(topologies, ts, maxCubes, nd, x, y, if nd then y else 4)
  {
    hide Cubes; hide ListedBefore; hide PrintAll; hide FIXED;
    SkipTo(ts, maxCubes, nd, x, y, 0, x, y, if nd then y else 4);
  }

  lemma EndColumn(topologies: seq<string>, ts: seq<Topo>, maxCubes: int, nd: bool, x: int, y: int, z: int)
    requires Emitted(topologies, ts, maxCubes, nd, x, y, z) && z > MAX_SIDE && Side(y)
    ensures Emitted(topologies, ts, maxCubes, nd, x, y + 4, 0)
  {
    hide Cubes; hide ListedBefore; hide PrintAll; hide FIXED;
    SkipTo(ts, maxCubes, nd, x, y, z, x, y + 4, 0);
  }

  lemma EndRow(topologies: seq<string>, ts: seq<Topo>, maxCubes: int, nd: bool, x: int, y: int)
    requires Emitted(topologies, ts, maxCubes, nd, x, y, 0) && y > MAX_SIDE && Side(x)
    ensures Emitted(topologies, ts, maxCubes, nd, x + 4, 0, 0)
  {
    hide Cubes; hide ListedBefore; hide PrintAll; hide FIXED;
    SkipTo(ts, maxCubes, nd, x, y, 0, x + 4, 0, 0);
  }

  lemma EndList(topologies: seq<string>, ts: seq<Topo>, maxCubes: int, nd: bool, x: int)
    requires Emitted(topologies, ts, maxCubes, nd, x, 0, 0) && x > MAX_SIDE
    ensures ListsExactly(ts, maxCubes, nd) && topologies == PrintAll(FIXED) + PrintAll(ts)
  {
    hide Cubes; hide PrintAll; hide FIXED;
  }

  lemma TailMembers(s: seq<Topo>, t: Topo)
    requires s != [] && forall i, j | 0 <= i < j < |s| :: Precedes(s[i], s[j].x, s[j].y, s[j].z)
    ensures t in s[1..] <==> t in s && t != s[0]
  {
    if t in s[1..] {
      var i :| 1 <= i < |s| && s[i] == t;
      assert Precedes(s[0], s[i].x, s[i].y, s[i].z);
    }
    assert t in s <==> t == s[0] || t in s[1..];
  }

  lemma HeadsAgree(a: seq<Topo>, b: seq<Topo>)
    requires a != [] && b != [] && a[0] in b && b[0] in a
    requires forall i, j | 0 <= i < j < |a| :: Precedes(a[i], a[j].x, a[j].y, a[j].z)
    requires forall i, j | 0 <= i < j < |b| :: Precedes(b[i], b[j].x, b[j].y, b[j].z)
    ensures a[0] == b[0]
  {
    var i :| 0 <= i < |b| && b[i] == a[0];
    var j :| 0 <= j < |a| && a[j] == b[0];
  }

  /** The promise leaves no choice: there is one such list. */
  lemma {:induction false} ListUnique(a: seq<Topo>, b: seq<Topo>)
    requires forall t :: t in a <==> t in b
    requires forall i, j | 0 <= i < j < |a| :: Precedes(a[i], a[j].x, a[j].y, a[j].z)
    requires forall i, j | 0 <= i < j < |b| :: Precedes(b[i], b[j].x, b[j].y, b[j].z)
    ensures a == b
  {
    hide Precedes;
    assert a != [] ==> a[0] in b;
    assert b != [] ==> b[0] in a;
    if a != [] && b != [] {
      HeadsAgree(a, b);
      forall t ensures t in a[1..] <==> t in b[1..] {
        TailMembers(a, t);
        TailMembers(b, t);
      }
      ListUnique(a[1..], b[1..]);
      assert a == [a[0]] + a[1..] && b == [b[0]] + b[1..];
    }
  }

  /** The sorted representative of a triple. */
  function SortSides(t: Topo): (r: Topo)
    ensures NonDecreasing(r) && multiset{r.x, r.y, r.z} == multiset{t.x, t.y, t.z}
  {
    var (a, b) := if t.x <= t.y then (t.x, t.y) else (t.y, t.x);
    if t.z <= a then Topo(t.z, a, b) else if t.z <= b then Topo(a, t.z, b) else Topo(a, b, t.z)
  }

  lemma CubesSymmetric(a: nat, b: nat, c: nat)
    ensures a * b * c == b * a * c == a * c * b == c * a * b == b * c * a == c * b * a
  {
    assert a * b == b * a && a * c == c * a && b * c == c * b;
    assert (a * b) * c == a * (b * c) && (a * c) * b == a * (c * b);
    assert (b * c) * a == a * (b * c) && (c * b) * a == a * (c * b);
    assert (c * a) * b == (a * c) * b;
  }

  /** The non-decreasing mode lists exactly the sorted representatives of the unrestricted mode. */
  lemma Representatives(ordered: seq<Topo>, all: seq<Topo>, maxCubes: int)
    requires ListsExactly(ordered, maxCubes, true) && ListsExactly(all, maxCubes, false)
    ensures forall t :: t in ordered <==> t in all && NonDecreasing(t)
    ensures forall t | t in all :: SortSides(t) in ordered
    ensures forall r | r in ordered :: exists t :: t in all && SortSides(t) == r
  {
    hide Wanted; hide Precedes; hide SortSides;
    forall t | t in all ensures SortSides(t) in ordered {
      SortedWanted(t, maxCubes);
    }
    forall t ensures t in ordered <==> t in all && NonDecreasing(t) {
      SortedWanted(t, maxCubes);
    }
    forall r | r in ordered ensures exists t :: t in all && SortSides(t) == r {
      SortedWanted(r, maxCubes);
    }
  }

  lemma SortedWanted(t: Topo, maxCubes: int)
    ensures Wanted(t, maxCubes, true) <==> Wanted(t, maxCubes, false) && NonDecreasing(t)
    ensures Wanted(t, maxCubes, false) ==> Wanted(SortSides(t), maxCubes, true)
    ensures NonDecreasing(t) ==> SortSides(t) == t
  {
    hide Cubes; hide Side;
    SortedCubes(t);
  }

  lemma SortedCubes(t: Topo)
    ensures Cubes(SortSides(t)) == Cubes(t)
  {
    CubesSymmetric(t.x / 4, t.y / 4, t.z / 4);
  }

  // ----- the super-slicing check -----

  /** _check_super_slicing_topology on parsed sides. */
  predicate AcceptsSides(sides: seq<int>) {
    && (forall i | 0 <= i < |sides| :: sides[i] % 4 == 0 && sides[i] >= 4)
    && |sides| == 3
    && sides[0] <= sides[1] <= sides[2]
    && (sides[0] / 4) * (sides[1] / 4) * (sides[2] / 4) <= MAX_SUPER_SLICING_CUBES
  }

  /** The whole check; None stands for ValueError. */
  function CheckSuperSlicingTopology(topology: string): Option<bool> {
    match ParseTopology(topology) case None => None case Some(sides) => Some(AcceptsSides(sides))
  }

  lemma AcceptsTriple(t: Topo)
    ensures CheckSuperSlicingTopology(Print(t)) == Some(
      t.x % 4 == 0 && t.y % 4 == 0 && t.z % 4 == 0 && 4 <= t.x <= t.y <= t.z && Cubes(t) <= MAX_SUPER_SLICING_CUBES)
  {
    hide Print; hide ParseTopology;
    ParseOfPrint(t);
    var sides: seq<int> := [t.x, t.y, t.z];
    assert sides[0] == t.x && sides[1] == t.y && sides[2] == t.z;
  }

  /** The check and the generator agree on a topology if and only if it is not one of sorted multiples of four
      within 144 cubes that has a side beyond 256, the generator's limit.  In particular they agree whenever
      all sides are at most 256. */
  lemma CheckAgreesWithGenerator(t: Topo, triples: seq<Topo>)
    requires ListsExactly(triples, MAX_SUPER_SLICING_CUBES, true)
    ensures var generated := PrintAll(FIXED) + PrintAll(triples);
      var accepted := CheckSuperSlicingTopology(Print(t)) == Some(true);
      var listed := Print(t) in generated && Print(t) !in PrintAll(FIXED);
      (accepted <==> listed) <==>
        !(t.x % 4 == 0 && t.y % 4 == 0 && t.z % 4 == 0 && 4 <= t.x <= t.y <= t.z
          && Cubes(t) <= MAX_SUPER_SLICING_CUBES && t.z > MAX_SIDE)
  {
    hide Print; hide CheckSuperSlicingTopology; hide FIXED;
    AcceptsTriple(t);
    PrintedMember(t, FIXED);
    PrintedMember(t, triples);
    assert Print(t) in PrintAll(FIXED) + PrintAll(triples) <==> Print(t) in PrintAll(FIXED) || Print(t) in PrintAll(triples);
    FixedAreSmall(t);
  }

  lemma FixedAreSmall(t: Topo)
    ensures t in FIXED ==> t.x == 2
  {
  }

  lemma PrintedMember(t: Topo, ts: seq<Topo>)
    ensures Print(t) in PrintAll(ts) <==> t in ts
  {
    hide Print;
    if Print(t) in PrintAll(ts) {
      var i :| 0 <= i < |ts| && PrintAll(ts)[i] == Print(t);
      PrintInjective(ts[i], t);
    }
    if t in ts {
      var i :| 0 <= i < |ts| && ts[i] == t;
      assert PrintAll(ts)[i] == Print(t);
    }
  }

  /** There are accepted topologies that the generator misses. */
  lemma LongTopologyIsMissed()
    ensures CheckSuperSlicingTopology(Print(Topo(4, 4, 260))) == Some(true)
    ensures forall triples | ListsExactly(triples, MAX_SUPER_SLICING_CUBES, true) :: Topo(4, 4, 260) !in triples
  {
    AcceptsTriple(Topo(4, 4, 260));
  }
}
