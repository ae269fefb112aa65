/** Names of the node pools a cluster should have, and which of the present ones must go
    (src/xpk/core/nodepool.py). */
module NodePools {
  import opened Text
  import opened Decimal

  const POOL_INFIX := "-np-"
  const CPU_POOL := "cpu-np"
  const LEGACY_POOLS := ["cpu-rm-np", "cpu-proxy-np", "cpu-user-np"]

  /** The pools that xpk manages carry the prefix of their cluster. */
  predicate IsManaged(cluster: string, name: string) {
    cluster + POOL_INFIX <= name
  }

  function PoolName(cluster: string, i: nat): (name: string)
    ensures IsManaged(cluster, name)
  {
    cluster + POOL_INFIX + Str(i)
  }

  function Managed(names: seq<string>, cluster: string): seq<string> {
    if names == [] then []
    else (if IsManaged(cluster, names[0]) then [names[0]] else []) + Managed(names[1..], cluster)
  }

  /** xs[:n] in Python: a negative n counts from the end. */
  function Take(xs: seq<string>, n: int): seq<string> {
    if n >= |xs| then xs else if n >= 0 then xs[..n] else if |xs| + n >= 0 then xs[..|xs| + n] else []
  }

  ghost predicate Distinct(xs: seq<string>) {
    forall i, j | 0 <= i < j < |xs| :: xs[i] != xs[j]
  }

  // ----- the desired names -----

  /** What the desired names are: the first managed pools, as many as wanted, and then the pool names
      with the lowest numbers until there are enough.  "used" numbers were tried. */
  ghost predicate IsDesired(result: seq<string>, existing: seq<string>, cluster: string, count: int, used: nat) {
    && StrictlySorted(result)
    && (forall x :: x in result <==>
          x in Take(Managed(existing, cluster), count) || exists i | 0 <= i < used :: x == PoolName(cluster, i))
    && (used > 0 ==> |result| == count && PoolName(cluster, used - 1) !in Take(Managed(existing, cluster), count))
    && |result| >= count
  }

  /** get_desired_node_pool_names; the set is kept as its sorted list. */
  method GetDesiredNodePoolNames(existing: seq<string>, cluster: string, count: int)
    returns (result: seq<string>)
    ensures exists used: nat :: IsDesired(result, existing, cluster, count, used) && (count >= 0 ==> used <= count)
    ensures count >= 0 ==> |result| == count
  {
    var kept := Take(Managed(existing, cluster), count);
    result := SortedSet(kept);
    SortedSetSorts(kept);
    DistinctFits(result, kept);
    var i: nat := 0;
    while |result| < count
      invariant i <= |result|
      invariant (count >= 0 || i > 0) ==> |result| <= count
      invariant StrictlySorted(result)
      invariant forall x :: x in result <==> x in kept || exists k | 0 <= k < i :: x == PoolName(cluster, k)
      invariant i > 0 && |result| == count ==> PoolName(cluster, i - 1) !in kept
      decreases count - i
    {
      var name := PoolName(cluster, i);
      InsertSorts(name, result);
      InsertGrows(name, result);
      var bigger := Insert(name, result);
      forall x ensures x in bigger <==> x in kept || exists k | 0 <= k < i + 1 :: x == PoolName(cluster, k) {
        if x in kept || exists k | 0 <= k < i + 1 :: x == PoolName(cluster, k) {
          assert x in result || x == name;
        }
      }
      result := bigger;
      i := i + 1;
      NumberedFit(result, cluster, i);
    }
    assert IsDesired(result, existing, cluster, count, i);
  }

  lemma InsertGrows(x: string, s: seq<string>)
    ensures |Insert(x, s)| <= |s| + 1
    ensures x in s && StrictlySorted(s) ==> Insert(x, s) == s
  {
    if s != [] {
      LessTotal(x, s[0]);
      InsertGrows(x, s[1..]);
      if StrictlySorted(s) && x in s {
        HeadIsLeast(s, x);
        if x != s[0] {
          LessTotal(s[0], x);
        }
      }
    }
  }

  /** A set never has more elements than a list that contains it. */
  lemma DistinctFits(a: seq<string>, b: seq<string>)
    requires StrictlySorted(a) && forall x | x in a :: x in b
    ensures |a| <= |b|
  {
    SortedDistinct(a);
    SetOfDistinct(a);
    SetOfAny(b);
    assert (set x | x in a) <= (set x | x in b);
    CardinalityOfSubset(set x | x in a, set x | x in b);
  }

  lemma CardinalityOfSubset<T>(a: set<T>, b: set<T>)
    requires a <= b
    ensures |a| <= |b|
  {
    if a != {} {
      var x :| x in a;
      CardinalityOfSubset(a - {x}, b - {x});
    }
  }

  lemma {:induction false} SetOfDistinct(a: seq<string>)
    requires Distinct(a)
    ensures |set x | x in a| == |a|
  {
    if a != [] {
      SetOfDistinct(a[1..]);
      assert (set x | x in a) == {a[0]} + (set x | x in a[1..]);
      assert a[0] !in a[1..];
    }
  }

  lemma {:induction false} SetOfAny(a: seq<string>)
    ensures |set x | x in a| <= |a|
  {
    if a != [] {
      SetOfAny(a[1..]);
      assert (set x | x in a) == {a[0]} + (set x | x in a[1..]);
    }
  }

  lemma PoolNameInjective(cluster: string, i: nat, j: nat)
    requires PoolName(cluster, i) == PoolName(cluster, j)
    ensures i == j
  {
    var n := |cluster + POOL_INFIX|;
    assert PoolName(cluster, i)[n..] == Str(i) && PoolName(cluster, j)[n..] == Str(j);
    StrInjective(i, j);
  }

  /** A list that contains the first "n" numbered names has at least "n" elements. */
  lemma NumberedFit(a: seq<string>, cluster: string, n: nat)
    requires StrictlySorted(a) && forall i | 0 <= i < n :: PoolName(cluster, i) in a
    ensures n <= |a|
  {
    var names := Numbered(cluster, n);
    SetOfNumbered(cluster, n);
    SetOfAny(a);
    assert names <= (set x | x in a);
    CardinalityOfSubset(names, set x | x in a);
  }

  ghost function Numbered(cluster: string, n: nat): set<string> {
    set i | 0 <= i < n :: PoolName(cluster, i)
  }

  lemma {:induction false} SetOfNumbered(cluster: string, n: nat)
    ensures |Numbered(cluster, n)| == n
  {
    hide PoolName;
    if n > 0 {
      SetOfNumbered(cluster, n - 1);
      assert Numbered(cluster, n) == Numbered(cluster, n - 1) + {PoolName(cluster, n - 1)};
      if PoolName(cluster, n - 1) in Numbered(cluster, n - 1) {
        var i: nat :| i < n - 1 && PoolName(cluster, i) == PoolName(cluster, n - 1);
        PoolNameInjective(cluster, i, n - 1);
      }
    }
  }

  lemma {:induction false} ManagedMembers(names: seq<string>, cluster: string)
    ensures forall x :: x in Managed(names, cluster) <==> x in names && IsManaged(cluster, x)
    ensures Distinct(names) ==> Distinct(Managed(names, cluster))
  {
    hide IsManaged;
    if names != [] {
      ManagedMembers(names[1..], cluster);
      var rest := Managed(names[1..], cluster);
      if Distinct(names) {
        assert Distinct(names[1..]);
        assert names[0] !in names[1..];
        forall i, j | 0 <= i < j < |Managed(names, cluster)| ensures Managed(names, cluster)[i] != Managed(names, cluster)[j] {
          assert j < |rest| ==> rest[j] in rest;
          assert j > 0 ==> j - 1 < |rest| ==> rest[j - 1] in rest;
        }
      }
    }
  }

  ghost function Members(xs: seq<string>): set<string> {
    set x | x in xs
  }

  /** For distinct present names and a count that is not negative: the desired names have exactly the
      wanted number, all carry the prefix, and either they are the first managed pools or they contain
      all managed pools and every other name is new to the cluster. */
  lemma DesiredNames(existing: seq<string>, cluster: string, count: nat, result: seq<string>, used: nat)
    requires Distinct(existing) && IsDesired(result, existing, cluster, count, used)
    ensures |result| == count && Distinct(result) && forall x | x in result :: IsManaged(cluster, x)
    ensures var managed := Managed(existing, cluster);
      if count <= |managed| then used == 0 && Members(result) == Members(managed[..count])
      else Members(managed) <= Members(result) && forall x | x in result && x !in managed :: x !in existing
  {
    hide IsManaged; hide PoolName;
    var managed := Managed(existing, cluster);
    var kept := Take(managed, count);
    ManagedMembers(existing, cluster);
    SortedDistinct(result);
    SetOfDistinct(result);
    SetOfDistinct(kept);
    assert Members(kept) <= Members(result);
    if count <= |managed| {
      var x := PoolName(cluster, if used > 0 then used - 1 else 0);
      assert used > 0 ==> x in result;
      assert used == 0 ==> Members(kept) == Members(result);
      SubsetOfSameSize(Members(kept), Members(result));
      assert x in Members(result) <==> x in Members(kept);
    } else {
      assert used == 0 ==> Members(result) == Members(kept);
    }
    forall x | x in result ensures IsManaged(cluster, x) {
      if x in kept { assert x in managed; }
    }
  }

  /** The text of a numbered pool name. */
  predicate HasNumber(name: string, cluster: string, i: nat) {
    name == cluster + "-np-" + Str(i)
  }

  /** For a cluster without managed pools, the names are the prefix with the numbers from zero up. */
  lemma NamesOfNewCluster(existing: seq<string>, cluster: string, count: nat, result: seq<string>, used: nat)
    requires Managed(existing, cluster) == [] && IsDesired(result, existing, cluster, count, used)
    ensures |result| == count
    ensures forall x :: x in result <==> exists i: nat :: i < count && HasNumber(x, cluster, i)
  {
    hide PoolName; hide IsManaged; hide Managed; hide HasNumber;
    SortedDistinct(result);
    SetOfDistinct(result);
    SetOfNumbered(cluster, used);
    assert Take([], count) == [];
    assert Members(result) == Numbered(cluster, used);
    assert |result| == used == count;
    forall x ensures x in result <==> exists i: nat :: i < count && HasNumber(x, cluster, i) {
      assert x in result <==> x in Members(result);
      NumberedNames(cluster, used, x);
    }
  }

  lemma NumberedNames(cluster: string, n: nat, x: string)
    ensures x in Numbered(cluster, n) <==> exists i: nat :: i < n && HasNumber(x, cluster, i)
  {
    if x in Numbered(cluster, n) {
      var i: nat :| i < n && x == PoolName(cluster, i);
      assert HasNumber(x, cluster, i);
    }
    if i: nat :| i < n && HasNumber(x, cluster, i) {
      assert x == PoolName(cluster, i);
    }
  }

  /** The conditions leave no choice: there is one list of desired names. */
  lemma DesiredUnique(existing: seq<string>, cluster: string, count: int, a: seq<string>, n: nat, b: seq<string>, m: nat)
    requires IsDesired(a, existing, cluster, count, n) && IsDesired(b, existing, cluster, count, m)
    ensures a == b
  {
    hide PoolName;
    if n <= m {
      DesiredSame(existing, cluster, count, a, n, b, m);
    } else {
      DesiredSame(existing, cluster, count, b, m, a, n);
    }
    assert forall y :: y in a <==> y in Members(a);
    assert forall y :: y in b <==> y in Members(b);
    SortedUnique(a, b);
  }

  lemma DesiredSame(existing: seq<string>, cluster: string, count: int, a: seq<string>, n: nat, b: seq<string>, m: nat)
    requires IsDesired(a, existing, cluster, count, n) && IsDesired(b, existing, cluster, count, m) && n <= m
    ensures Members(a) == Members(b)
  {
    hide PoolName;
    SortedDistinct(a);
    SortedDistinct(b);
    SetOfDistinct(a);
    SetOfDistinct(b);
    if n < m {
      assert forall y | y in a :: y in b;
      SubsetOfSameSize(Members(a), Members(b));
    }
  }

  lemma SubsetOfSameSize(a: set<string>, b: set<string>)
    requires a <= b && |b| <= |a|
    ensures a == b
  {
    DifferenceSize(a, b);
  }

  /** Minimal churn: keeping the desired names means giving up or adding exactly as many managed pools
      as the counts differ, never both. */
  lemma MinimalChurn(existing: seq<string>, cluster: string, count: nat, result: seq<string>, used: nat)
    requires Distinct(existing) && IsDesired(result, existing, cluster, count, used)
    ensures var present, wanted := Members(Managed(existing, cluster)), Members(result);
      && |present| == |Managed(existing, cluster)| && |wanted| == count
      && |present - wanted| == (if |present| > count then |present| - count else 0)
      && |wanted - present| == (if count > |present| then count - |present| else 0)
  {
    hide PoolName; hide IsManaged; hide IsDesired;
    var managed := Managed(existing, cluster);
    var present, wanted := Members(managed), Members(result);
    DesiredNames(existing, cluster, count, result, used);
    ManagedMembers(existing, cluster);
    SetOfDistinct(managed);
    SetOfDistinct(result);
    if count <= |managed| {
      assert wanted <= present by { assert forall x | x in managed[..count] :: x in managed; }
      assert wanted - present == {};
      assert |present - wanted| == |present| - |wanted| by { DifferenceSize(wanted, present); }
    } else {
      assert present - wanted == {};
      DifferenceSize(present, wanted);
    }
  }

  lemma DifferenceSize(a: set<string>, b: set<string>)
    requires a <= b
    ensures |b - a| == |b| - |a|
  {
    assert b == a + (b - a);
  }

  // ----- which pools to delete -----

  predicate MustGo(name: string, cluster: string, desired: seq<string>, check: bool, requested: bool) {
    name in LEGACY_POOLS || (IsManaged(cluster, name) && (name !in desired || (check && !requested)))
  }

  function ToDelete(existing: seq<string>, cluster: string, desired: seq<string>, check: bool, requested: bool): seq<string> {
    if existing == [] then []
    else
      (if MustGo(existing[0], cluster, desired, check, requested) then [existing[0]] else [])
      + ToDelete(existing[1..], cluster, desired, check, requested)
  }

  lemma {:induction false} ToDeleteMembers(existing: seq<string>, cluster: string, desired: seq<string>, check: bool, requested: bool)
    ensures forall x :: x in ToDelete(existing, cluster, desired, check, requested)
                   <==> x in existing && MustGo(x, cluster, desired, check, requested)
  {
    hide MustGo;
    if existing != [] {
      ToDeleteMembers(existing[1..], cluster, desired, check, requested);
    }
  }

  /** No managed name, of any cluster, is one of the Pathways pools. */
  lemma PathwaysNotManaged(cluster: string)
    ensures !IsManaged(cluster, CPU_POOL) && CPU_POOL !in LEGACY_POOLS
    ensures forall x | x in LEGACY_POOLS :: !IsManaged(cluster, x)
  {
    InfixInside(cluster, CPU_POOL);
    InfixInside(cluster, LEGACY_POOLS[0]);
    InfixInside(cluster, LEGACY_POOLS[1]);
    InfixInside(cluster, LEGACY_POOLS[2]);
  }

  predicate InfixAt(name: string, i: int) {
    0 <= i < |name| - 3 && name[i + 1] == 'n' && name[i + 2] == 'p'
  }

  lemma InfixInside(cluster: string, name: string)
    ensures IsManaged(cluster, name) ==> InfixAt(name, |cluster|)
  {
    if IsManaged(cluster, name) {
      var p, i := cluster + POOL_INFIX, |cluster|;
      assert p[i + 1] == name[i + 1] && p[i + 2] == name[i + 2];
    }
  }

  /** How the list of pools to delete grows while the present ones are visited. */
  lemma ToDeleteStep(done: seq<string>, existing: seq<string>, i: nat, cluster: string, desired: seq<string>,
      check: bool, requested: bool)
    requires i <= |existing|
    ensures ToDelete(existing[i..], cluster, desired, check, requested)
         == if i == |existing| then []
            else (if MustGo(existing[i], cluster, desired, check, requested) then [existing[i]] else [])
                 + ToDelete(existing[i + 1..], cluster, desired, check, requested)
    ensures i < |existing| ==>
      done + ToDelete(existing[i..], cluster, desired, check, requested)
      == (if MustGo(existing[i], cluster, desired, check, requested) then done + [existing[i]] else done)
         + ToDelete(existing[i + 1..], cluster, desired, check, requested)
  {
    hide MustGo;
    if i < |existing| {
      assert existing[i..][1..] == existing[i + 1..];
    }
  }

  /** get_node_pools_to_delete; a legacy pool can be listed once only because it is never managed. */
  method GetNodePoolsToDelete(existing: seq<string>, cluster: string, desired: seq<string>, check: bool, requested: bool)
    returns (nodePoolsToDelete: seq<string>)
    ensures nodePoolsToDelete == ToDelete(existing, cluster, desired, check, requested)
  {
    hide IsManaged; hide LEGACY_POOLS; hide ToDelete;
    nodePoolsToDelete := [];
    PathwaysNotManaged(cluster);
    var i := 0;
    assert existing[0..] == existing;
    while i < |existing|
      invariant 0 <= i <= |existing|
      invariant nodePoolsToDelete + ToDelete(existing[i..], cluster, desired, check, requested)
             == ToDelete(existing, cluster, desired, check, requested)
    {
      var name := existing[i];
      ToDeleteStep(nodePoolsToDelete, existing, i, cluster, desired, check, requested);
      if name in LEGACY_POOLS {
        nodePoolsToDelete := nodePoolsToDelete + [name];
      }
      if IsManaged(cluster, name) {
        if name !in desired || (check && !requested) {
          nodePoolsToDelete := nodePoolsToDelete + [name];
        }
      }
      i := i + 1;
    }
    ToDeleteStep(nodePoolsToDelete, existing, i, cluster, desired, check, requested);
  }
}
