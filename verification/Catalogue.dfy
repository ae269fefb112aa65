/** The catalogue of TPU systems (get_tpu_system_characteristics_map in
    src/xpk/core/system_characteristics.py). */
module Catalogue {
  import opened Text
  import opened Arithmetic
  import opened Decimal
  import opened Topology

  datatype AcceleratorType = TPU | GPU | CPU

  datatype System = System(
    topology: string, vmsPerSlice: int, gkeAccelerator: string, chipsPerVm: int,
    acceleratorType: AcceleratorType, deviceType: string,
    supportsSubSlicing: bool, supportsSuperSlicing: bool)

  /** The arguments that are the same for all topologies of one call. */
  datatype Family = Family(
    prefix: string, coresPerChip: nat, gkeAccelerator: string,
    defaults: set<string>, subSlicing: set<string>, superSlicing: set<string>)

  /** compute_chips_per_vm */
  function ChipsPerVm(product: int): int {
    if product == 1 then 1 else 4
  }

  /** compute_vms_per_slice */
  function VmsPerSlice(product: int): int {
    product / ChipsPerVm(product)
  }

  /** No chip is lost exactly when the product is one or a multiple of four. */
  lemma ChipsTimesVms(product: int)
    ensures ChipsPerVm(product) * VmsPerSlice(product) == product <==> product == 1 || product % 4 == 0
  {
  }

  function Product(topology: string): int
    requires ParseTopology(topology).Some?
  {
    ProductOf(ParseTopology(topology).value)
  }

  /** compute_num_tensorcores, as the text that ends the device type. */
  function CoreText(f: Family, topology: string): string
    requires ParseTopology(topology).Some?
  {
    StrInt(Product(topology) * f.coresPerChip)
  }

  function Key(f: Family, suffix: string): string {
    f.prefix + "-" + suffix
  }

  function SystemOf(f: Family, topology: string): System
    requires ParseTopology(topology).Some?
  {
    System(topology, VmsPerSlice(Product(topology)), f.gkeAccelerator, ChipsPerVm(Product(topology)), TPU,
           Key(f, CoreText(f, topology)), topology in f.subSlicing, topology in f.superSlicing)
  }

  lemma KeyInjective(f: Family, a: string, b: string)
    requires Key(f, a) == Key(f, b)
    ensures a == b
  {
    var n := |f.prefix| + 1;
    assert Key(f, a)[n..] == a && Key(f, b)[n..] == b;
  }

  predicate AllParse(topologies: seq<string>) {
    forall t | t in topologies :: ParseTopology(t).Some?
  }

  /** The last default topology with this core count, in list order, or else the first topology with it. */
  function LastDefault(f: Family, topologies: seq<string>, cores: string): Option<string>
    requires AllParse(topologies)
  {
    if topologies == [] then None
    else
      var last := topologies[|topologies| - 1];
      if last in f.defaults && CoreText(f, last) == cores then Some(last)
      else LastDefault(f, topologies[..|topologies| - 1], cores)
  }

  function FirstWith(f: Family, topologies: seq<string>, cores: string): Option<string>
    requires AllParse(topologies)
  {
    if topologies == [] then None
    else
      var last := topologies[|topologies| - 1];
      var earlier := FirstWith(f, topologies[..|topologies| - 1], cores);
      if earlier.Some? then earlier else if CoreText(f, last) == cores then Some(last) else None
  }

  function Winner(f: Family, topologies: seq<string>, cores: string): Option<string>
    requires AllParse(topologies)
  {
    if LastDefault(f, topologies, cores).Some? then LastDefault(f, topologies, cores) else FirstWith(f, topologies, cores)
  }

  /** Independent reading of the two searches by position. */
  lemma {:induction false} SearchesByPosition(f: Family, topologies: seq<string>, cores: string)
    requires AllParse(topologies)
    ensures match LastDefault(f, topologies, cores)
      case None => forall i | 0 <= i < |topologies| :: !(topologies[i] in f.defaults && CoreText(f, topologies[i]) == cores)
      case Some(t) => exists k | 0 <= k < |topologies| ::
        && topologies[k] == t && t in f.defaults && CoreText(f, t) == cores
        && forall i | k < i < |topologies| :: !(topologies[i] in f.defaults && CoreText(f, topologies[i]) == cores)
    ensures match FirstWith(f, topologies, cores)
      case None => forall i | 0 <= i < |topologies| :: CoreText(f, topologies[i]) != cores
      case Some(t) => exists k | 0 <= k < |topologies| ::
        && topologies[k] == t && CoreText(f, t) == cores
        && forall i | 0 <= i < k :: CoreText(f, topologies[i]) != cores
  {
    hide CoreText;
    hide ParseTopology;
    if topologies != [] {
      var n := |topologies| - 1;
      var front := topologies[..n];
      assert forall i | 0 <= i < n :: front[i] == topologies[i];
      assert topologies[n] in topologies;
      SearchesByPosition(f, front, cores);
      if topologies[n] in f.defaults && CoreText(f, topologies[n]) == cores {
        assert LastDefault(f, topologies, cores) == Some(topologies[n]);
      }
    }
  }

  /** No topology is written like a core count, unless it is itself the winner of that count. */
  ghost predicate NoCollision(f: Family, topologies: seq<string>)
    requires AllParse(topologies)
  {
    forall t | t in topologies :: Winner(f, topologies, t).Some? ==> Winner(f, topologies, t) == Some(t)
  }

  /** What the map must be: each topology key holds its topology, each device-type key the winner. */
  ghost predicate Catalogued(f: Family, topologies: seq<string>, m: map<string, System>)
    requires AllParse(topologies)
  {
    && (forall t | t in topologies :: Key(f, t) in m && m[Key(f, t)] == SystemOf(f, t))
    && (forall cores :: (Winner(f, topologies, cores).Some? ==>
          Winner(f, topologies, cores).value in topologies
          && Key(f, cores) in m && m[Key(f, cores)] == SystemOf(f, Winner(f, topologies, cores).value)))
    && (forall k | k in m :: exists s :: k == Key(f, s) && (s in topologies || Winner(f, topologies, s).Some?))
  }

  /** The map after one more topology. */
  function Extended(f: Family, t: string, before: map<string, System>): map<string, System>
    requires ParseTopology(t).Some?
  {
    var first := before[Key(f, t) := SystemOf(f, t)];
    var deviceType := Key(f, CoreText(f, t));
    if t in f.defaults || deviceType !in first then first[deviceType := SystemOf(f, t)] else first
  }

  function MapOf(f: Family, topologies: seq<string>): map<string, System>
    requires AllParse(topologies)
  {
    if topologies == [] then map[]
    else Extended(f, topologies[|topologies| - 1], MapOf(f, topologies[..|topologies| - 1]))
  }

  /** get_tpu_system_characteristics_map; None stands for the ValueError of an unreadable topology. */
  method BuildMap(f: Family, topologies: seq<string>) returns (r: Option<map<string, System>>)
    ensures r == if AllParse(topologies) then Some(MapOf(f, topologies)) else None
    ensures r.Some? ==> (Catalogued(f, topologies, r.value) <==> NoCollision(f, topologies))
  {
    hide CoreText; hide Key; hide SystemOf; hide ParseTopology; hide Winner; hide Catalogued; hide NoCollision;
    var m: map<string, System> := map[];
    for i := 0 to |topologies|
      invariant AllParse(topologies[..i]) && m == MapOf(f, topologies[..i])
    {
      var t := topologies[i];
      assert topologies[..i + 1][..i] == topologies[..i];
      if ParseTopology(t).None? {
        assert t in topologies;
        return None;
      }
      var system := SystemOf(f, t);
      var deviceType := Key(f, CoreText(f, t));
      m := m[Key(f, t) := system];
      if t in f.defaults || deviceType !in m {
        m := m[deviceType := system];
      }
    }
    assert topologies[..|topologies|] == topologies;
    CataloguedExactly(f, topologies);
    return Some(m);
  }

  /** The topology whose system the key for "s" holds. */
  function HeldAt(f: Family, topologies: seq<string>, s: string): Option<string>
    requires AllParse(topologies)
  {
    if topologies == [] then None
    else
      var last := topologies[|topologies| - 1];
      var earlier := HeldAt(f, topologies[..|topologies| - 1], s);
      if last == s || (CoreText(f, last) == s && (last in f.defaults || earlier.None?)) then Some(last) else earlier
  }

  ghost predicate Held(f: Family, topologies: seq<string>, s: string, t: string)
    requires AllParse(topologies)
  {
    && t in topologies && Key(f, s) in MapOf(f, topologies)
    && MapOf(f, topologies)[Key(f, s)] == SystemOf(f, t)
  }

  lemma {:induction false} HeldInMap(f: Family, topologies: seq<string>, s: string)
    requires AllParse(topologies)
    ensures HeldAt(f, topologies, s).None? ==> Key(f, s) !in MapOf(f, topologies)
    ensures HeldAt(f, topologies, s).Some? ==> Held(f, topologies, s, HeldAt(f, topologies, s).value)
  {
    hide CoreText; hide Key; hide SystemOf; hide ParseTopology;
    if topologies != [] {
      var n := |topologies| - 1;
      HeldInMap(f, topologies[..n], s);
      var last := topologies[n];
      assert last in topologies;
      if Key(f, s) == Key(f, last) { KeyInjective(f, s, last); }
      if Key(f, s) == Key(f, CoreText(f, last)) { KeyInjective(f, s, CoreText(f, last)); }
    }
  }

  lemma {:induction false} KeysAccounted(f: Family, topologies: seq<string>)
    requires AllParse(topologies)
    ensures forall k | k in MapOf(f, topologies) :: exists s :: k == Key(f, s)
  {
    hide CoreText; hide Key; hide SystemOf; hide ParseTopology;
    if topologies != [] {
      KeysAccounted(f, topologies[..|topologies| - 1]);
    }
  }

  /** The key of a core count that is not also a topology holds the winner. */
  lemma {:induction false} CoresHoldWinner(f: Family, topologies: seq<string>, cores: string)
    requires AllParse(topologies) && cores !in topologies
    ensures HeldAt(f, topologies, cores) == Winner(f, topologies, cores)
  {
    hide CoreText; hide ParseTopology;
    if topologies != [] {
      var n := |topologies| - 1;
      CoresHoldWinner(f, topologies[..n], cores);
      assert topologies[n] in topologies;
      SearchesByPosition(f, topologies[..n], cores);
    }
  }

  /** The key of a topology holds it, unless a default topology with such a core count took it last. */
  lemma {:induction false} TopologyHeld(f: Family, topologies: seq<string>, t: string)
    requires AllParse(topologies) && t in topologies
    requires LastDefault(f, topologies, t).None? || LastDefault(f, topologies, t) == Some(t)
    ensures HeldAt(f, topologies, t) == Some(t)
  {
    hide CoreText; hide ParseTopology;
    var n := |topologies| - 1;
    var last := topologies[n];
    if last != t {
      assert t in topologies[..n];
      assert !(last in f.defaults && CoreText(f, last) == t);
      TopologyHeld(f, topologies[..n], t);
    }
  }

  /** A winner has the core count it wins. */
  lemma WinnerCores(f: Family, topologies: seq<string>, cores: string)
    requires AllParse(topologies) && Winner(f, topologies, cores).Some?
    ensures Winner(f, topologies, cores).value in topologies && CoreText(f, Winner(f, topologies, cores).value) == cores
  {
    hide CoreText;
    SearchesByPosition(f, topologies, cores);
  }

  /** The map resolves ambiguity as intended if and only if no topology text collides with a core count
      that another topology wins. */
  lemma CataloguedExactly(f: Family, topologies: seq<string>)
    requires AllParse(topologies)
    ensures Catalogued(f, topologies, MapOf(f, topologies)) <==> NoCollision(f, topologies)
  {
    hide CoreText; hide Key; hide SystemOf; hide ParseTopology; hide LastDefault; hide FirstWith; hide HeldAt; hide MapOf;
    forall s ensures HeldAt(f, topologies, s).None? ==> Key(f, s) !in MapOf(f, topologies)
             ensures HeldAt(f, topologies, s).Some? ==> Held(f, topologies, s, HeldAt(f, topologies, s).value)
    {
      HeldInMap(f, topologies, s);
    }
    KeysAccounted(f, topologies);
    if NoCollision(f, topologies) {
      forall t | t in topologies ensures HeldAt(f, topologies, t) == Some(t) {
        TopologyHeld(f, topologies, t);
      }
      forall cores | cores !in topologies ensures HeldAt(f, topologies, cores) == Winner(f, topologies, cores) {
        CoresHoldWinner(f, topologies, cores);
      }
    } else if Catalogued(f, topologies, MapOf(f, topologies)) {
      var t :| t in topologies && Winner(f, topologies, t).Some? && Winner(f, topologies, t) != Some(t);
      WinnerCores(f, topologies, t);
      SystemsDiffer(f, t, Winner(f, topologies, t).value);
    }
  }

  lemma SystemsDiffer(f: Family, t: string, u: string)
    requires ParseTopology(t).Some? && ParseTopology(u).Some? && SystemOf(f, t) == SystemOf(f, u)
    ensures t == u
  {
    hide CoreText; hide ParseTopology;
  }

  /** A collision: with one core per chip, the default topology 1x1x2 takes the key of the topology 2. */
  lemma CollisionExample(f: Family)
    requires f.coresPerChip == 1 && Print(Topo(1, 1, 2)) in f.defaults
    ensures var topologies := [Str(2), Print(Topo(1, 1, 2))];
      AllParse(topologies) && !Catalogued(f, topologies, MapOf(f, topologies))
  {
    hide Print; hide ParseTopology; hide Catalogued; hide MapOf;
    var t, u := Str(2), Print(Topo(1, 1, 2));
    var topologies := [t, u];
    ParseOfOne(2);
    ParseOfPrint(Topo(1, 1, 2));
    ProductOfOnes(2);
    assert CoreText(f, u) == t;
    assert LastDefault(f, topologies, t) == Some(u);
    assert t != u by { assert ParseTopology(t) != ParseTopology(u) by { assert |[2]| != |[1, 1, 2]|; } }
    assert t in topologies;
    CataloguedExactly(f, topologies);
  }

  lemma ParseOfOne(n: nat)
    ensures ParseTopology(Str(n)) == Some([n])
  {
    hide ParseInt;
    DigitsHaveNoX(Str(n));
    LowerOfPrint(Str(n));
    SplitNoSeparator(Str(n), 'x');
    ParseOfStr(n);
    var one, value: int := [Str(n)], n;
    assert one[1..] == [];
    assert ParseAll(one[1..]) == Some([]);
    assert ParseAll(one) == Some([value] + []);
    assert [value] + [] == [value];
  }

  lemma ProductOfOnes(n: int)
    ensures ProductOf([1, 1, n]) == n
  {
    assert [1, 1, n][1..] == [1, n] && [1, n][1..] == [n] && [n][1..] == [];
    assert ProductOf([n]) == n * 1;
    assert ProductOf([1, n]) == ProductOf([n]);
  }

  /** Topologies that contain an "x", as all of the catalogue do, never collide. */
  lemma CrossesDoNotCollide(f: Family, topologies: seq<string>)
    requires AllParse(topologies) && forall t | t in topologies :: 'x' in t
    ensures NoCollision(f, topologies)
  {
    hide Winner;
    forall t | t in topologies && Winner(f, topologies, t).Some? ensures false {
      WinnerCores(f, topologies, t);
      StrIntHasNoX(Product(Winner(f, topologies, t).value) * f.coresPerChip);
    }
  }

  /** What the system of a topology says of it, field by field: the number behind the prefix of the device type
      is the product of the sides times the cores of a chip, and each kind of slicing follows its own set. */
  lemma SystemFields(f: Family, topology: string)
    requires ParseTopology(topology).Some?
    ensures var system, n := SystemOf(f, topology), |f.prefix|;
      && system.topology == topology && system.acceleratorType.TPU? && system.gkeAccelerator == f.gkeAccelerator
      && |system.deviceType| > n && system.deviceType[..n] == f.prefix && system.deviceType[n] == '-'
      && ParseInt(system.deviceType[n + 1..]) == Some(Product(topology) * f.coresPerChip)
      && (system.supportsSubSlicing <==> topology in f.subSlicing)
      && (system.supportsSuperSlicing <==> topology in f.superSlicing)
      && (Product(topology) == 1 ==> system.chipsPerVm == 1 && system.vmsPerSlice == 1)
      && (Product(topology) > 0 && Product(topology) % 4 == 0 ==>
            system.chipsPerVm == 4 && system.vmsPerSlice * 4 == Product(topology))
  {
    hide ParseTopology; hide ParseInt; hide StrInt;
    var text := CoreText(f, topology);
    ParseOfStrInt(Product(topology) * f.coresPerChip);
    var deviceType := SystemOf(f, topology).deviceType;
    assert deviceType == f.prefix + "-" + text;
    assert deviceType[|f.prefix| + 1..] == text && deviceType[..|f.prefix|] == f.prefix;
  }

  /** Two topologies of one family with the same device type have the same size. */
  lemma SameDeviceTypeSameSize(f: Family, t: string, u: string)
    requires f.coresPerChip > 0 && ParseTopology(t).Some? && ParseTopology(u).Some?
    requires SystemOf(f, t).deviceType == SystemOf(f, u).deviceType
    ensures SystemOf(f, t).vmsPerSlice == SystemOf(f, u).vmsPerSlice && SystemOf(f, t).chipsPerVm == SystemOf(f, u).chipsPerVm
  {
    hide ParseTopology;
    KeyInjective(f, CoreText(f, t), CoreText(f, u));
    StrIntInjective(Product(t) * f.coresPerChip, Product(u) * f.coresPerChip);
    CancelFactor(Product(t), Product(u), f.coresPerChip);
  }
}
