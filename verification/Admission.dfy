/** The resources ConfigMap that cluster creation records (src/xpk/core/resources.py), and the admission
    of workloads that reads it (src/xpk/core/scheduling.py). */
module Admission {
  import opened Text
  import opened Arithmetic
  import opened Decimal
  import opened Topology
  import opened Catalogue

  const AUTOPROVISION := "AUTOPROVISION"
  const MINIMUM_CHIPS := "minimum_chips"
  const MAXIMUM_CHIPS := "maximum_chips"
  const SUB_SLICING_TOPOLOGIES := ["2x4", "4x4", "4x8", "8x8", "8x16", "16x16"]

  // ----- the text of a ConfigMap -----

  datatype Entry = Entry(key: string, value: string)

  function Cell(e: Entry): string {
    e.key + ":" + e.value
  }

  function Cells(data: seq<Entry>): (r: seq<string>)
    ensures |r| == |data| && forall i | 0 <= i < |data| :: r[i] == Cell(data[i])
  {
    seq(|data|, i requires 0 <= i < |data| => Cell(data[i]))
  }

  /** How kubectl prints the data of a ConfigMap. */
  function Render(data: seq<Entry>): string {
    "map[" + Join(Cells(data), ' ') + "]"
  }

  /** One assignment of the parsing loop. */
  function Enter(m: map<string, string>, config: string): map<string, string> {
    var parts := Split(Strip(config), ':');
    if |parts| != 2 then m else m[parts[0] := parts[1]]
  }

  function EnterAll(m: map<string, string>, configs: seq<string>): map<string, string>
    decreases configs
  {
    if configs == [] then m else EnterAll(Enter(m, configs[0]), configs[1..])
  }

  /** get_cluster_configmap on the output of kubectl; None stands for the ValueError of a text without "map". */
  method ParseConfigMap(output: string) returns (r: Option<map<string, string>>)
    ensures r == ConfigMapOf(output)
  {
    hide Enter; hide Find; hide Strip; hide Split;
    var text := Strip(output);
    var m: map<string, string> := map[];
    if text != "" {
      var start := Find(text, "map", 0);
      if start.None? {
        return None;
      }
      text := text[start.value..];
      var configs := Split(Inner(text), ' ');
      var i := 0;
      assert configs[0..] == configs;
      while i < |configs|
        invariant 0 <= i <= |configs|
        invariant EnterAll(m, configs[i..]) == EnterAll(map[], configs)
      {
        assert configs[i..][1..] == configs[i + 1..];
        m := Enter(m, configs[i]);
        i := i + 1;
      }
    }
    return Some(m);
  }

  /** text[4:-1] */
  function Inner(text: string): string {
    if |text| <= 5 then "" else text[4..|text| - 1]
  }

  function ConfigMapOf(output: string): Option<map<string, string>> {
    var text := Strip(output);
    if text == "" then Some(map[])
    else match Find(text, "map", 0)
      case None => None
      case Some(start) => Some(EnterAll(map[], Split(Inner(text[start..]), ' ')))
  }

  /** A key or value that survives: no white space and no colon. */
  predicate Plain(s: string) {
    forall i | 0 <= i < |s| :: !IsSpace(s[i]) && s[i] != ':'
  }

  function ToMap(m: map<string, string>, data: seq<Entry>): map<string, string>
    decreases data
  {
    if data == [] then m else ToMap(m[data[0].key := data[0].value], data[1..])
  }

  lemma CellEnters(m: map<string, string>, e: Entry)
    requires Plain(e.key) && Plain(e.value)
    ensures Enter(m, Cell(e)) == m[e.key := e.value] && ' ' !in Cell(e)
  {
    hide Split; hide Strip;
    var c := Cell(e);
    forall i | 0 <= i < |c| ensures !IsSpace(c[i]) {
      if i < |e.key| { assert c[i] == e.key[i]; }
      else if i > |e.key| { assert c[i] == e.value[i - |e.key| - 1]; }
    }
    StripOfTrimmed(c);
    assert ':' !in e.key && ':' !in e.value;
    SplitHead(e.key, e.value, ':');
    SplitNoSeparator(e.value, ':');
    assert c == e.key + [':'] + e.value;
  }

  lemma {:induction false} EntriesEnter(m: map<string, string>, data: seq<Entry>)
    requires forall e | e in data :: Plain(e.key) && Plain(e.value)
    ensures EnterAll(m, Cells(data)) == ToMap(m, data)
    decreases data
  {
    hide Enter; hide Plain; hide Cell;
    if data != [] {
      assert data[0] in data;
      CellEnters(m, data[0]);
      assert Cells(data)[1..] == Cells(data[1..]);
      EntriesEnter(m[data[0].key := data[0].value], data[1..]);
    }
  }

  /** Round trip: what kubectl prints of plain entries is read back, with or without the final line feed. */
  lemma ParseOfRender(data: seq<Entry>)
    requires forall e | e in data :: Plain(e.key) && Plain(e.value)
    ensures ConfigMapOf(Render(data)) == Some(ToMap(map[], data))
    ensures ConfigMapOf(Render(data) + "\n") == Some(ToMap(map[], data))
  {
    hide Join; hide Split; hide Strip; hide Find; hide Enter; hide Plain; hide Cell;
    var inner := Join(Cells(data), ' ');
    var text := Render(data);
    assert text[0] == 'm' && text[|text| - 1] == ']';
    StripOfTrimmed(text);
    assert text[0..3] == "map";
    FindIs(text, "map", 0, 0);
    assert text[0..] == text;
    InnerOfRender(inner);
    EmptyCell();
    if data == [] {
      JoinNothing(data);
      SplitNoSeparator("", ' ');
      assert EnterAll(map[], [""]) == EnterAll(Enter(map[], ""), [""][1..]);
    } else {
      forall c | c in Cells(data) ensures ' ' !in c {
        var i :| 0 <= i < |data| && Cells(data)[i] == c;
        CellEnters(map[], data[i]);
      }
      SplitOfJoin(Cells(data), ' ');
      EntriesEnter(map[], data);
    }
  }

  lemma InnerOfRender(inner: string)
    ensures Inner("map[" + inner + "]") == inner
  {
  }

  lemma EmptyCell()
    ensures Enter(map[], "") == map[]
  {
    SplitNoSeparator("", ':');
  }

  lemma JoinNothing(data: seq<Entry>)
    requires data == []
    ensures Join(Cells(data), ' ') == ""
  {
  }

  // ----- what cluster creation records -----

  datatype Chips = Chips(minimum: nat, maximum: nat)

  /** The machines of a system: the nodes of a GPU system, the VMs of all slices of any other. */
  function Machines(system: System, numNodes: int, numSlices: int): int {
    if system.acceleratorType.GPU? then numNodes else numSlices * system.vmsPerSlice
  }

  /** The resources data of create_cluster_configmaps. */
  function ResourcesData(system: System, numNodes: int, numSlices: int, autoprovisioning: Option<Chips>): seq<Entry> {
    if system.acceleratorType.GPU? then [Entry(system.deviceType, StrInt(Machines(system, numNodes, numSlices)))]
    else match autoprovisioning
      case Some(chips) =>
        [Entry(system.gkeAccelerator, AUTOPROVISION), Entry(MINIMUM_CHIPS, Str(chips.minimum)),
         Entry(MAXIMUM_CHIPS, Str(chips.maximum))]
      case None => [Entry(system.deviceType, StrInt(Machines(system, numNodes, numSlices)))]
  }

  // ----- admission -----

  datatype Scheduling = Unavailable | Available | SubSlicing | SuperSlicing

  /** The answers about the cluster that the check asks for on the way. */
  datatype Features = Features(
    subSlicingFlag: bool, subSlicingTopology: bool, subSlicingVersion: bool,
    superSlicingTopology: bool, superSlicingVersion: bool)

  function ReadInt(m: map<string, string>, key: string): Option<int> {
    if key in m then ParseInt(m[key]) else None
  }

  /** _check_workload_size_fits */
  predicate SizeFits(numNodes: int, numSlices: int, workload: System, maxVms: int) {
    Machines(workload, numNodes, numSlices) <= maxVms
  }

  function TotalChips(numNodes: int, numSlices: int, workload: System): int {
    workload.vmsPerSlice * workload.chipsPerVm * (if workload.acceleratorType.GPU? then numNodes else numSlices)
  }

  predicate SuperSlicingAvailable(workload: System, cluster: System, features: Features) {
    && workload.gkeAccelerator == cluster.gkeAccelerator && cluster.supportsSuperSlicing
    && features.superSlicingTopology && features.superSlicingVersion
  }

  predicate SubSlicingAvailable(workload: System, cluster: System, features: Features) {
    && features.subSlicingFlag && workload.gkeAccelerator == cluster.gkeAccelerator && cluster.supportsSubSlicing
    && workload.topology in SUB_SLICING_TOPOLOGIES
    && features.subSlicingTopology && features.subSlicingVersion
  }

  function Fit(fits: Option<bool>, yes: Scheduling): Option<Scheduling> {
    match fits case None => None case Some(b) => Some(if b then yes else Unavailable)
  }

  /** check_if_workload_can_schedule, outside a dry run; None stands for a KeyError or ValueError. */
  function CheckWorkload(numNodes: int, numSlices: int, workload: System, cluster: Option<System>,
                         resources: Option<map<string, string>>, features: Features): Option<Scheduling>
  {
    if resources.None? then Some(Available)
    else
      var m := resources.value;
      if workload.gkeAccelerator in m && m[workload.gkeAccelerator] == AUTOPROVISION then
        match ReadInt(m, MAXIMUM_CHIPS)
        case None => None
        case Some(most) => Some(if TotalChips(numNodes, numSlices, workload) > most then Unavailable else Available)
      else if cluster.Some? && SuperSlicingAvailable(workload, cluster.value, features) then
        match ReadInt(m, cluster.value.deviceType)
        case None => None
        case Some(most) =>
          if !SizeFits(numNodes, numSlices, workload, most) then Some(Unavailable)
          else Fit(CheckSuperSlicingTopology(workload.topology), SuperSlicing)
      else if workload.deviceType in m then
        match ReadInt(m, workload.deviceType)
        case None => None
        case Some(most) => Fit(Some(SizeFits(numNodes, numSlices, workload, most)), Available)
      else if cluster.Some? && SubSlicingAvailable(workload, cluster.value, features) then
        match ReadInt(m, cluster.value.deviceType)
        case None => None
        case Some(most) => Fit(Some(SizeFits(numNodes, numSlices, workload, most)), SubSlicing)
      else Some(Unavailable)
  }

  // ----- admission agrees with creation -----

  lemma NumbersArePlain(n: nat)
    ensures Plain(Str(n)) && StrInt(n) == Str(n) && Str(n) != AUTOPROVISION
  {
    assert AUTOPROVISION[0] == 'A';
    assert IsDigit(Str(n)[0]);
    forall i | 0 <= i < |Str(n)| ensures !IsSpace(Str(n)[i]) && Str(n)[i] != ':' {
      assert IsDigit(Str(n)[i]);
    }
  }

  /** The ConfigMap that admission reads back after a cluster was created: the machines of its system.  For
      GPU systems that holds with autoprovisioning too. */
  lemma RecordedMap(system: System, numNodes: nat, n: nat, chips: Option<Chips>)
    requires system.vmsPerSlice >= 0 && Plain(system.deviceType) && (chips.None? || system.acceleratorType.GPU?)
    ensures Machines(system, numNodes, n) >= 0
    ensures ConfigMapOf(Render(ResourcesData(system, numNodes, n, chips)))
         == Some(map[system.deviceType := Str(Machines(system, numNodes, n))])
  {
    hide Render; hide ConfigMapOf; hide Str; hide StrInt; hide Plain;
    assert n * system.vmsPerSlice >= 0;
    var total := Machines(system, numNodes, n);
    NumbersArePlain(total);
    var data := ResourcesData(system, numNodes, n, chips);
    assert data == [Entry(system.deviceType, Str(total))];
    ParseOfRender(data);
    assert data[1..] == [];
    assert ToMap(map[][system.deviceType := Str(total)], []) == map[system.deviceType := Str(total)];
  }

  /** A cluster created with a number of slices of a system, or of nodes for a GPU system, on a family without
      super-slicing, accepts a workload of that system if and only if it asks for no more of them. */
  lemma AdmissionMatchesCreation(system: System, cluster: Option<System>, features: Features, chips: Option<Chips>,
                                 numNodes: nat, n: nat, askedNodes: int, m: int)
    requires system.vmsPerSlice > 0 && Plain(system.deviceType) && (chips.None? || system.acceleratorType.GPU?)
    requires cluster.Some? ==> !cluster.value.supportsSuperSlicing
    ensures CheckWorkload(askedNodes, m, system, cluster,
                          ConfigMapOf(Render(ResourcesData(system, numNodes, n, chips))), features)
         == Some(if (if system.acceleratorType.GPU? then askedNodes <= numNodes else m <= n) then Available else Unavailable)
  {
    hide Render; hide ConfigMapOf; hide Str; hide ParseInt; hide ResourcesData; hide Plain; hide AUTOPROVISION;
    RecordedMap(system, numNodes, n, chips);
    var total := Machines(system, numNodes, n);
    NumbersArePlain(total);
    ParseOfStr(total);
    CancelFactor(m, n, system.vmsPerSlice);
  }

  /** The size of a topology of i * j * k cubes. */
  lemma CubeSizes(f: Family, i: nat, j: nat, k: nat)
    requires i >= 1 && j >= 1 && k >= 1
    ensures ParseTopology(Print(Topo(4 * i, 4 * j, 4 * k))).Some?
    ensures SystemOf(f, Print(Topo(4 * i, 4 * j, 4 * k))).vmsPerSlice == 16 * (i * j * k)
    ensures Cubes(Topo(4 * i, 4 * j, 4 * k)) == i * j * k && i * j * k >= 1
  {
    hide Print; hide ParseTopology; hide CoreText;
    var t := Topo(4 * i, 4 * j, 4 * k);
    ParseOfPrint(t);
    ProductOfThree(4 * i, 4 * j, 4 * k);
    SixtyFour(i, j, k);
    assert i * j >= 1 && i * j * k >= 1 by { ProductPositive(i, j); ProductPositive(i * j, k); }
    assert 64 * (i * j * k) / 4 == 16 * (i * j * k);
  }

  lemma ProductOfThree(a: int, b: int, c: int)
    ensures ProductOf([a, b, c]) == a * (b * c)
  {
    assert [a, b, c][1..] == [b, c] && [b, c][1..] == [c] && [c][1..] == [];
    assert ProductOf([c]) == c * 1;
    assert ProductOf([b, c]) == b * ProductOf([c]);
  }

  lemma SixtyFour(i: nat, j: nat, k: nat)
    ensures (4 * i) * ((4 * j) * (4 * k)) == 64 * (i * j * k)
  {
    assert (4 * j) * (4 * k) == 16 * (j * k);
    assert (4 * i) * (16 * (j * k)) == 64 * (i * (j * k));
    assert i * (j * k) == i * j * k;
  }

  /** A super-slicing cluster of n cubes accepts m slices of the topology 4i x 4j x 4k if and only if
      i <= j <= k, i * j * k <= 144 and m * i * j * k <= n. */
  lemma SuperSlicingMatchesCreation(f: Family, features: Features, numNodes: nat, n: nat, m: int, i: nat, j: nat, k: nat)
    requires i >= 1 && j >= 1 && k >= 1 && Plain(f.prefix) && Print(Topo(4, 4, 4)) in f.superSlicing
    requires features.superSlicingTopology && features.superSlicingVersion
    ensures ParseTopology(Print(Topo(4, 4, 4))).Some? && ParseTopology(Print(Topo(4 * i, 4 * j, 4 * k))).Some?
    ensures var cube := SystemOf(f, Print(Topo(4, 4, 4)));
      var workload := SystemOf(f, Print(Topo(4 * i, 4 * j, 4 * k)));
      CheckWorkload(numNodes, m, workload, Some(cube),
                    ConfigMapOf(Render(ResourcesData(cube, numNodes, n, None))), features)
      == Some(if i <= j <= k && i * j * k <= 144 && m * (i * j * k) <= n then SuperSlicing else Unavailable)
  {
    hide Print; hide ParseTopology; hide Render; hide ConfigMapOf; hide Str; hide ParseInt; hide ResourcesData;
    hide CoreText; hide CheckSuperSlicingTopology; hide Cubes; hide VmsPerSlice; hide Key; hide AUTOPROVISION;
    var t := Topo(4 * i, 4 * j, 4 * k);
    CubeSizes(f, 1, 1, 1);
    CubeSizes(f, i, j, k);
    AcceptsTriple(t);
    var cube, workload := SystemOf(f, Print(Topo(4, 4, 4))), SystemOf(f, Print(t));
    DeviceTypeIsPlain(f, Print(Topo(4, 4, 4)));
    RecordedMap(cube, numNodes, n, None);
    NumbersArePlain(n * 16);
    ParseOfStr(n * 16);
    CancelFactor(m * (i * j * k), n, 16);
    assert m * (16 * (i * j * k)) == m * (i * j * k) * 16 by { Rotate(m, i * j * k); }
  }

  lemma Rotate(m: int, v: int)
    ensures m * (16 * v) == m * v * 16
  {
  }

  lemma DeviceTypeIsPlain(f: Family, topology: string)
    requires ParseTopology(topology).Some? && Plain(f.prefix)
    ensures Plain(SystemOf(f, topology).deviceType)
  {
    hide ParseTopology;
    var cores := CoreText(f, topology);
    var n := Product(topology) * f.coresPerChip;
    StrIntIsPlain(n);
    var d := SystemOf(f, topology).deviceType;
    forall i | 0 <= i < |d| ensures !IsSpace(d[i]) && d[i] != ':' {
      if i < |f.prefix| { assert d[i] == f.prefix[i]; }
      else if i > |f.prefix| { assert d[i] == cores[i - |f.prefix| - 1]; }
    }
  }

  lemma StrIntIsPlain(n: int)
    ensures Plain(StrInt(n))
  {
    if n < 0 {
      NumbersArePlain(-n);
      assert forall i | 1 <= i < |StrInt(n)| :: StrInt(n)[i] == Str(-n)[i - 1];
    } else {
      NumbersArePlain(n);
    }
  }

  /** A workload of a device type that the cluster does not have, on a cluster without super-slicing: it is
      accepted if and only if sub-slicing is available for its accelerator and topology, and its machines fit
      into the recorded ones. */
  lemma SubSlicingMatchesCreation(cluster: System, workload: System, features: Features, chips: Option<Chips>,
                                  numNodes: nat, n: nat, askedNodes: int, m: int)
    requires cluster.vmsPerSlice >= 0 && Plain(cluster.deviceType) && (chips.None? || cluster.acceleratorType.GPU?)
    requires workload.deviceType != cluster.deviceType && !cluster.supportsSuperSlicing
    ensures CheckWorkload(askedNodes, m, workload, Some(cluster),
                          ConfigMapOf(Render(ResourcesData(cluster, numNodes, n, chips))), features)
         == Some(if features.subSlicingFlag && features.subSlicingTopology && features.subSlicingVersion
                    && workload.gkeAccelerator == cluster.gkeAccelerator && cluster.supportsSubSlicing
                    && workload.topology in SUB_SLICING_TOPOLOGIES
                    && Machines(workload, askedNodes, m) <= Machines(cluster, numNodes, n)
                 then SubSlicing else Unavailable)
  {
    hide Render; hide ConfigMapOf; hide Str; hide ParseInt; hide ResourcesData; hide Plain; hide AUTOPROVISION;
    hide SUB_SLICING_TOPOLOGIES; hide Machines;
    RecordedMap(cluster, numNodes, n, chips);
    var total := Machines(cluster, numNodes, n);
    NumbersArePlain(total);
    ParseOfStr(total);
  }

  /** With autoprovisioning, a workload is accepted if and only if its chips fit into the recorded maximum: the
      VMs of a slice, times the chips of a VM, times the slices, or the nodes of a GPU system. */
  lemma AutoprovisioningMatchesCreation(system: System, workload: System, cluster: Option<System>, features: Features,
                                        numNodes: int, n: int, askedNodes: int, m: int, chips: Chips)
    requires !system.acceleratorType.GPU? && workload.gkeAccelerator == system.gkeAccelerator
    requires Plain(system.gkeAccelerator)
    requires system.gkeAccelerator != MINIMUM_CHIPS && system.gkeAccelerator != MAXIMUM_CHIPS
    ensures var units := if workload.acceleratorType.GPU? then askedNodes else m;
      CheckWorkload(askedNodes, m, workload, cluster,
                    ConfigMapOf(Render(ResourcesData(system, numNodes, n, Some(chips)))), features)
      == Some(if workload.vmsPerSlice * workload.chipsPerVm * units <= chips.maximum then Available else Unavailable)
  {
    hide Render; hide ConfigMapOf; hide Str; hide ParseInt;
    var data := ResourcesData(system, numNodes, n, Some(chips));
    NumbersArePlain(chips.minimum);
    NumbersArePlain(chips.maximum);
    KeywordsArePlain();
    ParseOfRender(data);
    ParseOfStr(chips.maximum);
    hide Plain; hide AUTOPROVISION; hide MINIMUM_CHIPS; hide MAXIMUM_CHIPS;
    ThreeEntries(data[0], data[1], data[2]);
  }

  /** For the TPU system of a topology that is to say: if and only if the slices times the product of its sides
      fit, when the product is one or a multiple of four. */
  lemma AutoprovisioningCountsChips(system: System, f: Family, topology: string, cluster: Option<System>, features: Features,
                                    numNodes: int, n: int, askedNodes: int, m: int, chips: Chips)
    requires !system.acceleratorType.GPU? && f.gkeAccelerator == system.gkeAccelerator
    requires Plain(system.gkeAccelerator)
    requires system.gkeAccelerator != MINIMUM_CHIPS && system.gkeAccelerator != MAXIMUM_CHIPS
    requires ParseTopology(topology).Some? && (Product(topology) == 1 || Product(topology) % 4 == 0)
    ensures CheckWorkload(askedNodes, m, SystemOf(f, topology), cluster,
                          ConfigMapOf(Render(ResourcesData(system, numNodes, n, Some(chips)))), features)
         == Some(if m * Product(topology) <= chips.maximum then Available else Unavailable)
  {
    hide Render; hide ConfigMapOf; hide ParseTopology; hide CoreText; hide CheckWorkload; hide ResourcesData; hide Plain;
    var workload := SystemOf(f, topology);
    AutoprovisioningMatchesCreation(system, workload, cluster, features, numNodes, n, askedNodes, m, chips);
    ChipsTimesVms(Product(topology));
    assert workload.vmsPerSlice * workload.chipsPerVm == Product(topology);
  }

  /** What each favourable verdict needs, for any recorded resources. */
  lemma VerdictsNeed(numNodes: int, numSlices: int, workload: System, cluster: Option<System>, m: map<string, string>,
                     features: Features, verdict: Scheduling)
    requires CheckWorkload(numNodes, numSlices, workload, cluster, Some(m), features) == Some(verdict)
    ensures verdict.SuperSlicing? ==>
      && cluster.Some? && cluster.value.gkeAccelerator == workload.gkeAccelerator && cluster.value.supportsSuperSlicing
      && features.superSlicingTopology && features.superSlicingVersion
      && Recorded(m, cluster.value.deviceType, Machines(workload, numNodes, numSlices))
      && CheckSuperSlicingTopology(workload.topology) == Some(true)
    ensures verdict.SubSlicing? ==>
      && cluster.Some? && cluster.value.gkeAccelerator == workload.gkeAccelerator && cluster.value.supportsSubSlicing
      && features.subSlicingFlag && features.subSlicingTopology && features.subSlicingVersion
      && workload.topology in ["2x4", "4x4", "4x8", "8x8", "8x16", "16x16"] && workload.deviceType !in m
      && Recorded(m, cluster.value.deviceType, Machines(workload, numNodes, numSlices))
    ensures verdict.Available? ==>
      || Recorded(m, workload.deviceType, Machines(workload, numNodes, numSlices))
      || Recorded(m, "maximum_chips", workload.vmsPerSlice * workload.chipsPerVm
                    * (if workload.acceleratorType.GPU? then numNodes else numSlices))
  {
    hide CheckSuperSlicingTopology; hide ParseInt;
  }

  /** The ConfigMap records at least this number under the key. */
  predicate Recorded(m: map<string, string>, key: string, number: int) {
    key in m && ParseInt(m[key]).Some? && number <= ParseInt(m[key]).value
  }

  lemma KeywordsArePlain()
    ensures Plain(AUTOPROVISION) && Plain(MINIMUM_CHIPS) && Plain(MAXIMUM_CHIPS) && MINIMUM_CHIPS != MAXIMUM_CHIPS
  {
    assert MINIMUM_CHIPS[1] != MAXIMUM_CHIPS[1];
  }

  lemma ThreeEntries(a: Entry, b: Entry, c: Entry)
    ensures ToMap(map[], [a, b, c]) == map[][a.key := a.value][b.key := b.value][c.key := c.value]
  {
    assert [a, b, c][1..] == [b, c] && [b, c][1..] == [c] && [c][1..] == [];
    var m: map<string, string> := map[];
    assert ToMap(m[a.key := a.value][b.key := b.value], [c]) == ToMap(m[a.key := a.value][b.key := b.value][c.key := c.value], []);
    assert ToMap(m[a.key := a.value], [b, c]) == ToMap(m[a.key := a.value][b.key := b.value], [c]);
  }
}
