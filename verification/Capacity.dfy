/** How many slices fit into the given reservations (src/xpk/core/capacity.py), and the iterator that
    hands the slots out (_prepare_reservation_iterator in src/xpk/core/nodepool.py). */
module Capacity {
  import opened Text
  import opened Arithmetic
  import opened Reservations

  datatype Accelerator = Accelerator(count: int, kind: string)

  /** What a reservation holds.  "configured" is the machine or accelerator check for the requested
      system; "matching" is the reserved resource found for it. */
  datatype Holding =
    | Specific(count: int, inUse: int, configured: bool)
    | Aggregate(matching: Option<Accelerator>, inUseResources: seq<Accelerator>)
    | Empty

  /** A healthy sub-block as listed by the cloud. */
  datatype Row = Row(name: string, count: int, inUse: int)

  /** The answers of the cloud, taken as a snapshot: every query has one fixed answer. */
  datatype Snapshot = Snapshot(
    holding: Link -> Option<Holding>,
    blocks: Link -> (seq<string>, int),
    healthy: Link -> (seq<Row>, int))

  /** One target and the number of slices that fit. */
  datatype Slots = Slots(target: Link, slices: int)

  function Base(link: Link): Link {
    Reservation(link.project, link.name, link.zone)
  }

  predicate Verified(h: Holding) {
    match h
    case Specific(_, _, configured) => configured
    case Aggregate(matching, _) => matching.Some?
    case Empty => true
  }

  /** next(count for the first resource of this kind, 0) */
  function InUseOf(resources: seq<Accelerator>, kind: string): int {
    if resources == [] then 0
    else if resources[0].kind == kind then resources[0].count
    else InUseOf(resources[1..], kind)
  }

  /** Free machines or chips of a reservation, and how many of them one slice takes. */
  function FreeIn(h: Holding): int {
    match h
    case Specific(count, inUse, _) => count - inUse
    case Aggregate(Some(a), inUse) => a.count - InUseOf(inUse, a.kind)
    case Aggregate(None, _) => 0
    case Empty => 0
  }

  function PerSlice(h: Holding, vms: nat, chips: nat): nat {
    match h
    case Specific(_, _, _) => vms
    case Aggregate(_, _) => vms * chips
    case Empty => 1
  }

  lemma PerSlicePositive(h: Holding, vms: nat, chips: nat)
    requires vms > 0 && chips > 0
    ensures PerSlice(h, vms, chips) > 0
  {
  }

  /** _get_reservation_slices_count */
  function SlicesCount(s: Snapshot, link: Link, vms: nat, chips: nat): (int, int)
    requires vms > 0 && chips > 0
  {
    match s.holding(Base(link))
    case None => (0, 1)
    case Some(h) =>
      PerSlicePositive(h, vms, chips);
      ((if FreeIn(h) > 0 then FreeIn(h) else 0) / PerSlice(h, vms, chips), 0)
  }

  /** The sub-blocks of one listing that still hold a slice, in the order of the listing. */
  function Fitting(block: Link, rows: seq<Row>, vms: nat): seq<Slots>
    requires !block.Reservation? && vms > 0
  {
    if rows == [] then []
    else
      var slices := (rows[0].count - rows[0].inUse) / vms;
      (if slices > 0
       then [Slots(SubBlock(block.project, block.name, block.zone, block.blockName, rows[0].name), slices)]
       else [])
      + Fitting(block, rows[1..], vms)
  }

  function BlockLinks(r: Link, names: seq<string>): seq<Link> {
    seq(|names|, i requires 0 <= i < |names| => Block(r.project, r.name, r.zone, names[i]))
  }

  function Rank(link: Link): nat {
    if link.Reservation? then 1 else 0
  }

  function MaxRank(links: seq<Link>): nat {
    if exists i | 0 <= i < |links| :: links[i].Reservation? then 1 else 0
  }

  /** _assess_available_slices_for_reservation */
  function AssessOne(s: Snapshot, link: Link, force: bool, vms: nat, chips: nat): (seq<Slots>, int)
    requires vms > 0 && chips > 0
    decreases Rank(link), 0
  {
    if link.SubBlock? || (force && link.Block?) then
      var (rows, code) := s.healthy(link);
      if code != 0 then ([], code) else (Fitting(link, rows, vms), 0)
    else if force then
      var (names, code) := s.blocks(link);
      if code != 0 then ([], code)
      else if names != [] then
        var (found, code') := AssessAll(s, BlockLinks(link, names), force, vms, chips, false);
        (Dedup(found), code')
      else ([], 0)
    else
      var (slices, code) := SlicesCount(s, link, vms, chips);
      if code != 0 then ([], code) else (if slices > 0 then [Slots(link, slices)] else [], 0)
  }

  /** The answers for a list of links, one after the other; the first failure ends the assessment. */
  function AssessAll(s: Snapshot, links: seq<Link>, force: bool, vms: nat, chips: nat, validate: bool): (r: (seq<Slots>, int))
    requires vms > 0 && chips > 0
    ensures r.1 != 0 ==> r.0 == []
    decreases MaxRank(links), |links|
  {
    if links == [] then ([], 0)
    else
      var link := links[0];
      if validate && s.holding(Base(link)).None? then ([], 1)
      else if validate && !Verified(s.holding(Base(link)).value) then ([], 1)
      else
        var (found, code) := AssessOne(s, link, force, vms, chips);
        if code != 0 then ([], code)
        else if found == [] && validate then ([], 1)
        else
          var (rest, code') := AssessAll(s, links[1..], force, vms, chips, validate);
          if code' != 0 then ([], code') else (found + rest, 0)
  }

  /** list(dict.fromkeys(xs)) */
  function Dedup(xs: seq<Slots>): seq<Slots> {
    if xs == [] then []
    else
      var d := Dedup(xs[..|xs| - 1]);
      if xs[|xs| - 1] in d then d else d + [xs[|xs| - 1]]
  }

  function Assess(s: Snapshot, links: seq<Link>, force: bool, vms: nat, chips: nat): (seq<Slots>, int)
    requires vms > 0 && chips > 0
  {
    var (found, code) := AssessAll(s, links, force, vms, chips, true);
    (Dedup(found), code)
  }

  /** assess_available_slices, as called for the reservations of the user. */
  method AssessAvailableSlices(s: Snapshot, reservations: seq<Link>, force: bool, vms: nat, chips: nat)
    returns (capacities: seq<Slots>, code: int)
    requires vms > 0 && chips > 0
    ensures (capacities, code) == Assess(s, reservations, force, vms, chips)
  {
    hide AssessOne; hide Verified;
    capacities, code := [], 0;
    assert reservations[0..] == reservations;
    var i := 0;
    while i < |reservations|
      invariant 0 <= i <= |reservations|
      invariant AssessAll(s, reservations, force, vms, chips, true).1
             == AssessAll(s, reservations[i..], force, vms, chips, true).1
      invariant AssessAll(s, reservations[i..], force, vms, chips, true).1 == 0 ==>
             AssessAll(s, reservations, force, vms, chips, true).0
             == capacities + AssessAll(s, reservations[i..], force, vms, chips, true).0
    {
      var link := reservations[i];
      assert reservations[i..][1..] == reservations[i + 1..];
      if s.holding(Base(link)).None? {
        return [], 1;
      }
      if !Verified(s.holding(Base(link)).value) {
        return [], 1;
      }
      var (found, rc) := AssessOne(s, link, force, vms, chips);
      if rc != 0 {
        return [], rc;
      }
      if found == [] {
        return [], 1;
      }
      assert capacities + found + AssessAll(s, reservations[i + 1..], force, vms, chips, true).0
          == capacities + (found + AssessAll(s, reservations[i + 1..], force, vms, chips, true).0);
      capacities := capacities + found;
      i := i + 1;
    }
    assert capacities + [] == capacities;
    capacities := Dedup(capacities);
  }

  // ----- properties of the list of targets -----

  lemma {:induction false} DedupKeeps(xs: seq<Slots>)
    ensures forall x :: x in Dedup(xs) <==> x in xs
    ensures forall i, j | 0 <= i < j < |Dedup(xs)| :: Dedup(xs)[i] != Dedup(xs)[j]
  {
    if xs != [] {
      DedupKeeps(xs[..|xs| - 1]);
      assert xs == xs[..|xs| - 1] + [xs[|xs| - 1]];
    }
  }

  /** Where an element of a list first occurs. */
  function FirstIndex(xs: seq<Slots>, x: Slots): (i: nat)
    requires x in xs
    ensures i < |xs| && xs[i] == x && forall k | 0 <= k < i :: xs[k] != x
  {
    if xs[0] == x then 0
    else
      var i := FirstIndex(xs[1..], x);
      assert forall k | 0 < k < i + 1 :: xs[k] == xs[1..][k - 1];
      i + 1
  }

  lemma FirstIndexPrefix(xs: seq<Slots>, n: nat, x: Slots)
    requires n <= |xs| && x in xs[..n]
    ensures FirstIndex(xs, x) == FirstIndex(xs[..n], x)
  {
    assert xs[..n][FirstIndex(xs[..n], x)] == xs[FirstIndex(xs[..n], x)];
    assert FirstIndex(xs, x) < n ==> xs[..n][FirstIndex(xs, x)] == xs[FirstIndex(xs, x)];
  }

  /** The targets stay in the order of their first occurrence. */
  lemma {:induction false} DedupInOrder(xs: seq<Slots>)
    ensures forall i, j | 0 <= i < j < |Dedup(xs)| ::
      Dedup(xs)[i] in xs && Dedup(xs)[j] in xs && FirstIndex(xs, Dedup(xs)[i]) < FirstIndex(xs, Dedup(xs)[j])
  {
    if xs != [] {
      var n := |xs| - 1;
      DedupInOrder(xs[..n]);
      DedupKeeps(xs[..n]);
      DedupKeeps(xs);
      var d, d' := Dedup(xs[..n]), Dedup(xs);
      forall i, j | 0 <= i < j < |d'|
        ensures d'[i] in xs && d'[j] in xs && FirstIndex(xs, d'[i]) < FirstIndex(xs, d'[j])
      {
        assert d[i] in xs[..n];
        FirstIndexPrefix(xs, n, d'[i]);
        if j < |d| {
          assert d[j] in xs[..n];
          FirstIndexPrefix(xs, n, d'[j]);
        } else {
          assert xs[n] !in xs[..n] && d'[j] == xs[n];
        }
      }
    }
  }

  // ----- handing out the slots -----

  function Repeat(x: Link, n: int): seq<Link> {
    if n <= 0 then [] else [x] + Repeat(x, n - 1)
  }

  /** chain.from_iterable(repeat(target, slices) ...) */
  function Expand(caps: seq<Slots>): seq<Link> {
    if caps == [] then [] else Repeat(caps[0].target, caps[0].slices) + Expand(caps[1..])
  }

  function Total(caps: seq<Slots>): int {
    if caps == [] then 0 else caps[0].slices + Total(caps[1..])
  }

  lemma RepeatLength(x: Link, n: int)
    ensures |Repeat(x, n)| == if n <= 0 then 0 else n
    ensures forall y | y in Repeat(x, n) :: y == x
  {
  }

  /** With positive entries, the iterator yields exactly as many slots as the sum that was checked. */
  lemma {:induction false} ExpandLength(caps: seq<Slots>)
    requires forall c | c in caps :: c.slices > 0
    ensures |Expand(caps)| == Total(caps)
  {
    if caps != [] {
      RepeatLength(caps[0].target, caps[0].slices);
      ExpandLength(caps[1..]);
    }
  }

  /** What is left when the current target was yielded "used" times. */
  function RestOf(caps: seq<Slots>, index: nat, used: nat): seq<Link>
    requires index <= |caps|
  {
    if index == |caps| then []
    else Repeat(caps[index].target, caps[index].slices - used) + Expand(caps[index + 1..])
  }

  lemma RestAtStart(caps: seq<Slots>)
    ensures RestOf(caps, 0, 0) == Expand(caps)
  {
  }

  lemma SkipTarget(caps: seq<Slots>, index: nat, used: nat)
    requires index < |caps| && used >= caps[index].slices
    ensures RestOf(caps, index, used) == RestOf(caps, index + 1, 0)
  {
    var rest := caps[index + 1..];
    assert Repeat(caps[index].target, caps[index].slices - used) == [];
    if rest != [] {
      assert rest[0] == caps[index + 1] && rest[1..] == caps[index + 2..];
    }
  }

  lemma TakeSlot(caps: seq<Slots>, index: nat, used: nat)
    requires index <= |caps| && (index < |caps| ==> used < caps[index].slices)
    ensures var rest := RestOf(caps, index, used);
      if index == |caps| then rest == []
      else rest == [caps[index].target] + RestOf(caps, index, used + 1)
  {
    if index < |caps| {
      var t, n := caps[index].target, caps[index].slices - used;
      hide Expand;
      RepeatCons(t, n);
      hide Repeat;
      AppendCons(t, Repeat(t, n - 1), Expand(caps[index + 1..]));
      hide RestOf;
      RestHere(caps, index, used);
      RestHere(caps, index, used + 1);
    }
  }

  lemma RepeatCons(x: Link, n: int)
    requires n > 0
    ensures Repeat(x, n) == [x] + Repeat(x, n - 1)
  {
  }

  lemma RestHere(caps: seq<Slots>, index: nat, used: nat)
    requires index < |caps|
    ensures RestOf(caps, index, used) == Repeat(caps[index].target, caps[index].slices - used) + Expand(caps[index + 1..])
  {
  }

  lemma AppendCons(x: Link, xs: seq<Link>, ys: seq<Link>)
    ensures ([x] + xs) + ys == [x] + (xs + ys)
  {
  }

  /** The lazy iterator: a list of targets, the current one, and how often it was yielded. */
  class SlotIterator {
    const caps: seq<Slots>
    var index: nat
    var used: nat

    ghost predicate Valid()
      reads this
    {
      index <= |caps| && (index < |caps| ==> used == 0 || used <= caps[index].slices) && (index == |caps| ==> used == 0)
    }

    /** What is still to be yielded. */
    ghost function Rest(): seq<Link>
      requires Valid()
      reads this
    {
      RestOf(caps, index, used)
    }

    constructor (caps: seq<Slots>)
      ensures Valid() && Rest() == Expand(caps) && this.caps == caps
    {
      this.caps := caps;
      index, used := 0, 0;
      new;
      RestAtStart(caps);
    }

    /** next(): None stands for StopIteration. */
    method Next() returns (r: Option<Link>)
      requires Valid()
      modifies this
      ensures Valid()
      ensures if old(Rest()) == [] then r == None && Rest() == []
              else r == Some(old(Rest())[0]) && Rest() == old(Rest())[1..]
    {
      hide RestOf;
      while index < |caps| && used >= caps[index].slices
        invariant Valid() && Rest() == old(Rest())
        decreases |caps| - index
      {
        SkipTarget(caps, index, used);
        index, used := index + 1, 0;
      }
      TakeSlot(caps, index, used);
      if index == |caps| {
        return None;
      }
      r := Some(caps[index].target);
      used := used + 1;
    }
  }

  /** _prepare_reservation_iterator */
  method PrepareReservationIterator(s: Snapshot, reservations: seq<Link>, newPools: int, force: bool, vms: nat, chips: nat)
    returns (it: SlotIterator?, code: int)
    requires vms > 0 && chips > 0
    ensures var (caps, rc) := Assess(s, reservations, force, vms, chips);
      && (it == null <==> rc > 0 || Total(caps) < newPools)
      && (it == null ==> code == if rc > 0 then rc else 1)
      && (it != null ==> code == 0 && fresh(it) && it.Valid() && it.caps == caps && it.Rest() == Expand(caps))
  {
    var capacities, rc := AssessAvailableSlices(s, reservations, force, vms, chips);
    if rc > 0 {
      return null, rc;
    }
    if Total(capacities) < newPools {
      return null, 1;
    }
    it := new SlotIterator(capacities);
    code := 0;
  }

  /** Every entry offers something. */
  lemma {:induction false} AssessPositive(s: Snapshot, links: seq<Link>, force: bool, vms: nat, chips: nat, validate: bool)
    requires vms > 0 && chips > 0
    ensures forall c | c in AssessAll(s, links, force, vms, chips, validate).0 :: c.slices > 0
    decreases MaxRank(links), |links|
  {
    hide SlicesCount;
    if links != [] {
      AssessOnePositive(s, links[0], force, vms, chips);
      AssessPositive(s, links[1..], force, vms, chips, validate);
    }
  }

  lemma AssessOnePositive(s: Snapshot, link: Link, force: bool, vms: nat, chips: nat)
    requires vms > 0 && chips > 0
    ensures forall c | c in AssessOne(s, link, force, vms, chips).0 :: c.slices > 0
    decreases Rank(link), 0
  {
    hide SlicesCount; hide AssessAll;
    if link.SubBlock? || (force && link.Block?) {
      FittingPositive(link, s.healthy(link).0, vms);
    } else if force {
      var links := BlockLinks(link, s.blocks(link).0);
      AssessPositive(s, links, force, vms, chips, false);
      DedupKeeps(AssessAll(s, links, force, vms, chips, false).0);
    }
  }

  lemma FittingPositive(block: Link, rows: seq<Row>, vms: nat)
    requires !block.Reservation? && vms > 0
    ensures forall c | c in Fitting(block, rows, vms) :: c.slices > 0
  {
  }

  /** The iterator yields as many slots as the total that _prepare_reservation_iterator compares. */
  lemma SlotsMatchTotal(s: Snapshot, links: seq<Link>, force: bool, vms: nat, chips: nat)
    requires vms > 0 && chips > 0
    ensures var caps := Assess(s, links, force, vms, chips).0; |Expand(caps)| == Total(caps)
  {
    hide AssessAll;
    AssessPositive(s, links, force, vms, chips, true);
    DedupKeeps(AssessAll(s, links, force, vms, chips, true).0);
    ExpandLength(Assess(s, links, force, vms, chips).0);
  }

  // ----- what is offered -----

  /** "c" offers what is free in the listed sub-block, and no more. */
  predicate Describes(block: Link, row: Row, c: Slots, vms: nat)
    requires !block.Reservation? && vms > 0
  {
    && c.target == SubBlock(block.project, block.name, block.zone, block.blockName, row.name)
    && 0 < c.slices == (row.count - row.inUse) / vms
  }

  /** The sub-blocks of one listing are offered exactly if they hold a slice. */
  lemma {:induction false} FittingIsSubBlocks(block: Link, rows: seq<Row>, vms: nat, c: Slots)
    requires !block.Reservation? && vms > 0
    ensures c in Fitting(block, rows, vms) <==> exists i | 0 <= i < |rows| :: Describes(block, rows[i], c, vms)
  {
    if rows != [] {
      FittingIsSubBlocks(block, rows[1..], vms, c);
      if i :| 0 <= i < |rows[1..]| && Describes(block, rows[1..][i], c, vms) {
        assert Describes(block, rows[i + 1], c, vms);
      } else if i :| 0 <= i < |rows| && Describes(block, rows[i], c, vms) {
        assert i > 0 ==> rows[1..][i - 1] == rows[i];
      }
    }
  }

  /** The listings of healthy sub-blocks that a link is assessed by: its own for a sub-block link, and with
      forced targeting its own for a block and those of all its blocks for a reservation. */
  predicate Reached(s: Snapshot, link: Link, force: bool, block: Link) {
    !block.Reservation? &&
    if link.SubBlock? then block == link
    else if !force then false
    else if link.Block? then block == link
    else block in BlockLinks(link, s.blocks(link).0)
  }

  /** "c" is a listed sub-block that holds a slice. */
  predicate OffersRow(s: Snapshot, link: Link, force: bool, block: Link, i: int, c: Slots, vms: nat)
    requires vms > 0
  {
    Reached(s, link, force, block) && 0 <= i < |s.healthy(block).0| && Describes(block, s.healthy(block).0[i], c, vms)
  }

  /** Without forced targeting a reservation or a block is offered as a whole. */
  predicate OffersWhole(s: Snapshot, link: Link, force: bool, c: Slots, vms: nat, chips: nat)
    requires vms > 0 && chips > 0
  {
    !force && !link.SubBlock? && c.target == link && c.slices == SlicesCount(s, link, vms, chips).0 > 0
  }

  ghost predicate Offers(s: Snapshot, link: Link, force: bool, c: Slots, vms: nat, chips: nat)
    requires vms > 0 && chips > 0
  {
    OffersWhole(s, link, force, c, vms, chips) || exists block: Link, i :: OffersRow(s, link, force, block, i, c, vms)
  }

  ghost predicate Offered(s: Snapshot, links: seq<Link>, force: bool, c: Slots, vms: nat, chips: nat)
    requires vms > 0 && chips > 0
  {
    exists k | 0 <= k < |links| :: Offers(s, links[k], force, c, vms, chips)
  }

  lemma OfferedCons(s: Snapshot, links: seq<Link>, force: bool, c: Slots, vms: nat, chips: nat)
    requires vms > 0 && chips > 0 && links != []
    ensures Offered(s, links, force, c, vms, chips) <==>
      Offers(s, links[0], force, c, vms, chips) || Offered(s, links[1..], force, c, vms, chips)
  {
    hide Offers;
    if k :| 0 <= k < |links| && Offers(s, links[k], force, c, vms, chips) {
      assert k > 0 ==> links[1..][k - 1] == links[k];
    }
    if k :| 0 <= k < |links[1..]| && Offers(s, links[1..][k], force, c, vms, chips) {
      assert links[k + 1] == links[1..][k];
    }
  }

  /** Whatever mix of links is given, with or without forced targeting: a successful assessment offers exactly
      the listed sub-blocks that hold a slice, and the reservations and blocks that count as a whole. */
  lemma {:induction false} OffersExactly(s: Snapshot, links: seq<Link>, force: bool, vms: nat, chips: nat, validate: bool, c: Slots)
    requires vms > 0 && chips > 0 && AssessAll(s, links, force, vms, chips, validate).1 == 0
    ensures c in AssessAll(s, links, force, vms, chips, validate).0 <==> Offered(s, links, force, c, vms, chips)
    decreases MaxRank(links), |links|
  {
    hide Offers; hide Offered;
    if links == [] {
      NothingOffered(s, force, c, vms, chips);
    } else {
      OneOffersExactly(s, links[0], force, vms, chips, c);
      OffersExactly(s, links[1..], force, vms, chips, validate, c);
      OfferedCons(s, links, force, c, vms, chips);
    }
  }

  lemma NothingOffered(s: Snapshot, force: bool, c: Slots, vms: nat, chips: nat)
    requires vms > 0 && chips > 0
    ensures !Offered(s, [], force, c, vms, chips)
  {
  }

  lemma OneOffersExactly(s: Snapshot, link: Link, force: bool, vms: nat, chips: nat, c: Slots)
    requires vms > 0 && chips > 0 && AssessOne(s, link, force, vms, chips).1 == 0
    ensures c in AssessOne(s, link, force, vms, chips).0 <==> Offers(s, link, force, c, vms, chips)
    decreases Rank(link), 0
  {
    hide Describes; hide AssessAll; hide SlicesCount;
    if link.SubBlock? || (force && link.Block?) {
      FittingIsSubBlocks(link, s.healthy(link).0, vms, c);
      if i :| 0 <= i < |s.healthy(link).0| && Describes(link, s.healthy(link).0[i], c, vms) {
        assert OffersRow(s, link, force, link, i, c, vms);
      }
    } else if force {
      var blocks := BlockLinks(link, s.blocks(link).0);
      if blocks != [] {
        OffersExactly(s, blocks, force, vms, chips, false, c);
        DedupKeeps(AssessAll(s, blocks, force, vms, chips, false).0);
      }
      BlocksOffer(s, link, blocks, c, vms, chips);
    }
  }

  lemma BlocksOffer(s: Snapshot, link: Link, blocks: seq<Link>, c: Slots, vms: nat, chips: nat)
    requires vms > 0 && chips > 0 && link.Reservation? && blocks == BlockLinks(link, s.blocks(link).0)
    ensures Offered(s, blocks, true, c, vms, chips) <==> Offers(s, link, true, c, vms, chips)
  {
    hide Describes;
    if k :| 0 <= k < |blocks| && Offers(s, blocks[k], true, c, vms, chips) {
      var block: Link, i :| OffersRow(s, blocks[k], true, block, i, c, vms);
      assert OffersRow(s, link, true, block, i, c, vms);
    }
    if block: Link, i :| OffersRow(s, link, true, block, i, c, vms) {
      var k :| 0 <= k < |blocks| && blocks[k] == block;
      assert OffersRow(s, blocks[k], true, block, i, c, vms);
    }
  }

  // ----- when an assessment fails -----

  /** The sub-block has no room for a slice. */
  predicate Full(row: Row, vms: nat) {
    row.count - row.inUse < vms
  }

  /** The reservation has no room for a slice: machines of a specific one, chips of an aggregate one. */
  predicate FullReservation(h: Holding, vms: nat, chips: nat) {
    match h
    case Specific(count, inUse, _) => count - inUse < vms
    case Aggregate(Some(a), inUse) => a.count - InUseOf(inUse, a.kind) < vms * chips
    case _ => true
  }

  /** A link that cannot be served: its reservation is unknown or configured for something else, a query about
      it fails, or there is no room for a single slice. */
  ghost predicate LinkFails(s: Snapshot, link: Link, force: bool, vms: nat, chips: nat) {
    || s.holding(Base(link)).None?
    || (match s.holding(Base(link)).value
        case Specific(_, _, configured) => !configured
        case Aggregate(matching, _) => matching.None?
        case Empty => false)
    || (if link.SubBlock? || (force && link.Block?) then
          s.healthy(link).1 != 0 || forall row | row in s.healthy(link).0 :: Full(row, vms)
        else if force then
          || s.blocks(link).1 != 0
          || (exists b | b in BlockLinks(link, s.blocks(link).0) :: s.healthy(b).1 != 0)
          || (forall b | b in BlockLinks(link, s.blocks(link).0) :: forall row | row in s.healthy(b).0 :: Full(row, vms))
        else FullReservation(s.holding(Base(link)).value, vms, chips))
  }

  lemma QuotientPositive(a: int, b: nat)
    requires b > 0
    ensures a / b > 0 <==> a >= b
  {
    var q, r := a / b, a % b;
    assert a == q * b + r && 0 <= r < b;
    if q <= 0 {
      MultiplyMonotone(q, 0, b);
    } else {
      MultiplyMonotone(1, q, b);
    }
  }

  lemma {:induction false} FittingEmpty(block: Link, rows: seq<Row>, vms: nat)
    requires !block.Reservation? && vms > 0
    ensures Fitting(block, rows, vms) == [] <==> forall row | row in rows :: Full(row, vms)
  {
    if rows != [] {
      FittingEmpty(block, rows[1..], vms);
      QuotientPositive(rows[0].count - rows[0].inUse, vms);
      var rest := Fitting(block, rows[1..], vms);
      if Full(rows[0], vms) {
        assert Fitting(block, rows, vms) == [] + rest == rest;
      } else {
        assert |Fitting(block, rows, vms)| == 1 + |rest| && rows[0] in rows;
      }
      assert forall row :: row in rows <==> row == rows[0] || row in rows[1..];
    }
  }

  /** Listing the sub-blocks of all blocks of a reservation. */
  lemma {:induction false} BlocksFail(s: Snapshot, blocks: seq<Link>, vms: nat, chips: nat)
    requires vms > 0 && chips > 0 && forall b | b in blocks :: b.Block?
    ensures var (found, code) := AssessAll(s, blocks, true, vms, chips, false);
      && (code != 0 <==> exists b | b in blocks :: s.healthy(b).1 != 0)
      && (code == 0 ==> (found == [] <==> forall b | b in blocks :: forall row | row in s.healthy(b).0 :: Full(row, vms)))
    decreases |blocks|
  {
    hide Full; hide Fitting;
    if blocks != [] {
      assert blocks[0] in blocks && forall b | b in blocks[1..] :: b in blocks;
      BlocksFail(s, blocks[1..], vms, chips);
      FittingEmpty(blocks[0], s.healthy(blocks[0]).0, vms);
      assert forall b :: b in blocks <==> b == blocks[0] || b in blocks[1..];
    }
  }

  lemma WholeEmpty(s: Snapshot, link: Link, h: Holding, vms: nat, chips: nat)
    requires vms > 0 && chips > 0 && s.holding(Base(link)) == Some(h) && Verified(h)
    ensures var (slices, code) := SlicesCount(s, link, vms, chips);
      code == 0 && (slices <= 0 <==> FullReservation(h, vms, chips))
  {
    PerSlicePositive(h, vms, chips);
    QuotientPositive(if FreeIn(h) > 0 then FreeIn(h) else 0, PerSlice(h, vms, chips));
  }

  lemma DedupEmpty(xs: seq<Slots>)
    ensures Dedup(xs) == [] <==> xs == []
  {
    DedupKeeps(xs);
    if xs != [] {
      assert xs[0] in xs;
    }
  }

  lemma OneFails(s: Snapshot, link: Link, force: bool, vms: nat, chips: nat)
    requires vms > 0 && chips > 0 && s.holding(Base(link)).Some? && Verified(s.holding(Base(link)).value)
    ensures AssessOne(s, link, force, vms, chips).1 != 0 || AssessOne(s, link, force, vms, chips).0 == []
       <==> LinkFails(s, link, force, vms, chips)
  {
    hide Full; hide FullReservation; hide SlicesCount; hide Fitting; hide AssessAll;
    if link.SubBlock? || (force && link.Block?) {
      FittingEmpty(link, s.healthy(link).0, vms);
    } else if force {
      var blocks := BlockLinks(link, s.blocks(link).0);
      BlocksFail(s, blocks, vms, chips);
      DedupEmpty(AssessAll(s, blocks, true, vms, chips, false).0);
      assert blocks == [] <==> s.blocks(link).0 == [];
    } else {
      WholeEmpty(s, link, s.holding(Base(link)).value, vms, chips);
    }
  }

  /** An assessment of the user's reservations fails if and only if some link fails, and then with the code
      of the first one that does. */
  lemma {:induction false} AssessFailsExactly(s: Snapshot, links: seq<Link>, force: bool, vms: nat, chips: nat)
    requires vms > 0 && chips > 0
    ensures AssessAll(s, links, force, vms, chips, true).1 != 0 <==> exists k | 0 <= k < |links| :: LinkFails(s, links[k], force, vms, chips)
    ensures forall k | 0 <= k < |links| && LinkFails(s, links[k], force, vms, chips)
              && (forall i | 0 <= i < k :: !LinkFails(s, links[i], force, vms, chips)) ::
      AssessAll(s, links, force, vms, chips, true).1 == AssessAll(s, [links[k]], force, vms, chips, true).1
    decreases |links|
  {
    hide LinkFails; hide AssessOne; hide Verified;
    if links != [] {
      var link, rest := links[0], links[1..];
      AssessFailsExactly(s, rest, force, vms, chips);
      assert forall i | 0 <= i < |rest| :: rest[i] == links[i + 1];
      assert forall k | 1 <= k < |links| :: links[k] == rest[k - 1];
      FirstLinkFails(s, links, force, vms, chips);
    }
  }

  /** The first link fails the assessment by itself, or leaves it to the others. */
  lemma FirstLinkFails(s: Snapshot, links: seq<Link>, force: bool, vms: nat, chips: nat)
    requires vms > 0 && chips > 0 && links != []
    ensures AssessAll(s, [links[0]], force, vms, chips, true).1 != 0 <==> LinkFails(s, links[0], force, vms, chips)
    ensures AssessAll(s, links, force, vms, chips, true).1
         == if LinkFails(s, links[0], force, vms, chips) then AssessAll(s, [links[0]], force, vms, chips, true).1
            else AssessAll(s, links[1..], force, vms, chips, true).1
  {
    hide AssessOne;
    var link := links[0];
    assert [link][1..] == [];
    if s.holding(Base(link)).Some? && Verified(s.holding(Base(link)).value) {
      OneFails(s, link, force, vms, chips);
    }
  }

  // ----- no reservation is oversubscribed -----

  /** Two queries never disagree about a sub-block. */
  ghost predicate Consistent(s: Snapshot) {
    forall a: Link, b: Link, i, j |
      && !a.Reservation? && !b.Reservation?
      && (a.project, a.name, a.zone, a.blockName) == (b.project, b.name, b.zone, b.blockName)
      && 0 <= i < |s.healthy(a).0| && 0 <= j < |s.healthy(b).0| && s.healthy(a).0[i].name == s.healthy(b).0[j].name
      :: s.healthy(a).0[i] == s.healthy(b).0[j]
  }

  /** "c" was computed from a row of some listing. */
  ghost predicate Listed(s: Snapshot, c: Slots, vms: nat)
    requires vms > 0
  {
    exists a: Link, i | !a.Reservation? && 0 <= i < |s.healthy(a).0| :: Describes(a, s.healthy(a).0[i], c, vms)
  }

  /** What an entry of an assessment is: a listed sub-block, or a reservation or block as a whole. */
  lemma EntryIs(s: Snapshot, links: seq<Link>, force: bool, vms: nat, chips: nat, c: Slots)
    requires vms > 0 && chips > 0 && c in Assess(s, links, force, vms, chips).0
    ensures c.slices > 0
    ensures c.target.SubBlock? ==> Listed(s, c, vms)
    ensures !c.target.SubBlock? ==> !force && c.target in links && c.slices == SlicesCount(s, c.target, vms, chips).0
  {
    hide AssessAll; hide SlicesCount;
    DedupKeeps(AssessAll(s, links, force, vms, chips, true).0);
    OffersExactly(s, links, force, vms, chips, true, c);
    var k :| 0 <= k < |links| && Offers(s, links[k], force, c, vms, chips);
  }

  /** The target has at most one entry. */
  ghost predicate UniqueTarget(caps: seq<Slots>, t: Link) {
    forall i, j | 0 <= i < j < |caps| && caps[i].target == t :: caps[j].target != t
  }

  /** In a consistent snapshot, deduplication leaves one entry for each target: reservation, block or sub-block. */
  lemma TargetsDistinct(s: Snapshot, links: seq<Link>, force: bool, vms: nat, chips: nat, t: Link)
    requires vms > 0 && chips > 0 && (t.SubBlock? ==> Consistent(s))
    ensures UniqueTarget(Assess(s, links, force, vms, chips).0, t)
  {
    hide AssessAll; hide SlicesCount; hide Consistent; hide Listed;
    var caps := Assess(s, links, force, vms, chips).0;
    DedupKeeps(AssessAll(s, links, force, vms, chips, true).0);
    forall i, j | 0 <= i < j < |caps| && caps[i].target == t ensures caps[j].target != t {
      EntryIs(s, links, force, vms, chips, caps[i]);
      EntryIs(s, links, force, vms, chips, caps[j]);
      if caps[j].target == t && t.SubBlock? {
        SameTarget(s, caps[i], caps[j], vms);
      }
    }
  }

  lemma SameTarget(s: Snapshot, c: Slots, d: Slots, vms: nat)
    requires vms > 0 && Consistent(s) && Listed(s, c, vms) && Listed(s, d, vms) && c.target == d.target
    ensures c == d
  {
    var a: Link, i :| !a.Reservation? && 0 <= i < |s.healthy(a).0| && Describes(a, s.healthy(a).0[i], c, vms);
    var b: Link, j :| !b.Reservation? && 0 <= j < |s.healthy(b).0| && Describes(b, s.healthy(b).0[j], d, vms);
    assert s.healthy(a).0[i] == s.healthy(b).0[j];
  }

  /** Slots handed out to one target. */
  lemma {:induction false} SlotsPerTarget(caps: seq<Slots>, t: Link)
    requires UniqueTarget(caps, t) && forall c | c in caps :: c.slices > 0
    ensures (forall c | c in caps :: c.target != t) ==> multiset(Expand(caps))[t] == 0
    ensures forall c | c in caps && c.target == t :: multiset(Expand(caps))[t] == c.slices
  {
    if caps != [] {
      var first, rest := caps[0], caps[1..];
      assert forall i | 0 <= i < |rest| :: rest[i] == caps[i + 1];
      SlotsPerTarget(rest, t);
      RepeatCounts(first.target, first.slices, t);
      assert first.target == t ==> forall c | c in rest :: c.target != t;
      assert forall c :: c in caps <==> c == first || c in rest;
    }
  }

  lemma RepeatCounts(x: Link, n: int, t: Link)
    ensures multiset(Repeat(x, n))[t] == if t == x && n > 0 then n else 0
  {
    if n > 0 {
      RepeatCounts(x, n - 1, t);
    }
  }

  lemma PrefixCounts(xs: seq<Link>, n: nat, t: Link)
    requires n <= |xs|
    ensures multiset(xs[..n])[t] <= multiset(xs)[t]
  {
    assert xs == xs[..n] + xs[n..];
  }

  /** The first slots of the iterator give no target more than its entry allows. */
  lemma CountBound(caps: seq<Slots>, pools: nat, t: Link, bound: nat)
    requires UniqueTarget(caps, t) && (forall c | c in caps :: c.slices > 0) && pools <= Total(caps)
    requires forall c | c in caps && c.target == t :: c.slices <= bound
    ensures pools <= |Expand(caps)| && multiset(Expand(caps)[..pools])[t] <= bound
  {
    ExpandLength(caps);
    SlotsPerTarget(caps, t);
    PrefixCounts(Expand(caps), pools, t);
  }

  lemma FloorBound(free: int, vms: nat, n: nat)
    requires vms > 0 && n <= free / vms
    ensures n * vms <= free
  {
    assert free / vms * vms <= free;
    MultiplyMonotone(n, free / vms, vms);
  }

  /** Main theorem.  In a consistent snapshot, for any mix of reservations, blocks, sub-blocks and repeats, with
      or without forced targeting: as long as the iterator can serve "pools" pools, the pools assigned to a
      sub-block never need more machines than are free in it. */
  lemma NoOversubscription(s: Snapshot, links: seq<Link>, force: bool, vms: nat, chips: nat, pools: nat, block: Link, i: nat)
    requires vms > 0 && chips > 0 && Consistent(s)
    requires pools <= Total(Assess(s, links, force, vms, chips).0)
    requires !block.Reservation? && i < |s.healthy(block).0|
    ensures var row := s.healthy(block).0[i];
      var handed := Expand(Assess(s, links, force, vms, chips).0);
      var t := SubBlock(block.project, block.name, block.zone, block.blockName, row.name);
      && pools <= |handed|
      && multiset(handed[..pools])[t] * vms <= if row.count > row.inUse then row.count - row.inUse else 0
  {
    hide Assess; hide Expand; hide Total; hide SlicesCount; hide Listed;
    var caps := Assess(s, links, force, vms, chips).0;
    var row := s.healthy(block).0[i];
    var t := SubBlock(block.project, block.name, block.zone, block.blockName, row.name);
    var free := if row.count > row.inUse then row.count - row.inUse else 0;
    TargetsDistinct(s, links, force, vms, chips, t);
    forall c | c in caps ensures c.slices > 0 && (c.target == t ==> c.slices <= free / vms) {
      EntryIs(s, links, force, vms, chips, c);
      if c.target == t {
        RowOf(s, c, vms, block, i);
      }
    }
    CountBound(caps, pools, t, free / vms);
    FloorBound(free, vms, multiset(Expand(caps)[..pools])[t]);
  }

  lemma RowOf(s: Snapshot, c: Slots, vms: nat, block: Link, i: nat)
    requires vms > 0 && Consistent(s) && Listed(s, c, vms)
    requires !block.Reservation? && i < |s.healthy(block).0|
    requires c.target == SubBlock(block.project, block.name, block.zone, block.blockName, s.healthy(block).0[i].name)
    ensures Describes(block, s.healthy(block).0[i], c, vms)
  {
    var a: Link, j :| !a.Reservation? && 0 <= j < |s.healthy(a).0| && Describes(a, s.healthy(a).0[j], c, vms);
    assert s.healthy(a).0[j] == s.healthy(block).0[i];
  }

  /** The first of the resources in use that has this kind. */
  predicate FirstOfKind(resources: seq<Accelerator>, kind: string, i: int) {
    0 <= i < |resources| && resources[i].kind == kind && forall k | 0 <= k < i :: resources[k].kind != kind
  }

  lemma {:induction false} InUseIsFirst(resources: seq<Accelerator>, kind: string)
    ensures forall i | FirstOfKind(resources, kind, i) :: InUseOf(resources, kind) == resources[i].count
    ensures (forall i | 0 <= i < |resources| :: resources[i].kind != kind) ==> InUseOf(resources, kind) == 0
  {
    if resources != [] {
      InUseIsFirst(resources[1..], kind);
      assert forall i | 1 <= i < |resources| :: resources[i] == resources[1..][i - 1];
      forall i | FirstOfKind(resources, kind, i) ensures InUseOf(resources, kind) == resources[i].count {
        if i > 0 {
          assert FirstOfKind(resources[1..], kind, i - 1);
        }
      }
    }
  }

  /** The slots stay within what is free in a reservation: machines of a specific one, chips of an aggregate one. */
  ghost predicate WithinFree(h: Holding, vms: nat, chips: nat, slots: nat) {
    match h
    case Specific(count, inUse, _) => slots * vms <= Least0(count - inUse)
    case Aggregate(None, _) => slots == 0
    case Aggregate(Some(a), inUse) =>
      && (forall i | FirstOfKind(inUse, a.kind, i) :: slots * (vms * chips) <= Least0(a.count - inUse[i].count))
      && ((forall i | 0 <= i < |inUse| :: inUse[i].kind != a.kind) ==> slots * (vms * chips) <= Least0(a.count))
    case Empty => slots == 0
  }

  function Least0(n: int): nat {
    if n > 0 then n else 0
  }

  lemma FreeIsWithin(h: Holding, vms: nat, chips: nat, slots: nat)
    requires vms > 0 && chips > 0 && slots * PerSlice(h, vms, chips) <= Least0(FreeIn(h))
    ensures WithinFree(h, vms, chips, slots)
  {
    PerSlicePositive(h, vms, chips);
    match h {
      case Specific(_, _, _) =>
      case Aggregate(Some(a), inUse) => InUseIsFirst(inUse, a.kind);
      case _ =>
        if slots > 0 { ProductPositive(slots, PerSlice(h, vms, chips)); }
    }
  }

  /** The same for the reservations themselves, without forced targeting, whatever other links are listed. */
  lemma NoPlainOversubscription(s: Snapshot, links: seq<Link>, vms: nat, chips: nat, pools: nat, t: Link, h: Holding)
    requires vms > 0 && chips > 0
    requires pools <= Total(Assess(s, links, false, vms, chips).0)
    requires t.Reservation? && s.holding(t) == Some(h)
    ensures var handed := Expand(Assess(s, links, false, vms, chips).0);
      && pools <= |handed|
      && WithinFree(h, vms, chips, multiset(handed[..pools])[t])
  {
    hide Assess; hide Expand; hide Total; hide PerSlice; hide FreeIn; hide SlicesCount; hide Listed; hide WithinFree;
    var caps := Assess(s, links, false, vms, chips).0;
    PerSlicePositive(h, vms, chips);
    TargetsDistinct(s, links, false, vms, chips, t);
    assert Base(t) == t;
    CountOf(s, t, h, vms, chips);
    var bound := Least0(FreeIn(h)) / PerSlice(h, vms, chips);
    forall c | c in caps ensures c.slices > 0 && (c.target == t ==> c.slices <= bound) {
      EntryIs(s, links, false, vms, chips, c);
    }
    CountBound(caps, pools, t, bound);
    FloorBound(Least0(FreeIn(h)), PerSlice(h, vms, chips), multiset(Expand(caps)[..pools])[t]);
    FreeIsWithin(h, vms, chips, multiset(Expand(caps)[..pools])[t]);
  }

  // ----- block links without forced targeting -----

  /** What the entries for one reservation as a whole, or for whole blocks of it, offer together. */
  function OfferedFor(caps: seq<Slots>, base: Link): int {
    if caps == [] then 0
    else (if Whole(caps[0].target, base) then caps[0].slices else 0) + OfferedFor(caps[1..], base)
  }

  /** The link stands for the reservation, or for one of its blocks. */
  predicate Whole(link: Link, base: Link) {
    !link.SubBlock? && Base(link) == base
  }

  /** Entries of one reservation all offer the same number "n" of slices; how much that is together. */
  lemma {:induction false} OfferedTogether(caps: seq<Slots>, base: Link, n: int)
    requires forall i, j | 0 <= i < j < |caps| && Whole(caps[i].target, base) :: caps[j].target != caps[i].target
    requires n >= 1 && forall c | c in caps && Whole(c.target, base) :: c.slices == n
    ensures (forall c | c in caps :: !Whole(c.target, base)) ==> OfferedFor(caps, base) == 0
    ensures (exists c :: c in caps && Whole(c.target, base)) ==> OfferedFor(caps, base) >= n
    ensures SharedBase(caps, base) ==> OfferedFor(caps, base) >= 2 * n
    ensures !SharedBase(caps, base) ==> 0 <= OfferedFor(caps, base) <= n
  {
    hide Whole;
    if caps != [] {
      var first, rest := caps[0], caps[1..];
      assert forall c :: c in caps <==> c == first || c in rest;
      assert forall i | 0 <= i < |rest| :: rest[i] == caps[i + 1];
      OfferedTogether(rest, base, n);
      SharedRest(caps, base);
    }
  }

  /** Two different entries are for one reservation. */
  ghost predicate SharedBase(caps: seq<Slots>, base: Link) {
    exists c, d :: c in caps && d in caps && c.target != d.target && Whole(c.target, base) && Whole(d.target, base)
  }

  lemma SharedRest(caps: seq<Slots>, base: Link)
    requires caps != []
    requires forall i, j | 0 <= i < j < |caps| && Whole(caps[i].target, base) :: caps[j].target != caps[i].target
    ensures SharedBase(caps, base) <==>
      SharedBase(caps[1..], base) || (Whole(caps[0].target, base) && exists d :: d in caps[1..] && Whole(d.target, base))
  {
    hide Whole;
    var first, rest := caps[0], caps[1..];
    assert forall c :: c in caps <==> c == first || c in rest;
    forall d | d in rest && Whole(first.target, base) ensures d.target != first.target {
      var i :| 0 <= i < |rest| && rest[i] == d;
      assert caps[i + 1] == d;
    }
    assert first in caps;
  }

  /** Two different listed links, reservation or blocks, belong to one reservation. */
  ghost predicate SharedLinks(links: seq<Link>, base: Link) {
    exists a, b :: a in links && b in links && a != b && Whole(a, base) && Whole(b, base)
  }

  /** Without forced targeting, for any list of links, repeats included, whose assessment succeeds: the entries
      for a reservation and its blocks as a whole together offer more than it holds if and only if two different
      listed links share it. */
  lemma UnforcedOversubscription(s: Snapshot, links: seq<Link>, base: Link, h: Holding, vms: nat, chips: nat)
    requires vms > 0 && chips > 0
    requires s.holding(base) == Some(h) && Assess(s, links, false, vms, chips).1 == 0
    ensures OfferedFor(Assess(s, links, false, vms, chips).0, base) * PerSlice(h, vms, chips) > Least0(FreeIn(h))
       <==> SharedLinks(links, base)
  {
    hide SlicesCount; hide PerSlice; hide FreeIn; hide AssessAll; hide Base; hide Listed; hide LinkFails;
    PerSlicePositive(h, vms, chips);
    var caps := Assess(s, links, false, vms, chips).0;
    var free, per := Least0(FreeIn(h)), PerSlice(h, vms, chips);
    WholeEntries(s, links, vms, chips);
    forall c | c in caps && Whole(c.target, base) ensures c.slices == free / per > 0 {
      EntryIs(s, links, false, vms, chips, c);
      CountOf(s, c.target, h, vms, chips);
    }
    forall i, j | 0 <= i < j < |caps| && Whole(caps[i].target, base) ensures caps[j].target != caps[i].target {
      TargetsDistinct(s, links, false, vms, chips, caps[i].target);
    }
    SharedAlike(s, links, caps, base, vms, chips);
    if exists c :: c in caps && Whole(c.target, base) {
      OfferedTogether(caps, base, free / per);
      MoreThanHeld(OfferedFor(caps, base), free, per, SharedLinks(links, base));
    } else {
      OfferedTogether(caps, base, 1);
    }
  }

  /** Without forced targeting, a successful assessment has an entry for each listed reservation or block, and
      no other entries for reservations and blocks. */
  lemma WholeEntries(s: Snapshot, links: seq<Link>, vms: nat, chips: nat)
    requires vms > 0 && chips > 0 && Assess(s, links, false, vms, chips).1 == 0
    ensures forall c: Slots | !c.target.SubBlock? ::
      c in Assess(s, links, false, vms, chips).0 <==> Entry(s, links, c, vms, chips)
  {
    hide SlicesCount; hide AssessAll; hide AssessOne; hide Listed; hide Describes;
    DedupKeeps(AssessAll(s, links, false, vms, chips, true).0);
    AssessFailsExactly(s, links, false, vms, chips);
    forall c: Slots | !c.target.SubBlock?
      ensures c in Assess(s, links, false, vms, chips).0 <==> Entry(s, links, c, vms, chips)
    {
      OffersExactly(s, links, false, vms, chips, true, c);
      if Entry(s, links, c, vms, chips) {
        var k :| 0 <= k < |links| && links[k] == c.target;
        WholeEmpty(s, links[k], s.holding(Base(links[k])).value, vms, chips);
        assert Offers(s, links[k], false, c, vms, chips);
      }
      if c in Assess(s, links, false, vms, chips).0 {
        EntryIs(s, links, false, vms, chips, c);
      }
    }
  }

  ghost predicate Entry(s: Snapshot, links: seq<Link>, c: Slots, vms: nat, chips: nat)
    requires vms > 0 && chips > 0
  {
    c.target in links && c.slices == SlicesCount(s, c.target, vms, chips).0
  }

  lemma SharedAlike(s: Snapshot, links: seq<Link>, caps: seq<Slots>, base: Link, vms: nat, chips: nat)
    requires vms > 0 && chips > 0 && forall c: Slots | !c.target.SubBlock? :: c in caps <==> Entry(s, links, c, vms, chips)
    ensures SharedBase(caps, base) <==> SharedLinks(links, base)
  {
    hide SlicesCount; hide Base;
    if SharedLinks(links, base) {
      var a, b :| a in links && b in links && a != b && Whole(a, base) && Whole(b, base);
      var c, d := Slots(a, SlicesCount(s, a, vms, chips).0), Slots(b, SlicesCount(s, b, vms, chips).0);
      assert Entry(s, links, c, vms, chips) && Entry(s, links, d, vms, chips);
    }
  }

  lemma MoreThanHeld(offered: int, free: nat, per: nat, shared: bool)
    requires per > 0 && free / per > 0
    requires if shared then offered >= 2 * (free / per) else 0 <= offered <= free / per
    ensures offered * per > free <==> shared
  {
    var n := free / per;
    assert n * per <= free < n * per + per;
    if shared {
      MultiplyMonotone(2 * n, offered, per);
      MultiplyMonotone(1, n, per);
      assert 2 * n * per == n * per + n * per;
    } else {
      MultiplyMonotone(offered, n, per);
    }
  }

  lemma CountOf(s: Snapshot, link: Link, h: Holding, vms: nat, chips: nat)
    requires vms > 0 && chips > 0 && s.holding(Base(link)) == Some(h)
    ensures PerSlice(h, vms, chips) > 0
    ensures SlicesCount(s, link, vms, chips) == (Least0(FreeIn(h)) / PerSlice(h, vms, chips), 0)
  {
    hide PerSlice; hide FreeIn;
    PerSlicePositive(h, vms, chips);
  }
}
