/** Acknowledgement routes: a counting argument makes the accepted ones a bijection. */
module Routes {
  import opened Machine
  import opened Layout

  // ----- counting keys -----

  /** A name and how many indices it owns. */
  type Row = (int, nat)

  /** A name and one of its indices. */
  type Key = (int, int)

  predicate Distinct(table: seq<Row>) {
    forall i, j :: 0 <= i < j < |table| ==> table[i].0 != table[j].0
  }

  function Total(table: seq<Row>): nat {
    if table == [] then 0 else Total(table[..|table| - 1]) + table[|table| - 1].1
  }

  predicate InTable(table: seq<Row>, key: Key) {
    exists i :: 0 <= i < |table| && table[i].0 == key.0 && 0 <= key.1 < table[i].1
  }

  ghost function Indices(name: int, n: nat): (s: set<Key>)
    ensures |s| == n
    ensures forall k :: k in s <==> k.0 == name && 0 <= k.1 < n
  {
    if n == 0 then {}
    else
      var s := Indices(name, n - 1) + {(name, n - 1)};
      assert |s| == |Indices(name, n - 1)| + 1;
      s
  }

  ghost function AllKeys(table: seq<Row>): set<Key> {
    if table == [] then {} else AllKeys(table[..|table| - 1]) + Indices(table[|table| - 1].0, table[|table| - 1].1)
  }

  lemma InLongerTable(table: seq<Row>, key: Key)
    requires table != []
    ensures var n := |table| - 1;
            InTable(table, key) <==> InTable(table[..n], key) || (table[n].0 == key.0 && 0 <= key.1 < table[n].1)
  {
    var n := |table| - 1;
    if InTable(table, key) {
      var i :| 0 <= i < |table| && table[i].0 == key.0 && 0 <= key.1 < table[i].1;
      assert i < n ==> table[..n][i] == table[i];
    }
    if InTable(table[..n], key) {
      var i :| 0 <= i < n && table[..n][i].0 == key.0 && 0 <= key.1 < table[..n][i].1;
      assert table[i].0 == key.0;
    }
  }

  lemma {:induction false} AllKeysAreInTable(table: seq<Row>, key: Key)
    ensures key in AllKeys(table) <==> InTable(table, key)
  {
    if table != [] {
      AllKeysAreInTable(table[..|table| - 1], key);
      InLongerTable(table, key);
    }
  }

  lemma {:induction false} AllKeysCount(table: seq<Row>)
    requires Distinct(table)
    ensures |AllKeys(table)| == Total(table)
  {
    if table != [] {
      var n := |table| - 1;
      AllKeysCount(table[..n]);
      var before, added := AllKeys(table[..n]), Indices(table[n].0, table[n].1);
      forall k | k in before ensures k !in added {
        AllKeysAreInTable(table[..n], k);
        var i :| 0 <= i < n && table[..n][i].0 == k.0 && 0 <= k.1 < table[..n][i].1;
        assert table[i].0 == k.0;
      }
      assert before !! added;
      assert |before + added| == |before| + |added|;
    }
  }

  ghost function KeySet(keys: seq<Key>): set<Key> {
    set i | 0 <= i < |keys| :: keys[i]
  }

  lemma {:induction false} KeySetCount(keys: seq<Key>)
    requires forall i, j :: 0 <= i < j < |keys| ==> keys[i] != keys[j]
    ensures |KeySet(keys)| == |keys|
  {
    if keys != [] {
      var n := |keys| - 1;
      KeySetCount(keys[..n]);
      assert KeySet(keys) == KeySet(keys[..n]) + {keys[n]};
      assert keys[n] !in KeySet(keys[..n]);
    }
  }

  lemma {:induction false} SubsetOfSameSize(a: set<Key>, b: set<Key>)
    requires a <= b && |a| == |b|
    ensures a == b
  {
    if a != {} {
      var x :| x in a;
      assert a - {x} <= b - {x} && |a - {x}| == |b - {x}|;
      SubsetOfSameSize(a - {x}, b - {x});
      assert a == (a - {x}) + {x} && b == (b - {x}) + {x};
    }
  }

  /** As many distinct keys as the table has places use every place exactly once. */
  lemma Pigeonhole(table: seq<Row>, keys: seq<Key>, key: Key)
    requires Distinct(table) && |keys| == Total(table)
    requires forall i, j :: 0 <= i < j < |keys| ==> keys[i] != keys[j]
    requires forall i :: 0 <= i < |keys| ==> InTable(table, keys[i])
    ensures InTable(table, key) <==> key in keys
  {
    AllKeysCount(table);
    KeySetCount(keys);
    forall k | k in KeySet(keys) ensures k in AllKeys(table) {
      AllKeysAreInTable(table, k);
    }
    SubsetOfSameSize(KeySet(keys), AllKeys(table));
    AllKeysAreInTable(table, key);
  }

  /** Distinct keys that use exactly the places of a table are as many as it has. */
  lemma SameKeysCount(table: seq<Row>, keys: seq<Key>)
    requires Distinct(table) && forall i, j :: 0 <= i < j < |keys| ==> keys[i] != keys[j]
    requires forall key: Key :: InTable(table, key) <==> key in keys
    ensures |keys| == Total(table)
  {
    AllKeysCount(table);
    KeySetCount(keys);
    forall key: Key ensures key in KeySet(keys) <==> key in AllKeys(table) {
      AllKeysAreInTable(table, key);
    }
    assert KeySet(keys) == AllKeys(table);
  }

  // ----- routes -----

  datatype Route = Route(owner: RoleId, target: RoleId, slotIndex: u32, cellIndex: u32)

  predicate DistinctRoles(regions: seq<RegionHeader>) {
    forall i, j :: 0 <= i < j < |regions| ==> regions[i].role != regions[j].role
  }

  function Find(regions: seq<RegionHeader>, role: u32): (r: Option<RegionHeader>)
    ensures r.Some? ==> r.value in regions && r.value.role == role
    ensures r.None? ==> forall i :: 0 <= i < |regions| ==> regions[i].role != role
  {
    if regions == [] then None
    else if regions[0].role == role then Some(regions[0])
    else Find(regions[1..], role)
  }

  lemma FindUnique(regions: seq<RegionHeader>, i: nat)
    requires i < |regions| && DistinctRoles(regions)
    ensures Find(regions, regions[i].role) == Some(regions[i])
  {
  }

  predicate Fits(regions: seq<RegionHeader>, route: Route) {
    match Find(regions, route.owner)
    case None => false
    case Some(owner) =>
      match Find(regions, route.target)
      case None => false
      case Some(target) =>
        && owner.role != target.role && owner.writer != target.writer
        && route.slotIndex < target.slotCount && route.cellIndex < owner.ackCount
  }

  predicate Clash(a: Route, b: Route) {
    || (a.target == b.target && a.slotIndex == b.slotIndex)
    || (a.owner == b.owner && a.cellIndex == b.cellIndex)
  }

  function SlotTable(regions: seq<RegionHeader>): (t: seq<Row>)
    ensures |t| == |regions|
  {
    seq(|regions|, i requires 0 <= i < |regions| => (regions[i].role, regions[i].slotCount))
  }

  function CellTable(regions: seq<RegionHeader>): (t: seq<Row>)
    ensures |t| == |regions|
  {
    seq(|regions|, i requires 0 <= i < |regions| => (regions[i].role, regions[i].ackCount))
  }

  /** Range checks, duplicate checks and equal counts: nothing more is checked. */
  predicate RoutesOk(regions: seq<RegionHeader>, routes: seq<Route>) {
    && Total(SlotTable(regions)) == |routes| == Total(CellTable(regions))
    && (forall i :: 0 <= i < |routes| ==> Fits(regions, routes[i]))
    && (forall i, j :: 0 <= i < j < |routes| ==> !Clash(routes[j], routes[i]))
  }

  function SlotKeys(routes: seq<Route>): (r: seq<Key>)
    ensures |r| == |routes|
  {
    seq(|routes|, i requires 0 <= i < |routes| => (routes[i].target, routes[i].slotIndex))
  }

  function CellKeys(routes: seq<Route>): (r: seq<Key>)
    ensures |r| == |routes|
  {
    seq(|routes|, i requires 0 <= i < |routes| => (routes[i].owner, routes[i].cellIndex))
  }

  lemma FoundSlotInTable(regions: seq<RegionHeader>, role: u32, index: u32)
    requires Find(regions, role).Some?
    ensures index < Find(regions, role).value.slotCount ==> InTable(SlotTable(regions), (role, index))
    ensures index < Find(regions, role).value.ackCount ==> InTable(CellTable(regions), (role, index))
  {
    var h := Find(regions, role).value;
    var i :| 0 <= i < |regions| && regions[i] == h;
    assert SlotTable(regions)[i] == (role, h.slotCount) && CellTable(regions)[i] == (role, h.ackCount);
  }

  /** Every slot of every region is the target of exactly one route. */
  lemma SlotsAreRouted(regions: seq<RegionHeader>, routes: seq<Route>, role: u32, slot: u32)
    requires DistinctRoles(regions) && RoutesOk(regions, routes)
    ensures InTable(SlotTable(regions), (role, slot)) <==> (role, slot) in SlotKeys(routes)
  {
    forall i | 0 <= i < |routes| ensures InTable(SlotTable(regions), SlotKeys(routes)[i]) {
      FoundSlotInTable(regions, routes[i].target, routes[i].slotIndex);
    }
    forall i, j | 0 <= i < j < |routes| ensures SlotKeys(routes)[i] != SlotKeys(routes)[j] {
      assert !Clash(routes[j], routes[i]);
    }
    Pigeonhole(SlotTable(regions), SlotKeys(routes), (role, slot));
  }

  /** Every acknowledgement cell of every region is owned by exactly one route. */
  lemma CellsAreRouted(regions: seq<RegionHeader>, routes: seq<Route>, role: u32, cell: u32)
    requires DistinctRoles(regions) && RoutesOk(regions, routes)
    ensures InTable(CellTable(regions), (role, cell)) <==> (role, cell) in CellKeys(routes)
  {
    forall i | 0 <= i < |routes| ensures InTable(CellTable(regions), CellKeys(routes)[i]) {
      FoundSlotInTable(regions, routes[i].owner, routes[i].cellIndex);
    }
    forall i, j | 0 <= i < j < |routes| ensures CellKeys(routes)[i] != CellKeys(routes)[j] {
      assert !Clash(routes[j], routes[i]);
    }
    Pigeonhole(CellTable(regions), CellKeys(routes), (role, cell));
  }

  predicate SlotRouted(routes: seq<Route>, role: u32, slot: u32) {
    exists i :: 0 <= i < |routes| && routes[i].target == role && routes[i].slotIndex == slot
  }

  predicate CellRouted(routes: seq<Route>, role: u32, cell: u32) {
    exists i :: 0 <= i < |routes| && routes[i].owner == role && routes[i].cellIndex == cell
  }

  predicate OneToOne(routes: seq<Route>) {
    forall i, j :: 0 <= i < |routes| && 0 <= j < |routes| && i != j ==>
      && (routes[i].target, routes[i].slotIndex) != (routes[j].target, routes[j].slotIndex)
      && (routes[i].owner, routes[i].cellIndex) != (routes[j].owner, routes[j].cellIndex)
  }

  lemma EverySlotRouted(regions: seq<RegionHeader>, routes: seq<Route>, r: nat, slot: u32)
    requires DistinctRoles(regions) && RoutesOk(regions, routes) && r < |regions| && slot < regions[r].slotCount
    ensures SlotRouted(routes, regions[r].role, slot)
  {
    assert SlotTable(regions)[r] == (regions[r].role, regions[r].slotCount);
    SlotsAreRouted(regions, routes, regions[r].role, slot);
    var i :| 0 <= i < |routes| && SlotKeys(routes)[i] == (regions[r].role, slot);
    assert routes[i].target == regions[r].role;
  }

  lemma EveryCellRouted(regions: seq<RegionHeader>, routes: seq<Route>, r: nat, cell: u32)
    requires DistinctRoles(regions) && RoutesOk(regions, routes) && r < |regions| && cell < regions[r].ackCount
    ensures CellRouted(routes, regions[r].role, cell)
  {
    assert CellTable(regions)[r] == (regions[r].role, regions[r].ackCount);
    CellsAreRouted(regions, routes, regions[r].role, cell);
    var i :| 0 <= i < |routes| && CellKeys(routes)[i] == (regions[r].role, cell);
    assert routes[i].owner == regions[r].role;
  }

  /** In an accepted topology the routes are a bijection between all slots and
      all cells, and each joins two regions written by opposite endpoints. */
  lemma RoutesAreBijection(regions: seq<RegionHeader>, routes: seq<Route>)
    requires DistinctRoles(regions) && RoutesOk(regions, routes)
    ensures forall r: nat, slot: u32 {:trigger SlotRouted(routes, regions[r].role, slot)} ::
              r < |regions| && slot < regions[r].slotCount ==> SlotRouted(routes, regions[r].role, slot)
    ensures forall r: nat, cell: u32 {:trigger CellRouted(routes, regions[r].role, cell)} ::
              r < |regions| && cell < regions[r].ackCount ==> CellRouted(routes, regions[r].role, cell)
    ensures OneToOne(routes)
    ensures forall i :: 0 <= i < |routes| ==> Opposite(regions, routes[i])
  {
    forall r: nat, slot: u32 {:trigger SlotRouted(routes, regions[r].role, slot)}
      | r < |regions| && slot < regions[r].slotCount
      ensures SlotRouted(routes, regions[r].role, slot)
    {
      EverySlotRouted(regions, routes, r, slot);
    }
    forall r: nat, cell: u32 {:trigger CellRouted(routes, regions[r].role, cell)}
      | r < |regions| && cell < regions[r].ackCount
      ensures CellRouted(routes, regions[r].role, cell)
    {
      EveryCellRouted(regions, routes, r, cell);
    }
    forall i | 0 <= i < |routes| ensures Opposite(regions, routes[i]) {
      assert Fits(regions, routes[i]);
      OppositeIfFits(regions, routes[i]);
    }
    NoClashIsOneToOne(routes);
  }

  lemma NoClashIsOneToOne(routes: seq<Route>)
    requires forall i, j :: 0 <= i < j < |routes| ==> !Clash(routes[j], routes[i])
    ensures OneToOne(routes)
  {
    forall i, j | 0 <= i < |routes| && 0 <= j < |routes| && i != j
      ensures (routes[i].target, routes[i].slotIndex) != (routes[j].target, routes[j].slotIndex)
      ensures (routes[i].owner, routes[i].cellIndex) != (routes[j].owner, routes[j].cellIndex)
    {
      assert i < j ==> !Clash(routes[j], routes[i]);
      assert j < i ==> !Clash(routes[i], routes[j]);
    }
  }

  /** Owner and target are regions of the set with different writers and indices in range. */
  predicate Opposite(regions: seq<RegionHeader>, route: Route) {
    exists o, t :: 0 <= o < |regions| && 0 <= t < |regions| && Joins(regions[o], regions[t], route)
  }

  predicate Joins(owner: RegionHeader, target: RegionHeader, route: Route) {
    && owner.role == route.owner && target.role == route.target && owner.writer != target.writer
    && route.slotIndex < target.slotCount && route.cellIndex < owner.ackCount
  }

  lemma OppositeIfFits(regions: seq<RegionHeader>, route: Route)
    requires Fits(regions, route)
    ensures Opposite(regions, route)
  {
    var o :| 0 <= o < |regions| && regions[o] == Find(regions, route.owner).value;
    var t :| 0 <= t < |regions| && regions[t] == Find(regions, route.target).value;
    assert Joins(regions[o], regions[t], route);
  }

  /** Every slot of every region is the target of a route. */
  ghost predicate SlotsCovered(regions: seq<RegionHeader>, routes: seq<Route>) {
    forall r: nat, slot: u32 {:trigger SlotRouted(routes, regions[r].role, slot)} ::
      r < |regions| && slot < regions[r].slotCount ==> SlotRouted(routes, regions[r].role, slot)
  }

  /** Every cell of every region is owned by a route. */
  ghost predicate CellsCovered(regions: seq<RegionHeader>, routes: seq<Route>) {
    forall r: nat, cell: u32 {:trigger CellRouted(routes, regions[r].role, cell)} ::
      r < |regions| && cell < regions[r].ackCount ==> CellRouted(routes, regions[r].role, cell)
  }

  lemma FitsIfOpposite(regions: seq<RegionHeader>, route: Route)
    requires DistinctRoles(regions) && Opposite(regions, route)
    ensures Fits(regions, route)
  {
    var o, t :| 0 <= o < |regions| && 0 <= t < |regions| && Joins(regions[o], regions[t], route);
    FindUnique(regions, o);
    FindUnique(regions, t);
  }

  lemma SlotKeysAreTable(regions: seq<RegionHeader>, routes: seq<Route>, key: Key)
    requires DistinctRoles(regions) && SlotsCovered(regions, routes)
    requires forall i :: 0 <= i < |routes| ==> Opposite(regions, routes[i])
    ensures InTable(SlotTable(regions), key) <==> key in SlotKeys(routes)
  {
    if InTable(SlotTable(regions), key) {
      var r :| 0 <= r < |regions| && SlotTable(regions)[r].0 == key.0 && 0 <= key.1 < SlotTable(regions)[r].1;
      assert SlotRouted(routes, regions[r].role, key.1);
      var i :| 0 <= i < |routes| && routes[i].target == regions[r].role && routes[i].slotIndex == key.1;
      assert SlotKeys(routes)[i] == key;
    }
    if key in SlotKeys(routes) {
      var i :| 0 <= i < |routes| && SlotKeys(routes)[i] == key;
      FitsIfOpposite(regions, routes[i]);
      FoundSlotInTable(regions, routes[i].target, routes[i].slotIndex);
    }
  }

  lemma CellKeysAreTable(regions: seq<RegionHeader>, routes: seq<Route>, key: Key)
    requires DistinctRoles(regions) && CellsCovered(regions, routes)
    requires forall i :: 0 <= i < |routes| ==> Opposite(regions, routes[i])
    ensures InTable(CellTable(regions), key) <==> key in CellKeys(routes)
  {
    if InTable(CellTable(regions), key) {
      var r :| 0 <= r < |regions| && CellTable(regions)[r].0 == key.0 && 0 <= key.1 < CellTable(regions)[r].1;
      assert CellRouted(routes, regions[r].role, key.1);
      var i :| 0 <= i < |routes| && routes[i].owner == regions[r].role && routes[i].cellIndex == key.1;
      assert CellKeys(routes)[i] == key;
    }
    if key in CellKeys(routes) {
      var i :| 0 <= i < |routes| && CellKeys(routes)[i] == key;
      FitsIfOpposite(regions, routes[i]);
      FoundSlotInTable(regions, routes[i].owner, routes[i].cellIndex);
    }
  }

  lemma BijectionIsAccepted(regions: seq<RegionHeader>, routes: seq<Route>)
    requires DistinctRoles(regions) && SlotsCovered(regions, routes) && CellsCovered(regions, routes)
    requires OneToOne(routes) && forall i :: 0 <= i < |routes| ==> Opposite(regions, routes[i])
    ensures RoutesOk(regions, routes)
  {
    forall key: Key ensures InTable(SlotTable(regions), key) <==> key in SlotKeys(routes) {
      SlotKeysAreTable(regions, routes, key);
    }
    forall key: Key ensures InTable(CellTable(regions), key) <==> key in CellKeys(routes) {
      CellKeysAreTable(regions, routes, key);
    }
    SameKeysCount(SlotTable(regions), SlotKeys(routes));
    SameKeysCount(CellTable(regions), CellKeys(routes));
    forall i | 0 <= i < |routes| ensures Fits(regions, routes[i]) {
      FitsIfOpposite(regions, routes[i]);
    }
  }

  /** Over regions with distinct roles exactly these lists of routes are
      accepted: each route joins two regions of opposite writers, no slot and no
      cell is named twice, and every slot and every cell is named. */
  lemma RoutesAcceptedExactly(regions: seq<RegionHeader>, routes: seq<Route>)
    requires DistinctRoles(regions)
    ensures RoutesOk(regions, routes) <==>
            && (forall i :: 0 <= i < |routes| ==> Opposite(regions, routes[i])) && OneToOne(routes)
            && SlotsCovered(regions, routes) && CellsCovered(regions, routes)
  {
    if RoutesOk(regions, routes) {
      RoutesAreBijection(regions, routes);
    } else if SlotsCovered(regions, routes) && CellsCovered(regions, routes) && OneToOne(routes)
              && forall i :: 0 <= i < |routes| ==> Opposite(regions, routes[i]) {
      BijectionIsAccepted(regions, routes);
    }
  }

  // ----- the validating loop -----

  method HasClash(routes: seq<Route>, spec: Route) returns (found: bool)
    ensures found <==> exists i :: 0 <= i < |routes| && Clash(spec, routes[i])
  {
    for i := 0 to |routes|
      invariant forall k :: 0 <= k < i ==> !Clash(spec, routes[k])
    {
      if Clash(spec, routes[i]) {
        return true;
      }
    }
    return false;
  }

  method CountTable(table: seq<Row>) returns (total: Option<nat>)
    ensures total == if Total(table) <= U64_MAX then Some(Total(table)) else None
  {
    var sum := 0;
    for i := 0 to |table|
      invariant sum == Total(table[..i]) <= U64_MAX
    {
      assert table[..i + 1][..i] == table[..i];
      TotalGrows(table, i + 1);
      if sum + table[i].1 > U64_MAX {
        return None;
      }
      sum := sum + table[i].1;
    }
    assert table[..|table|] == table;
    return Some(sum);
  }

  lemma {:induction false} TotalGrows(table: seq<Row>, n: nat)
    requires n <= |table|
    ensures Total(table[..n]) <= Total(table)
    decreases |table|
  {
    if n == |table| {
      assert table[..n] == table;
    } else {
      var m := |table| - 1;
      TotalGrows(table[..m], n);
      assert table[..m][..n] == table[..n];
    }
  }

  /** The first `k` routes fit and do not clash. */
  ghost predicate SoundUpTo(regions: seq<RegionHeader>, routes: seq<Route>, k: nat) {
    && k <= |routes| && (forall i :: 0 <= i < k ==> Fits(regions, routes[i]))
    && (forall i, j :: 0 <= i < j < k ==> !Clash(routes[j], routes[i]))
  }

  lemma SoundGrows(regions: seq<RegionHeader>, routes: seq<Route>, k: nat)
    requires SoundUpTo(regions, routes, k) && k < |routes| && Fits(regions, routes[k])
    requires forall i :: 0 <= i < k ==> !Clash(routes[k], routes[i])
    ensures SoundUpTo(regions, routes, k + 1)
  {
  }

  /** Route `k` is the first one that is wrong, and `error` says how. */
  ghost predicate FirstWrong(regions: seq<RegionHeader>, routes: seq<Route>, k: nat, error: LayoutError) {
    && k < |routes| && SoundUpTo(regions, routes, k)
    && if !Fits(regions, routes[k]) then error == InvalidAcknowledgementRoute
       else error == DuplicateAcknowledgementRoute && exists i :: 0 <= i < k && Clash(routes[k], routes[i])
  }

  /** Why a list of routes is refused: its count cannot be, its count is wrong, or its first wrong route. */
  ghost predicate RouteFault(regions: seq<RegionHeader>, routes: seq<Route>, error: LayoutError) {
    if Total(SlotTable(regions)) > U64_MAX || Total(CellTable(regions)) > U64_MAX then error == Overflow
    else if |routes| != Total(SlotTable(regions)) || |routes| != Total(CellTable(regions))
    then error == IncompleteAcknowledgementRoutes
    else exists k :: FirstWrong(regions, routes, k, error)
  }

  /** `validate_routes` accepts exactly the complete, fitting, clash-free route
      lists, and otherwise reports the first thing wrong. */
  method ValidateRoutes(regions: seq<RegionHeader>, specs: seq<Route>) returns (r: Result<seq<Route>, LayoutError>)
    requires |specs| <= U64_MAX
    ensures r.Ok? <==> RoutesOk(regions, specs)
    ensures r.Ok? ==> r.value == specs
    ensures r.Err? ==> RouteFault(regions, specs, r.error)
  {
    var totalSlots := CountTable(SlotTable(regions));
    var totalCells := CountTable(CellTable(regions));
    if totalSlots.None? || totalCells.None? {
      return Err(Overflow);
    }
    if |specs| != totalSlots.value || |specs| != totalCells.value {
      return Err(IncompleteAcknowledgementRoutes);
    }
    var routes: seq<Route> := [];
    for i := 0 to |specs|
      invariant routes == specs[..i] && SoundUpTo(regions, specs, i)
    {
      if !Fits(regions, specs[i]) {
        assert FirstWrong(regions, specs, i, InvalidAcknowledgementRoute);
        return Err(InvalidAcknowledgementRoute);
      }
      var clash := HasClash(routes, specs[i]);
      assert forall k :: 0 <= k < i ==> routes[k] == specs[k];
      if clash {
        ghost var k :| 0 <= k < |routes| && Clash(specs[i], routes[k]);
        assert Clash(specs[i], specs[k]);
        assert FirstWrong(regions, specs, i, DuplicateAcknowledgementRoute);
        return Err(DuplicateAcknowledgementRoute);
      }
      SoundGrows(regions, specs, i);
      routes := routes + [specs[i]];
    }
    return Ok(routes);
  }
}
