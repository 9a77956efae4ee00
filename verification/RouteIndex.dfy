/** The sorted route index, its binary search, and whole region sets. */
module RouteIndex {
  import opened Machine
  import opened Wire
  import opened Layout
  import opened Routes
  import Slots

  function KeyOf(route: Route): Key {
    (route.target, route.slotIndex)
  }

  predicate Less(a: Key, b: Key) {
    a.0 < b.0 || (a.0 == b.0 && a.1 < b.1)
  }

  /** The reference: the first route with the key, in the order given. */
  function LinearRoute(routes: seq<Route>, key: Key): (r: Option<Route>)
    ensures r.Some? ==> r.value in routes && KeyOf(r.value) == key
    ensures r.None? ==> forall i :: 0 <= i < |routes| ==> KeyOf(routes[i]) != key
  {
    if routes == [] then None
    else if KeyOf(routes[0]) == key then Some(routes[0])
    else LinearRoute(routes[1..], key)
  }

  predicate Sorted(routes: seq<Route>, lookup: seq<nat>)
    requires forall k :: 0 <= k < |lookup| ==> lookup[k] < |routes|
  {
    forall a, b :: 0 <= a < b < |lookup| ==> !Less(KeyOf(routes[lookup[b]]), KeyOf(routes[lookup[a]]))
  }

  /** Every position of `0..n` is listed, in key order. */
  predicate IsIndex(routes: seq<Route>, lookup: seq<nat>, n: nat) {
    && |lookup| == n <= |routes|
    && (forall k :: 0 <= k < |lookup| ==> lookup[k] < n)
    && (forall i: nat :: i < n ==> i in lookup)
    && Sorted(routes, lookup)
  }

  lemma InsertKeepsIndex(routes: seq<Route>, lookup: seq<nat>, n: nat, pos: nat)
    requires n < |routes| && IsIndex(routes, lookup, n) && pos <= n
    requires forall k :: 0 <= k < pos ==> !Less(KeyOf(routes[n]), KeyOf(routes[lookup[k]]))
    requires forall k :: pos <= k < n ==> Less(KeyOf(routes[n]), KeyOf(routes[lookup[k]]))
    ensures IsIndex(routes, lookup[..pos] + [n] + lookup[pos..], n + 1)
  {
    var r := lookup[..pos] + [n] + lookup[pos..];
    assert r[pos] == n;
    forall i: nat | i < n + 1 ensures i in r {
      if i < n {
        assert i in lookup;
        var k :| 0 <= k < |lookup| && lookup[k] == i;
        assert r[if k < pos then k else k + 1] == i;
      }
    }
    forall a, b | 0 <= a < b < |r| ensures !Less(KeyOf(routes[r[b]]), KeyOf(routes[r[a]])) {
      var a', b' := if a < pos then a else a - 1, if b < pos then b else b - 1;
      if a != pos && b != pos {
        assert r[a] == lookup[a'] && r[b] == lookup[b'] && a' < b';
      } else if a == pos {
        assert r[b] == lookup[b'] && pos <= b';
      } else {
        assert r[a] == lookup[a'] && a' < pos;
      }
    }
  }

  /** `build_route_lookup`: the positions sorted by target and slot. */
  method BuildRouteLookup(routes: seq<Route>) returns (lookup: seq<nat>)
    ensures IsIndex(routes, lookup, |routes|)
  {
    lookup := [];
    for n := 0 to |routes|
      invariant IsIndex(routes, lookup, n)
    {
      var pos := n;
      while pos > 0 && Less(KeyOf(routes[n]), KeyOf(routes[lookup[pos - 1]]))
        invariant 0 <= pos <= n
        invariant forall k :: pos <= k < n ==> Less(KeyOf(routes[n]), KeyOf(routes[lookup[k]]))
      {
        pos := pos - 1;
      }
      PrefixNotAbove(routes, lookup, n, pos);
      InsertKeepsIndex(routes, lookup, n, pos);
      lookup := lookup[..pos] + [n] + lookup[pos..];
    }
  }

  lemma PrefixNotAbove(routes: seq<Route>, lookup: seq<nat>, n: nat, pos: nat)
    requires n < |routes| && IsIndex(routes, lookup, n) && pos <= n
    requires pos > 0 ==> !Less(KeyOf(routes[n]), KeyOf(routes[lookup[pos - 1]]))
    ensures forall k :: 0 <= k < pos ==> !Less(KeyOf(routes[n]), KeyOf(routes[lookup[k]]))
  {
    forall k | 0 <= k < pos ensures !Less(KeyOf(routes[n]), KeyOf(routes[lookup[k]])) {
      if k < pos - 1 {
        assert !Less(KeyOf(routes[lookup[pos - 1]]), KeyOf(routes[lookup[k]]));
      }
    }
  }

  /** The binary search finds exactly what the linear scan finds. */
  method AcknowledgementRoute(routes: seq<Route>, lookup: seq<nat>, target: u32, slot: u32) returns (r: Option<Route>)
    requires IsIndex(routes, lookup, |routes|) && OneToOne(routes)
    ensures r == LinearRoute(routes, (target, slot))
  {
    var key := (target, slot);
    var lo, hi := 0, |lookup|;
    while lo < hi
      invariant 0 <= lo <= hi <= |lookup|
      invariant forall k :: 0 <= k < lo ==> Less(KeyOf(routes[lookup[k]]), key)
      invariant forall k :: hi <= k < |lookup| ==> Less(key, KeyOf(routes[lookup[k]]))
    {
      var mid := (lo + hi) / 2;
      var at := KeyOf(routes[lookup[mid]]);
      if at == key {
        FoundIsLinear(routes, lookup[mid], key);
        return Some(routes[lookup[mid]]);
      } else if Less(at, key) {
        BelowMid(routes, lookup, mid, key);
        lo := mid + 1;
      } else {
        AboveMid(routes, lookup, mid, key);
        hi := mid;
      }
    }
    MissingIsLinear(routes, lookup, key, lo);
    return None;
  }

  lemma BelowMid(routes: seq<Route>, lookup: seq<nat>, mid: nat, key: Key)
    requires IsIndex(routes, lookup, |routes|) && mid < |lookup| && Less(KeyOf(routes[lookup[mid]]), key)
    ensures forall k :: 0 <= k <= mid ==> Less(KeyOf(routes[lookup[k]]), key)
  {
    forall k | 0 <= k < mid ensures Less(KeyOf(routes[lookup[k]]), key) {
      assert !Less(KeyOf(routes[lookup[mid]]), KeyOf(routes[lookup[k]]));
    }
  }

  lemma AboveMid(routes: seq<Route>, lookup: seq<nat>, mid: nat, key: Key)
    requires IsIndex(routes, lookup, |routes|) && mid < |lookup| && Less(key, KeyOf(routes[lookup[mid]]))
    ensures forall k :: mid <= k < |lookup| ==> Less(key, KeyOf(routes[lookup[k]]))
  {
    forall k | mid < k < |lookup| ensures Less(key, KeyOf(routes[lookup[k]])) {
      assert !Less(KeyOf(routes[lookup[k]]), KeyOf(routes[lookup[mid]]));
    }
  }

  lemma FoundIsLinear(routes: seq<Route>, i: nat, key: Key)
    requires OneToOne(routes) && i < |routes| && KeyOf(routes[i]) == key
    ensures LinearRoute(routes, key) == Some(routes[i])
  {
    var r := LinearRoute(routes, key);
    if r.Some? {
      var j :| 0 <= j < |routes| && routes[j] == r.value;
      assert j == i;
    }
  }

  lemma MissingIsLinear(routes: seq<Route>, lookup: seq<nat>, key: Key, at: nat)
    requires IsIndex(routes, lookup, |routes|) && at <= |lookup|
    requires forall k :: 0 <= k < at ==> Less(KeyOf(routes[lookup[k]]), key)
    requires forall k :: at <= k < |lookup| ==> Less(key, KeyOf(routes[lookup[k]]))
    ensures LinearRoute(routes, key) == None
  {
    forall i: nat | i < |routes| ensures KeyOf(routes[i]) != key {
      assert i in lookup;
      var k :| 0 <= k < |lookup| && lookup[k] == i;
    }
  }

  /** A route exists for every in-range slot of every region, so binding an
      in-range writer slot never reports a missing route. */
  lemma LookupIsTotal(regions: seq<RegionHeader>, routes: seq<Route>, r: nat, slot: u32)
    requires DistinctRoles(regions) && RoutesOk(regions, routes) && r < |regions|
    ensures LinearRoute(routes, (regions[r].role, slot)).Some? <==> slot < regions[r].slotCount
  {
    if slot < regions[r].slotCount {
      EverySlotRouted(regions, routes, r, slot);
      var i :| 0 <= i < |routes| && routes[i].target == regions[r].role && routes[i].slotIndex == slot;
      assert KeyOf(routes[i]) == (regions[r].role, slot);
    } else if LinearRoute(routes, (regions[r].role, slot)).Some? {
      var route := LinearRoute(routes, (regions[r].role, slot)).value;
      var i :| 0 <= i < |routes| && routes[i] == route;
      assert Fits(regions, routes[i]);
      FindUnique(regions, r);
    }
  }

  // ----- region sets -----

  datatype RegionSet = RegionSet(regions: seq<RegionHeader>, routes: seq<Route>, lookup: seq<nat>)

  predicate DistinctSpecs(specs: seq<RegionSpec>) {
    forall i, j :: 0 <= i < j < |specs| ==> specs[i].role != specs[j].role
  }

  function Headers(schemaId: Bytes32, generation: u64, specs: seq<RegionSpec>, limits: LayoutLimits)
    : (r: seq<RegionHeader>)
    requires forall i :: 0 <= i < |specs| ==> CalculateRegion(schemaId, generation, specs[i], limits).Ok?
    ensures |r| == |specs|
  {
    seq(|specs|, i requires 0 <= i < |specs| => CalculateRegion(schemaId, generation, specs[i], limits).value)
  }

  predicate Accepted(schemaId: Bytes32, generation: u64, specs: seq<RegionSpec>, routes: seq<Route>,
                     limits: LayoutLimits)
  {
    && generation != 0 && specs != [] && DistinctSpecs(specs)
    && (forall i :: 0 <= i < |specs| ==> CalculateRegion(schemaId, generation, specs[i], limits).Ok?)
    && RoutesOk(Headers(schemaId, generation, specs, limits), routes)
  }

  method HasRole(specs: seq<RegionSpec>, n: nat, role: RoleId) returns (found: bool)
    requires n <= |specs|
    ensures found <==> exists i :: 0 <= i < n && specs[i].role == role
  {
    for i := 0 to n
      invariant forall k :: 0 <= k < i ==> specs[k].role != role
    {
      if specs[i].role == role {
        return true;
      }
    }
    return false;
  }

  /** Specification `k` is the first whose role repeats or whose layout cannot be calculated. */
  ghost predicate FirstRefused(schemaId: Bytes32, generation: u64, specs: seq<RegionSpec>, limits: LayoutLimits, k: nat,
                               error: LayoutError)
  {
    && k < |specs| && DistinctSpecs(specs[..k])
    && (forall i :: 0 <= i < k ==> CalculateRegion(schemaId, generation, specs[i], limits).Ok?)
    && if exists i :: 0 <= i < k && specs[i].role == specs[k].role then error == DuplicateRole(specs[k].role)
       else CalculateRegion(schemaId, generation, specs[k], limits) == Err(error)
  }

  method CalculateRegions(schemaId: Bytes32, generation: u64, specs: seq<RegionSpec>, limits: LayoutLimits)
    returns (r: Result<seq<RegionHeader>, LayoutError>)
    ensures r.Ok? <==> DistinctSpecs(specs)
                       && forall i :: 0 <= i < |specs| ==> CalculateRegion(schemaId, generation, specs[i], limits).Ok?
    ensures r.Ok? ==> r.value == Headers(schemaId, generation, specs, limits)
    ensures r.Err? ==> exists k :: FirstRefused(schemaId, generation, specs, limits, k, r.error)
  {
    var regions: seq<RegionHeader> := [];
    for i := 0 to |specs|
      invariant |regions| == i && DistinctSpecs(specs[..i])
      invariant forall k :: 0 <= k < i ==> CalculateRegion(schemaId, generation, specs[k], limits) == Ok(regions[k])
    {
      var duplicate := HasRole(specs, i, specs[i].role);
      if duplicate {
        assert FirstRefused(schemaId, generation, specs, limits, i, DuplicateRole(specs[i].role));
        return Err(DuplicateRole(specs[i].role));
      }
      var region := CalculateRegion(schemaId, generation, specs[i], limits);
      if region.Err? {
        assert FirstRefused(schemaId, generation, specs, limits, i, region.error);
        return Err(region.error);
      }
      regions := regions + [region.value];
    }
    assert specs[..|specs|] == specs;
    return Ok(regions);
  }

  /** Why a set is refused, in the order the code looks. */
  ghost predicate SetFault(schemaId: Bytes32, generation: u64, specs: seq<RegionSpec>, routes: seq<Route>,
                           limits: LayoutLimits, error: LayoutError)
  {
    if generation == 0 then error == ZeroGeneration
    else if specs == [] then error == EmptyRegionSet
    else if DistinctSpecs(specs)
            && forall i :: 0 <= i < |specs| ==> CalculateRegion(schemaId, generation, specs[i], limits).Ok?
    then RouteFault(Headers(schemaId, generation, specs, limits), routes, error)
    else exists k :: FirstRefused(schemaId, generation, specs, limits, k, error)
  }

  /** `RegionSetLayout::calculate` accepts exactly the admissible specifications. */
  method CalculateSet(schemaId: Bytes32, generation: u64, specs: seq<RegionSpec>, routeSpecs: seq<Route>,
                      limits: LayoutLimits) returns (r: Result<RegionSet, LayoutError>)
    requires |routeSpecs| <= U64_MAX
    ensures r.Ok? <==> Accepted(schemaId, generation, specs, routeSpecs, limits)
    ensures r.Ok? ==> r.value.regions == Headers(schemaId, generation, specs, limits) && r.value.routes == routeSpecs
    ensures r.Ok? ==> IsIndex(routeSpecs, r.value.lookup, |routeSpecs|)
    ensures r.Err? ==> SetFault(schemaId, generation, specs, routeSpecs, limits, r.error)
  {
    if generation == 0 {
      return Err(ZeroGeneration);
    }
    if specs == [] {
      return Err(EmptyRegionSet);
    }
    var regions := CalculateRegions(schemaId, generation, specs, limits);
    if regions.Err? {
      return Err(regions.error);
    }
    var routes := ValidateRoutes(regions.value, routeSpecs);
    if routes.Err? {
      return Err(routes.error);
    }
    var lookup := BuildRouteLookup(routes.value);
    return Ok(RegionSet(regions.value, routes.value, lookup));
  }

  /** Every header of an accepted set is sized, and no two share a role. */
  lemma AcceptedIsSized(schemaId: Bytes32, generation: u64, specs: seq<RegionSpec>, routes: seq<Route>,
                        limits: LayoutLimits)
    requires Accepted(schemaId, generation, specs, routes, limits)
    ensures var regions := Headers(schemaId, generation, specs, limits);
            DistinctRoles(regions) && forall i :: 0 <= i < |regions| ==> Sized(regions[i])
  {
    forall i | 0 <= i < |specs|
      ensures Sized(Headers(schemaId, generation, specs, limits)[i])
              && Headers(schemaId, generation, specs, limits)[i].role == specs[i].role
    {
      CalculatesExactly(schemaId, generation, specs[i], limits);
    }
  }

  // ----- binding a writer slot -----

  /** The binding carries the slot's own route: its cell is named by the one
      route that targets this slot. */
  ghost predicate BoundBy(h: RegionHeader, slot: u32, b: Slots.WriterBinding, route: Route) {
    && b.slot == Slots.SlotBinding(h.role, h.generation, h.payloadCapacity, slot, h.slotCount)
    && b.ackOwner == route.owner && b.ackCell == route.cellIndex
    && route.target == h.role && route.slotIndex == slot
  }

  /** Binding succeeds for every in-range slot and for no other; the missing
      route branch is dead. */
  method BindWriterSlot(topology: RegionSet, r: nat, slot: u32) returns (b: Option<Slots.WriterBinding>)
    requires DistinctRoles(topology.regions) && RoutesOk(topology.regions, topology.routes) && r < |topology.regions|
    requires IsIndex(topology.routes, topology.lookup, |topology.routes|)
    ensures b.Some? <==> slot < topology.regions[r].slotCount
    ensures b.Some? ==>
              && Slots.ValidBinding(b.value.slot)
              && exists i ::
                   0 <= i < |topology.routes| && BoundBy(topology.regions[r], slot, b.value, topology.routes[i])
  {
    var h := topology.regions[r];
    NoClashIsOneToOne(topology.routes);
    LookupIsTotal(topology.regions, topology.routes, r, slot);
    var route := AcknowledgementRoute(topology.routes, topology.lookup, h.role, slot);
    match route
    case None => return None;
    case Some(found) =>
      var binding := Slots.WriterBinding(
        Slots.SlotBinding(h.role, h.generation, h.payloadCapacity, found.slotIndex, h.slotCount),
        found.owner, found.cellIndex);
      ghost var i :| 0 <= i < |topology.routes| && topology.routes[i] == found;
      assert BoundBy(h, slot, binding, topology.routes[i]);
      return Some(binding);
  }
}
