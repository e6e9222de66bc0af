/** The network model of transport_catalogue.cpp: append-only registries of
    stops and buses, a directed distance table with reverse-direction and
    geodesic fallback, the stop -> bus-names secondary index, and the per-bus
    aggregate.  A stop or bus "pointer" of the source is its index in the
    registry; since stops are never removed, an index stays valid forever. */
module Catalogue {
  import opened Wrappers

  datatype Coordinates = Coordinates(lat: real, lng: real)

  /** The great-circle distance of geo.h, which is not part of this model:
      any real-valued function of two coordinates. */
  type Geodesic = (Coordinates, Coordinates) -> real

  datatype Stop = Stop(name: string, coordinates: Coordinates)

  /** `stops` holds indices into the stop registry, in route order. */
  datatype Bus = Bus(name: string, stops: seq<nat>, isCircle: bool)

  datatype BusInfo = BusInfo(totalStops: nat, uniqueStops: nat, length: int, curvature: real)

  datatype TransportCatalogue = TransportCatalogue(
    stops: seq<Stop>,
    stopIndex: map<string, nat>,
    buses: seq<Bus>,
    busIndex: map<string, nat>,
    stopToBus: map<string, set<string>>,
    distances: map<(nat, nat), int>)

  const Empty := TransportCatalogue([], map[], [], map[], map[], map[])

  /* ---------------------------------------------------------------------
     The invariant every catalogue built from Empty keeps.
     --------------------------------------------------------------------- */

  /** Some bus lists stop `i`. */
  ghost predicate Served(c: TransportCatalogue, i: nat) {
    exists j :: 0 <= j < |c.buses| && i in c.buses[j].stops
  }

  /** Some bus named `b` lists stop `i`. */
  ghost predicate ServedBy(c: TransportCatalogue, b: string, i: nat) {
    exists j :: 0 <= j < |c.buses| && c.buses[j].name == b && i in c.buses[j].stops
  }

  ghost predicate StopsIndexed(c: TransportCatalogue) {
    && (forall i :: 0 <= i < |c.stops| ==>
          c.stops[i].name in c.stopIndex && c.stopIndex[c.stops[i].name] == i)
    && (forall n :: n in c.stopIndex ==>
          c.stopIndex[n] < |c.stops| && c.stops[c.stopIndex[n]].name == n)
  }

  ghost predicate BusStopsKnown(c: TransportCatalogue) {
    forall j, k :: 0 <= j < |c.buses| && 0 <= k < |c.buses[j].stops| ==> c.buses[j].stops[k] < |c.stops|
  }

  /** The name index points at the most recently added bus of that name. */
  ghost predicate BusesIndexed(c: TransportCatalogue) {
    && (forall n :: n in c.busIndex ==>
          && c.busIndex[n] < |c.buses|
          && c.buses[c.busIndex[n]].name == n
          && (forall j :: c.busIndex[n] < j < |c.buses| ==> c.buses[j].name != n))
    && (forall j :: 0 <= j < |c.buses| ==> c.buses[j].name in c.busIndex)
  }

  /** stopToBus is exactly the inverse of the buses' stop lists. */
  ghost predicate StopToBusExact(c: TransportCatalogue) {
    && (forall n :: n in c.stopToBus ==> n in c.stopIndex)
    && (forall i :: 0 <= i < |c.stops| ==> (c.stops[i].name in c.stopToBus <==> Served(c, i)))
    && (forall i, b :: 0 <= i < |c.stops| && c.stops[i].name in c.stopToBus ==>
          (b in c.stopToBus[c.stops[i].name] <==> ServedBy(c, b, i)))
  }

  ghost predicate Valid(c: TransportCatalogue) {
    StopsIndexed(c) && BusStopsKnown(c) && BusesIndexed(c) && StopToBusExact(c)
  }

  lemma EmptyValid()
    ensures Valid(Empty)
  {
  }

  /* ---------------------------------------------------------------------
     Lookups (transport_catalogue.cpp:49-57)
     --------------------------------------------------------------------- */

  function FindStop(c: TransportCatalogue, name: string): (r: Option<nat>)
    ensures Valid(c) ==> (r.Some? <==> exists i :: 0 <= i < |c.stops| && c.stops[i].name == name)
    ensures Valid(c) && r.Some? ==> r.value < |c.stops| && c.stops[r.value].name == name
  {
    if name in c.stopIndex then Some(c.stopIndex[name]) else None
  }

  function FindBus(c: TransportCatalogue, name: string): (r: Option<Bus>)
    ensures Valid(c) ==> (r.Some? <==> exists j :: 0 <= j < |c.buses| && c.buses[j].name == name)
    ensures Valid(c) && r.Some? ==> r.value.name == name && r.value in c.buses
  {
    if name in c.busIndex && c.busIndex[name] < |c.buses| then Some(c.buses[c.busIndex[name]]) else None
  }

  function GetAllBuses(c: TransportCatalogue): seq<Bus> {
    c.buses
  }

  function GetAllStops(c: TransportCatalogue): seq<Stop> {
    c.stops
  }

  /* ---------------------------------------------------------------------
     AddStop (transport_catalogue.cpp:18-30)
     --------------------------------------------------------------------- */

  function AddStop(c: TransportCatalogue, name: string, coordinates: Coordinates): (r: TransportCatalogue)
    ensures name in c.stopIndex ==> r == c
    ensures name !in c.stopIndex ==>
      && r.stops == c.stops + [Stop(name, coordinates)]
      && FindStop(r, name) == Some(|c.stops|)
      && (forall n :: n != name ==> FindStop(r, n) == FindStop(c, n))
      && r.buses == c.buses && r.busIndex == c.busIndex
      && r.stopToBus == c.stopToBus && r.distances == c.distances
  {
    if name in c.stopIndex then c
    else c.(stops := c.stops + [Stop(name, coordinates)], stopIndex := c.stopIndex[name := |c.stops|])
  }

  lemma {:induction false} AddStopKeepsValid(c: TransportCatalogue, name: string, coordinates: Coordinates)
    requires Valid(c)
    ensures Valid(AddStop(c, name, coordinates))
  {
    var r := AddStop(c, name, coordinates);
    if name !in c.stopIndex {
      assert StopsIndexed(r);
      assert BusStopsKnown(r);
      forall i | 0 <= i < |r.stops|
        ensures r.stops[i].name in r.stopToBus <==> Served(r, i)
      {
        if i < |c.stops| {
          assert r.stops[i] == c.stops[i];
          assert Served(r, i) <==> Served(c, i);
        }
      }
      forall i, b | 0 <= i < |r.stops| && r.stops[i].name in r.stopToBus
        ensures b in r.stopToBus[r.stops[i].name] <==> ServedBy(r, b, i)
      {
        assert i < |c.stops|;
        assert r.stops[i] == c.stops[i];
        assert ServedBy(r, b, i) <==> ServedBy(c, b, i);
      }
    }
  }

  /* ---------------------------------------------------------------------
     AddBus (transport_catalogue.cpp:32-47)
     --------------------------------------------------------------------- */

  /** The registered names among `names`, in input order. */
  function KnownNames(stopIndex: map<string, nat>, names: seq<string>): (r: seq<string>)
    ensures forall n :: n in r <==> n in names && n in stopIndex
  {
    if names == [] then []
    else (if names[0] in stopIndex then [names[0]] else []) + KnownNames(stopIndex, names[1..])
  }

  /** The stop indices of the registered names among `names`, in input order. */
  function KeptStops(stopIndex: map<string, nat>, names: seq<string>): seq<nat> {
    if names == [] then []
    else (if names[0] in stopIndex then [stopIndex[names[0]]] else []) + KeptStops(stopIndex, names[1..])
  }

  function Lookup(index: map<string, set<string>>, n: string): set<string> {
    if n in index then index[n] else {}
  }

  /** The loop of AddBus over the requested stop names: a registered name is
      appended to the bus and the bus name joins that stop's set; an unknown
      name is skipped. */
  function ResolveStops(c: TransportCatalogue, busName: string, names: seq<string>,
                        kept: seq<nat>, index: map<string, set<string>>)
    : (seq<nat>, map<string, set<string>>)
    decreases |names|
  {
    if names == [] then (kept, index)
    else if names[0] in c.stopIndex then
      ResolveStops(c, busName, names[1..], kept + [c.stopIndex[names[0]]],
                   index[names[0] := Lookup(index, names[0]) + {busName}])
    else ResolveStops(c, busName, names[1..], kept, index)
  }

  lemma {:induction false} ResolveStopsKeeps(c: TransportCatalogue, busName: string, names: seq<string>,
                                             kept: seq<nat>, index: map<string, set<string>>)
    ensures ResolveStops(c, busName, names, kept, index).0 == kept + KeptStops(c.stopIndex, names)
    decreases |names|
  {
    if names != [] {
      var name := names[0];
      if name in c.stopIndex {
        ResolveStopsKeeps(c, busName, names[1..], kept + [c.stopIndex[name]],
                          index[name := Lookup(index, name) + {busName}]);
        assert kept + [c.stopIndex[name]] + KeptStops(c.stopIndex, names[1..])
            == kept + ([c.stopIndex[name]] + KeptStops(c.stopIndex, names[1..]));
      } else {
        ResolveStopsKeeps(c, busName, names[1..], kept, index);
      }
    }
  }

  lemma {:induction false} ResolveStopsIndexes(c: TransportCatalogue, busName: string, names: seq<string>,
                                               kept: seq<nat>, index: map<string, set<string>>)
    ensures forall n :: Lookup(ResolveStops(c, busName, names, kept, index).1, n)
                        == Lookup(index, n) + (if n in names && n in c.stopIndex then {busName} else {})
    ensures forall n :: n in ResolveStops(c, busName, names, kept, index).1
                        <==> n in index || (n in names && n in c.stopIndex)
    decreases |names|
  {
    if names != [] {
      var name := names[0];
      assert forall n :: n in names <==> n == name || n in names[1..];
      if name in c.stopIndex {
        ResolveStopsIndexes(c, busName, names[1..], kept + [c.stopIndex[name]],
                            index[name := Lookup(index, name) + {busName}]);
      } else {
        ResolveStopsIndexes(c, busName, names[1..], kept, index);
      }
    }
  }

  /** AddBus keeps exactly the registered stop names, in input order. */
  lemma {:induction false} KeptStopsAreKnownNames(c: TransportCatalogue, names: seq<string>)
    requires StopsIndexed(c)
    ensures |KeptStops(c.stopIndex, names)| == |KnownNames(c.stopIndex, names)|
    ensures forall k :: 0 <= k < |KeptStops(c.stopIndex, names)| ==>
      KeptStops(c.stopIndex, names)[k] < |c.stops|
      && c.stops[KeptStops(c.stopIndex, names)[k]].name == KnownNames(c.stopIndex, names)[k]
  {
    if names != [] {
      KeptStopsAreKnownNames(c, names[1..]);
      var kept, known := KeptStops(c.stopIndex, names[1..]), KnownNames(c.stopIndex, names[1..]);
      if names[0] in c.stopIndex {
        assert KeptStops(c.stopIndex, names) == [c.stopIndex[names[0]]] + kept;
        assert KnownNames(c.stopIndex, names) == [names[0]] + known;
        KeptKnownCons(c, names[0], kept, known);
      } else {
        assert KeptStops(c.stopIndex, names) == kept;
        assert KnownNames(c.stopIndex, names) == known;
      }
    }
  }

  /** A registered name in front keeps its stop's index in front. */
  lemma {:induction false} KeptKnownCons(c: TransportCatalogue, n: string, kept: seq<nat>, known: seq<string>)
    requires StopsIndexed(c) && n in c.stopIndex && |kept| == |known|
    requires forall k :: 0 <= k < |kept| ==> kept[k] < |c.stops| && c.stops[kept[k]].name == known[k]
    ensures forall k :: 0 <= k < |kept| + 1 ==>
      ([c.stopIndex[n]] + kept)[k] < |c.stops| && c.stops[([c.stopIndex[n]] + kept)[k]].name == ([n] + known)[k]
  {
    forall k | 0 <= k < |kept| + 1
      ensures ([c.stopIndex[n]] + kept)[k] < |c.stops| && c.stops[([c.stopIndex[n]] + kept)[k]].name == ([n] + known)[k]
    {
      if k > 0 {
        assert ([c.stopIndex[n]] + kept)[k] == kept[k - 1] && ([n] + known)[k] == known[k - 1];
      }
    }
  }

  function AddBus(c: TransportCatalogue, name: string, names: seq<string>, isCircle: bool): (r: TransportCatalogue)
    ensures r.buses == c.buses + [Bus(name, KeptStops(c.stopIndex, names), isCircle)]
    ensures r.stops == c.stops && r.stopIndex == c.stopIndex && r.distances == c.distances
    ensures forall n :: Lookup(r.stopToBus, n)
                        == Lookup(c.stopToBus, n) + (if n in names && n in c.stopIndex then {name} else {})
    ensures forall n :: n in r.stopToBus <==> n in c.stopToBus || (n in names && n in c.stopIndex)
  {
    var resolved := ResolveStops(c, name, names, [], c.stopToBus);
    ResolveStopsKeeps(c, name, names, [], c.stopToBus);
    ResolveStopsIndexes(c, name, names, [], c.stopToBus);
    assert [] + KeptStops(c.stopIndex, names) == KeptStops(c.stopIndex, names);
    c.(buses := c.buses + [Bus(name, resolved.0, isCircle)],
       busIndex := c.busIndex[name := |c.buses|],
       stopToBus := resolved.1)
  }

  /** Appending a bus serves exactly the stops it lists, in addition to the
      stops served before. */
  lemma {:induction false} ServedAfterAppend(c: TransportCatalogue, r: TransportCatalogue, bus: Bus, i: nat, b: string)
    requires r.buses == c.buses + [bus]
    ensures Served(r, i) <==> Served(c, i) || i in bus.stops
    ensures ServedBy(r, b, i) <==> ServedBy(c, b, i) || (b == bus.name && i in bus.stops)
  {
    var nb := |c.buses|;
    assert r.buses[nb] == bus;
    if Served(r, i) && !(i in bus.stops) {
      var j :| 0 <= j < |r.buses| && i in r.buses[j].stops;
      assert j < nb && r.buses[j] == c.buses[j];
    }
    if Served(c, i) {
      var j :| 0 <= j < |c.buses| && i in c.buses[j].stops;
      assert r.buses[j] == c.buses[j];
    }
    if ServedBy(r, b, i) && !(b == bus.name && i in bus.stops) {
      var j :| 0 <= j < |r.buses| && r.buses[j].name == b && i in r.buses[j].stops;
      assert j < nb && r.buses[j] == c.buses[j];
    }
    if ServedBy(c, b, i) {
      var j :| 0 <= j < |c.buses| && c.buses[j].name == b && i in c.buses[j].stops;
      assert r.buses[j] == c.buses[j];
    }
  }

  lemma {:induction false} AddBusKeepsRegistriesValid(c: TransportCatalogue, name: string, names: seq<string>, isCircle: bool)
    requires Valid(c)
    ensures var r := AddBus(c, name, names, isCircle);
      StopsIndexed(r) && BusStopsKnown(r) && BusesIndexed(r)
  {
    var r := AddBus(c, name, names, isCircle);
    KeptStopsAreKnownNames(c, names);
    AppendBusKeepsRegistries(c, r, Bus(name, KeptStops(c.stopIndex, names), isCircle));
  }

  /** Appending a bus of known stops, indexed under its name, keeps the
      registries consistent. */
  lemma {:induction false} AppendBusKeepsRegistries(c: TransportCatalogue, r: TransportCatalogue, bus: Bus)
    requires StopsIndexed(c) && BusStopsKnown(c) && BusesIndexed(c)
    requires r.stops == c.stops && r.stopIndex == c.stopIndex
    requires r.buses == c.buses + [bus] && r.busIndex == c.busIndex[bus.name := |c.buses|]
    requires forall k :: 0 <= k < |bus.stops| ==> bus.stops[k] < |c.stops|
    ensures StopsIndexed(r) && BusStopsKnown(r) && BusesIndexed(r)
  {
    var nb := |c.buses|;
    assert r.buses[nb] == bus;
    assert forall j :: 0 <= j < nb ==> r.buses[j] == c.buses[j];
  }

  /** The index entry of one stop after AddBus agrees with the new bus list. */
  lemma {:induction false} AddBusIndexAt(c: TransportCatalogue, name: string, names: seq<string>, isCircle: bool, i: nat, b: string)
    requires StopsIndexed(c) && StopToBusExact(c) && i < |c.stops|
    ensures var r := AddBus(c, name, names, isCircle);
      && (c.stops[i].name in r.stopToBus <==> Served(r, i))
      && (c.stops[i].name in r.stopToBus ==> (b in r.stopToBus[c.stops[i].name] <==> ServedBy(r, b, i)))
  {
    var r := AddBus(c, name, names, isCircle);
    var bus := Bus(name, KeptStops(c.stopIndex, names), isCircle);
    var n := c.stops[i].name;
    KeptStopsMembership(c, names);
    assert i in bus.stops <==> n in names;
    ServedAfterAppend(c, r, bus, i, b);
    assert Lookup(r.stopToBus, n) == Lookup(c.stopToBus, n) + (if n in names then {name} else {});
  }

  lemma {:induction false} AddBusKeepsIndexExact(c: TransportCatalogue, name: string, names: seq<string>, isCircle: bool)
    requires Valid(c)
    ensures StopToBusExact(AddBus(c, name, names, isCircle))
  {
    var r := AddBus(c, name, names, isCircle);
    forall i | 0 <= i < |r.stops|
      ensures r.stops[i].name in r.stopToBus <==> Served(r, i)
    {
      AddBusIndexAt(c, name, names, isCircle, i, name);
    }
    forall i, b | 0 <= i < |r.stops| && r.stops[i].name in r.stopToBus
      ensures b in r.stopToBus[r.stops[i].name] <==> ServedBy(r, b, i)
    {
      AddBusIndexAt(c, name, names, isCircle, i, b);
    }
  }

  lemma {:induction false} AddBusKeepsValid(c: TransportCatalogue, name: string, names: seq<string>, isCircle: bool)
    requires Valid(c)
    ensures Valid(AddBus(c, name, names, isCircle))
  {
    AddBusKeepsRegistriesValid(c, name, names, isCircle);
    AddBusKeepsIndexExact(c, name, names, isCircle);
  }

  /** A registered stop is kept by AddBus exactly when its name was requested. */
  lemma {:induction false} KeptStopsMembership(c: TransportCatalogue, names: seq<string>)
    requires StopsIndexed(c)
    ensures forall i :: 0 <= i < |c.stops| ==> (i in KeptStops(c.stopIndex, names) <==> c.stops[i].name in names)
  {
    var kept := KeptStops(c.stopIndex, names);
    var known := KnownNames(c.stopIndex, names);
    KeptStopsAreKnownNames(c, names);
    forall i | 0 <= i < |c.stops|
      ensures i in kept <==> c.stops[i].name in names
    {
      if i in kept {
        var k :| 0 <= k < |kept| && kept[k] == i;
        assert known[k] in known;
      }
      if c.stops[i].name in names {
        var n := c.stops[i].name;
        assert n in known;
        var k :| 0 <= k < |known| && known[k] == n;
        assert kept[k] == i;
      }
    }
  }

  /** Re-adding a bus name rebinds the name to the newest bus, leaves other
      names bound as before, and keeps the earlier bus in the registry. */
  lemma {:induction false} AddBusRebindsName(c: TransportCatalogue, name: string, names: seq<string>, isCircle: bool, other: string)
    requires Valid(c) && other != name
    ensures FindBus(AddBus(c, name, names, isCircle), name) == Some(Bus(name, KeptStops(c.stopIndex, names), isCircle))
    ensures FindBus(AddBus(c, name, names, isCircle), other) == FindBus(c, other)
    ensures GetAllBuses(AddBus(c, name, names, isCircle))[..|c.buses|] == GetAllBuses(c)
  {
  }

  /* ---------------------------------------------------------------------
     Distances (transport_catalogue.cpp:117-134)
     --------------------------------------------------------------------- */

  /** C++ conversion of a double to int: truncation toward zero. */
  function TruncateToInt(x: real): int {
    if x >= 0.0 then x.Floor else -((-x).Floor)
  }

  /** Truncation drops the fraction: toward zero from either side. */
  lemma {:induction false} TruncateTowardZero(x: real)
    ensures 0.0 <= x ==> TruncateToInt(x) as real <= x < TruncateToInt(x) as real + 1.0
    ensures x < 0.0 ==> TruncateToInt(x) as real - 1.0 < x <= TruncateToInt(x) as real
  {
  }

  function SetDistance(c: TransportCatalogue, from: nat, to: nat, distance: int): (r: TransportCatalogue)
    ensures r.distances.Keys == c.distances.Keys + {(from, to)}
    ensures r.distances[(from, to)] == distance
    ensures forall key :: key in c.distances && key != (from, to) ==> r.distances[key] == c.distances[key]
    ensures r.stops == c.stops && r.stopIndex == c.stopIndex && r.buses == c.buses
    ensures r.busIndex == c.busIndex && r.stopToBus == c.stopToBus
  {
    c.(distances := c.distances[(from, to) := distance])
  }

  predicate StopsExist(c: TransportCatalogue, s: seq<nat>) {
    forall k :: 0 <= k < |s| ==> s[k] < |c.stops|
  }

  /** The road distance: the explicit (from, to) entry, else the explicit
      (to, from) entry, else the truncated geodesic distance. */
  function GetDistance(c: TransportCatalogue, geo: Geodesic, from: nat, to: nat): (r: int)
    requires from < |c.stops| && to < |c.stops|
    ensures (from, to) in c.distances ==> r == c.distances[(from, to)]
    ensures (from, to) !in c.distances && (to, from) in c.distances ==> r == c.distances[(to, from)]
    ensures (from, to) !in c.distances && (to, from) !in c.distances ==>
      var g := geo(c.stops[from].coordinates, c.stops[to].coordinates);
      && (0.0 <= g ==> 0 <= r && r as real <= g < r as real + 1.0)
      && (g < 0.0 ==> r <= 0 && r as real - 1.0 < g <= r as real)
  {
    if (from, to) in c.distances then c.distances[(from, to)]
    else if (to, from) in c.distances then c.distances[(to, from)]
    else TruncateToInt(geo(c.stops[from].coordinates, c.stops[to].coordinates))
  }

  /** Setting (a, b) fixes the distance in both directions unless (b, a)
      has its own entry, and changes no other pair of stops. */
  lemma {:induction false} SetDistanceEffect(c: TransportCatalogue, geo: Geodesic, a: nat, b: nat, d: int, x: nat, y: nat)
    requires a < |c.stops| && b < |c.stops| && x < |c.stops| && y < |c.stops|
    ensures GetDistance(SetDistance(c, a, b, d), geo, a, b) == d
    ensures (b, a) !in c.distances ==> GetDistance(SetDistance(c, a, b, d), geo, b, a) == d
    ensures (b, a) in c.distances && a != b ==>
      GetDistance(SetDistance(c, a, b, d), geo, b, a) == c.distances[(b, a)]
    ensures (x, y) != (a, b) && (y, x) != (a, b) ==>
      GetDistance(SetDistance(c, a, b, d), geo, x, y) == GetDistance(c, geo, x, y)
  {
  }

  /** The road distance is the same both ways unless each direction has an
      explicit entry of its own: a single entry serves both directions, and
      with none the (symmetric) geodesic distance decides. */
  lemma {:induction false} GetDistanceSymmetric(c: TransportCatalogue, geo: Geodesic, a: nat, b: nat)
    requires a < |c.stops| && b < |c.stops|
    requires (a, b) !in c.distances || (b, a) !in c.distances
    requires geo(c.stops[a].coordinates, c.stops[b].coordinates) == geo(c.stops[b].coordinates, c.stops[a].coordinates)
    ensures GetDistance(c, geo, a, b) == GetDistance(c, geo, b, a)
  {
  }

  /* ---------------------------------------------------------------------
     GetBusInfo (transport_catalogue.cpp:59-101)
     --------------------------------------------------------------------- */

  /** Sum of GetDistance(s[i-1], s[i]) over consecutive pairs: the way out. */
  function ForwardRoad(c: TransportCatalogue, geo: Geodesic, s: seq<nat>): int
    requires StopsExist(c, s)
  {
    if |s| < 2 then 0
    else ForwardRoad(c, geo, s[..|s| - 1]) + GetDistance(c, geo, s[|s| - 2], s[|s| - 1])
  }

  /** Sum of GetDistance(s[i], s[i-1]) over consecutive pairs: the way back. */
  function BackwardRoad(c: TransportCatalogue, geo: Geodesic, s: seq<nat>): int
    requires StopsExist(c, s)
  {
    if |s| < 2 then 0
    else GetDistance(c, geo, s[1], s[0]) + BackwardRoad(c, geo, s[1..])
  }

  function GeoBetween(c: TransportCatalogue, geo: Geodesic, from: nat, to: nat): real
    requires from < |c.stops| && to < |c.stops|
  {
    geo(c.stops[from].coordinates, c.stops[to].coordinates)
  }

  function ForwardGeo(c: TransportCatalogue, geo: Geodesic, s: seq<nat>): real
    requires StopsExist(c, s)
  {
    if |s| < 2 then 0.0
    else ForwardGeo(c, geo, s[..|s| - 1]) + GeoBetween(c, geo, s[|s| - 2], s[|s| - 1])
  }

  function BackwardGeo(c: TransportCatalogue, geo: Geodesic, s: seq<nat>): real
    requires StopsExist(c, s)
  {
    if |s| < 2 then 0.0
    else GeoBetween(c, geo, s[1], s[0]) + BackwardGeo(c, geo, s[1..])
  }

  /** The road length of a route as the source defines it. */
  function RouteLength(c: TransportCatalogue, geo: Geodesic, bus: Bus): int
    requires StopsExist(c, bus.stops)
  {
    if bus.isCircle then ForwardRoad(c, geo, bus.stops)
    else ForwardRoad(c, geo, bus.stops) + BackwardRoad(c, geo, bus.stops)
  }

  function RouteGeoLength(c: TransportCatalogue, geo: Geodesic, bus: Bus): real
    requires StopsExist(c, bus.stops)
  {
    if bus.isCircle then ForwardGeo(c, geo, bus.stops)
    else ForwardGeo(c, geo, bus.stops) + BackwardGeo(c, geo, bus.stops)
  }

  function Elements(s: seq<nat>): set<nat> {
    set k | k in s
  }

  lemma {:induction false} ElementsBound(s: seq<nat>)
    ensures |Elements(s)| <= |s|
  {
    if s != [] {
      ElementsBound(s[1..]);
      assert Elements(s) == {s[0]} + Elements(s[1..]);
    }
  }

  /** The forward loop of GetBusInfo computes ForwardRoad and ForwardGeo. */
  method ForwardSums(c: TransportCatalogue, geo: Geodesic, s: seq<nat>) returns (road: int, geoLength: real)
    requires StopsExist(c, s)
    ensures road == ForwardRoad(c, geo, s) && geoLength == ForwardGeo(c, geo, s)
  {
    road, geoLength := 0, 0.0;
    if |s| == 0 {
      return;
    }
    var i := 1;
    while i < |s|
      invariant 1 <= i <= |s|
      invariant StopsExist(c, s[..i])
      invariant road == ForwardRoad(c, geo, s[..i]) && geoLength == ForwardGeo(c, geo, s[..i])
    {
      assert s[..i + 1][..i] == s[..i];
      road := road + GetDistance(c, geo, s[i - 1], s[i]);
      geoLength := geoLength + GeoBetween(c, geo, s[i - 1], s[i]);
      i := i + 1;
    }
    assert s[..|s|] == s;
  }

  /** The backward loop of GetBusInfo computes BackwardRoad and BackwardGeo. */
  method BackwardSums(c: TransportCatalogue, geo: Geodesic, s: seq<nat>) returns (road: int, geoLength: real)
    requires StopsExist(c, s) && |s| > 0
    ensures road == BackwardRoad(c, geo, s) && geoLength == BackwardGeo(c, geo, s)
  {
    road, geoLength := 0, 0.0;
    var i := |s| - 1;
    while i > 0
      invariant 0 <= i < |s|
      invariant road == BackwardRoad(c, geo, s[i..]) && geoLength == BackwardGeo(c, geo, s[i..])
    {
      assert s[i - 1..][1..] == s[i..];
      road := road + GetDistance(c, geo, s[i], s[i - 1]);
      geoLength := geoLength + GeoBetween(c, geo, s[i], s[i - 1]);
      i := i - 1;
    }
  }

  /** Road length over geodesic length; exactly 1 when the geodesic length is 0. */
  function Curvature(road: int, geoLength: real): (r: real)
    ensures geoLength == 0.0 ==> r == 1.0
    ensures geoLength != 0.0 ==> r * geoLength == road as real
  {
    if geoLength == 0.0 then 1.0 else road as real / geoLength
  }

  /** The aggregate of one bus with at least one stop: the stop count of a
      full trip, the number of distinct stops, the road length, and the ratio
      of road length to geodesic length (1 when the geodesic length is 0). */
  method BusStatistics(c: TransportCatalogue, geo: Geodesic, bus: Bus) returns (info: BusInfo)
    requires StopsExist(c, bus.stops) && |bus.stops| > 0
    ensures info.totalStops == (if bus.isCircle then |bus.stops| else 2 * |bus.stops| - 1)
    ensures info.uniqueStops == |Elements(bus.stops)| <= |bus.stops|
    ensures info.length == RouteLength(c, geo, bus)
    ensures info.curvature == Curvature(info.length, RouteGeoLength(c, geo, bus))
  {
    var stops := bus.stops;
    ElementsBound(stops);
    var unique := |Elements(stops)|;
    var total: nat;
    var road, geoLength := ForwardSums(c, geo, stops);
    if bus.isCircle {
      total := |stops|;
    } else {
      total := 2 * |stops| - 1;
      var backRoad, backGeo := BackwardSums(c, geo, stops);
      road := road + backRoad;
      geoLength := geoLength + backGeo;
    }
    info := BusInfo(total, unique, road, Curvature(road, geoLength));
  }

  lemma {:induction false} FoundBusStopsExist(c: TransportCatalogue, busName: string)
    requires Valid(c)
    ensures FindBus(c, busName).Some? ==> StopsExist(c, FindBus(c, busName).value.stops)
  {
  }

  /** GetBusInfo: none exactly for an unknown bus or a bus without stops,
      otherwise the aggregate of the bus the name is bound to. */
  method GetBusInfo(c: TransportCatalogue, geo: Geodesic, busName: string) returns (r: Option<BusInfo>)
    requires Valid(c)
    ensures r.None? <==> FindBus(c, busName).None? || |FindBus(c, busName).value.stops| == 0
    ensures r.Some? ==>
      var bus := FindBus(c, busName).value;
      && StopsExist(c, bus.stops)
      && r.value.totalStops == (if bus.isCircle then |bus.stops| else 2 * |bus.stops| - 1)
      && r.value.uniqueStops == |Elements(bus.stops)| <= |bus.stops|
      && r.value.length == RouteLength(c, geo, bus)
      && r.value.curvature == Curvature(r.value.length, RouteGeoLength(c, geo, bus))
  {
    var found := FindBus(c, busName);
    if found.None? || |found.value.stops| == 0 {
      return None;
    }
    FoundBusStopsExist(c, busName);
    var info := BusStatistics(c, geo, found.value);
    return Some(info);
  }

  /* ---------------------------------------------------------------------
     Stop queries (transport_catalogue.cpp:103-115, 152-161)
     --------------------------------------------------------------------- */

  /** The names of the buses serving a stop: none iff the stop is unknown. */
  function GetBusesByStop(c: TransportCatalogue, stopName: string): (r: Option<set<string>>)
    ensures r.None? <==> stopName !in c.stopIndex
    ensures Valid(c) && r.Some? ==>
      forall b :: b in r.value <==> ServedBy(c, b, c.stopIndex[stopName])
  {
    if stopName !in c.stopIndex then None
    else if stopName in c.stopToBus then Some(c.stopToBus[stopName])
    else Some({})
  }

  /** A registered stop that no bus lists is known and served by nothing. */
  lemma {:induction false} UnservedStopHasNoBuses(c: TransportCatalogue, i: nat)
    requires Valid(c) && i < |c.stops| && !Served(c, i)
    ensures GetBusesByStop(c, c.stops[i].name) == Some({})
  {
    assert c.stops[i].name !in c.stopToBus;
  }

  predicate IsUsed(c: TransportCatalogue, i: nat)
    requires i < |c.stops|
  {
    c.stops[i].name in c.stopToBus && c.stopToBus[c.stops[i].name] != {}
  }

  /** The used stops among the first `n` registered ones, in registration order. */
  function {:induction false} UsedStops(c: TransportCatalogue, n: nat): (r: seq<nat>)
    requires n <= |c.stops|
    ensures forall k :: 0 <= k < |r| ==> r[k] < n && IsUsed(c, r[k])
    ensures forall k, l :: 0 <= k < l < |r| ==> r[k] < r[l]
    ensures forall i :: 0 <= i < n && IsUsed(c, i) ==> i in r
  {
    if n == 0 then []
    else UsedStops(c, n - 1) + (if IsUsed(c, n - 1) then [n - 1] else [])
  }

  function GetStopsUsedInRoutes(c: TransportCatalogue): seq<nat> {
    UsedStops(c, |c.stops|)
  }

  /** A stop is used in routes exactly when some bus lists it. */
  lemma {:induction false} UsedStopsAreServed(c: TransportCatalogue)
    requires Valid(c)
    ensures forall k :: 0 <= k < |GetStopsUsedInRoutes(c)| ==>
      GetStopsUsedInRoutes(c)[k] < |c.stops| && Served(c, GetStopsUsedInRoutes(c)[k])
    ensures forall i :: 0 <= i < |c.stops| && Served(c, i) ==> i in GetStopsUsedInRoutes(c)
  {
    var used := GetStopsUsedInRoutes(c);
    forall i | 0 <= i < |c.stops| && Served(c, i)
      ensures i in used
    {
      var j :| 0 <= j < |c.buses| && i in c.buses[j].stops;
      assert ServedBy(c, c.buses[j].name, i);
      assert c.buses[j].name in c.stopToBus[c.stops[i].name];
    }
  }

  /** Every stop listed on any bus is among the stops used in routes: the
      fact that makes the router's vertex lookups always succeed. */
  lemma {:induction false} BusStopsAreUsed(c: TransportCatalogue, j: nat, k: nat)
    requires Valid(c) && j < |c.buses| && k < |c.buses[j].stops|
    ensures c.buses[j].stops[k] in GetStopsUsedInRoutes(c)
  {
    UsedStopsAreServed(c);
    assert Served(c, c.buses[j].stops[k]);
  }
}
