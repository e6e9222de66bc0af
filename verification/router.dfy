/** The routing layer of transport_router.cpp: every stop used by some bus
    becomes two vertices (arrive, depart) joined by a wait edge, and every
    ordered pair of stops on a bus becomes a ride edge weighted by travel
    time.  The shortest-path engine of router.h is not part of this model;
    it enters BuildRoute as a `search` function that returns some path. */
module Router {
  import opened Wrappers
  import opened Catalogue

  datatype RoutingSettings = RoutingSettings(busWaitTime: int, busVelocity: real)

  datatype Edge = Edge(from: nat, to: nat, weight: real)

  datatype Graph = Graph(vertexCount: nat, edges: seq<Edge>)

  /** What an edge stands for; a wait edge has an empty bus name. */
  datatype EdgeInfo = EdgeInfo(busName: string, spanCount: nat, fromStopName: string, toStopName: string)

  datatype RoutingItem =
    | Wait(stopName: string, time: real)
    | Ride(busName: string, spanCount: nat, time: real)

  datatype RouteInfo = RouteInfo(totalTime: real, items: seq<RoutingItem>)

  /** What the shortest-path engine reports: a total weight and edge ids. */
  datatype PathResult = PathResult(weight: real, edges: seq<nat>)

  type Search = (nat, nat) -> Option<PathResult>

  /** `stopIds[k]` is the registry index of the stop with vertex pair k;
      `edges` and `edgeInfo` are kept in step, entry for entry. */
  datatype TransportRouter = TransportRouter(
    settings: RoutingSettings,
    stopIds: seq<nat>,
    vertexIndex: map<string, nat>,
    graph: Graph,
    edgeInfo: seq<EdgeInfo>)

  /* ---------------------------------------------------------------------
     Vertices and travel time (transport_router.cpp:10-16, 37-39)
     --------------------------------------------------------------------- */

  /** The arrival vertex of stop k. */
  function InVertexId(k: nat): (v: nat)
    ensures v % 2 == 0 && v / 2 == k
  {
    2 * k
  }

  /** The departure vertex of stop k. */
  function OutVertexId(k: nat): (v: nat)
    ensures v % 2 == 1 && v / 2 == k
  {
    2 * k + 1
  }

  /** Minutes needed to ride `distance` metres at `busVelocity` km/h: the
      time that, at the speed in metres per minute, covers the distance. */
  function ComputeTravelTime(settings: RoutingSettings, distance: int): (t: real)
    requires settings.busVelocity != 0.0
    ensures t * (settings.busVelocity * 1000.0 / 60.0) == distance as real
    ensures settings.busVelocity > 0.0 ==> (0.0 <= t <==> 0 <= distance)
  {
    distance as real / (settings.busVelocity * 1000.0 / 60.0)
  }

  /** Travel time is additive in the distance, so a ride over several
      segments takes the sum of their times. */
  lemma {:induction false} TravelTimeAdditive(settings: RoutingSettings, a: int, b: int)
    requires settings.busVelocity != 0.0
    ensures ComputeTravelTime(settings, a + b) == ComputeTravelTime(settings, a) + ComputeTravelTime(settings, b)
  {
    var k := settings.busVelocity * 1000.0 / 60.0;
    assert k != 0.0;
    var ta := ComputeTravelTime(settings, a);
    var tb := ComputeTravelTime(settings, b);
    var tab := ComputeTravelTime(settings, a + b);
    assert tab * k == ta * k + tb * k;
    assert (tab - ta - tb) * k == 0.0;
  }

  /* ---------------------------------------------------------------------
     The stop -> vertex-pair map (transport_router.cpp:25-30)
     --------------------------------------------------------------------- */

  function StopName(c: TransportCatalogue, i: nat): string
    requires i < |c.stops|
  {
    c.stops[i].name
  }

  /** Later entries overwrite earlier ones, as the source's assignment loop does. */
  function VertexIndex(c: TransportCatalogue, ids: seq<nat>): (m: map<string, nat>)
    requires StopsExist(c, ids)
    ensures forall n :: n in m ==> m[n] < |ids| && StopName(c, ids[m[n]]) == n
    ensures forall k :: 0 <= k < |ids| ==> StopName(c, ids[k]) in m
  {
    if ids == [] then map[]
    else VertexIndex(c, ids[..|ids| - 1])[StopName(c, ids[|ids| - 1]) := |ids| - 1]
  }

  method BuildVertexIndex(c: TransportCatalogue, ids: seq<nat>) returns (m: map<string, nat>)
    requires StopsExist(c, ids)
    ensures m == VertexIndex(c, ids)
  {
    m := map[];
    var i := 0;
    while i < |ids|
      invariant 0 <= i <= |ids|
      invariant m == VertexIndex(c, ids[..i])
    {
      assert ids[..i + 1][..i] == ids[..i];
      m := m[StopName(c, ids[i]) := i];
      i := i + 1;
    }
    assert ids[..i] == ids;
  }

  /** Over the used stops of a valid catalogue, the map is exact: stop
      names are unique and the used indices are increasing. */
  lemma {:induction false} VertexIndexExact(c: TransportCatalogue, k: nat)
    requires Valid(c) && k < |GetStopsUsedInRoutes(c)|
    ensures var ids := GetStopsUsedInRoutes(c);
      StopName(c, ids[k]) in VertexIndex(c, ids) && VertexIndex(c, ids)[StopName(c, ids[k])] == k
  {
    var ids := GetStopsUsedInRoutes(c);
    var m := VertexIndex(c, ids);
    var k' := m[StopName(c, ids[k])];
    assert StopName(c, ids[k']) == StopName(c, ids[k]);
    assert c.stopIndex[c.stops[ids[k]].name] == ids[k];
    assert ids[k'] == ids[k];
  }

  /** A stop that no bus lists gets no vertices. */
  lemma {:induction false} UnservedStopHasNoVertex(c: TransportCatalogue, i: nat)
    requires Valid(c) && i < |c.stops| && !Served(c, i)
    ensures StopName(c, i) !in VertexIndex(c, GetStopsUsedInRoutes(c))
  {
    UsedStopsAreServed(c);
  }

  /** Every stop any bus lists has a vertex pair. */
  lemma {:induction false} BusStopHasVertex(c: TransportCatalogue, b: nat, k: nat)
    requires Valid(c) && b < |c.buses| && k < |c.buses[b].stops|
    ensures StopName(c, c.buses[b].stops[k]) in VertexIndex(c, GetStopsUsedInRoutes(c))
  {
    var ids := GetStopsUsedInRoutes(c);
    BusStopsAreUsed(c, b, k);
    var p :| 0 <= p < |ids| && ids[p] == c.buses[b].stops[k];
  }

  /* ---------------------------------------------------------------------
     The edges BuildGraph adds (transport_router.cpp:41-102), stated
     as a sequence of (edge, info) entries in insertion order.
     --------------------------------------------------------------------- */

  datatype Entry = Entry(edge: Edge, info: EdgeInfo)

  /** Everything the edge construction depends on. */
  datatype Setup = Setup(
    catalogue: TransportCatalogue,
    geo: Geodesic,
    settings: RoutingSettings,
    vertexIndex: map<string, nat>)

  ghost predicate SetupOk(x: Setup) {
    x.settings.busVelocity != 0.0 && BusStopsKnown(x.catalogue)
  }

  function EdgesOf(entries: seq<Entry>): (r: seq<Edge>)
    ensures |r| == |entries| && forall k :: 0 <= k < |entries| ==> r[k] == entries[k].edge
  {
    seq(|entries|, k requires 0 <= k < |entries| => entries[k].edge)
  }

  function InfosOf(entries: seq<Entry>): (r: seq<EdgeInfo>)
    ensures |r| == |entries| && forall k :: 0 <= k < |entries| ==> r[k] == entries[k].info
  {
    seq(|entries|, k requires 0 <= k < |entries| => entries[k].info)
  }

  /** The graph's edges and the info records list the entries, in order. */
  predicate Matches(edges: seq<Edge>, infos: seq<EdgeInfo>, entries: seq<Entry>) {
    edges == EdgesOf(entries) && infos == InfosOf(entries)
  }

  /** Adding an edge and its info adds their entry. */
  lemma {:induction false} MatchesSnoc(edges: seq<Edge>, infos: seq<EdgeInfo>, entries: seq<Entry>, e: Entry)
    requires Matches(edges, infos, entries)
    ensures Matches(edges + [e.edge], infos + [e.info], entries + [e])
  {
    assert edges + [e.edge] == EdgesOf(entries + [e]);
    assert infos + [e.info] == InfosOf(entries + [e]);
  }

  function WaitEntry(x: Setup, ids: seq<nat>, k: nat): Entry
    requires StopsExist(x.catalogue, ids) && k < |ids|
  {
    var name := StopName(x.catalogue, ids[k]);
    Entry(Edge(InVertexId(k), OutVertexId(k), x.settings.busWaitTime as real), EdgeInfo("", 0, name, name))
  }

  /** The wait edges of the first m used stops. */
  function WaitEntries(x: Setup, ids: seq<nat>, m: nat): (r: seq<Entry>)
    requires StopsExist(x.catalogue, ids) && m <= |ids|
    ensures |r| == m && forall k :: 0 <= k < m ==> r[k] == WaitEntry(x, ids, k)
  {
    if m == 0 then [] else WaitEntries(x, ids, m - 1) + [WaitEntry(x, ids, m - 1)]
  }

  /** Both ends of the ride from position i to position j have vertices. */
  predicate Linked(x: Setup, bus: Bus, i: nat, j: nat)
    requires StopsExist(x.catalogue, bus.stops)
  {
    && i < j < |bus.stops|
    && StopName(x.catalogue, bus.stops[i]) in x.vertexIndex
    && StopName(x.catalogue, bus.stops[j]) in x.vertexIndex
  }

  /** Riding from position i to position j along the route. */
  function Forward(x: Setup, bus: Bus, i: nat, j: nat): Entry
    requires x.settings.busVelocity != 0.0 && StopsExist(x.catalogue, bus.stops) && Linked(x, bus, i, j)
  {
    var c := x.catalogue;
    var from := StopName(c, bus.stops[i]);
    var to := StopName(c, bus.stops[j]);
    Entry(
      Edge(OutVertexId(x.vertexIndex[from]), InVertexId(x.vertexIndex[to]),
           ComputeTravelTime(x.settings, RideDistance(c, x.geo, bus.stops, i, j))),
      EdgeInfo(bus.name, j - i, from, to))
  }

  /** Riding back from position j to position i, which only a
      there-and-back bus does. */
  function Reverse(x: Setup, bus: Bus, i: nat, j: nat): Entry
    requires x.settings.busVelocity != 0.0 && StopsExist(x.catalogue, bus.stops) && Linked(x, bus, i, j)
  {
    var c := x.catalogue;
    var from := StopName(c, bus.stops[i]);
    var to := StopName(c, bus.stops[j]);
    Entry(
      Edge(OutVertexId(x.vertexIndex[to]), InVertexId(x.vertexIndex[from]),
           ComputeTravelTime(x.settings, BackDistance(c, x.geo, bus.stops, i, j))),
      EdgeInfo(bus.name, j - i, to, from))
  }

  /** The entries for the pair (i, j); a stop without a vertex adds none. */
  function PairEntries(x: Setup, bus: Bus, i: nat, j: nat): seq<Entry>
    requires x.settings.busVelocity != 0.0 && StopsExist(x.catalogue, bus.stops)
    requires i < j < |bus.stops| && StopName(x.catalogue, bus.stops[i]) in x.vertexIndex
  {
    if StopName(x.catalogue, bus.stops[j]) !in x.vertexIndex then []
    else if bus.isCircle then [Forward(x, bus, i, j)]
    else [Forward(x, bus, i, j), Reverse(x, bus, i, j)]
  }

  /** The concatenation f(lo) + f(lo + 1) + ... + f(hi - 1). */
  function ConcatRange<T>(f: nat -> seq<T>, lo: nat, hi: nat): seq<T>
  {
    if hi <= lo then [] else ConcatRange(f, lo, hi - 1) + f(hi - 1)
  }

  /** Whatever one of the parts holds, the concatenation holds. */
  lemma {:induction false} InConcatRange<T>(f: nat -> seq<T>, lo: nat, j: nat, hi: nat, e: T)
    requires lo <= j < hi && e in f(j)
    ensures e in ConcatRange(f, lo, hi)
  {
    if j < hi - 1 {
      InConcatRange(f, lo, j, hi - 1, e);
    }
  }

  /** Whatever the concatenation holds comes from one of its parts. */
  lemma {:induction false} ConcatRangeMembers<T>(f: nat -> seq<T>, lo: nat, hi: nat, e: T)
    requires e in ConcatRange(f, lo, hi)
    ensures exists j :: lo <= j < hi && e in f(j)
  {
    if e !in f(hi - 1) {
      ConcatRangeMembers(f, lo, hi - 1, e);
    }
  }

  /** The pair entries of row i, indexed by the far position. */
  function Pairs(x: Setup, bus: Bus, i: nat): nat -> seq<Entry>
    requires x.settings.busVelocity != 0.0 && StopsExist(x.catalogue, bus.stops)
    requires i < |bus.stops| && StopName(x.catalogue, bus.stops[i]) in x.vertexIndex
  {
    (j: nat) => if i < j < |bus.stops| then PairEntries(x, bus, i, j) else []
  }

  /** The entries for the pairs (i, j) with i < j < m. */
  function PairsUpTo(x: Setup, bus: Bus, i: nat, m: nat): seq<Entry>
    requires x.settings.busVelocity != 0.0 && StopsExist(x.catalogue, bus.stops)
    requires i < |bus.stops| && StopName(x.catalogue, bus.stops[i]) in x.vertexIndex
  {
    ConcatRange(Pairs(x, bus, i), i + 1, m)
  }

  /** All entries that start at position i. */
  function RowEntries(x: Setup, bus: Bus, i: nat): seq<Entry>
    requires x.settings.busVelocity != 0.0 && StopsExist(x.catalogue, bus.stops) && i < |bus.stops|
  {
    if StopName(x.catalogue, bus.stops[i]) !in x.vertexIndex then []
    else PairsUpTo(x, bus, i, |bus.stops|)
  }

  /** The rows of one bus, indexed by the starting position. */
  function Rows(x: Setup, bus: Bus): nat -> seq<Entry>
    requires x.settings.busVelocity != 0.0 && StopsExist(x.catalogue, bus.stops)
  {
    (i: nat) => if i < |bus.stops| then RowEntries(x, bus, i) else []
  }

  /** The entries of the first m rows of one bus. */
  function BusRows(x: Setup, bus: Bus, m: nat): seq<Entry>
    requires x.settings.busVelocity != 0.0 && StopsExist(x.catalogue, bus.stops)
  {
    ConcatRange(Rows(x, bus), 0, m)
  }

  function BusEntries(x: Setup, bus: Bus): seq<Entry>
    requires x.settings.busVelocity != 0.0 && StopsExist(x.catalogue, bus.stops)
  {
    BusRows(x, bus, |bus.stops|)
  }

  /** The ride entries of the first m buses, in registry order. */
  function AllBusEntries(x: Setup, m: nat): seq<Entry>
    requires SetupOk(x) && m <= |x.catalogue.buses|
  {
    if m == 0 then []
    else AllBusEntries(x, m - 1) + BusEntries(x, x.catalogue.buses[m - 1])
  }

  function GraphEntries(x: Setup, ids: seq<nat>): seq<Entry>
    requires SetupOk(x) && StopsExist(x.catalogue, ids)
  {
    WaitEntries(x, ids, |ids|) + AllBusEntries(x, |x.catalogue.buses|)
  }

  /* ---------------------------------------------------------------------
     BuildGraph as the source computes it: nested loops with a running
     forward sum and an inner loop for the way back.
     --------------------------------------------------------------------- */

  /** The road distance from position i to position j along the route. */
  function RideDistance(c: TransportCatalogue, geo: Geodesic, s: seq<nat>, i: nat, j: nat): int
    requires StopsExist(c, s) && i <= j < |s|
    decreases j - i
  {
    if j == i then 0 else RideDistance(c, geo, s, i, j - 1) + GetDistance(c, geo, s[j - 1], s[j])
  }

  /** The road distance back from position j to position i. */
  function BackDistance(c: TransportCatalogue, geo: Geodesic, s: seq<nat>, i: nat, j: nat): int
    requires StopsExist(c, s) && i <= j < |s|
    decreases j - i
  {
    if i == j then 0 else GetDistance(c, geo, s[i + 1], s[i]) + BackDistance(c, geo, s, i + 1, j)
  }

  /** The ride distance is the route length of that stretch of the route,
      as the catalogue measures it. */
  lemma {:induction false} RideDistanceIsForwardRoad(c: TransportCatalogue, geo: Geodesic, s: seq<nat>, i: nat, j: nat)
    requires StopsExist(c, s) && i <= j < |s|
    ensures RideDistance(c, geo, s, i, j) == ForwardRoad(c, geo, s[i..j + 1])
    decreases j - i
  {
    if j > i {
      RideDistanceIsForwardRoad(c, geo, s, i, j - 1);
      assert s[i..j + 1][..j - i] == s[i..j];
    }
  }

  /** Likewise for the way back. */
  lemma {:induction false} BackDistanceIsBackwardRoad(c: TransportCatalogue, geo: Geodesic, s: seq<nat>, i: nat, j: nat)
    requires StopsExist(c, s) && i <= j < |s|
    ensures BackDistance(c, geo, s, i, j) == BackwardRoad(c, geo, s[i..j + 1])
    decreases j - i
  {
    if i < j {
      BackDistanceIsBackwardRoad(c, geo, s, i + 1, j);
      assert s[i..j + 1][1..] == s[i + 1..j + 1];
    }
  }

  /** The inner loop that sums the way back from position j to position i. */
  method ReverseDistance(c: TransportCatalogue, geo: Geodesic, s: seq<nat>, i: nat, j: nat) returns (d: int)
    requires StopsExist(c, s) && i < j < |s|
    ensures d == BackDistance(c, geo, s, i, j)
  {
    d := 0;
    var k := j;
    while k > i
      invariant i <= k <= j
      invariant d == BackDistance(c, geo, s, k, j)
    {
      d := d + GetDistance(c, geo, s[k], s[k - 1]);
      k := k - 1;
    }
  }

  method AddWaitEdges(x: Setup, ids: seq<nat>) returns (edges: seq<Edge>, infos: seq<EdgeInfo>)
    requires StopsExist(x.catalogue, ids)
    ensures Matches(edges, infos, WaitEntries(x, ids, |ids|))
  {
    edges, infos := [], [];
    var i := 0;
    while i < |ids|
      invariant 0 <= i <= |ids|
      invariant Matches(edges, infos, WaitEntries(x, ids, i))
    {
      var name := StopName(x.catalogue, ids[i]);
      MatchesSnoc(edges, infos, WaitEntries(x, ids, i), WaitEntry(x, ids, i));
      edges := edges + [Edge(InVertexId(i), OutVertexId(i), x.settings.busWaitTime as real)];
      infos := infos + [EdgeInfo("", 0, name, name)];
      i := i + 1;
    }
  }

  /** After `done`, the pairs up to j + 1 are those up to j followed by (i, j). */
  lemma {:induction false} PairsUpToStep(x: Setup, bus: Bus, i: nat, j: nat, done: seq<Entry>)
    requires x.settings.busVelocity != 0.0 && StopsExist(x.catalogue, bus.stops)
    requires i < j < |bus.stops| && StopName(x.catalogue, bus.stops[i]) in x.vertexIndex
    ensures done + PairsUpTo(x, bus, i, j + 1) == (done + PairsUpTo(x, bus, i, j)) + PairEntries(x, bus, i, j)
  {
    assert PairsUpTo(x, bus, i, j + 1) == PairsUpTo(x, bus, i, j) + PairEntries(x, bus, i, j);
    AppendAssoc(done, PairsUpTo(x, bus, i, j), PairEntries(x, bus, i, j));
  }

  lemma {:induction false} BusRowsStep(x: Setup, bus: Bus, i: nat, done: seq<Entry>)
    requires x.settings.busVelocity != 0.0 && StopsExist(x.catalogue, bus.stops) && i < |bus.stops|
    ensures done + BusRows(x, bus, i + 1) == (done + BusRows(x, bus, i)) + RowEntries(x, bus, i)
  {
    assert BusRows(x, bus, i + 1) == BusRows(x, bus, i) + RowEntries(x, bus, i);
    AppendAssoc(done, BusRows(x, bus, i), RowEntries(x, bus, i));
  }

  /** One iteration of the `j` loop: the running sum extended to position
      j, and the entries of the pair (i, j) appended. */
  method AddPair(x: Setup, bus: Bus, i: nat, j: nat, forward0: int,
                 edges0: seq<Edge>, infos0: seq<EdgeInfo>, ghost done: seq<Entry>)
    returns (forward: int, edges: seq<Edge>, infos: seq<EdgeInfo>)
    requires x.settings.busVelocity != 0.0 && StopsExist(x.catalogue, bus.stops)
    requires i < j < |bus.stops| && StopName(x.catalogue, bus.stops[i]) in x.vertexIndex
    requires forward0 == RideDistance(x.catalogue, x.geo, bus.stops, i, j - 1)
    requires Matches(edges0, infos0, done + PairsUpTo(x, bus, i, j))
    ensures forward == RideDistance(x.catalogue, x.geo, bus.stops, i, j)
    ensures Matches(edges, infos, done + PairsUpTo(x, bus, i, j + 1))
  {
    var s := bus.stops;
    forward := forward0 + GetDistance(x.catalogue, x.geo, s[j - 1], s[j]);
    edges, infos := AddPairEdges(x, bus, i, j, forward, edges0, infos0, done + PairsUpTo(x, bus, i, j));
    PairsUpToStep(x, bus, i, j, done);
  }

  /** The ride edges of the pair (i, j): forward, then back unless the
      bus is circular; none when the far stop has no vertex. */
  method AddPairEdges(x: Setup, bus: Bus, i: nat, j: nat, forward: int,
                 edges0: seq<Edge>, infos0: seq<EdgeInfo>, ghost done: seq<Entry>)
    returns (edges: seq<Edge>, infos: seq<EdgeInfo>)
    requires x.settings.busVelocity != 0.0 && StopsExist(x.catalogue, bus.stops)
    requires i < j < |bus.stops| && StopName(x.catalogue, bus.stops[i]) in x.vertexIndex
    requires forward == RideDistance(x.catalogue, x.geo, bus.stops, i, j)
    requires Matches(edges0, infos0, done)
    ensures Matches(edges, infos, done + PairEntries(x, bus, i, j))
  {
    var c := x.catalogue;
    var s := bus.stops;
    edges, infos := edges0, infos0;
    var fromName := StopName(c, s[i]);
    var toName := StopName(c, s[j]);
    if toName in x.vertexIndex {
      var fromIdx := x.vertexIndex[fromName];
      var toIdx := x.vertexIndex[toName];
      ghost var there := Forward(x, bus, i, j);
      MatchesSnoc(edges, infos, done, there);
      edges := edges + [Edge(OutVertexId(fromIdx), InVertexId(toIdx), ComputeTravelTime(x.settings, forward))];
      infos := infos + [EdgeInfo(bus.name, j - i, fromName, toName)];
      if !bus.isCircle {
        var back := ReverseDistance(c, x.geo, s, i, j);
        ghost var backThere := Reverse(x, bus, i, j);
        MatchesSnoc(edges, infos, done + [there], backThere);
        edges := edges + [Edge(OutVertexId(toIdx), InVertexId(fromIdx), ComputeTravelTime(x.settings, back))];
        infos := infos + [EdgeInfo(bus.name, j - i, toName, fromName)];
        assert done + [there] + [backThere] == done + PairEntries(x, bus, i, j);
      }
    } else {
      assert done + PairEntries(x, bus, i, j) == done;
    }
  }

  /** One starting position i: nothing when its stop has no vertex. */
  method AddRow(x: Setup, bus: Bus, i: nat, edges0: seq<Edge>, infos0: seq<EdgeInfo>, ghost done: seq<Entry>)
    returns (edges: seq<Edge>, infos: seq<EdgeInfo>)
    requires x.settings.busVelocity != 0.0 && StopsExist(x.catalogue, bus.stops) && i < |bus.stops|
    requires Matches(edges0, infos0, done)
    ensures Matches(edges, infos, done + RowEntries(x, bus, i))
  {
    if StopName(x.catalogue, bus.stops[i]) !in x.vertexIndex {
      edges, infos := edges0, infos0;
      assert RowEntries(x, bus, i) == [];
      assert done + [] == done;
    } else {
      edges, infos := AddPairs(x, bus, i, edges0, infos0, done);
    }
  }

  /** The `j` loop for one starting position i whose stop has a vertex. */
  method AddPairs(x: Setup, bus: Bus, i: nat, edges0: seq<Edge>, infos0: seq<EdgeInfo>, ghost done: seq<Entry>)
    returns (edges: seq<Edge>, infos: seq<EdgeInfo>)
    requires x.settings.busVelocity != 0.0 && StopsExist(x.catalogue, bus.stops)
    requires i < |bus.stops| && StopName(x.catalogue, bus.stops[i]) in x.vertexIndex
    requires Matches(edges0, infos0, done)
    ensures Matches(edges, infos, done + PairsUpTo(x, bus, i, |bus.stops|))
  {
    edges, infos := edges0, infos0;
    var forward := 0;
    var j := i + 1;
    assert PairsUpTo(x, bus, i, j) == [];
    assert done + [] == done;
    while j < |bus.stops|
      invariant i + 1 <= j <= |bus.stops|
      invariant forward == RideDistance(x.catalogue, x.geo, bus.stops, i, j - 1)
      invariant Matches(edges, infos, done + PairsUpTo(x, bus, i, j))
    {
      forward, edges, infos := AddPair(x, bus, i, j, forward, edges, infos, done);
      j := j + 1;
    }
  }

  /** The `i` loop for one bus. */
  method AddBusEdges(x: Setup, bus: Bus, edges0: seq<Edge>, infos0: seq<EdgeInfo>, ghost done: seq<Entry>)
    returns (edges: seq<Edge>, infos: seq<EdgeInfo>)
    requires x.settings.busVelocity != 0.0 && StopsExist(x.catalogue, bus.stops)
    requires Matches(edges0, infos0, done)
    ensures Matches(edges, infos, done + BusEntries(x, bus))
  {
    edges, infos := edges0, infos0;
    var i := 0;
    assert done + BusRows(x, bus, 0) == done;
    while i < |bus.stops|
      invariant 0 <= i <= |bus.stops|
      invariant Matches(edges, infos, done + BusRows(x, bus, i))
    {
      edges, infos := AddRow(x, bus, i, edges, infos, done + BusRows(x, bus, i));
      BusRowsStep(x, bus, i, done);
      i := i + 1;
    }
  }

  lemma {:induction false} AllBusEntriesStep(x: Setup, b: nat, done: seq<Entry>)
    requires SetupOk(x) && b < |x.catalogue.buses|
    ensures done + AllBusEntries(x, b + 1) == (done + AllBusEntries(x, b)) + BusEntries(x, x.catalogue.buses[b])
  {
    AppendAssoc(done, AllBusEntries(x, b), BusEntries(x, x.catalogue.buses[b]));
  }

  method BuildGraph(x: Setup, ids: seq<nat>) returns (edges: seq<Edge>, infos: seq<EdgeInfo>)
    requires SetupOk(x) && StopsExist(x.catalogue, ids)
    ensures Matches(edges, infos, GraphEntries(x, ids))
  {
    edges, infos := AddWaitEdges(x, ids);
    ghost var waits := WaitEntries(x, ids, |ids|);
    var b := 0;
    assert waits + AllBusEntries(x, 0) == waits;
    while b < |x.catalogue.buses|
      invariant 0 <= b <= |x.catalogue.buses|
      invariant Matches(edges, infos, waits + AllBusEntries(x, b))
    {
      var bus := x.catalogue.buses[b];
      edges, infos := AddBusEdges(x, bus, edges, infos, waits + AllBusEntries(x, b));
      AllBusEntriesStep(x, b, waits);
      b := b + 1;
    }
  }

  /** The constructor: vertex pairs for the used stops, then the edges. */
  method NewTransportRouter(c: TransportCatalogue, geo: Geodesic, settings: RoutingSettings)
    returns (r: TransportRouter)
    requires Valid(c) && settings.busVelocity != 0.0
    ensures Built(r, c, geo, settings)
  {
    var ids := GetStopsUsedInRoutes(c);
    var index := BuildVertexIndex(c, ids);
    var edges, infos := BuildGraph(Setup(c, geo, settings, index), ids);
    r := TransportRouter(settings, ids, index, Graph(2 * |ids|, edges), infos);
  }

  /** `r` is the router the constructor builds for this catalogue. */
  ghost predicate Built(r: TransportRouter, c: TransportCatalogue, geo: Geodesic, settings: RoutingSettings) {
    && Valid(c)
    && settings.busVelocity != 0.0
    && r.settings == settings
    && r.stopIds == GetStopsUsedInRoutes(c)
    && r.vertexIndex == VertexIndex(c, r.stopIds)
    && r.graph.vertexCount == 2 * |r.stopIds|
    && Matches(r.graph.edges, r.edgeInfo, GraphEntries(Setup(c, geo, settings, r.vertexIndex), r.stopIds))
  }

  /* ---------------------------------------------------------------------
     What the graph contains
     --------------------------------------------------------------------- */

  /** Entry e is a ride of `bus` between two linked positions: forward, or
      backward when the bus is not circular. */
  ghost predicate IsRide(x: Setup, bus: Bus, e: Entry)
    requires x.settings.busVelocity != 0.0 && StopsExist(x.catalogue, bus.stops)
  {
    exists i, j :: Linked(x, bus, i, j) && (e == Forward(x, bus, i, j) || (!bus.isCircle && e == Reverse(x, bus, i, j)))
  }

  lemma {:induction false} PairEntriesAreRides(x: Setup, bus: Bus, i: nat, j: nat, e: Entry)
    requires x.settings.busVelocity != 0.0 && StopsExist(x.catalogue, bus.stops)
    requires i < j < |bus.stops| && StopName(x.catalogue, bus.stops[i]) in x.vertexIndex
    requires e in PairEntries(x, bus, i, j)
    ensures IsRide(x, bus, e)
  {
    assert Linked(x, bus, i, j);
    if e == Forward(x, bus, i, j) {
    } else {
      assert !bus.isCircle && e == Reverse(x, bus, i, j);
    }
  }

  /** Every entry a bus contributes is one of its rides; in particular a
      circular bus contributes forward rides only. */
  lemma {:induction false} BusEntriesAreRides(x: Setup, bus: Bus)
    requires x.settings.busVelocity != 0.0 && StopsExist(x.catalogue, bus.stops)
    ensures forall e :: e in BusEntries(x, bus) ==> IsRide(x, bus, e)
  {
    forall e | e in BusEntries(x, bus)
      ensures IsRide(x, bus, e)
    {
      BusEntryIsRide(x, bus, e);
    }
  }

  lemma {:induction false} BusEntryIsRide(x: Setup, bus: Bus, e: Entry)
    requires x.settings.busVelocity != 0.0 && StopsExist(x.catalogue, bus.stops)
    requires e in BusEntries(x, bus)
    ensures IsRide(x, bus, e)
  {
    var i := RowOf(x, bus, e);
    var j := PairOf(x, bus, i, e);
    PairEntriesAreRides(x, bus, i, j, e);
  }

  /** The row an entry of a bus comes from. */
  lemma {:induction false} RowOf(x: Setup, bus: Bus, e: Entry) returns (i: nat)
    requires x.settings.busVelocity != 0.0 && StopsExist(x.catalogue, bus.stops)
    requires e in BusEntries(x, bus)
    ensures i < |bus.stops| && StopName(x.catalogue, bus.stops[i]) in x.vertexIndex
    ensures e in PairsUpTo(x, bus, i, |bus.stops|)
  {
    ConcatRangeMembers(Rows(x, bus), 0, |bus.stops|, e);
    i :| 0 <= i < |bus.stops| && e in Rows(x, bus)(i);
  }

  /** The pair an entry of row i comes from. */
  lemma {:induction false} PairOf(x: Setup, bus: Bus, i: nat, e: Entry) returns (j: nat)
    requires x.settings.busVelocity != 0.0 && StopsExist(x.catalogue, bus.stops)
    requires i < |bus.stops| && StopName(x.catalogue, bus.stops[i]) in x.vertexIndex
    requires e in PairsUpTo(x, bus, i, |bus.stops|)
    ensures i < j < |bus.stops| && e in PairEntries(x, bus, i, j)
  {
    ConcatRangeMembers(Pairs(x, bus, i), i + 1, |bus.stops|, e);
    j :| i + 1 <= j < |bus.stops| && e in Pairs(x, bus, i)(j);
  }

  /** Every linked pair of positions on a bus yields its forward ride, and
      its backward ride when the bus is not circular. */
  lemma {:induction false} RidesAreBusEntries(x: Setup, bus: Bus, i: nat, j: nat)
    requires x.settings.busVelocity != 0.0 && StopsExist(x.catalogue, bus.stops) && Linked(x, bus, i, j)
    ensures Forward(x, bus, i, j) in BusEntries(x, bus)
    ensures !bus.isCircle ==> Reverse(x, bus, i, j) in BusEntries(x, bus)
  {
    RideInBus(x, bus, i, j, Forward(x, bus, i, j));
    if !bus.isCircle {
      RideInBus(x, bus, i, j, Reverse(x, bus, i, j));
    }
  }

  lemma {:induction false} RideInBus(x: Setup, bus: Bus, i: nat, j: nat, e: Entry)
    requires x.settings.busVelocity != 0.0 && StopsExist(x.catalogue, bus.stops) && Linked(x, bus, i, j)
    requires e in PairEntries(x, bus, i, j)
    ensures e in BusEntries(x, bus)
  {
    var n := |bus.stops|;
    InConcatRange(Pairs(x, bus, i), i + 1, j, n, e);
    InConcatRange(Rows(x, bus), 0, i, n, e);
  }

  lemma {:induction false} BusInAll(x: Setup, b: nat, m: nat, e: Entry)
    requires SetupOk(x) && b < m <= |x.catalogue.buses| && e in BusEntries(x, x.catalogue.buses[b])
    ensures e in AllBusEntries(x, m)
  {
    if b < m - 1 {
      BusInAll(x, b, m - 1, e);
    }
  }

  lemma {:induction false} AllAreRides(x: Setup, m: nat)
    requires SetupOk(x) && m <= |x.catalogue.buses|
    ensures forall e :: e in AllBusEntries(x, m) ==>
      exists b :: 0 <= b < m && IsRide(x, x.catalogue.buses[b], e)
  {
    if m > 0 {
      AllAreRides(x, m - 1);
      BusEntriesAreRides(x, x.catalogue.buses[m - 1]);
    }
  }

  /** The setup a built router was made from. */
  function SetupOf(r: TransportRouter, c: TransportCatalogue, geo: Geodesic): Setup {
    Setup(c, geo, r.settings, r.vertexIndex)
  }

  /** The first |stopIds| edges are the wait edges, stop by stop. */
  lemma {:induction false} WaitEdges(r: TransportRouter, c: TransportCatalogue, geo: Geodesic, settings: RoutingSettings, k: nat)
    requires Built(r, c, geo, settings) && k < |r.stopIds|
    ensures k < |r.graph.edges| && k < |r.edgeInfo|
    ensures r.graph.edges[k] == Edge(InVertexId(k), OutVertexId(k), settings.busWaitTime as real)
    ensures r.edgeInfo[k] == EdgeInfo("", 0, StopName(c, r.stopIds[k]), StopName(c, r.stopIds[k]))
  {
    var x := SetupOf(r, c, geo);
    assert GraphEntries(x, r.stopIds)[k] == WaitEntries(x, r.stopIds, |r.stopIds|)[k];
  }

  /** Every edge after the wait edges is a ride of some bus. */
  lemma {:induction false} RideEdges(r: TransportRouter, c: TransportCatalogue, geo: Geodesic, settings: RoutingSettings, e: nat)
    requires Built(r, c, geo, settings) && |r.stopIds| <= e < |r.graph.edges|
    ensures e < |r.edgeInfo|
    ensures exists b :: 0 <= b < |c.buses| &&
                          IsRide(SetupOf(r, c, geo), c.buses[b], Entry(r.graph.edges[e], r.edgeInfo[e]))
  {
    var x := SetupOf(r, c, geo);
    var all := GraphEntries(x, r.stopIds);
    assert Entry(r.graph.edges[e], r.edgeInfo[e]) == all[e];
    LaterEntriesAreRides(x, r.stopIds, e);
    AllAreRides(x, |c.buses|);
  }

  /** Past the wait edges, the graph lists the buses' rides. */
  lemma {:induction false} LaterEntriesAreRides(x: Setup, ids: seq<nat>, e: nat)
    requires SetupOk(x) && StopsExist(x.catalogue, ids) && |ids| <= e < |GraphEntries(x, ids)|
    ensures GraphEntries(x, ids)[e] in AllBusEntries(x, |x.catalogue.buses|)
  {
    var waits := WaitEntries(x, ids, |ids|);
    var rides := AllBusEntries(x, |x.catalogue.buses|);
    assert GraphEntries(x, ids)[e] == rides[e - |waits|];
  }

  /** An entry listed in `entries` is stored at some edge id. */
  lemma {:induction false} EntryStored(edges: seq<Edge>, infos: seq<EdgeInfo>, entries: seq<Entry>, e: Entry)
    requires Matches(edges, infos, entries) && e in entries
    ensures exists f :: 0 <= f < |edges| && Entry(edges[f], infos[f]) == e
  {
    var f :| 0 <= f < |entries| && entries[f] == e;
    assert Entry(edges[f], infos[f]) == e;
  }

  lemma {:induction false} BusEntryInGraph(x: Setup, ids: seq<nat>, b: nat, e: Entry)
    requires SetupOk(x) && StopsExist(x.catalogue, ids) && b < |x.catalogue.buses|
    requires e in BusEntries(x, x.catalogue.buses[b])
    ensures e in GraphEntries(x, ids)
  {
    BusInAll(x, b, |x.catalogue.buses|, e);
  }

  /** Every pair of positions i < j on every bus has its forward ride
      edge, and its backward one when the bus is not circular. */
  lemma {:induction false} RideEdgesPresent(r: TransportRouter, c: TransportCatalogue, geo: Geodesic, settings: RoutingSettings,
                         b: nat, i: nat, j: nat)
    requires Built(r, c, geo, settings) && b < |c.buses| && i < j < |c.buses[b].stops|
    ensures Linked(SetupOf(r, c, geo), c.buses[b], i, j)
    ensures exists e :: 0 <= e < |r.graph.edges| &&
                          Entry(r.graph.edges[e], r.edgeInfo[e]) == Forward(SetupOf(r, c, geo), c.buses[b], i, j)
    ensures !c.buses[b].isCircle ==>
              exists e :: 0 <= e < |r.graph.edges| &&
                            Entry(r.graph.edges[e], r.edgeInfo[e]) == Reverse(SetupOf(r, c, geo), c.buses[b], i, j)
  {
    var x := SetupOf(r, c, geo);
    var bus := c.buses[b];
    BusStopHasVertex(c, b, i);
    BusStopHasVertex(c, b, j);
    RidesAreBusEntries(x, bus, i, j);
    BusEntryInGraph(x, r.stopIds, b, Forward(x, bus, i, j));
    EntryStored(r.graph.edges, r.edgeInfo, GraphEntries(x, r.stopIds), Forward(x, bus, i, j));
    if !bus.isCircle {
      BusEntryInGraph(x, r.stopIds, b, Reverse(x, bus, i, j));
      EntryStored(r.graph.edges, r.edgeInfo, GraphEntries(x, r.stopIds), Reverse(x, bus, i, j));
    }
  }

  /** Ride edges leave a departure vertex and enter an arrival vertex,
      both inside the graph. */
  lemma {:induction false} RideShape(x: Setup, bus: Bus, e: Entry, n: nat)
    requires x.settings.busVelocity != 0.0 && StopsExist(x.catalogue, bus.stops) && IsRide(x, bus, e)
    requires forall name :: name in x.vertexIndex ==> x.vertexIndex[name] < n
    ensures e.edge.from % 2 == 1 && e.edge.to % 2 == 0
    ensures e.edge.from < 2 * n && e.edge.to < 2 * n
    ensures e.info.busName == bus.name
  {
  }

  /** Every edge joins two vertices of the graph; wait edges go from an
      arrival vertex, ride edges from a departure vertex. */
  lemma {:induction false} EdgesInRange(r: TransportRouter, c: TransportCatalogue, geo: Geodesic, settings: RoutingSettings, e: nat)
    requires Built(r, c, geo, settings) && e < |r.graph.edges|
    ensures r.graph.edges[e].from < r.graph.vertexCount && r.graph.edges[e].to < r.graph.vertexCount
    ensures r.graph.edges[e].from % 2 == 0 <==> e < |r.stopIds|
    ensures r.edgeInfo[e].busName == "" <== e < |r.stopIds|
  {
    if e < |r.stopIds| {
      WaitEdges(r, c, geo, settings, e);
    } else {
      RideEdges(r, c, geo, settings, e);
      var b :| 0 <= b < |c.buses| && IsRide(SetupOf(r, c, geo), c.buses[b], Entry(r.graph.edges[e], r.edgeInfo[e]));
      RideShape(SetupOf(r, c, geo), c.buses[b], Entry(r.graph.edges[e], r.edgeInfo[e]), |r.stopIds|);
    }
  }

  /* ---------------------------------------------------------------------
     Routes (transport_router.cpp:104-149)
     --------------------------------------------------------------------- */

  predicate ValidPath(r: TransportRouter, p: seq<nat>) {
    forall k :: 0 <= k < |p| ==> p[k] < |r.graph.edges| && p[k] < |r.edgeInfo|
  }

  /** `p` walks the graph from vertex u to vertex v. */
  predicate Connects(r: TransportRouter, u: nat, v: nat, p: seq<nat>)
    requires ValidPath(r, p)
    decreases |p|
  {
    if p == [] then u == v
    else r.graph.edges[p[0]].from == u && Connects(r, r.graph.edges[p[0]].to, v, p[1..])
  }

  function PathWeight(r: TransportRouter, p: seq<nat>): real
    requires ValidPath(r, p)
  {
    if p == [] then 0.0 else PathWeight(r, p[..|p| - 1]) + r.graph.edges[p[|p| - 1]].weight
  }

  /** What the engine is trusted to return: paths of valid edge ids that
      really connect the two vertices, with their total weight. */
  ghost predicate ValidSearch(r: TransportRouter, search: Search) {
    forall u, v :: search(u, v).Some? ==>
      && ValidPath(r, search(u, v).value.edges)
      && Connects(r, u, v, search(u, v).value.edges)
      && search(u, v).value.weight == PathWeight(r, search(u, v).value.edges)
  }

  function SumTimes(items: seq<RoutingItem>): real {
    if items == [] then 0.0 else SumTimes(items[..|items| - 1]) + items[|items| - 1].time
  }

  function ItemOf(r: TransportRouter, e: nat): RoutingItem
    requires e < |r.graph.edges| && e < |r.edgeInfo|
  {
    var info := r.edgeInfo[e];
    var weight := r.graph.edges[e].weight;
    if info.busName == "" then Wait(info.fromStopName, weight)
    else Ride(info.busName, info.spanCount, weight)
  }

  /** One item per edge: a wait at the edge's first stop when the edge has
      no bus name, a ride otherwise; each item takes its edge's weight. */
  function ReconstructRoute(r: TransportRouter, p: seq<nat>): (items: seq<RoutingItem>)
    requires ValidPath(r, p)
    ensures |items| == |p|
    ensures forall k :: 0 <= k < |p| ==> items[k].time == r.graph.edges[p[k]].weight
    ensures forall k :: 0 <= k < |p| ==>
      (items[k].Wait? <==> r.edgeInfo[p[k]].busName == "")
    ensures forall k :: 0 <= k < |p| && items[k].Wait? ==> items[k].stopName == r.edgeInfo[p[k]].fromStopName
    ensures forall k :: 0 <= k < |p| && items[k].Ride? ==>
      items[k].busName == r.edgeInfo[p[k]].busName && items[k].spanCount == r.edgeInfo[p[k]].spanCount
  {
    if p == [] then [] else ReconstructRoute(r, p[..|p| - 1]) + [ItemOf(r, p[|p| - 1])]
  }

  /** The items' times add up to the path's weight. */
  lemma {:induction false} ReconstructKeepsTime(r: TransportRouter, p: seq<nat>)
    requires ValidPath(r, p)
    ensures SumTimes(ReconstructRoute(r, p)) == PathWeight(r, p)
  {
    if p != [] {
      var q := p[..|p| - 1];
      ReconstructKeepsTime(r, q);
      assert ReconstructRoute(r, p)[..|p| - 1] == ReconstructRoute(r, q);
    }
  }

  function BuildRoute(r: TransportRouter, from: string, to: string, search: Search): (res: Option<RouteInfo>)
    requires ValidSearch(r, search)
    ensures from == to ==> res == Some(RouteInfo(0.0, []))
    ensures from != to && (from !in r.vertexIndex || to !in r.vertexIndex) ==> res.None?
    ensures from != to && from in r.vertexIndex && to in r.vertexIndex ==>
      (res.Some? <==> search(InVertexId(r.vertexIndex[from]), InVertexId(r.vertexIndex[to])).Some?)
    ensures from != to && res.Some? ==>
      var path := search(InVertexId(r.vertexIndex[from]), InVertexId(r.vertexIndex[to])).value;
      && res.value.items == ReconstructRoute(r, path.edges)
      && res.value.totalTime == path.weight == PathWeight(r, path.edges)
    ensures res.Some? ==> res.value.totalTime == SumTimes(res.value.items)
  {
    if from == to then Some(RouteInfo(0.0, []))
    else if from !in r.vertexIndex || to !in r.vertexIndex then None
    else
      var route := search(InVertexId(r.vertexIndex[from]), InVertexId(r.vertexIndex[to]));
      if route.None? then None
      else
        ReconstructKeepsTime(r, route.value.edges);
        Some(RouteInfo(route.value.weight, ReconstructRoute(r, route.value.edges)))
  }

  /** A stop that no bus serves has no route to any other stop. */
  lemma {:induction false} UnservedStopHasNoRoute(r: TransportRouter, c: TransportCatalogue, geo: Geodesic, settings: RoutingSettings,
                               search: Search, i: nat, to: string)
    requires Built(r, c, geo, settings) && ValidSearch(r, search)
    requires i < |c.stops| && !Served(c, i) && to != StopName(c, i)
    ensures BuildRoute(r, StopName(c, i), to, search).None?
    ensures BuildRoute(r, to, StopName(c, i), search).None?
  {
    UnservedStopHasNoVertex(c, i);
  }

  /** A non-empty route starts by waiting at its origin stop for the
      configured wait time. */
  lemma {:induction false} RouteStartsWithWait(r: TransportRouter, c: TransportCatalogue, geo: Geodesic, settings: RoutingSettings,
                            search: Search, from: string, to: string)
    requires Built(r, c, geo, settings) && ValidSearch(r, search)
    requires BuildRoute(r, from, to, search).Some? && BuildRoute(r, from, to, search).value.items != []
    ensures BuildRoute(r, from, to, search).value.items[0] == Wait(from, settings.busWaitTime as real)
  {
    var k := r.vertexIndex[from];
    var route := search(InVertexId(k), InVertexId(r.vertexIndex[to]));
    var p := route.value.edges;
    assert Connects(r, InVertexId(k), InVertexId(r.vertexIndex[to]), p);
    var e := p[0];
    assert r.graph.edges[e].from == InVertexId(k);
    EdgesInRange(r, c, geo, settings, e);
    WaitEdges(r, c, geo, settings, e);
    assert e == k;
  }
}
