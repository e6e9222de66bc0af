# Transport catalogue — a Dafny model

This project models the core of a city transport catalogue in C++:
- a registry of stops and bus routes, with road distances between stops (`transport_catalogue.cpp`);
- a router that turns the catalogue into a weighted graph and rebuilds a trip out of the shortest path it finds (`transport_router.cpp`);
- a JSON library: the document tree, its parser and printer, and a fluent builder that checks every call (`json.cpp`, `json_builder.cpp`);
- the reader of the line-oriented text input, "Stop X: lat, lng" and "Bus N: A - B - C" (`input_reader.cpp`);
- the SVG writer used by the map renderer (`svg.cpp`).

Each component is one Dafny module:

| module | file | models |
|---|---|---|
| `Wrappers` | wrappers.dfy | `Option` and `Result` |
| `Catalogue` | catalogue.dfy | `TransportCatalogue` |
| `Router` | router.dfy | `TransportRouter` |
| `Json` | json.dfy | `json::Node`, the `Dict` ordered by key, the `As*` accessors |
| `JsonParser` | json_parser.dfy | `LoadString`, `LoadNumber`, `LoadNode`, `LoadArray`, `LoadDict`, `Load` |
| `JsonPrinter` | json_printer.dfy | `PrintNode`, `Print` |
| `JsonRoundTrip` | json_roundtrip.dfy | parsing what the printer wrote |
| `JsonBuilder` | json_builder.dfy | `json::Builder` |
| `InputReader` | input_reader.dfy | `InputReader` |
| `Svg` | svg.dfy | `svg::Color`, the stroke keywords, `Circle`, `Polyline`, `Text`, `Document` |

How the C++ is represented here:
- Pointers into the catalogue's `std::deque`s are indices into append-only sequences.
- The catalogue's index maps are maps from names.
- `Valid` is the invariant tying the registries and the indices together. Every modifying operation is proved to keep it.
- Doubles are `real`. The one rounding step modelled is GetDistance's conversion of the geographic distance to an int, which drops the fraction.
- The great-circle distance of `geo.h` is a parameter `geo`.
- Text output of a double is a parameter `fmt`.
- The shortest-path search of `router.h` is a parameter `search`. It is required to return a valid path of the graph it was given, with that path's weight.
- A JSON dictionary is a sequence of members kept sorted by key, as `std::map` keeps it. `Emplace` keeps the first value for a repeated key, as `std::map::emplace` does.
- The builder's stack of `Node*` is a stack of paths from the root.

## Model

| member | source | states |
|---|---|---|
| Catalogue.EmptyValid | transport-catalogue/transport_catalogue.cpp:18-57 | A fresh catalogue satisfies the invariant linking stops, buses and the name indices. |
| Catalogue.FindStop | transport-catalogue/transport_catalogue.cpp:49-52 | A stop is found exactly when one with that name is registered, and the index returned names it. |
| Catalogue.FindBus | transport-catalogue/transport_catalogue.cpp:54-57 | A bus is found exactly when one with that name is registered, and the bus returned carries that name. |
| Catalogue.AddStop | transport-catalogue/transport_catalogue.cpp:18-30 | A name already known changes nothing. A new name is appended, becomes findable at the new index, and every other name finds what it found before. |
| Catalogue.AddStopKeepsValid | transport-catalogue/transport_catalogue.cpp:18-30 | Adding a stop keeps the catalogue invariant. |
| Catalogue.KnownNames | transport-catalogue/transport_catalogue.cpp:36-44 | The names a route keeps are exactly the requested names that are registered stops. |
| Catalogue.ResolveStopsKeeps | transport-catalogue/transport_catalogue.cpp:36-44 | Resolving a route's names appends the indices of the known stops, in route order. |
| Catalogue.ResolveStopsIndexes | transport-catalogue/transport_catalogue.cpp:36-44 | Resolving a route adds the bus to the bus set of every known stop on it and leaves every other stop's set unchanged. |
| Catalogue.KeptStopsAreKnownNames | transport-catalogue/transport_catalogue.cpp:36-44 | The k-th kept index is a stop whose name is the k-th known name of the route. |
| Catalogue.AddBus | transport-catalogue/transport_catalogue.cpp:32-47 | The bus is appended with its resolved stops. Stops and distances are untouched. Exactly the known stops on the route gain the bus in their bus sets. |
| Catalogue.AddBusKeepsValid | transport-catalogue/transport_catalogue.cpp:32-47 | Adding a bus keeps the catalogue invariant, including the exactness of the stop-to-bus index. |
| Catalogue.KeptStopsMembership | transport-catalogue/transport_catalogue.cpp:36-44 | A registered stop is on the stored route exactly when its name was requested. |
| Catalogue.AddBusRebindsName | transport-catalogue/transport_catalogue.cpp:32-47 | After adding a bus, its name finds the new bus, other names find what they found before, and earlier buses keep their order. |
| Catalogue.TruncateTowardZero | transport-catalogue/transport_catalogue.cpp:133 | The implicit conversion of the geographic distance to the int result drops the fraction toward zero, for either sign. |
| Catalogue.GetDistance | transport-catalogue/transport_catalogue.cpp:121-134 | The distance set for (from, to) wins. Without one, the distance set for (to, from) is used. Without either, the result is the geographic distance truncated toward zero. |
| Catalogue.GetDistanceSymmetric | transport-catalogue/transport_catalogue.cpp:121-134 | When at most one direction has a set distance and the geographic distance is symmetric, both directions read the same distance. |
| Catalogue.SetDistance | transport-catalogue/transport_catalogue.cpp:117-119 | Exactly the pair (from, to) gets the new distance. All other pairs and all registries are unchanged. |
| Catalogue.SetDistanceEffect | transport-catalogue/transport_catalogue.cpp:117-134 | The set distance is read back in its direction. It also serves the reverse direction unless that direction has its own entry. Unrelated pairs read as before. |
| Catalogue.ElementsBound | transport-catalogue/transport_catalogue.cpp:68-69 | A route has no more unique stops than stops. |
| Catalogue.ForwardSums | transport-catalogue/transport_catalogue.cpp:74-96 | The loop's road and geographic sums equal the sums over consecutive stop pairs in travel order. |
| Catalogue.BackwardSums | transport-catalogue/transport_catalogue.cpp:82-96 | The return-leg loop sums the road and geographic distances over the reversed pairs. |
| Catalogue.Curvature | transport-catalogue/transport_catalogue.cpp:98-99 | Curvature is the ratio of road length to geographic length, and 1 when the geographic length is zero. |
| Catalogue.BusStatistics | transport-catalogue/transport_catalogue.cpp:59-101 | Stop count is n on a ring and 2n-1 otherwise. Unique stops are the distinct indices. Length is the road sum over the travelled route (there and back when not a ring). Curvature relates it to the geographic length. |
| Catalogue.GetBusInfo | transport-catalogue/transport_catalogue.cpp:59-101 | No answer exactly when the bus is unknown or has no stops. Otherwise the statistics above for the bus found. |
| Catalogue.GetBusesByStop | transport-catalogue/transport_catalogue.cpp:103-115 | No answer exactly for an unknown stop. Otherwise exactly the buses whose route passes the stop. |
| Catalogue.UnservedStopHasNoBuses | transport-catalogue/transport_catalogue.cpp:103-115 | A registered stop that no route passes answers with the empty set, not with "not found". |
| Catalogue.UsedStops | transport-catalogue/transport_catalogue.cpp:152-161 | The used stops are listed once each, in registry order, and each is on some route. |
| Catalogue.UsedStopsAreServed | transport-catalogue/transport_catalogue.cpp:152-161 | A stop is listed exactly when some bus serves it. |
| Catalogue.BusStopsAreUsed | transport-catalogue/transport_catalogue.cpp:152-161 | Every stop on every route is among the used stops. |
| Router.InVertexId | transport-catalogue/transport_router.cpp:8-16 | The in-vertex of stop k is even and maps back to k. |
| Router.OutVertexId | transport-catalogue/transport_router.cpp:8-16 | The out-vertex of stop k is odd and maps back to k. So no two stops share a vertex. |
| Router.ComputeTravelTime | transport-catalogue/transport_router.cpp:37-39 | Travel time in minutes, multiplied by the speed converted from km/h to metres per minute, gives back the distance. For a positive speed, the time is non-negative exactly when the distance is. |
| Router.TravelTimeAdditive | transport-catalogue/transport_router.cpp:37-39 | Travel time over two road segments is the sum of their times. |
| Router.VertexIndex | transport-catalogue/transport_router.cpp:25-30 | Every used stop's name is indexed, and an indexed name points to a position holding that stop. |
| Router.BuildVertexIndex | transport-catalogue/transport_router.cpp:25-30 | The loop builds exactly that index. |
| Router.VertexIndexExact | transport-catalogue/transport_router.cpp:25-30 | Each used stop is indexed at its own position in the used-stop list. |
| Router.UnservedStopHasNoVertex | transport-catalogue/transport_router.cpp:25-30 | A stop no bus serves gets no vertex. |
| Router.BusStopHasVertex | transport-catalogue/transport_router.cpp:25-30 | Every stop on a route gets a vertex. |
| Router.RideDistanceIsForwardRoad | transport-catalogue/transport_router.cpp:66-83 | The distance accumulated from stop i to j equals the road length of that part of the route. |
| Router.BackDistanceIsBackwardRoad | transport-catalogue/transport_router.cpp:84-98 | The reverse accumulation equals the road length of that part of the route travelled backwards. |
| Router.ReverseDistance | transport-catalogue/transport_router.cpp:84-98 | The inner reverse loop computes that backward distance. |
| Router.AddWaitEdges | transport-catalogue/transport_router.cpp:46-54 | One wait edge per used stop, from its in-vertex to its out-vertex, with the bus wait time and an info record without a bus. |
| Router.AddPair | transport-catalogue/transport_router.cpp:66-83 | One inner step extends the forward distance by one segment and emits that pair's edges. |
| Router.AddPairEdges | transport-catalogue/transport_router.cpp:68-98 | A pair (i, j) yields its forward ride edge, plus its reverse one when the bus is not a ring. |
| Router.AddRow | transport-catalogue/transport_router.cpp:58-99 | Stop i contributes the edges of every pair (i, j) with j after i, when the stop has a vertex. |
| Router.AddPairs | transport-catalogue/transport_router.cpp:66-99 | The inner loop emits the pairs of stop i in order of j. |
| Router.AddBusEdges | transport-catalogue/transport_router.cpp:56-101 | One bus contributes its rows in stop order. |
| Router.BuildGraph | transport-catalogue/transport_router.cpp:41-102 | The edge list and the info list match entry for entry: wait edges first, then every bus's ride edges. |
| Router.NewTransportRouter | transport-catalogue/transport_router.cpp:19-35 | The router holds the used stops, their vertex index, a graph with two vertices per stop, and the edges BuildGraph describes. |
| Router.BusEntriesAreRides | transport-catalogue/transport_router.cpp:56-101 | Every edge a bus contributes is a ride between two of its stops, forward or (off a ring) backward, with the matching span and time. |
| Router.RidesAreBusEntries | transport-catalogue/transport_router.cpp:56-101 | Every forward ride between two stops of a bus is among its edges, and so is every backward ride when the bus is not a ring. |
| Router.WaitEdges | transport-catalogue/transport_router.cpp:46-54 | In the built router, edge k is the wait edge of stop k with the wait time. |
| Router.RideEdges | transport-catalogue/transport_router.cpp:56-101 | Every edge after the wait edges is a ride of some bus. |
| Router.RideEdgesPresent | transport-catalogue/transport_router.cpp:56-101 | Every ride between two stops of a bus is an edge of the built graph. |
| Router.EdgesInRange | transport-catalogue/transport_router.cpp:19-102 | Every edge joins vertices of the graph. An edge leaves an in-vertex exactly when it is a wait edge. |
| Router.ReconstructRoute | transport-catalogue/transport_router.cpp:104-125 | One item per path edge, with the edge's weight as time. An item is a wait exactly when its edge carries no bus. Stop, bus and span come from that edge's info. |
| Router.ReconstructKeepsTime | transport-catalogue/transport_router.cpp:104-125 | The items' times add up to the weight of the path. |
| Router.BuildRoute | transport-catalogue/transport_router.cpp:127-149 | Same stop: an empty trip of zero time. Unknown stop: no route. Otherwise a route exactly when the search finds a path between the in-vertices. The route's items are the reconstruction of that path's edges, and its total time is the path's weight, which is also the sum of its items. |
| Router.UnservedStopHasNoRoute | transport-catalogue/transport_router.cpp:127-149 | A stop that no bus serves has no route to or from any other stop. |
| Router.RouteStartsWithWait | transport-catalogue/transport_router.cpp:104-149 | A non-empty trip starts by waiting at the departure stop for the bus wait time. |
| Json.StrLessIrreflexive | transport-catalogue/json.cpp:119-131 | The key order of a dictionary is irreflexive. |
| Json.StrLessTransitive | transport-catalogue/json.cpp:119-131 | The key order is transitive. |
| Json.StrLessTotal | transport-catalogue/json.cpp:119-131 | The key order is total. |
| Json.Get | transport-catalogue/json.h:14 | Looking a key up in a dictionary (`std::map<std::string, Node>`) finds a value exactly for a key present, and the member found is in the dictionary. |
| Json.Emplace | transport-catalogue/json.cpp:128 | The dictionary stays sorted and gains the key. An existing key keeps its old value, a new key gets the given value, and other keys are unchanged. |
| Json.EmplaceMembers | transport-catalogue/json.cpp:128 | Emplace introduces no member other than the new one. |
| Json.EmplaceGreatest | transport-catalogue/json.cpp:128 | A key greater than every key present is placed last. |
| Json.AsInt | transport-catalogue/json.cpp:264-267 | Succeeds exactly on an int node and returns its value. Otherwise the "not an int" error. |
| Json.AsBool | transport-catalogue/json.cpp:269-272 | Succeeds exactly on a bool node and returns its value. Otherwise the "not a bool" error. |
| Json.AsDouble | transport-catalogue/json.cpp:274-278 | Succeeds on a double and also on an int, which it converts. Otherwise the "not a number" error. |
| Json.AsString | transport-catalogue/json.cpp:280-283 | Succeeds exactly on a string node. Otherwise the "not a string" error. |
| Json.AsArray | transport-catalogue/json.cpp:285-288 | Succeeds exactly on an array node. Otherwise the "not an array" error. |
| Json.AsMap | transport-catalogue/json.cpp:290-293 | Succeeds exactly on a dict node. Otherwise the "not a map" error. |
| JsonParser.Unescape | transport-catalogue/json.cpp:36-45 | Exactly n, t, r, quote and backslash are accepted after a backslash. |
| JsonParser.LoadString | transport-catalogue/json.cpp:27-56 | A string read ends just past a closing quote inside the input. Its value is the decoding of the text before that quote: the five escapes are replaced, and no raw quote or line break occurs. |
| JsonParser.LoadStringOfDecoded | transport-catalogue/json.cpp:27-56 | When the text up to a quote decodes, the string read is that decoding and ends just past the quote. |
| JsonParser.LoadStringRejectsEscape | transport-catalogue/json.cpp:36-45 | A backslash followed by anything but n, t, r, quote or backslash, after text that decodes, is the "unrecognized escape sequence" error for that character. |
| JsonParser.LoadStringNeedsQuote | transport-catalogue/json.cpp:27-56 | Input without a closing quote is an error. |
| JsonParser.LoadStringRejectsLineBreak | transport-catalogue/json.cpp:27-56 | A raw line break before the closing quote is the "unexpected end of line" error. |
| JsonParser.ScanNumber | transport-catalogue/json.cpp:59-104 | A number read starts where asked and matches the grammar: optional minus, integer digits, optional fraction, optional exponent. |
| JsonParser.ScanNumberComplete | transport-catalogue/json.cpp:59-104 | Any grammatical number not followed by more number characters is read whole. |
| JsonParser.LoadNumber | transport-catalogue/json.cpp:59-104 | Succeeds exactly when the scan does. Without fraction or exponent and within int range it yields that int; otherwise the double the text denotes. |
| JsonParser.SkipSpaces | transport-catalogue/json.cpp:135-136 | Skipping stops at the first non-space character, and everything skipped is space. |
| JsonParser.LoadLiteral | transport-catalogue/json.cpp:153-165 | "true" gives the bool true, "false" the bool false and "null" the null node. Every other word fails with the "unknown token" error carrying that word. |
| JsonParser.LoadNode | transport-catalogue/json.cpp:133-172 | A successful read starts at the first non-space character, and that character announces the node: '[' an array, '{' a dict, '"' a string, a digit or '-' a number, a letter a literal. It ends just past the closing ']', '}' or quote of a container or string. Input of only spaces is the "unexpected EOF" error. Any dictionary read is sorted. |
| JsonParser.LoadNodeAt | transport-catalogue/json.cpp:137-172 | A non-space character that starts no value is the "unexpected character" error for that character. The end of input is the "unexpected EOF" error. |
| JsonParser.LoadArrayRoot | transport-catalogue/json.cpp:138 | A document starting with '[' loads as the array read after it, or fails with that read's error. |
| JsonParser.LoadDictRoot | transport-catalogue/json.cpp:139 | A document starting with '{' loads as the dictionary read after it, or fails with that read's error. |
| JsonParser.LoadArray | transport-catalogue/json.cpp:108-117 | A successful read ends just past a ']' and keeps the elements already read as a prefix. Each step of the loop is stated by the three lemmas that follow. |
| JsonParser.LoadArrayClose | transport-catalogue/json.cpp:111-112 | After spaces, a ']' ends the array with the elements read so far. |
| JsonParser.LoadArrayEof | transport-catalogue/json.cpp:111-116 | Input that ends before a ']' is the "array parsing error". |
| JsonParser.LoadArrayElement | transport-catalogue/json.cpp:111-114 | Any other next character starts an element after an optional comma. The node read there is appended and reading goes on after it. If that node fails, the array fails with its error. So the elements are exactly the nodes read, in order. |
| JsonParser.ArrayWithoutComma | transport-catalogue/json.cpp:108-117 | `[1 2]` loads as the array [1, 2], because the comma is optional. |
| JsonParser.LoadDict | transport-catalogue/json.cpp:119-131 | A successful read ends just past a '}' and yields a sorted dictionary. Each step of the loop is stated by the lemmas that follow. |
| JsonParser.LoadDictClose | transport-catalogue/json.cpp:122-123 | After spaces, a '}' ends the dictionary with the members read so far. |
| JsonParser.LoadDictEof | transport-catalogue/json.cpp:122-130 | Input that ends before a '}' is the "dict parsing error". |
| JsonParser.LoadDictKeyNotString | transport-catalogue/json.cpp:124-125 | A key that, after an optional comma and spaces, does not start with a quote is the "key must be a string" error. So is a comma at the end of input. |
| JsonParser.LoadDictColonExpected | transport-catalogue/json.cpp:126-127 | A key not followed, after spaces, by ':' is the "colon expected" error. |
| JsonParser.LoadDictMember | transport-catalogue/json.cpp:126-128 | A key followed by ':' reads the node after it, emplaces it under the key and goes on. If that node fails, the dictionary fails with its error. |
| JsonParser.LoadDictKeepsEntries | transport-catalogue/json.cpp:128 | Every key already read stays with its value, so a later repeated key never replaces it. |
| JsonParser.BareKeyRejected | transport-catalogue/json.cpp:124-125 | `{a:1}` fails with "key must be a string". |
| JsonParser.MissingColonRejected | transport-catalogue/json.cpp:127 | `{"a" 1}` fails with "colon expected". |
| JsonParser.TrailingCommaRejected | transport-catalogue/json.cpp:124-125 | `{"a":1,}` fails with "key must be a string". |
| JsonParser.RepeatedKeyKeepsFirst | transport-catalogue/json.cpp:128 | `{"a":1,"a":2}` loads as {"a": 1}, keeping the first value. |
| JsonParser.Load | transport-catalogue/json.cpp:328-330 | A document loads exactly when its root node does, and its root is that node. |
| JsonPrinter.EscapeChar | transport-catalogue/json.cpp:185-197 | Newline, tab, return, quote and backslash become a backslash pair. Every other character is kept. |
| JsonPrinter.EscapeSafe | transport-catalogue/json.cpp:185-197 | An escaped string holds no raw line break, and each quote in it is escaped. |
| JsonPrinter.Escape | transport-catalogue/json.cpp:185-197 | Escaping never shortens text, and text without any of the five special characters is written unchanged. |
| JsonPrinter.Spaces | transport-catalogue/json.cpp:13-25 | Indentation is exactly n spaces. |
| JsonPrinter.NatToString | transport-catalogue/json.cpp:181-182 | A natural number is written as decimal digits without leading zeros. |
| JsonPrinter.IntToString | transport-catalogue/json.cpp:181-182 | An int is written with a leading minus exactly when it is negative. |
| JsonPrinter.PrintNode | transport-catalogue/json.cpp:174-243 | Every non-double node prints as non-empty text whose first character starts a JSON value. |
| JsonPrinter.Print | transport-catalogue/json.cpp:332-336 | A printed document ends with a newline, and for a non-double root it starts with a character that starts a JSON value. |
| JsonRoundTrip.LoadEscaped | transport-catalogue/json.cpp:27-56 | Reading an escaped string followed by a quote gives back the original string and ends past the quote. |
| JsonRoundTrip.LoadQuoted | transport-catalogue/json.cpp:133-197 | A printed string node reads back as the same string. |
| JsonRoundTrip.LoadWord | transport-catalogue/json.cpp:154-166 | A printed true, false or null reads back as itself. |
| JsonRoundTrip.LoadPrintedInt | transport-catalogue/json.cpp:59-104 | A printed int reads back as the same int. |
| JsonRoundTrip.LoadPrintedScalar | transport-catalogue/json.cpp:133-197 | Any printed scalar (null, bool, int, string) reads back as itself, ending where the printed text ends. |
| JsonRoundTrip.LoadPrint | transport-catalogue/json.cpp:328-336 | Loading the printed document of a scalar root gives the same root. |
| JsonBuilder.Attach | transport-catalogue/json_builder.cpp:69-135 | Adding into an open container writes the array with the new item, or the dict with the emplaced key, at the top path, and clears the pending key. |
| JsonBuilder.Key | transport-catalogue/json_builder.cpp:62-67 | Key fails once built and when the root is already complete. It succeeds exactly inside a dict with no key pending, and then only sets the pending key. |
| JsonBuilder.Value | transport-catalogue/json_builder.cpp:69-89 | The error checks come in the source's order. On success the value becomes the root, or joins the open array, or is emplaced under the pending key, which is then cleared. The new root is the old one with only the open container rewritten. |
| JsonBuilder.Start | transport-catalogue/json_builder.cpp:91-135 | The empty container is added like a value, and the new root is the old one with only the open container rewritten. One entry is pushed. Corrected, that entry is the new container; as written, it is the greatest-key entry of the dict. |
| JsonBuilder.EndDict | transport-catalogue/json_builder.cpp:137-142 | Succeeds exactly when the open container is a dict, and then only pops it. |
| JsonBuilder.EndArray | transport-catalogue/json_builder.cpp:144-149 | Succeeds exactly when the open container is an array, and then only pops it. |
| JsonBuilder.Build | transport-catalogue/json_builder.cpp:151-163 | Fails once built, with no value, or with a container still open. Otherwise returns the root and marks the builder built. |
| JsonBuilder.Apply | transport-catalogue/json_builder.cpp:21-163 | Every builder call keeps the builder state consistent, and every call after Build fails. |
| JsonBuilder.RunConcat | transport-catalogue/json_builder.cpp:21-163 | A chain of calls runs as its first part followed by the rest, stopping at the first error. |
| JsonBuilder.BuiltRefusesAll | transport-catalogue/json_builder.cpp:21-30 | Once built, every further call fails with "already built". |
| JsonBuilder.PutWellFormed | transport-catalogue/json_builder.cpp:69-89 | Writing a sorted node into a sorted tree keeps every dictionary sorted. |
| JsonBuilder.FindPut | transport-catalogue/json_builder.cpp:69-89 | What is written at a path is what is found there afterwards. |
| JsonBuilder.PutPut | transport-catalogue/json_builder.cpp:69-89 | Writing twice at the same path keeps only the second write. |
| JsonBuilder.EmitInto | transport-catalogue/json_builder.cpp:62-149 | Inside an open container, the calls that spell out a node have the same effect as adding the node as one value. |
| JsonBuilder.BuildEmit | transport-catalogue/json_builder.cpp:62-163 | The calls that spell out any node, keys in dictionary order, build exactly that node. This holds for both pushes, because the key just used is then always the greatest. |
| JsonBuilder.SampleAsWritten | transport-catalogue/json_builder.cpp:104 | As written, the sample chain fails at EndArray with "not in array". |
| JsonBuilder.SampleDangling | transport-catalogue/json_builder.cpp:127 | As written, the value meant for the new array goes nowhere, and EndArray finds a non-array on top. |
| JsonBuilder.SampleCorrected | transport-catalogue/json_builder.cpp:91-135 | Corrected, the same chain builds {"a": [2], "b": 1}. |
| InputReader.FirstNonSpace | transport-catalogue/input_reader.cpp:53-71 | The position found is a non-space character at or after the start. |
| InputReader.FindChar | transport-catalogue/input_reader.cpp:53-71 | The position found holds the character sought, at or after the start. |
| InputReader.Trim | transport-catalogue/input_reader.cpp:29-35 | Trimming leaves no outer spaces and never lengthens the text. It leaves nothing exactly when the text is all spaces. |
| InputReader.TrimPadded | transport-catalogue/input_reader.cpp:29-35 | Trimming text padded with spaces gives back the text. |
| InputReader.TrimDecomposes | transport-catalogue/input_reader.cpp:29-35 | Every text is its trimmed part between two runs of spaces. |
| InputReader.PiecesShape | transport-catalogue/input_reader.cpp:37-51 | The reference definition of splitting yields only non-empty, trimmed pieces without the delimiter. |
| InputReader.Split | transport-catalogue/input_reader.cpp:37-51 | The source's split loop equals the reference definition of splitting, so every piece is non-empty, trimmed and free of the delimiter. |
| InputReader.SplitJoin | transport-catalogue/input_reader.cpp:37-51 | Splitting names joined with " delim " gives back the names. |
| InputReader.PiecesJoin | transport-catalogue/input_reader.cpp:37-51 | The reference split inverts that join as well. |
| InputReader.ParseCommandDescription | transport-catalogue/input_reader.cpp:53-71 | A parsed line is its command, a run of spaces, its id, a colon and its description. |
| InputReader.ParseLayout | transport-catalogue/input_reader.cpp:53-71 | A line laid out that way parses into exactly those parts. |
| InputReader.ParseLine | transport-catalogue/input_reader.cpp:82-87 | A line with a command is appended. Any other line is dropped. |
| InputReader.ParseLinesKeeps | transport-catalogue/input_reader.cpp:82-87 | The reader stores only commands, and every well laid-out line is stored with its own parts. |
| InputReader.ParseLineLayout | transport-catalogue/input_reader.cpp:82-87 | A laid-out line with a non-empty command is stored with its parts. |
| InputReader.ParseRoute | transport-catalogue/input_reader.cpp:98-112 | A route is a ring exactly when its text contains '>'. Its stops are split on '>' for a ring, otherwise on '-'. |
| InputReader.ApplyStops | transport-catalogue/input_reader.cpp:91-96 | After the stop commands, the known names are the old ones plus those commanded. Old stops keep their places, buses are untouched, and the invariant holds. |
| InputReader.FirstStopWins | transport-catalogue/input_reader.cpp:91-96 | A repeated stop keeps the coordinates of its first command. |
| InputReader.StopStays | transport-catalogue/input_reader.cpp:91-96 | A stop already registered is not moved or changed. |
| InputReader.ApplyBuses | transport-catalogue/input_reader.cpp:98-112 | The bus commands append their buses in command order. Stops are untouched and the invariant holds. |
| InputReader.ApplyCommands | transport-catalogue/input_reader.cpp:89-113 | All stops are applied before any bus, so a bus may name a stop commanded after it. |
| InputReader.RequestedBusIn | transport-catalogue/input_reader.cpp:98-112 | Every bus command's bus is among the buses added. |
| InputReader.ApplyCommandsBus | transport-catalogue/input_reader.cpp:89-113 | A bus keeps exactly the route names that are stops registered before or anywhere in the input. |
| Svg.RgbTextInjective | transport-catalogue/svg.cpp:13-16 | Different rgb colours print differently. |
| Svg.RgbaTextInjective | transport-catalogue/svg.cpp:17-21 | Different rgba colours print differently, up to the printing of the opacity. |
| Svg.RgbIsNotRgba | transport-catalogue/svg.cpp:7-26 | An rgb colour never prints like an rgba colour. |
| Svg.ColorText | transport-catalogue/svg.cpp:7-26 | A named colour prints as its name, an rgb colour as "rgb(...)" and an rgba colour as "rgba(...)". |
| Svg.CapKeywordInjective | transport-catalogue/svg.cpp:28-35 | Each line cap has its own keyword. |
| Svg.JoinKeywordInjective | transport-catalogue/svg.cpp:37-46 | Each line join has its own keyword. |
| Svg.EscapeTextSafe | transport-catalogue/svg.cpp:143-152 | Escaped text holds no <, >, quote or apostrophe, and every & in it starts an entity. |
| Svg.UnescapeEscape | transport-catalogue/svg.cpp:143-152 | Decoding the entities gives back the original text. |
| Svg.EscapePlain | transport-catalogue/svg.cpp:143-152 | Text without special characters is written unchanged. |
| Svg.RenderPoints | transport-catalogue/svg.cpp:77-89 | The loop writes the points space-separated, with no separator before the first. |
| Svg.PointListAppend | transport-catalogue/svg.cpp:72-89 | Adding a point appends a space and that point to the list. |
| Svg.FontAttrs | transport-catalogue/svg.cpp:121-142 | The font attributes are empty exactly when neither family nor weight is set. |
| Svg.TextContent | transport-catalogue/svg.cpp:121-155 | A text element is its open tag, the escaped data and the closing tag. The data contains no raw '<' and decodes back to the original. |
| Svg.RenderObject | transport-catalogue/svg.cpp:64-155 | A circle prints as a "<circle " element closed by "/>", a polyline opens with its point list in the points attribute and is closed by "/>", and a text runs from "<text" to "</text>". |
| Svg.AddPtr | transport-catalogue/svg.cpp:157-159 | Adding an object appends it after the existing objects. |
| Svg.RenderAddPtr | transport-catalogue/svg.cpp:157-171 | A document with one more object renders the same frame with that object's line added after the others. |
| Svg.BodyAppend | transport-catalogue/svg.cpp:161-171 | Rendering the objects of two lists in sequence is rendering each list in turn. |
| Svg.Render | transport-catalogue/svg.cpp:161-171 | A document is the XML header and the svg open tag, the objects, and the svg close tag. It is only that frame exactly when there are no objects. |

## Left out

- Input parsing of coordinates (`ParseCoordinates`, `std::stod`) is a parameter `coords`. Reading doubles from text is not modelled.
- The shortest-path search of `graph::Router` is a parameter. router.h and graph.h are not part of this model.
- The great-circle distance (`geo::ComputeDistance`) is a parameter. geo.h is not part of this model.
- How `std::ostream` writes a double is a parameter `fmt`. Doubles are exact reals, with no rounding or infinities.
- JsonParser.LoadNumber: the range errors of `std::stoi`/`std::stod` are not modelled. An integer text outside the int range becomes a double, as the fallback branch does.
- JsonRoundTrip.LoadPrint: the print-then-load round trip is proved for null, bools, ints and strings, not for arrays, dictionaries or doubles. Doubles go through the `fmt` parameter. The container proof was too costly to state within the solver limits.
- JsonParser.Load: trailing text after the root node is ignored, as in the source; no contract speaks of it.
- JsonPrinter.PrintNode: its contract states only the shape of the first character. Its correctness is stated through the scalar round trip.
- svg.h is not part of this model. The indentation a RenderContext prints is the string `indent`, and the fill and stroke attributes are already-rendered text.
- Circle, Polyline and Text setters only store a field. They are record updates and have no rows.
- `busVelocity == 0` is excluded (Router.ComputeTravelTime, Router.NewTransportRouter). The source divides by it and would produce infinities.
- The builder's context classes (json_builder.cpp:165-213) only restrict the calls available at compile time. They change no state, and every run of raw calls is modelled.
- map_renderer, json_reader, stat_reader, request_handler and main are outside this model.
- Catalogue.BusStatistics: `road_length` is a 32-bit `int` in the source (transport_catalogue.cpp:71-93). The model sums unbounded integers, so the overflow of a route longer than 2^31-1 metres is not modelled.
- Router.AddPair: the accumulated distance (transport_router.cpp:66-68) is an unbounded sum. The source's 32-bit `int` would overflow past 2^31-1 metres.
- Router.ReverseDistance: the same holds for the reverse distance (transport_router.cpp:85-87).
- JsonParser.SkipSpaces: characters are Unicode scalars here, while the source reads the bytes of UTF-8 text. `IsSpace`, `IsDigit` and `IsAlpha` are the classes the C locale gives `isspace`, `isdigit` and `isalpha`; no byte from 0x80 up and no non-ASCII scalar is in any of them. Dictionary keys are ordered by character, and `std::string` compares bytes as `unsigned char`; UTF-8 byte order is code-point order, so the two orders agree on every valid UTF-8 key. The model and the source differ only on input that is not valid UTF-8, and in the character carried by `UnexpectedChar` and `UnrecognizedEscape`, which is a code point here and a single byte in the source.
- `Valid` is required by the catalogue queries and holds for every catalogue built through the modelled operations (Catalogue.EmptyValid, Catalogue.AddStopKeepsValid, Catalogue.AddBusKeepsValid).

## Findings

| source | as written | input that shows it | evidently intended | confidence | as-written member | corrected member |
|---|---|---|---|---|---|---|
| transport-catalogue/json_builder.cpp:104, :127 | Opening a container inside a dictionary pushes `dict.rbegin()`, the entry with the greatest key. | StartDict, Key "b", Value 1, Key "a", StartArray, Value 2, EndArray: the array sits under "a" but "b" is pushed. The value 2 is lost and EndArray fails with "not in array". | Push the entry just emplaced under the pending key. | not executed | JsonBuilder.SampleAsWritten | JsonBuilder.SampleCorrected |
