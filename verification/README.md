# A verified model of scety's routing, relaying and connection limits

scety is a reverse proxy. This project models the parts of it that decide something, and proves what
they decide, for all inputs and all runs:

* **Virtual-host routing** (`src/core/host_router.rs`). A registered pattern is filed in one of ten stores
  by the shape of its labels, and a lookup asks the stores in a fixed order. `Glob` gives the meaning of a
  pattern (twice: as a recursive test and as a way of cutting the host into shares, proved equal).
  `Routing` says which registration serves a host, as the best of those that reach it under one total
  order, without mentioning any store; `Priorities` writes that order and the classification out by label
  positions. `HostRouter` is the imperative router itself, and its two public
  methods are proved against that: `AddPattern` appends a registration, `Matches` returns the route.
  Below it stand the heap-allocated label trie (`LabelTries`), the flat-vector table matcher (`DpMatch`),
  the invariant of each store (`Stores`) and the meaning of each probe (`Lookup`).
* **Resolution through the cache, and the split over ports** (`src/core/search_router.rs`,
  `src/network/global_router.rs`): the cache never shows in an answer, and what is found for a port and a
  host listens on that port and declares a pattern for that host.
* **Head rewriting and relaying** (`src/network/listeners.rs`): a line filter, sorted header injection, a
  growing read buffer, and the proof that the bytes relayed are a function of the bytes received, however
  they were split into reads.
* **The per-address connection limit** (`src/network/ip_limit.rs`): the two critical sections, and every
  interleaving of every connection's steps through them.
* **Framing headers and certificate names** (`src/network/listeners.rs`, `src/network/cert_check.rs`).

`dafny verify dfyconfig.toml` checks everything. Modules depend on each other in the order `Labels`, `Glob`,
`DpMatch`, `LabelTries`, `Patterns`, `Selection`, `Routing`, `Priorities`, `Stores`, `Lookup`, `HostRouters`,
`LruCaches`, `SearchRouters`; and `HeaderLines`, `HeaderRewrite`, `HeaderTables`, `Streams`, `Relay`, `RequestBuffer`,
`RequestHeads`, `Proxying`. `Framing`, `IpLimit` and `CertCheck` stand beside them.

## Where the program and its documentation part

* README.md:151 says `**` matches one or more segments. The code, and the test at
  src/core/host_router.rs:488, let it match none. The model follows the code.
* A pattern without `*` labels, whose first `**` is interior and which has another `**` later, such as
  `a.**.b.**.c`, has everything around its first `**` compared literally. `Patterns.Gap` is that class.
  `CompleteExactlyOutsideGap` proves that the router reaches every host a pattern covers if and only if the
  pattern is outside it; soundness holds for all patterns.
* A request is rewritten only if the bytes held when the parser is satisfied contain CRLF CRLF.
  `ForwardedIndependent` proves exactly when that makes the forwarded bytes depend on how the client's bytes
  arrived: when the first CRLF CRLF ends beyond the head the parser accepted (one ended by bare line feeds),
  within what the buffer can hold at that moment, and the bytes before it are not as rewriting would leave
  them. `BareRequestDependent` gives a family of such requests, `SplitDependenceWitness` one of them.
* Injected headers are meant to replace the client's. The code looks for the end of the head by the first
  CRLF CRLF, while a receiver, like the parser that accepted the request, skips empty lines in front and takes
  bare line feeds for line ends (section 2.2 of RFC 9112). `RequestHeads.ReceiverReads` proves exactly when the
  receiver reads the start line and an injected header once: the first CRLF CRLF is what ends the accepted head,
  and no other injected name is the same up to case. `EmptyLinesWitness`, `LateEmptyLineWitness` and
  `BareClaimPasses` are accepted requests that fail; `OrdinaryRequestRead` covers the usual ones.
* If headers are injected into the response, the client's further bytes follow only once the response's head has
  arrived or the buffer is full; a response that ends before that ends the exchange (`Relay.Uploaded`,
  `Proxying.OrdinaryRequest`).
* Checking a certificate name against a configured pattern vouches for all its hosts only for some patterns;
  `CheckCarriesExactly` gives them: no wildcard label, or one leading `*` before at least one plain label.
* Only the last `Transfer-Encoding` is looked at. `Framing.OrderIrrelevantExactly` says when the order of the
  headers then matters: when no other objection applies, and some encodings are chunked and some are not.
* A limit of zero leaves an entry for an address without connections; under any other limit, negative ones
  included, entries are exactly the live addresses (`IpLimit.EntriesExactlyLive`).

## Model

| member | source | states |
|---|---|---|
| Labels.SplitOnce | src/core/host_router.rs:213-218 | cuts at the first dot: no dot is left in the first part, and None exactly for dot-free strings |
| Labels.RSplitOnce | src/core/host_router.rs:219-224 | cuts at the last dot: no dot is left in the second part, and None exactly for dot-free strings |
| Labels.SplitAtDot | src/core/host_router.rs:54-63 | a key cut off the pattern string at a dot has exactly the remaining labels |
| Labels.JoinSplit | src/core/host_router.rs:66-72 | joining the labels of any string gives the string back |
| Labels.SplitJoin | src/core/host_router.rs:157-172 | splitting joined dot-free labels gives the labels back |
| Labels.SplitInjective | src/core/host_router.rs:149-172 | a string-keyed lookup compares label sequences: strings are equal iff their labels are |
| Labels.StarFreeSplit | src/core/host_router.rs:49-77 | a string has no star iff none of its labels has |
| Labels.StarCountIs | src/core/host_router.rs:49-51 | the star count is the number of stars among the characters |
| Labels.SameIgnoringCaseIs | src/network/cert_check.rs:149-157 | two texts are the same but for case iff at each place their characters are equal or the two cases of one ASCII letter |
| Glob.MatchesIffSegmentation | src/core/host_router.rs:349-387 | the glob relation holds iff the host can be cut into one share per pattern label: any number for `**`, one for `*`, an equal one for a literal |
| Glob.MatchesConcat | src/core/host_router.rs:349-387 | a concatenated pattern matches iff the host splits into a part for each half |
| Glob.MatchesByFirst | src/core/host_router.rs:349-387 | a leading `**` takes any number of host labels off, a leading `*` one, any other label one equal to it |
| Glob.NoDoubleMatch | src/core/host_router.rs:265-288 | without `**`, matching is positional and length-preserving |
| Glob.AroundMatch | src/core/host_router.rs:322-347 | one `**` between literal runs matches iff the host starts and, disjointly, ends with them (so `**` may take nothing) |
| Glob.AroundStarMatch | src/core/host_router.rs:301-320 | one `*` between literal runs matches iff the host is the same with one label in its place |
| Glob.PeelDouble | src/core/host_router.rs:367-372 | the table's recurrence for `**` is the glob relation on prefixes |
| Glob.PeelSingle | src/core/host_router.rs:373-379 | the table's recurrence for `*` and literals is the glob relation on prefixes |
| Glob.FittingComparable | src/core/host_router.rs:269-288 | two patterns that fit one host first differ where one has a literal and the other `*` |
| DpMatch.DpHostMatches | src/core/host_router.rs:349-387 | the flat-table matcher decides the glob relation, whatever the reused buffer held |
| DpMatch.AtInjective | src/core/host_router.rs:354-375 | flat indices never alias two cells of the table |
| DpMatch.AtInBounds | src/core/host_router.rs:354-386 | every flat index lies within the resized buffer |
| DpMatch.CellRecurrence | src/core/host_router.rs:361-384 | what one cell is computed from is exactly what it must hold |
| DpMatch.FillNext | src/core/host_router.rs:364-384 | writing the next cell leaves every earlier row and cell as it was |
| LabelTries.LabelTrie.Insert | src/core/host_router.rs:246-263 | walking and growing the nodes maps the labels to the index unless they already had one, and changes no other entry |
| LabelTries.LabelTrie.Descend | src/core/host_router.rs:248-259 | one step of the walk follows or adds the edge and leaves the represented map alone |
| LabelTries.LabelTrie.AddChild | src/core/host_router.rs:250-258 | hanging a fresh node on a missing edge keeps the tree shape and every other node and edge |
| LabelTries.LabelTrie.LookupFrom | src/core/host_router.rs:269-288 | backtracking finds, below a node, the fitting entry whose literals come earliest, or that there is none |
| LabelTries.LabelTrie.Lookup | src/core/host_router.rs:265-267 | of all stored patterns that fit the host, the lexicographically least with literals before `*`; None iff none fits |
| LabelTries.FoundBelow | src/core/host_router.rs:274-287 | trying the literal child first and the wildcard child second yields that choice |
| Patterns.IndexOf | src/core/host_router.rs:98-124 | the first position of a label |
| Patterns.ExactReach | src/core/host_router.rs:150-154 | a star-free pattern reaches exactly the host with its labels |
| Patterns.LeadingDoubleReach | src/core/host_router.rs:158-165 | a leading `**` reaches exactly the hosts that end in the known labels, including those labels alone |
| Patterns.TrailingDoubleReach | src/core/host_router.rs:166-173 | a trailing `**` reaches exactly the hosts that start with the known labels |
| Patterns.LeadingStarReach | src/core/host_router.rs:213-218 | a leading `*` reaches exactly the hosts whose labels after the first are the known ones |
| Patterns.TrailingStarReach | src/core/host_router.rs:219-224 | a trailing `*` reaches exactly the hosts whose labels before the last are the known ones |
| Patterns.InnerStarReach | src/core/host_router.rs:97-115 | a pattern filed with one interior `*` has literal labels around it and reaches by them |
| Patterns.TrieReach | src/core/host_router.rs:117-121 | a pattern filed in the trie reaches exactly the hosts it fits label by label |
| Patterns.ReachesOnlyCovered | src/core/host_router.rs:149-226 | whatever store a pattern is in, it reaches only hosts its documented meaning covers |
| Patterns.GapTier | src/core/host_router.rs:123-142 | the gap patterns are exactly those filed with one interior `**` and another `**` in the suffix |
| Patterns.GapFreeReaches | src/core/host_router.rs:149-226 | outside the gap, reaching and covering coincide on every host |
| Patterns.GapMisses | src/core/host_router.rs:341-344 | every gap pattern misses a host it covers: its own labels without the `**` |
| Patterns.CompleteExactlyOutsideGap | src/core/host_router.rs:123-142 | a pattern reaches every host it covers iff it is not a gap pattern |
| Patterns.GapWitness | src/core/host_router.rs:123-142 | `a.**.b.**.c` covers the host `a.b.c` and does not reach it |
| Selection.BestExists | src/core/host_router.rs:149-226 | a lawful preference has a best element iff something qualifies |
| Routing.RankLawful | src/core/host_router.rs:149-226 | the lookup priority (tier, known labels, earliest literals, order of registration) is a total, asymmetric, transitive order on the registrations that reach a host |
| Routing.Route | src/core/host_router.rs:149-226 | the routed index is that of the one registration preferred to all others that reach the host |
| Routing.RouteNone | src/core/host_router.rs:149-226 | a host is unrouted iff no registered pattern reaches it |
| Routing.RouteSound | src/core/host_router.rs:149-226 | a routed index belongs to a registration whose pattern covers the host, for all patterns |
| Routing.RouteComplete | src/core/host_router.rs:149-226 | an unrouted host is covered by gap patterns at most; without gap patterns, unrouted iff uncovered |
| Routing.RegistrationServes | src/core/host_router.rs:38-147 | one more registration serves a host iff it reaches it and is preferred, as the later one, to the one that served it; otherwise the host is served as before |
| Routing.RegistrationDecides | src/core/host_router.rs:38-147 | so the route becomes its index exactly then, and is unchanged otherwise |
| Routing.RegistrationFrame | src/core/host_router.rs:38-147 | registering a pattern that does not cover a host leaves its route unchanged |
| Routing.RegistrationKeepsRouted | src/core/host_router.rs:38-147 | no registration turns a routed host into an unrouted one |
| Routing.ExactRegistrationWins | src/core/host_router.rs:51-53 | registering a star-free host name last decides that host's route |
| Routing.KeyedDetermined | src/core/host_router.rs:150-224 | in a keyed tier, host and pattern length determine the pattern |
| Routing.OrderIrrelevantExactly | src/core/host_router.rs:38-147 | all orders of registration give a host the same route iff the registrations nothing outranks agree on the index |
| Routing.KeyedOrderIrrelevant | src/core/host_router.rs:49-121 | pairwise distinct patterns in the hash-map stores and the trie may be registered in any order |
| Priorities.PlainShapes | src/core/host_router.rs:39-52 | a pattern is exact iff no label has a star, and catches all iff it is a bare `*` or `**` |
| Priorities.EdgeStarShapes | src/core/host_router.rs:54-63 | a pattern is an edge `*` iff that is its first or last label of several and no other label has a star |
| Priorities.EdgeDoubleShapes | src/core/host_router.rs:66-88 | likewise for an edge `**` |
| Priorities.InnerStarShape | src/core/host_router.rs:90-116 | one interior `*` iff exactly one label is `*`, strictly inside, and none is `**` |
| Priorities.TrieShape | src/core/host_router.rs:117-121 | a pattern goes to the trie iff two of its labels are `*` and none is `**` |
| Priorities.InnerDoubleShape | src/core/host_router.rs:123-140 | one interior `**` iff no label is `*` and the first `**` is strictly inside |
| Priorities.ComplexShape | src/core/host_router.rs:90-147 | all the rest, written out: `*` and `**` both; a single `*`, or a first `**` without `*`, at an edge with a star elsewhere; or stars inside labels only |
| Priorities.InnerStarReachAt | src/core/host_router.rs:301-320 | an interior `*` reaches hosts of as many labels, equal everywhere else |
| Priorities.InnerDoubleReachAt | src/core/host_router.rs:322-347 | an interior `**` reaches hosts that begin with the labels before it and end with those behind it, without overlap, further `**` taken literally |
| Priorities.TrieReachAt | src/core/host_router.rs:265-288 | a trie pattern reaches hosts of as many labels, equal wherever it has no `*` |
| Priorities.OtherReach | src/core/host_router.rs:39-47 | the table-matched patterns reach what the glob relation says, the bare ones every host |
| Priorities.CoversIs | src/core/host_router.rs:39-47 | a pattern string covers every host if it is bare, and otherwise what the glob relation says of its labels |
| Priorities.Served | src/core/host_router.rs:149-226 | the registration a host is routed to reaches it; none that does lives in a store asked earlier, the order of the ten written out; and within its store it is the one preferred there, last or first registered, most labels, or earliest literal |
| Priorities.EarlierLiteralFirst | src/core/host_router.rs:265-288 | of two patterns with several `*` that fit a host, the one with the earlier literal is preferred |
| Stores.KeyedAdded | src/core/host_router.rs:51-63 | a string-keyed store keeps exactly its tier's patterns, each with the last index registered for it |
| Stores.CountedAdded | src/core/host_router.rs:70-88 | the same for the stores bucketed by number of known labels |
| Stores.ListAdded | src/core/host_router.rs:111-140 | a list store keeps one entry per registration of its tier, in order |
| Stores.ComplexAdded | src/core/host_router.rs:90-94 | the table-matched list keeps one entry per registration of its tier, in order |
| Stores.TrieAdded | src/core/host_router.rs:117-121 | the trie keeps exactly its tier's patterns, each with the first index registered for it |
| Stores.CatchAllAdded | src/core/host_router.rs:39-47 | the catch-all keeps the first bare wildcard registered |
| Stores.AddedKeepsStores | src/core/host_router.rs:38-147 | filing any registration keeps all ten stores right about all registrations so far |
| Stores.ReplayOk | src/core/host_router.rs:38-147 | after any run of registrations, all ten stores are right about it |
| Lookup.ExactAnswer | src/core/host_router.rs:150-154 | probing the exact map finds the best exact registration for the host, or that there is none |
| Lookup.LeadingStarAnswer | src/core/host_router.rs:213-218 | cutting at the first dot and probing finds the best leading-`*` registration, or that there is none |
| Lookup.TrailingStarAnswer | src/core/host_router.rs:219-224 | cutting at the last dot and probing finds the best trailing-`*` registration, or that there is none |
| Lookup.CountedProbe | src/core/host_router.rs:158-172 | probing with joined labels finds exactly the one pattern with that many known labels |
| Lookup.LargestHitAnswers | src/core/host_router.rs:157-173 | the hit with the most known labels is the best registration of its tier |
| Lookup.FirstHitAnswers | src/core/host_router.rs:178-192 | the first hit in a list store is the best registration of its tier |
| Lookup.TrieAnswer | src/core/host_router.rs:194-196 | the trie's choice is the best registration of its tier |
| Lookup.CatchAllAnswer | src/core/host_router.rs:225 | the catch-all is the best bare wildcard |
| Lookup.FirstAnswerIsRoute | src/core/host_router.rs:149-226 | asking the stores in their order and taking the first answer gives the route |
| HostRouters.StringDecides | src/core/host_router.rs:39-64 | the tests on the pattern string (equality, star count, edges) agree with the labels' tier |
| HostRouters.MatchesSingleInternalWildcard | src/core/host_router.rs:301-320 | true iff the host is prefix, one label, suffix |
| HostRouters.MatchesInternalDoubleStar | src/core/host_router.rs:322-347 | true iff the host starts with the prefix and, disjointly, ends with the suffix |
| HostRouters.FindDouble | src/core/host_router.rs:158-173 | walking the counts downwards returns the hit with the largest count |
| HostRouters.FindSimpleInternal | src/core/host_router.rs:178-184 | returns the index of the first matching entry, None if there is none |
| HostRouters.FindInternalDouble | src/core/host_router.rs:186-192 | returns the index of the first matching entry, None if there is none |
| HostRouters.FindComplex | src/core/host_router.rs:198-211 | returns the index of the first entry whose pattern matches by the table, None if there is none |
| HostRouters.HostRouter.constructor | src/core/host_router.rs:23-36 | a new router stands for no registration |
| HostRouters.HostRouter.AddPattern | src/core/host_router.rs:38-147 | the router stands for one more registration, and stays right about all of them |
| HostRouters.HostRouter.Classify | src/core/host_router.rs:38-147 | exactly the store of the pattern's tier changes, and by exactly this pattern |
| HostRouters.HostRouter.FileEdgeStar | src/core/host_router.rs:54-64 | a single edge star is cut off the string and the rest filed |
| HostRouters.HostRouter.FileByEdge | src/core/host_router.rs:70-88 | an edge `**` is filed under its known labels and their number |
| HostRouters.HostRouter.FileByStars | src/core/host_router.rs:90-146 | mixtures, interior stars, several stars and everything else go where their tier demands |
| HostRouters.HostRouter.Matches | src/core/host_router.rs:149-226 | returns the route of the host under all registrations made |
| HostRouters.HostRouter.Consult | src/core/host_router.rs:149-226 | the answer returned is that of the first store, in the fixed order, that has one |
| LruCaches.FrontSound | src/core/search_router.rs:49-54 | a hit or a store keeps the cache sound and within capacity, whatever is evicted |
| LruCaches.RunTransparent | src/core/search_router.rs:47-57 | over any run of lookups and any capacity, every answer, also a remembered None, is the one without the cache |
| LruCaches.AskedIsCached | src/core/search_router.rs:53-54 | an answer just given is remembered |
| LruCaches.LruCache.Get | src/core/search_router.rs:49 | a hit answers the remembered value and moves its entry to the front, the others keeping order and values; a miss changes nothing |
| LruCaches.TouchedIs | src/core/search_router.rs:49 | looking up in a list without duplicates is moving the one entry of the key to the front |
| LruCaches.LruCache.Put | src/core/search_router.rs:54 | the entry is in front, one of the same key is gone, all others keep their order, and only a full cache given a new key loses its last one |
| LruCaches.StoredIs | src/core/search_router.rs:54 | the same of the list: what is replaced, what stays and what is evicted |
| LruCaches.ThroughIs | src/core/search_router.rs:47-57 | one resolution: a hit answers what is remembered and moves it to the front; a miss answers what is asked and stores it |
| SearchRouters.RegistrationsIndex | src/core/search_router.rs:20-31 | every registered index points at a service whose one host or listed hosts have the pattern |
| SearchRouters.DeclaredFields | src/core/search_router.rs:20-31 | what a service declares is its one host and its listed hosts |
| SearchRouters.RegisteredInOrder | src/core/search_router.rs:20-31 | a service's one host is registered first and then its listed ones as listed, behind those of the services before it |
| SearchRouters.DeclaredRegistered | src/core/search_router.rs:20-31 | every one host and every listed host is registered under its service |
| SearchRouters.ResolvedInRange | src/core/search_router.rs:50-56 | a resolved index is never out of range of the configurations |
| SearchRouters.RunsUncached | src/core/search_router.rs:43-57 | over any run from a cold cache, answers and cached entries are the uncached routes |
| SearchRouters.SearchRouter.constructor | src/core/search_router.rs:16-41 | a new search router routes every declared pattern, with an empty cache of 128 |
| SearchRouters.SearchRouter.Find | src/core/search_router.rs:43-57 | returns the configuration the uncached router resolves to, and leaves the cache as one lookup must |
| SearchRouters.SearchRouter.WithCacheCapacity | src/core/search_router.rs:62-68 | another capacity starts with a fresh empty cache and changes no answer |
| SearchRouters.FillRouter | src/core/search_router.rs:17-31 | the filled router stands for exactly the declared patterns |
| SearchRouters.PartitionExact | src/network/global_router.rs:17-29 | every service goes, as often as it is listed, to its own port's router and to no other |
| SearchRouters.PortsIs | src/network/global_router.rs:17-23 | a port is listened on iff some service names it |
| SearchRouters.PortOrder | src/network/global_router.rs:25-29 | a port's services keep their configured order |
| SearchRouters.EndToEnd | src/network/global_router.rs:24-41 | what is found for port and host listens there and has, as its one host or among its listed hosts, a pattern covering the host; None leaves only gap patterns |
| SearchRouters.StartListen | src/network/global_router.rs:24-45 | one fresh router per distinct port, over exactly that port's services, with an empty cache, no two sharing any object |
| SearchRouters.FindAt | src/network/global_router.rs:30-41 | a lookup on one port leaves every router that shares nothing with it as it was |
| IpLimit.Connections.TryAcquire | src/network/ip_limit.rs:34-49 | takes a slot iff one is free under the limit; a negative limit takes none and never refuses |
| IpLimit.Connections.Drop | src/network/ip_limit.rs:17-32 | gives a tracked slot back; the last one removes the entry |
| IpLimit.StepKeepsInvariant | src/network/ip_limit.rs:17-49 | every step of every task keeps each count equal to the slots held, and the lock with one task |
| IpLimit.ReleasingCounted | src/network/ip_limit.rs:23-24 | the saturating subtraction never saturates |
| IpLimit.LockProtects | src/network/ip_limit.rs:22-40 | while one task is inside a critical section, no other changes the table |
| IpLimit.AcquireSection | src/network/ip_limit.rs:39-48 | the steps of one acquiring section add up to the method |
| IpLimit.ReleaseSection | src/network/ip_limit.rs:22-28 | the steps of one releasing section add up to the method |
| IpLimit.SomeoneCanStep | src/network/ip_limit.rs:17-49 | no deadlock: an unfinished connection means some task can step |
| IpLimit.RunInvariant | src/network/ip_limit.rs:17-49 | in every run of every interleaving the accounting holds at every moment |
| IpLimit.NeverOverLimit | src/network/ip_limit.rs:43-47 | under one limit, no address ever holds more slots than it |
| IpLimit.RefusedExactlyAtLimit | src/network/ip_limit.rs:43-45 | an attempt is refused iff its address already holds the limit |
| IpLimit.EntriesExactlyLive | src/network/ip_limit.rs:26-45 | the unlocked table lists exactly the addresses with live connections in every state of every run under a limit, iff that limit is not zero |
| IpLimit.SwitchedOff | src/network/ip_limit.rs:35-37 | under a negative limit the table stays empty and no connection ever holds a slot or enters a critical section |
| IpLimit.ZeroLimitLeavesEntry | src/network/ip_limit.rs:41-45 | a run under limit zero that ends with an entry for an address holding nothing |
| HeaderLines.LinesBack | src/network/listeners.rs:419 | cutting glued lines apart gives the lines |
| HeaderLines.LinesAreLines | src/network/listeners.rs:419 | cutting into lines loses nothing, and only the last line may lack its line feed |
| HeaderLines.LinesEnd | src/network/listeners.rs:419 | no line has a line feed before its end, and each but the last has one there |
| HeaderLines.StripHeadersByName | src/network/listeners.rs:417-432 | the loop returns the concatenation of the kept lines |
| HeaderLines.EqualIgnoreCaseIs | src/network/listeners.rs:424 | bytes are the same but for case iff at each place they are equal or the two cases of one ASCII letter |
| HeaderLines.CarriesIs | src/network/listeners.rs:420-426 | a line carries a name iff it begins with the name's bytes, in either letter case, and a colon |
| HeaderLines.StripDrops | src/network/listeners.rs:417-432 | a line of the head is left iff it begins with none of the names, in any letter case, and a colon |
| HeaderLines.StripLines | src/network/listeners.rs:417-432 | the lines of the output are the kept lines of the input, in order |
| HeaderLines.StripUnion | src/network/listeners.rs:417-432 | stripping a union of names is stripping in sequence, in either order |
| HeaderLines.StripIdempotent | src/network/listeners.rs:417-432 | stripping twice is stripping once, and no line carrying a name is left |
| HeaderLines.StripNothing | src/network/listeners.rs:417-432 | with no names nothing is removed |
| HeaderLines.StripConcat | src/network/listeners.rs:417-432 | stripping distributes over concatenation at line boundaries |
| HeaderLines.FindHeadEnd | src/network/listeners.rs:612 | the first position of CRLF CRLF, None iff there is none |
| HeaderLines.EmptyLineIs | src/network/listeners.rs:612 | what is looked for are the four bytes CR LF CR LF |
| HeaderLines.HeadEndStable | src/network/listeners.rs:604-614 | reading on neither moves a head end already found nor reveals an earlier one |
| HeaderLines.HeadEndsAfterBlock | src/network/listeners.rs:366-367 | behind whole lines with no empty line after a CRLF among them, the first CRLF CRLF is the one put there |
| HeaderRewrite.RewriteHead | src/network/listeners.rs:627-635 | the loop returns the rewritten bytes, or the bytes as they are without a complete head |
| HeaderRewrite.RewrittenHead | src/network/listeners.rs:357-371 | for every message, the bytes sent up to their first CRLF CRLF are exactly the new head, with all later bytes verbatim, iff a complete head is held and stripping leaves no empty line right behind a line ended by CRLF |
| HeaderRewrite.HeadCutShort | src/network/listeners.rs:357-371 | otherwise their first CRLF CRLF comes before the first injected line |
| HeaderRewrite.WellEndedReplaced | src/network/listeners.rs:357-371 | bytes up to the first CRLF CRLF in which every line feed follows a carriage return are always replaced as a whole |
| HeaderRewrite.InjectedCarries | src/network/listeners.rs:421-426 | an injected line carries a colon-free name iff its own name, up to its first colon, is that name up to case |
| HeaderRewrite.HeaderLineColon | src/network/listeners.rs:364 | an injected line is name, colon, space, value and CRLF |
| HeaderRewrite.HeadAndRest | src/network/listeners.rs:357-371 | the stripped head, the injected lines, and everything from the empty line on |
| HeaderRewrite.WithoutHead | src/network/listeners.rs:368-370 | without a CRLF CRLF the bytes go on as they are |
| HeaderRewrite.InjectedExactlyOnce | src/network/listeners.rs:360-365 | an injected header is in the new head exactly once iff no other injected name equals it up to case |
| HeaderRewrite.StartLineKept | src/network/listeners.rs:362 | space-free names leave the first line that is not empty, a request or status line, in its place |
| HeaderRewrite.FoundOnceExactly | src/network/listeners.rs:349-371 | for a receiver that takes all up to the first CRLF CRLF for the head, as this code does: an injected header is found once iff a complete head is held, stripping leaves no empty line right behind a line ended by CRLF, and no other injected name equals it up to case |
| HeaderRewrite.CutShortWitness | src/network/listeners.rs:357-371 | a request whose injected line ends up behind its first CRLF CRLF |
| HeaderRewrite.RewritingChangesNothing | src/network/listeners.rs:357-371 | rewriting changes nothing iff the head ends with the injected lines already and carries their names nowhere else |
| HeaderRewrite.AlreadyInjectedLines | src/network/listeners.rs:357-371 | for names and values without line feeds that means the head's lines are those of the new head |
| HeaderRewrite.NothingToInject | src/network/listeners.rs:595-599 | rewriting with no headers changes nothing |
| HeaderTables.LessTotal | src/network/listeners.rs:488 | the key order is total and strict |
| HeaderTables.LessIs | src/network/listeners.rs:488 | a key comes before another iff it is smaller at the first difference, or a proper prefix |
| HeaderTables.ListingIs | src/network/listeners.rs:483-490 | the sorted listing has an entry iff the table has it |
| HeaderTables.ListingOfTable | src/network/listeners.rs:483-490 | the sorted listing of a table does not depend on the table's iteration order |
| HeaderTables.SortedHeaders | src/network/listeners.rs:483-490 | every entry of the table exactly once, in ascending order of key |
| HeaderTables.AddressOf | src/network/listeners.rs:344-347 | the address before the last colon, or all of it without one |
| HeaderTables.Merged | src/network/listeners.rs:349-354 | the service's value where it has the key, the global one elsewhere, and no other key |
| HeaderTables.UpstreamHeaders | src/network/listeners.rs:349-355 | the same with the forwarded-for key, which always has the client's address |
| HeaderTables.ForwardedForSpelled | src/network/listeners.rs:355 | that key is X-Forwarded-For, letter by letter |
| HeaderTables.RewriteRequest | src/network/listeners.rs:349-371 | the bytes sent are those held, rewritten with one ascending list: the client's address, the service's value where it has the key, the global one elsewhere; no other order of iteration gives another |
| Streams.ReadInto | src/network/listeners.rs:605-610 | a read of any size moves bytes from the stream behind those held and loses none |
| Streams.Doubled | src/network/listeners.rs:622-623 | growing keeps what is held and strictly enlarges the buffer up to the limit |
| Relay.RelayUpstreamResponse | src/network/listeners.rs:586-640 | for every split into reads the client receives one function of the upstream's bytes, and the upstream the client's further bytes unless the response ends within the buffer without a head |
| Relay.RelayedIs | src/network/listeners.rs:586-640 | both directions over the upstream's bytes: what the client gets, and whether the client's further bytes follow, by where the first CRLF CRLF ends and whether that is within the limit |
| Relay.RelayBuffered | src/network/listeners.rs:601-640 | the path behind the shortcut does this for every header list, the empty one included |
| Relay.BufferHead | src/network/listeners.rs:601-625 | the loop ends within the limit, holds exactly what was read, and stops at a head, a full buffer or the end |
| Relay.RewrittenIffWithinLimit | src/network/listeners.rs:612-624 | the head is rewritten iff its empty line ends within the limit; otherwise the stream is verbatim |
| Relay.RewritePrefix | src/network/listeners.rs:629-637 | rewriting what is held and passing on the rest is rewriting the whole |
| Relay.ShortcutAgrees | src/network/listeners.rs:595-640 | for no headers the path behind the shortcut would send the client the same bytes, iff it had room to read into or there was nothing to read |
| RequestBuffer.ReadRequest | src/network/listeners.rs:492-584 | for a parser that does not change its mind, decided, full or ended depends on the client's bytes alone; the buffer holds exactly what was read |
| RequestBuffer.OutcomeIs | src/network/listeners.rs:505-583 | decided iff the parser decides on some prefix that fits; else full iff the bytes fill the buffer, and ended iff they do not |
| RequestBuffer.ReadUntilJudged | src/network/listeners.rs:505-583 | before every read there is room within the limit, and each way out says what was held |
| RequestBuffer.CapacityStep | src/network/listeners.rs:568-575 | the buffer stays as it is until full and then doubles once, up to the limit |
| RequestBuffer.HeldRange | src/network/listeners.rs:505-583 | exactly which amounts can be held when the parser accepts, over all ways the bytes may arrive |
| RequestBuffer.ReachedIsAccepted | src/network/listeners.rs:505-583 | every request that goes to a service is accepted from some amount on, so the results about such requests cover all that is forwarded |
| RequestBuffer.ForwardedIndependent | src/network/listeners.rs:357-373 | what the upstream receives for an accepted request is independent of the split into reads, iff the first CRLF CRLF is not behind the accepted head within reach of the buffer, or the bytes before it are as rewriting would leave them |
| RequestBuffer.OrdinaryIndependent | src/network/listeners.rs:357-373 | an accepted head that holds a CRLF CRLF is rewritten the same however it is read |
| RequestBuffer.HeadRuleStable | src/network/listeners.rs:522 | the rule of bare or full line ends, empty lines skipped in front, never changes its verdict as bytes arrive |
| RequestBuffer.BareRequestDependent | src/network/listeners.rs:357-373 | every request of two lines ended by bare line feeds depends on how it is read, if CRLF CRLF follows and fits into the buffer |
| RequestBuffer.SplitDependenceWitness | src/network/listeners.rs:357-373 | `GET / HTTP/1.1` with `Host: a`, ended by bare line feeds: two splits send different bytes |
| RequestHeads.CompleteIffRead | src/network/listeners.rs:522 | the rule is satisfied exactly when skipping empty lines and taking lines up to the first empty one, bare or full, gives a head |
| RequestHeads.ReadHeadIs | src/network/listeners.rs:522 | lines are read as the head iff the bytes are empty lines, those lines, none of them empty, an empty line, and anything |
| RequestHeads.ReadAsMeantIs | src/network/listeners.rs:349-371 | read as meant: the start line first, one line that is the header, and no other line that begins with its name in any letter case |
| RequestHeads.AcceptedMessage | src/network/listeners.rs:522 | a request accepted from some byte on is, up to there, empty lines, a head of other lines, and one empty line; the head is what is read |
| RequestHeads.MessageAccepted | src/network/listeners.rs:522 | and every such message is accepted from its last byte on, whatever follows |
| RequestHeads.RewrittenRead | src/network/listeners.rs:357-371 | what a receiver reads of a rewritten message: its head with the headers replaced, the injected lines alone, or its head with lines only taken out, as the first CRLF CRLF ends with, before or behind the accepted head |
| RequestHeads.RewrittenAsMeant | src/network/listeners.rs:357-371 | for every accepted message that is rewritten, the start line and an injected header once are read, iff the first CRLF CRLF ends the accepted head and no other injected name equals it up to case |
| RequestHeads.ReceiverReads | src/network/listeners.rs:349-373 | for every accepted request, however much of it is held, the same; and if what is held goes on as it is, iff the client itself has sent just that line |
| RequestHeads.OrdinaryHeadEnd | src/network/listeners.rs:357-358 | with a carriage return before every line feed of the head and not two empty lines in front, the first CRLF CRLF ends the accepted head |
| RequestHeads.OrdinaryRequestRead | src/network/listeners.rs:349-373 | such a request, with names distinct up to case: start line and every injected header read, each header once, all bytes behind the head verbatim |
| RequestHeads.FullRequestRead | src/network/listeners.rs:349-371 | a request of a start line and one field line with CRLF throughout: every injected header is read once, with the start line, iff its name is unique |
| RequestHeads.ConfiguredOnce | src/network/listeners.rs:349-373 | for every accepted request and table, a configured header is read once, with the start line, iff the first CRLF CRLF ends the accepted head and no other key is that name up to case, or the client's own bytes go on and have just that line |
| RequestHeads.ForwardedForOnce | src/network/listeners.rs:344-373 | so the upstream reads exactly one forwarded-for line, with the client's own address, under exactly these conditions |
| RequestHeads.EmptyLinesInFront | src/network/listeners.rs:357-371 | any request behind two empty lines: the injected lines are read for a head, and the whole request follows untouched |
| RequestHeads.EmptyLinesWitness | src/network/listeners.rs:357-371 | `GET / HTTP/1.1` with a forwarded-for line of its own, behind two empty lines, goes on with the claim in it and no injected header read with it |
| RequestHeads.LateEmptyLineWitness | src/network/listeners.rs:357-371 | a request ended by bare line feeds with CRLF CRLF behind it, read in one go: its head is read without any injected header |
| RequestHeads.BareClaimPasses | src/network/listeners.rs:357-371 | a request ended by bare line feeds is accepted and goes on as it is, with the client's own forwarded-for line read from it |
| Proxying.ProcessRequest | src/network/listeners.rs:281-408 | an accepted request goes to the upstream rewritten and its response to the client, for every split of both into reads; any other outcome sends the upstream nothing |
| Proxying.Exchange | src/network/listeners.rs:344-408 | what the held bytes, the configured headers, whose listings exist and are unique, and the response make of both directions |
| Proxying.SentIs | src/network/listeners.rs:344-408 | what was sent is, for some amount held at the decision, that much rewritten and the rest as far as it followed |
| Proxying.SentForwarded | src/network/listeners.rs:349-408 | if the response gets as far as copying, the upstream receives one function of the request, however it was read |
| Proxying.OrdinaryRequest | src/network/listeners.rs:349-408 | an accepted head that holds a CRLF CRLF: the upstream receives the rewritten request, or, if headers are injected into a response that ends too early, its held part rewritten |
| Proxying.UpstreamReads | src/network/listeners.rs:349-408 | what the upstream reads of what it received: start line and each configured header once iff its name is unique, if the first CRLF CRLF ends the accepted head; otherwise a configured header only if the client sent just that line |
| Framing.ValidateFramingHeaders | src/network/listeners.rs:434-462 | accepts iff all lengths agree, length and encoding do not both occur, and the last encoding is chunked; and which objection is raised otherwise |
| Framing.JudgeSpelled | src/network/listeners.rs:434-462 | the verdict over names spelled Content-Length and Transfer-Encoding in any letter case: differing lengths, both kinds, or a last encoding that is not chunked, in this order |
| Framing.OneLengthAccepted | src/network/listeners.rs:439-461 | one Content-Length of any value is accepted |
| Framing.OneEncodingJudged | src/network/listeners.rs:445-460 | one Transfer-Encoding is accepted iff it is chunked |
| Framing.ChunkedIs | src/network/listeners.rs:455-458 | a value is chunked iff its text is that word, in any letter case, with any white space around it |
| Framing.UndecodedNotChunked | src/network/listeners.rs:455-458 | a value that is no text is not chunked |
| Framing.NamesSpelled | src/network/listeners.rs:439-446 | the two names, letter by letter |
| Framing.SpaceIs | src/network/listeners.rs:456 | the characters that are trimmed |
| Framing.OrderIrrelevantExactly | src/network/listeners.rs:434-462 | the verdict, and also acceptance alone, is the same for every order of the headers, iff some objection applies in any order or the encodings are all chunked or all not |
| Framing.OrderMatters | src/network/listeners.rs:445-460 | otherwise one order is accepted and another is rejected |
| Framing.OneEncodingOrderIrrelevant | src/network/listeners.rs:434-462 | with at most one encoding the order does not matter |
| Framing.OrderMattersForTwo | src/network/listeners.rs:445-460 | with one chunked and one other encoding alone it does |
| CertCheck.FirstCut | src/network/cert_check.rs:151-152 | cutting at the first dot takes off the first label |
| CertCheck.DomainMatchesIs | src/network/cert_check.rs:149-157 | a leading `*.` stands for exactly one label, the rest and every other name is compared without regard to case |
| CertCheck.PlainCarries | src/network/cert_check.rs:149-157 | for plain and leading-`*` patterns, a name accepted for the pattern is accepted for all its hosts |
| CertCheck.CheckCarriesExactly | src/network/cert_check.rs:149-157 | it is so for exactly these patterns |

## Left out

* Sockets, tasks, `select!`, timeouts, cancellation, logging: runtime plumbing. A read yields any non-empty
  part of what is pending that fits; the two directions of a bidirectional copy run one after the other, as
  neither affects the other.
* `httparse`: an arbitrary function from bytes to a verdict; where a result needs it, one whose verdict does
  not change as bytes are added.
* `std::str::from_utf8`: an arbitrary decoder, a parameter of the framing check. White space is the set that
  `str::trim` removes.
* The internals of the `lru` crate: a recency list with `get` and `put` stands for its contract.
* Hash-map iteration order, and the algorithm inside `sort_by`: entries are collected in an arbitrary order
  and sorted by insertion; the result is proved independent of both.
* The mutex around the cache: one `find` holds it from beginning to end, so a find is one step. The mutex of
  the connection table is modelled step by step.
* Status codes sent to the client, including that the 400, 423 and 431 paths go on to send a 404 as well
  (src/network/listeners.rs:318-321 with :524-572), and the cleaning of the `Host` value.
* TLS, ACME, X.509 and trust chains, configuration parsing and validation, the multi-port fields, the label
  limit, the WebSocket test, the command line and the error pages: library calls, text, or small case splits.
* `usize` and `u16` widths: indices and counts are unbounded; none of the modelled arithmetic can reach the
  limits of a machine word before memory ends.
- RequestHeads.ReceiverReads: asks that injected names and values hold no line feed, that names hold no space and
  the name counted no colon, as header names do not, and that the accepted head begins with a start line, a line
  with a space before any colon, as the parser demands; a configured value with a line feed is several lines, so
  there is no one line to count.
- Proxying.ProcessRequest: says nothing of what the client receives when its request is refused, and takes the
  connection to the upstream as made; the response's bytes are given, so an upstream that waits for the rest of
  the request before it answers is not modelled.
- RequestBuffer.HeadRuleStable: the rule tells only where a head ends; a parser also rejects what is malformed.
- IpLimit.NeverOverLimit: is about runs under one limit, as the configuration gives one; the accounting in
  IpLimit.RunInvariant needs no such assumption.
