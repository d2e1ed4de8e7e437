# Cluster membership view (qpid `ClusterMap`)

Every node of a qpid broker cluster keeps a `ClusterMap`. It is the node's view of the
cluster and holds four things:

- the **joiners**: peers that asked to join, each with its url;
- the **members**: admitted peers, each with its url;
- the **alive** set: the ids the group-communication layer currently reports as reachable;
- the **frame sequence**: a 64-bit counter that stamps the node's outgoing membership snapshots.

Events reach the view one at a time, already in total order:

- configuration changes replace the alive set;
- the join handshake (`updateRequest`, `updateOffer`, `ready`) moves a peer from unknown to joiner to member;
- `clearStatus` forgets joiners and members but keeps the alive set;
- `incrementFrameSeq` advances the counter.

Read-only queries answer membership questions. They give the counts and the ordered id and url listings, and pick the joiner with the least id as the target of the next offer.

The project has five modules:

- `ClusterTypes` (Types.dfy): `MemberId` (an `int`, so totally ordered), `Url` (an address value wrapping its text, with `EmptyUrl` as the empty url) and `Option`.
- `FrameSeq` (FrameSeq.dfy): the `uint64` counter. `Next` is the unsigned pre-increment, wrapping at 2^64. `Advance(s, k)` applies `k` increments.
- `MemberOrder` (MemberOrder.dfy): the least id of a set (`Least`) and a set's ids listed in ascending order (`SortedIds`).
- `JoinState` (JoinState.dfy): the per-id status `Unknown | Joiner | Member` and the transition table `Step` for the events `Request`, `Ready` and `Clear`. The mutators of the class are proved against this table. `Run` replays a sequence of events.
- `Cluster` (ClusterMap.dfy): the class `ClusterMap`. Its fields are `joiners`, `members`, `alive` and `frameSeq`. `Valid()` says joiners and members are disjoint. The state-changing operations are methods with `modifies this`. The queries are functions. The static `intersection` is a module-level function.

ClusterMap.h declares most of its operations without defining them. The inline ones are the membership tests, the url lookups, the counts, `getFrameSeq`, `incrementFrameSeq` and `clearStatus`. The declared-only ones are:

- the empty constructor;
- `configChange`, `firstJoiner`, `memberIds`, `memberUrls`, `getAlive` and `getMembers`;
- the join handshake `updateRequest`, `updateOffer` and `ready`;
- the static `intersection`;
- the private `getUrl`.

The model specifies these from their declarations and doc comments, and from the intended join protocol summarised below. Where neither settles a detail, the model makes a choice, and each such choice is listed under "## Left out". The handshake operations behave as follows:

- `updateRequest`: a member is left alone; any other id becomes (or stays) a joiner with the new url; the result is true only for a new joiner.
- `updateOffer`: accepted with the joiner's url exactly when the target is a joiner. It does not re-check the offering member `from`.
- `ready`: removes the id from the joiners and admits it as a member. It returns true only when the id was not already a member.
- `firstJoiner`: the least joiner id, or `None` when there are no joiners.

The doc comment of `configChange` (ClusterMap.h:58-60) says it returns "true if member set changed". The model reads "member set" as the group-communication layer's member set, which is the alive set that a configuration change replaces. So `ConfigChange` returns true exactly when the alive set differs afterwards. Joiners and members are untouched.

## Model

| member | source | states |
|---|---|---|
| `Cluster.ClusterMap.constructor` | cpp/src/qpid/cluster/ClusterMap.h:54 | the empty view: no joiners, no members, nobody alive, frame sequence 0, and the joiner/member disjointness invariant holds |
| `Cluster.ClusterMap.ConfigChange` | cpp/src/qpid/cluster/ClusterMap.h:58-61 | the alive set becomes the reported set; the result is true exactly when the alive set changed; joiners, members and frame sequence are unchanged; the invariant is kept |
| `Cluster.ConfigChangeTwice` | cpp/src/qpid/cluster/ClusterMap.h:58-61 | applying the same configuration twice in a row: the second call reports no change and the alive set is that configuration |
| `Cluster.ClusterMap.IsJoiner` | cpp/src/qpid/cluster/ClusterMap.h:63 | true exactly when the id is a key of the joiners; in a valid view, exactly when its join status is Joiner |
| `Cluster.ClusterMap.IsMember` | cpp/src/qpid/cluster/ClusterMap.h:64 | true exactly when the id is a key of the members, i.e. its join status is Member; in a valid view a member is never also a joiner |
| `Cluster.ClusterMap.IsAlive` | cpp/src/qpid/cluster/ClusterMap.h:65 | true exactly when the id is in the alive set |
| `Cluster.ClusterMap.GetJoinerUrl` | cpp/src/qpid/cluster/ClusterMap.h:67 | a joiner's recorded url; the empty url for an id that is not a joiner |
| `Cluster.ClusterMap.GetMemberUrl` | cpp/src/qpid/cluster/ClusterMap.h:68 | a member's recorded url; the empty url for an id that is not a member |
| `Cluster.UrlOf` | cpp/src/qpid/cluster/ClusterMap.h:102 | the url a map records for an id, or the empty url when the id is absent, never a failure |
| `Cluster.ClusterMap.FirstJoiner` | cpp/src/qpid/cluster/ClusterMap.h:70-71 | None exactly when there are no joiners; otherwise a joiner whose id is at most every joiner id |
| `Cluster.FirstJoinerAgreement` | cpp/src/qpid/cluster/ClusterMap.h:70-71 | two views with the same joiner ids pick the same first joiner |
| `MemberOrder.Least` | cpp/src/qpid/cluster/ClusterMap.h:70 | the least id of a non-empty set is in the set and below or equal to every element |
| `MemberOrder.LeastIsUnique` | cpp/src/qpid/cluster/ClusterMap.h:70 | any element below or equal to all others is the least id, so the tie-break depends on the set alone |
| `Cluster.ClusterMap.AliveCount` | cpp/src/qpid/cluster/ClusterMap.h:76 | the number of alive ids |
| `Cluster.ClusterMap.MemberCount` | cpp/src/qpid/cluster/ClusterMap.h:77 | the number of members |
| `MemberOrder.SortedIds` | cpp/src/qpid/cluster/ClusterMap.h:78 | a set's ids listed once each in strictly ascending order, as many as the set has |
| `Cluster.ClusterMap.MemberIds` | cpp/src/qpid/cluster/ClusterMap.h:78 | the member ids in strictly ascending order, exactly the members, one entry per member |
| `Cluster.ClusterMap.MemberUrls` | cpp/src/qpid/cluster/ClusterMap.h:79 | one url per member, the i-th being the url of the i-th member id in id order |
| `Cluster.ClusterMap.GetAlive` | cpp/src/qpid/cluster/ClusterMap.h:80 | the ids for which IsAlive holds |
| `Cluster.ClusterMap.GetMembers` | cpp/src/qpid/cluster/ClusterMap.h:81 | the ids for which IsMember holds |
| `Cluster.ClusterMap.UpdateRequest` | cpp/src/qpid/cluster/ClusterMap.h:83 | true exactly when the id was unknown; the id's status follows the Request transition (a member stays a member, anyone else becomes a joiner with the requested url); no other entry, the alive set or the frame sequence changes; the invariant is kept |
| `Cluster.ClusterMap.UpdateOffer` | cpp/src/qpid/cluster/ClusterMap.h:84-85 | a url is returned exactly when the target is a joiner, and it is that joiner's url; the view does not change |
| `Cluster.ClusterMap.Ready` | cpp/src/qpid/cluster/ClusterMap.h:87-88 | true exactly when the id was not a member before; afterwards it is a member (Ready transition), no longer a joiner, and a new member has the given url; nothing else changes; the invariant is kept |
| `Cluster.OfferTwice` | cpp/src/qpid/cluster/ClusterMap.h:84-85 | two offers to the same id in a row give the same answer, decided by current joiner membership alone: a joiner is offered its url both times, and a duplicate offer is not refused |
| `Cluster.JoinScenario` | cpp/src/qpid/cluster/ClusterMap.h:83-88 | a full handshake from an empty view: the offer to a requesting joiner returns its url, a node that drops out of the alive set stays a member, and an offer to an id that never asked is refused |
| `Cluster.ReplayJoin` | cpp/src/qpid/cluster/ClusterMap.h:83-99 | applying any sequence of requests, ready messages and status clears to one id through the class leaves its status where the transition table's replay ends; a member stays a member with no clear, and an id ends as a joiner only if it was one or a request was applied; alive set and frame sequence are kept |
| `JoinState.RunSnoc` | cpp/src/qpid/cluster/ClusterMap.h:83-99 | replaying one more event is one more step of the transition table |
| `JoinState.StatusOf` | cpp/src/qpid/cluster/ClusterMap.h:63-64 | an id is a Member exactly when it has a member entry, a Joiner exactly when it has only a joiner entry, and Unknown when it has neither |
| `JoinState.MemberStaysMember` | cpp/src/qpid/cluster/ClusterMap.h:87-88 | no replay of requests and ready messages without a clear ever demotes a member |
| `JoinState.JoinerNeedsRequest` | cpp/src/qpid/cluster/ClusterMap.h:83 | an id ends a replay as a joiner only if it started as one or the replay contains a request |
| `JoinState.ReadyAdmits` | cpp/src/qpid/cluster/ClusterMap.h:87-88 | an id whose last ready is followed by no clear ends the replay a member, whatever was replayed after |
| `Cluster.Intersection` | cpp/src/qpid/cluster/ClusterMap.h:90-93 | the result lies in both sets and holds every id that is in both |
| `Cluster.IntersectionCommutes` | cpp/src/qpid/cluster/ClusterMap.h:93 | intersection(a, b) == intersection(b, a) |
| `Cluster.IntersectionIdempotent` | cpp/src/qpid/cluster/ClusterMap.h:93 | intersection(a, a) == a |
| `Cluster.IntersectionWithEmpty` | cpp/src/qpid/cluster/ClusterMap.h:93 | intersection(a, {}) == {} |
| `Cluster.ClusterMap.GetFrameSeq` | cpp/src/qpid/cluster/ClusterMap.h:95 | returns the frame sequence and changes nothing |
| `Cluster.ClusterMap.IncrementFrameSeq` | cpp/src/qpid/cluster/ClusterMap.h:96 | the counter becomes (old + 1) mod 2^64, i.e. exactly old + 1 below the maximum; the new value is returned; joiners, members and alive are unchanged |
| `Cluster.IncrementFrameSeqTimes` | cpp/src/qpid/cluster/ClusterMap.h:96 | k calls of IncrementFrameSeq move the counter from s to (s + k) mod 2^64, exactly s + k when no wrap occurs, the last call returning the final value; joiners, members and alive are unchanged |
| `FrameSeq.Next` | cpp/src/qpid/cluster/ClusterMap.h:96 | an unsigned 64-bit pre-increment: (s + 1) mod 2^64, strictly greater than s unless s is the maximum |
| `FrameSeq.AdvanceModular` | cpp/src/qpid/cluster/ClusterMap.h:96 | k increments move the counter from s to (s + k) mod 2^64 |
| `FrameSeq.AdvanceWithoutWrap` | cpp/src/qpid/cluster/ClusterMap.h:106 | while no wrap-around occurs, k increments give exactly s + k, so the counter only grows, by one per increment |
| `FrameSeq.AdvanceFullCycle` | cpp/src/qpid/cluster/ClusterMap.h:106 | 2^64 increments bring the counter back to its start |
| `Cluster.ClusterMap.ClearStatus` | cpp/src/qpid/cluster/ClusterMap.h:98-99 | joiners and members become empty, every id's status becomes Unknown (Clear transition), and the alive set and frame sequence are kept |

## Left out

- `decode` (ClusterMap.h:52): the address-list text format is not part of this model. `ConfigChange` takes the already-decoded set of ids, so a malformed list and its format error are not modelled.
- `toMethodBody` (ClusterMap.h:74), the `FieldTable` snapshot constructor (ClusterMap.h:56) and the `operator<<` friends (ClusterMap.h:108-109): they depend on framing and stream types that are not part of this model.
- The `ClusterMap(id, url, isReady)` constructor (ClusterMap.h:55): ClusterMap.h declares it without saying which map it seeds, so it is not modelled. Only the empty constructor is.
- constructor (`Cluster.ClusterMap.constructor`): the frame sequence starts at 0. ClusterMap.h:54 declares the empty constructor without an initial value for the counter; 0 is the model's choice of the fixed baseline.
- Ready: a `ready` for an id that is already a member keeps that member's recorded url and changes nothing. ClusterMap.h:87-88 only promises the "new member" result; overwriting the url would fit it equally well, and the model does not promise which of the two the source does.
- UpdateOffer: it changes nothing and keeps no record of past offers. ClusterMap.h:85 declares it non-const, so the source may mutate the view. The model follows the intended join protocol, in which the offered-to node stays a joiner until its `ready` and an offer is accepted or refused on current joiner membership alone. As a consequence, duplicate offers are not refused. A repeated offer to a joiner before its `ready` is accepted again, with the same url (`Cluster.OfferTwice`). An offer is therefore not limited to returning the address once per admission cycle. Any mutation the source makes on an offer, such as removing the target from the joiners, is not captured.
- FirstJoiner: returning `None` when there are no joiners is the model's choice; ClusterMap.h:70-71 does not say what the source returns then.
- `MemberIds`: ids are listed as ids. The rendering of each id as a string (ClusterMap.h:78) is not modelled.
- UpdateRequest: the url string is wrapped as a `Url` unchanged. Parsing it, and any error from malformed urls, is not modelled. Because `Url` is a transparent wrapper, a request with an empty string gives a joiner whose url equals `EmptyUrl`. `GetJoinerUrl` cannot tell that joiner from an absent id, and `UpdateOffer` then accepts with `Some(EmptyUrl)`. The comment at ClusterMap.h:84 ("non-empty Url if accepted") can be read either way. If it means the optional holds a value on acceptance, `UpdateOffer` states that (`r.Some?` exactly for a joiner). If it means the url itself is non-empty, the model does not promise it for a request made with an empty string.
- `MemberId` is an `int`. The real identifier is a structured value whose definition is not part of this model; only its total order matters here.
- `AliveCount` and `MemberCount` return unbounded naturals rather than `size_t`. Both counts are bounded by memory, so the width never matters.
- `GetFrameSeq`, `GetJoinerUrl` and `GetMemberUrl` are non-const in C++. `getFrameSeq` only returns the counter; the two url lookups call the declared-only `getUrl`. The model has all three change nothing.
- Concurrency: the view is single-writer and does no locking, so the model has no threads.
- qpid/cpp/src/qpid/broker/Timer.cpp: threads, monitors and wall-clock time are not part of this model.
- qpid/cpp/src/qpid/broker/Broker.h: a network and lifecycle wrapper with no membership logic.
- qpid/cpp/src/qpid/cluster/exp/Settings.h: a configuration struct whose only logic is a duration conversion defined elsewhere.
