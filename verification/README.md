# DHT peer liveness and friend query scheduling

This project is a Dafny model of two parts of the tox DHT, written in Rust. It covers:

- **`SockAndTime<T>`**: the per-address-family liveness record of a peer. It holds the socket address, when the peer last answered, when it was last pinged, and the address a third party reported for it. From these it decides whether the peer is *bad*, whether it is *discarded*, and whether it should be pinged now.
- **`DhtNode`**: a dual-stack peer. It is a public key plus one IPv4 and one IPv6 record. It is built from a `PackedNode` (key and address), and it picks the address callers should use.
- **`DhtFriend`**: the per-friend state and one maintenance cycle of `send_nodes_req_packets`. The cycle has three parts:
  - it drains the bootstrap list;
  - it refreshes close nodes whose ping interval has passed;
  - it sends a throttled, distance-biased random NodesRequest to one non-bad close node.

Everything is a pure function. The clock is an explicit `now`: an `Instant` counted in nanoseconds, so `Duration::from_secs(c)` is `c * 10^9`. The two `random_usize()` draws are parameters `r1` and `r2`. The server is a sink: each operation returns the updated state together with the NodesRequests it issues, `(target, friend key, ping id)`, in issue order. `Env.newPingId` stands for the request queue's `new_ping_id`, as a function of the target key. `Env.addrOf` stands for the address picked by the `DhtNode` to `PackedNode` conversion, which is not part of this model. `ValidAt(now)` says every stored instant is at or before `now`. The lemmas show that every operation keeps it.

Modules:

- `Wrappers`: `Option`.
- `Seqs`: an order-preserving filter-map with its contract.
- `Net`: `std::net` addresses and `Ipv6Addr::to_ipv4`.
- `Liveness`: `SockAndTime`.
- `Peer`: `DhtNode`.
- `Friend`: `DhtFriend`.

Behaviour of the code worth noting:

- `get_socket_addr` compares with `>=` at dht_node.rs:144, so a tie in `last_resp_time` picks IPv4.
- `to_ipv4` folds both IPv4-mapped and IPv4-compatible IPv6 addresses into the IPv4 slot. This includes `::` and `::1`, so `::1` becomes `0.0.0.1` (`Peer.NewFromIpv6LoopbackIsIpv4`).
- The code never writes a close node's `last_ping_req_time` through `ping_addr`. The refresh at dht_friend.rs:87-88 reads and stamps a single field of the close-list element. That field is modelled as `Friend.CloseNode.lastPingReqTime`, separate from the per-family stamps of `DhtNode`.

## Model

| member | source | states |
|---|---|---|
| Net.ToIpv4Inverse | src/toxcore/dht/dht_node.rs:110-111 | `to_ipv4` gives `v4` exactly for the IPv4-compatible and the IPv4-mapped forms of `v4`, in both directions |
| Liveness.OptionLeIsTotalOrder | src/toxcore/dht/dht_node.rs:144 | Rust's ordering on `Option<Instant>` is a total order with `None` least |
| Liveness.New | src/toxcore/dht/dht_node.rs:42-55 | a new record keeps the address; its last response is `now` when it has an address and absent otherwise; it has no ping and no returned address; it is bad and discarded exactly when it has no address; it is due for a ping; its stamps are valid |
| Liveness.PingAddr | src/toxcore/dht/dht_node.rs:74-85 | returns the address exactly when there is one, the record is not discarded and the ping interval has passed; then the only change is stamping `last_ping_req_time` with `now`; otherwise nothing changes |
| Liveness.DiscardedIsBad | src/toxcore/dht/dht_node.rs:17-23 | the kill timeout (182 s) is longer than the bad timeout (122 s), so a discarded record is bad; a record that never answered is both |
| Liveness.StaysBad | src/toxcore/dht/dht_node.rs:58-66 | without a new answer, a bad or discarded record stays so as time passes |
| Liveness.NewRecordLifetime | src/toxcore/dht/dht_node.rs:42-66 | a record created with an address at `t` is bad exactly when more than 122 s have passed, and discarded exactly when more than 182 s have passed |
| Liveness.PingAddrThrottles | src/toxcore/dht/dht_node.rs:69-85 | after a successful ping, any ping within the next 60 s, including one at the same instant, returns nothing |
| Liveness.PingAddrKeepsHealth | src/toxcore/dht/dht_node.rs:74-85 | pinging changes neither badness nor discarding at any time, and keeps the stamps valid |
| Liveness.ValidAtLater | src/toxcore/dht/dht_node.rs:27-38 | a record whose stamps are valid now stays valid at every later time |
| Peer.New | src/toxcore/dht/dht_node.rs:106-123 | exactly one family gets the address: v4 goes to IPv4; a v6 that `to_ipv4` accepts goes to IPv4 with the same port; any other v6 goes to IPv6; the key is copied; each family is a fresh record created at `now`; the node is valid and not bad at `now` |
| Peer.ValidAtLater | src/toxcore/dht/dht_node.rs:95-103 | a node whose two records are valid now stays valid at every later time |
| Peer.DiscardedNodeIsBad | src/toxcore/dht/dht_node.rs:127-135 | both node predicates are conjunctions over the families, so a discarded node is bad, and a node neither family heard from is discarded |
| Peer.GetAllAddrs | src/toxcore/dht/dht_node.rs:167-181 | at most two addresses, exactly the node's addresses in the accepted families (IPv6 only in IPv6 mode), IPv4 before IPv6 |
| Peer.GetSocketAddr | src/toxcore/dht/dht_node.rs:138-164 | the result is one of `GetAllAddrs` and is absent exactly when that list is empty; with both families present in IPv6 mode it is the IPv4 address exactly when IPv4's `last_resp_time >=` IPv6's under `None < Some` |
| Peer.ToPackedNode | src/toxcore/dht/dht_node.rs:184-187 | present exactly when `get_socket_addr` is, carrying that address and the node's key |
| Peer.ToAllPackedNodes | src/toxcore/dht/dht_node.rs:191-196 | one packed node per available address, each with the node's key, and no others; IPv4 before IPv6 |
| Peer.ToPackedNodeAmongAll | src/toxcore/dht/dht_node.rs:184-196 | the single packed node is one of all packed nodes, and is absent exactly when there are none |
| Peer.UpdateReturnedAddr | src/toxcore/dht/dht_node.rs:199-210 | only the matching family's returned address and its time (`now`) change; key, addresses and liveness stamps are kept |
| Peer.UpdateReturnedAddrKeepsHealth | src/toxcore/dht/dht_node.rs:199-210 | a returned address changes neither badness, discarding, `get_socket_addr` nor `get_all_addrs`, and keeps the stamps valid |
| Peer.NewFromMappedIsIpv4 | src/toxcore/dht/dht_node.rs:106-116 | a peer learned from an IPv4-mapped IPv6 address has only an IPv4 address, on the same port |
| Peer.NewFromIpv6LoopbackIsIpv4 | src/toxcore/dht/dht_node.rs:110-111 | a peer learned from `[::1]:p` has the IPv4 address `0.0.0.1:p` and no IPv6 address |
| Peer.NewThenToPackedNode | src/toxcore/dht/dht_node.rs:106-123 | packing a new node gives back its packed node, except that a `to_ipv4`-convertible address comes back as IPv4 and an IPv6-only node packs to nothing in IPv4 mode |
| Friend.IntoPacked | src/toxcore/dht/dht_friend.rs:89 | converting a node for sending keeps its key |
| Friend.New | src/toxcore/dht/dht_friend.rs:38-47 | a new friend has the given key, empty close and bootstrap lists, zero attempts and no last request time; its stamps are valid at every time |
| Friend.PingBootstrapNodes | src/toxcore/dht/dht_friend.rs:63-78 | the bootstrap list becomes empty and nothing else changes; exactly one request per former bootstrap node, in order, to that node, for this friend, with a ping id bound to that node's key |
| Friend.BootstrapDrainIsOnce | src/toxcore/dht/dht_friend.rs:63-66 | an immediate second drain sends nothing |
| Friend.RefreshCloseNodes | src/toxcore/dht/dht_friend.rs:81-98 | exactly the close nodes not pinged within 60 s get a request and the stamp `now`; the count equals the number of due nodes; length, order, peers and all other entries are unchanged |
| Friend.RefreshKeepsOrder | src/toxcore/dht/dht_friend.rs:85-95 | refresh requests come in close-list order: refreshing `a + b` sends `a`'s requests, then `b`'s |
| Friend.RefreshLeavesNothingDue | src/toxcore/dht/dht_friend.rs:87-88 | after a refresh at `now`, no close node is due at `now` |
| Friend.RefreshTwiceIsSilent | src/toxcore/dht/dht_friend.rs:87-91 | a second refresh at the same instant sends nothing and changes nothing |
| Friend.GoodNodes | src/toxcore/dht/dht_friend.rs:107-110 | the pool holds only non-bad close nodes and every non-bad close node; it is empty exactly when all close nodes are bad |
| Friend.GoodNodesKeepOrder | src/toxcore/dht/dht_friend.rs:107-110 | the pool is in close-list order |
| Friend.RandomIndex | src/toxcore/dht/dht_friend.rs:115-120 | for any draws, the index is at most the first draw modulo `n`, which is below `n`; the subtraction never underflows; a first draw of zero gives 0, and a second draw of zero keeps the first draw |
| Friend.RandomIndexLowers | src/toxcore/dht/dht_friend.rs:116-120 | the second draw lowers the first draw's index by its remainder: for every `j` up to the first draw's index, a second draw of that index minus `j` picks `j` |
| Friend.RandomIndexSecondDrawMatters | src/toxcore/dht/dht_friend.rs:117-120 | once the first draw's index is nonzero, two second draws with different remainders give different indices |
| Friend.RandomIndexCovers | src/toxcore/dht/dht_friend.rs:115-120 | every index below `n` can be drawn |
| Friend.SendNodesReqRandom | src/toxcore/dht/dht_friend.rs:101-132 | sends nothing, and changes nothing, exactly when it is throttled (a recent request and attempts used up) or every close node is bad; otherwise it sends one request to a non-bad close node, adds one to the attempts and stamps `now`; key and lists are unchanged |
| Friend.SendNodesReqRandomTarget | src/toxcore/dht/dht_friend.rs:108-124 | when the query is not throttled and some close node is not bad, its one request goes to the non-bad node at the index `RandomIndex` computes from the two draws, for every pair of draws |
| Friend.SendNodesReqRandomPick | src/toxcore/dht/dht_friend.rs:115-124 | when the query is not throttled and some close node is not bad, the request goes to a non-bad node at or before the first draw's position in the non-bad list; a first draw landing on 0 picks the first non-bad node; a second draw of zero picks the first draw's node |
| Friend.SendNodesReqRandomSecondDraw | src/toxcore/dht/dht_friend.rs:116-124 | for every `j` up to the first draw's position, a second draw of that position minus `j` sends the request to the `j`-th non-bad node |
| Friend.SendNodesReqRandomReachesEveryGoodNode | src/toxcore/dht/dht_friend.rs:112-124 | when not throttled, every non-bad close node is the target for some pair of draws |
| Friend.SendNodesReqPackets | src/toxcore/dht/dht_friend.rs:50-60 | after a cycle the bootstrap list is empty and the key and close-list length are kept; the first requests are the bootstrap requests in order; at most one request per close node plus one more; every request is for this friend with a ping id bound to its target; the close list is the refreshed one, the counters are those of the random query run on the drained and refreshed friend, and the trace is the bootstrap requests, then the refresh requests, then the random one |
| Friend.ValidAtLater | src/toxcore/dht/dht_friend.rs:20-34 | a friend whose stamps are valid now stays valid at every later time |
| Friend.CycleKeepsValid | src/toxcore/dht/dht_friend.rs:50-60 | a cycle at `now` keeps every stamp of the friend at or before `now` |
| Friend.CycleTwiceSendsAtMostOne | src/toxcore/dht/dht_friend.rs:50-60 | a second cycle at the same instant sends at most one request, the random one |
| Friend.NewFriendCycleIsSilent | src/toxcore/dht/dht_friend.rs:203-204 | a new friend's cycle sends nothing and leaves the friend unchanged |
| Friend.TwoBootstrapNodesScenario | src/toxcore/dht/dht_friend.rs:156-191 | a new friend with two bootstrap nodes sends exactly two requests on its first cycle, one per node with that node's ping id, and keeps no bootstrap node |
| Friend.GetAddrsOfClients | src/toxcore/dht/dht_friend.rs:135-140 | at most one address per close node; each is the `get_socket_addr` of some close node; every close node that has one contributes it; in IPv4 mode all are IPv4 |
| Friend.GetAddrsOfClientsKeepsOrder | src/toxcore/dht/dht_friend.rs:135-140 | addresses come in close-list order: the list for `a + b` is `a`'s followed by `b`'s |

## Left out

- Bucket ranking, capacity and insertion (`Bucket::try_add`, `to_packed`, eviction): they live in kbucket.rs, which is not part of this model. Close and bootstrap lists are plain sequences, and no insert semantics are assumed. `Friend.PingBootstrapNodes` assumes that `to_packed` converts each bootstrap node with `into()` (`Env.addrOf`), one packed node per node, in list order.
- The `DhtNode` to `PackedNode` conversion (`into()`): it is not part of this model. It is `Env.addrOf`, which only keeps the key and takes some address.
- `new_ping_id`: in the code it is the server's request queue, which draws a fresh id and records it. Here it is a function of the target key, as the correlation is what matters.
- `NODES_REQ_INTERVAL` and `MAX_BOOTSTRAP_TIMES`: they are defined outside the modelled files, so they are parameters (`Friend.Limits`).
- Concurrency and I/O: futures, `join3`, `futures_unordered`, the `request_queue` write lock, packet encryption and transmission. A send is a trace entry. The bootstrap and refresh sends discard their results (dht_friend.rs:75 and :95), but the random query returns its send's result (dht_friend.rs:124 and :128), and `join3` passes that on (dht_friend.rs:55-57). The trace keeps issue order, not delivery order.
- Friend.SendNodesReqPackets: has no error outcome for the random query's send. A failed send makes the future returned by `send_nodes_req_packets` fail, but the counter and time updates at dht_friend.rs:125-126 happen either way, so the model's resulting friend is the code's in both cases; only the failure signal is not modelled, because sending is I/O.
- The clock and `random_usize`: they are parameters. `warn!` logging is omitted.
- Elapsed time saturates at zero for an instant after `now`, as `Instant::elapsed` does. Under `ValidAt` this never happens.
- Hole punching (`hole_punch`, `HolePunching`).
- The TCP codec (src/toxcore/tcp/codec.rs): it composes parsers and the encryption channel, neither of which is part of this model.
- `PublicKey` length (32 bytes) is not enforced, because the model never inspects key bytes.
- Friend.SendNodesReqRandom: `bootstrap_times` is a `u32` in the code. The model uses an unbounded counter, so it does not model the overflow after 2^32 attempts.
- The probability of each index in the random pick: the model pins the chosen node for every pair of draws: it is the non-bad node at the index `RandomIndex` computes, which is the first draw's position lowered by the second draw's remainder (`Friend.SendNodesReqRandomTarget`, `Friend.RandomIndexLowers`, `Friend.RandomIndexSecondDrawMatters`). It does not prove the resulting bias toward low indices as a distribution.
- The clock sources: the refresh (dht_friend.rs:87-88) and the stamp at dht_friend.rs:126 read the real `Instant::now()`, while the rest reads the crate's `clock_now()`. All of them are the single `now` here.
