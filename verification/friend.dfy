/**
 Per-friend DHT state (`DhtFriend`) and the periodic decision of whom to send
 a NodesRequest to. Each operation returns the updated friend together with
 the requests it hands to the server, in the order it issues them.
 */
module Friend {
  import opened Wrappers
  import opened Net
  import Seqs
  import Liveness
  import Peer

  type Instant = Liveness.Instant

  /**
   A close-node entry as the scheduling code reads it: a peer together with
   the single `last_ping_req_time` stamp the refresh consults and updates,
   which is separate from the per-family stamps inside the peer.
   */
  datatype CloseNode = CloseNode(node: Peer.DhtNode, lastPingReqTime: Option<Instant>)

  datatype DhtFriend = DhtFriend(
    pk: Peer.PublicKey,
    closeNodes: seq<CloseNode>,
    lastNodesReqTime: Option<Instant>,
    bootstrapTimes: nat,
    bootstrapNodes: seq<Peer.DhtNode>)

  /** A NodesRequest handed to the server: target, the friend searched for, and the ping id. */
  datatype NodesReq = NodesReq(target: Peer.PackedNode, friendPk: Peer.PublicKey, pingId: nat)

  /**
   What the friend code takes from its surroundings: the server's
   `new_ping_id` (a function of the target key) and the address the
   `DhtNode` to `PackedNode` conversion picks.
   */
  datatype Env = Env(newPingId: Peer.PublicKey -> nat, addrOf: Peer.DhtNode -> SocketAddr)

  /** The throttle of the random query, whose values are not fixed here. */
  datatype Limits = Limits(nodesReqInterval: nat, maxBootstrapTimes: nat)

  /** `DhtNode` into `PackedNode`: keeps the key and takes an address. */
  function IntoPacked(n: Peer.DhtNode, env: Env): (p: Peer.PackedNode)
    ensures p.pk == n.pk
  {
    Peer.PackedNode(env.addrOf(n), n.pk)
  }

  /** The request `send_nodes_req` issues to `n` on behalf of friend `friendPk`. */
  function Request(n: Peer.DhtNode, friendPk: Peer.PublicKey, env: Env): NodesReq
  {
    var p := IntoPacked(n, env);
    NodesReq(p, friendPk, env.newPingId(p.pk))
  }

  /** Every request of `trace` is for friend `friendPk` and carries a ping id bound to its target. */
  predicate WellTagged(trace: seq<NodesReq>, friendPk: Peer.PublicKey, env: Env)
  {
    forall k :: 0 <= k < |trace| ==>
      trace[k].friendPk == friendPk && trace[k].pingId == env.newPingId(trace[k].target.pk)
  }

  /** Every stamp the friend holds was taken at or before `now`. */
  predicate ValidAt(f: DhtFriend, now: Instant)
  {
    && Liveness.NotAfter(f.lastNodesReqTime, now)
    && (forall i :: 0 <= i < |f.closeNodes| ==>
          Peer.ValidAt(f.closeNodes[i].node, now) && Liveness.NotAfter(f.closeNodes[i].lastPingReqTime, now))
    && (forall i :: 0 <= i < |f.bootstrapNodes| ==> Peer.ValidAt(f.bootstrapNodes[i], now))
  }

  /** `DhtFriend::new`. */
  function New(pk: Peer.PublicKey): (f: DhtFriend)
    ensures f.pk == pk && f.closeNodes == [] && f.bootstrapNodes == []
    ensures f.bootstrapTimes == 0 && f.lastNodesReqTime == None
    ensures forall now :: ValidAt(f, now)
  {
    DhtFriend(pk, [], None, 0, [])
  }

  // ---------------------------------------------------------------------
  // Bootstrap-list drain

  function BootstrapRequests(nodes: seq<Peer.DhtNode>, friendPk: Peer.PublicKey, env: Env): (r: seq<NodesReq>)
    ensures |r| == |nodes|
    ensures forall i :: 0 <= i < |nodes| ==> r[i] == Request(nodes[i], friendPk, env)
  {
    if |nodes| == 0 then []
    else BootstrapRequests(nodes[..|nodes| - 1], friendPk, env) + [Request(nodes[|nodes| - 1], friendPk, env)]
  }

  /**
   `ping_bootstrap_nodes`: swaps the bootstrap list for an empty one and
   sends one request to each node it held, in list order.
   */
  function PingBootstrapNodes(f: DhtFriend, env: Env): (r: (DhtFriend, seq<NodesReq>))
    ensures r.0 == f.(bootstrapNodes := [])
    ensures |r.1| == |f.bootstrapNodes|
    ensures forall i :: 0 <= i < |f.bootstrapNodes| ==>
              r.1[i].target == IntoPacked(f.bootstrapNodes[i], env)
              && r.1[i].friendPk == f.pk
              && r.1[i].pingId == env.newPingId(f.bootstrapNodes[i].pk)
  {
    (f.(bootstrapNodes := []), BootstrapRequests(f.bootstrapNodes, f.pk, env))
  }

  // ---------------------------------------------------------------------
  // Close-node refresh

  /** The close node has not been pinged within the last `PING_INTERVAL` seconds. */
  predicate PingDue(c: CloseNode, now: Instant)
  {
    Liveness.AtLeastAgo(c.lastPingReqTime, now, Liveness.PING_INTERVAL)
  }

  function Stamp(c: CloseNode, now: Instant): CloseNode
  {
    if PingDue(c, now) then c.(lastPingReqTime := Some(now)) else c
  }

  function DueRequest(c: CloseNode, now: Instant, friendPk: Peer.PublicKey, env: Env): Option<NodesReq>
  {
    if PingDue(c, now) then Some(Request(c.node, friendPk, env)) else None
  }

  /** The positions of close nodes that are due for a ping. */
  function DueIndices(nodes: seq<CloseNode>, now: Instant): set<nat>
  {
    set i: nat | i < |nodes| && PingDue(nodes[i], now)
  }

  /**
   `ping_and_get_close_nodes` on the friend's close list: exactly the due
   nodes are sent a request and stamped with `now`; the list keeps its
   length, order and peers, and every other stamp.
   */
  function RefreshCloseNodes(nodes: seq<CloseNode>, now: Instant, friendPk: Peer.PublicKey, env: Env)
    : (r: (seq<CloseNode>, seq<NodesReq>))
    ensures |r.0| == |nodes|
    ensures forall i :: 0 <= i < |nodes| ==> r.0[i].node == nodes[i].node
    ensures forall i :: 0 <= i < |nodes| && PingDue(nodes[i], now) ==> r.0[i].lastPingReqTime == Some(now)
    ensures forall i :: 0 <= i < |nodes| && !PingDue(nodes[i], now) ==> r.0[i] == nodes[i]
    ensures |r.1| == |DueIndices(nodes, now)| <= |nodes|
    ensures forall k :: 0 <= k < |r.1| ==>
              exists i :: 0 <= i < |nodes| && PingDue(nodes[i], now)
                          && r.1[k] == Request(nodes[i].node, friendPk, env)
    ensures forall i :: 0 <= i < |nodes| && PingDue(nodes[i], now) ==>
              Request(nodes[i].node, friendPk, env) in r.1
  {
    var f := c => DueRequest(c, now, friendPk, env);
    var trace := Seqs.FilterMap(nodes, f);
    assert Seqs.KeptIndices(nodes, f) == DueIndices(nodes, now);
    (seq(|nodes|, i requires 0 <= i < |nodes| => Stamp(nodes[i], now)), trace)
  }

  // ---------------------------------------------------------------------
  // Random query

  /** The random query is skipped: a recent one was sent and the attempts are used up. */
  predicate Throttled(f: DhtFriend, now: Instant, limits: Limits)
  {
    && (match f.lastNodesReqTime
        case None => false
        case Some(t) => Liveness.Elapsed(t, now) < Liveness.FromSecs(limits.nodesReqInterval))
    && f.bootstrapTimes >= limits.maxBootstrapTimes
  }

  function GoodOf(c: CloseNode, now: Instant): Option<Peer.DhtNode>
  {
    if Peer.IsBad(c.node, now) then None else Some(c.node)
  }

  /** The close nodes that are not bad, in list order. */
  function GoodNodes(nodes: seq<CloseNode>, now: Instant): (r: seq<Peer.DhtNode>)
    ensures |r| <= |nodes|
    ensures forall k :: 0 <= k < |r| ==>
              !Peer.IsBad(r[k], now) && exists i :: 0 <= i < |nodes| && nodes[i].node == r[k]
    ensures forall i :: 0 <= i < |nodes| && !Peer.IsBad(nodes[i].node, now) ==> nodes[i].node in r
    ensures r == [] <==> forall i :: 0 <= i < |nodes| ==> Peer.IsBad(nodes[i].node, now)
  {
    var g := c => GoodOf(c, now);
    var r := Seqs.FilterMap(nodes, g);
    assert forall k :: 0 <= k < |r| ==> exists i :: 0 <= i < |nodes| && g(nodes[i]) == Some(r[k]);
    r
  }

  /**
   The distance-biased index of `send_nodes_req_random`: a first draw picks
   `i0` below `n`; a nonzero `i0` is then lowered by a second draw below
   `i0 + 1`. The subtraction never underflows and the index is in bounds.
   */
  function RandomIndex(n: nat, r1: nat, r2: nat): (i: nat)
    requires n > 0
    ensures i <= r1 % n < n
    ensures r1 % n == 0 ==> i == 0
    ensures r2 % (r1 % n + 1) == 0 ==> i == r1 % n
  {
    var i0 := r1 % n;
    if i0 == 0 then 0 else i0 - r2 % (i0 + 1)
  }

  /** Every index can be drawn: a first draw of `j` with a second draw of zero picks `j`. */
  lemma RandomIndexCovers(n: nat, j: nat)
    requires j < n
    ensures RandomIndex(n, j, 0) == j
    ensures exists r1: nat, r2: nat :: RandomIndex(n, r1, r2) == j
  {
    assert j % n == j;
  }

  /** A value below the modulus is its own remainder. */
  lemma SmallMod(a: nat, m: nat)
    requires a < m
    ensures a % m == a
  {
  }

  /**
   The second draw lowers the first draw's index by its remainder: a second
   draw of `r1 % n - j` lands on `j`, for every `j` up to the first draw's
   index.
   */
  lemma RandomIndexLowers(n: nat, r1: nat, j: nat)
    requires n > 0 && j <= r1 % n
    ensures RandomIndex(n, r1, r1 % n - j) == j
  {
    var i0 := r1 % n;
    SmallMod(i0 - j, i0 + 1);
  }

  /**
   Once the first draw's index is nonzero, the pick determines the second
   draw's remainder: distinct remainders give distinct indices.
   */
  lemma RandomIndexSecondDrawMatters(n: nat, r1: nat, r2: nat, r2': nat)
    requires n > 0 && r1 % n > 0
    ensures RandomIndex(n, r1, r2) == RandomIndex(n, r1, r2') ==>
              r2 % (r1 % n + 1) == r2' % (r1 % n + 1)
  {
  }

  /**
   `send_nodes_req_random`: unless throttled, sends one request to a non-bad
   close node picked by `RandomIndex`, counts the attempt and stamps it.
   */
  function SendNodesReqRandom(f: DhtFriend, now: Instant, r1: nat, r2: nat, limits: Limits, env: Env)
    : (r: (DhtFriend, seq<NodesReq>))
    ensures r.0.pk == f.pk && r.0.closeNodes == f.closeNodes && r.0.bootstrapNodes == f.bootstrapNodes
    ensures r.1 == [] <==>
              || Throttled(f, now, limits)
              || forall i :: 0 <= i < |f.closeNodes| ==> Peer.IsBad(f.closeNodes[i].node, now)
    ensures r.1 == [] ==> r.0 == f
    ensures r.1 != [] ==>
              |r.1| == 1
              && r.0.bootstrapTimes == f.bootstrapTimes + 1
              && r.0.lastNodesReqTime == Some(now)
              && exists i :: 0 <= i < |f.closeNodes| && !Peer.IsBad(f.closeNodes[i].node, now)
                             && r.1[0] == Request(f.closeNodes[i].node, f.pk, env)
  {
    if Throttled(f, now, limits) then (f, [])
    else
      var good := GoodNodes(f.closeNodes, now);
      if |good| == 0 then (f, [])
      else
        var chosen := good[RandomIndex(|good|, r1, r2)];
        (f.(bootstrapTimes := f.bootstrapTimes + 1, lastNodesReqTime := Some(now)),
         [Request(chosen, f.pk, env)])
  }

  /** When the query runs, its one request goes to the non-bad node `RandomIndex` picks. */
  lemma SendNodesReqRandomTarget(f: DhtFriend, now: Instant, r1: nat, r2: nat, limits: Limits, env: Env)
    requires !Throttled(f, now, limits) && GoodNodes(f.closeNodes, now) != []
    ensures var good := GoodNodes(f.closeNodes, now);
            SendNodesReqRandom(f, now, r1, r2, limits, env).1
            == [Request(good[RandomIndex(|good|, r1, r2)], f.pk, env)]
  {
  }

  /**
   When the query runs (not throttled, some close node not bad), the pick
   depends on the draws and leans toward the front of the non-bad list: it
   is never past the first draw's position, the first draw landing on zero
   picks the first non-bad node, and a second draw of zero keeps the first
   draw's node.
   */
  lemma SendNodesReqRandomPick(f: DhtFriend, now: Instant, r1: nat, r2: nat, limits: Limits, env: Env)
    requires !Throttled(f, now, limits) && GoodNodes(f.closeNodes, now) != []
    ensures var good := GoodNodes(f.closeNodes, now);
            var sent := SendNodesReqRandom(f, now, r1, r2, limits, env).1;
            (exists j :: 0 <= j <= r1 % |good| && sent == [Request(good[j], f.pk, env)])
            && (r1 % |good| == 0 ==> sent == [Request(good[0], f.pk, env)])
            && (r2 % (r1 % |good| + 1) == 0 ==> sent == [Request(good[r1 % |good|], f.pk, env)])
  {
    SendNodesReqRandomTarget(f, now, r1, r2, limits, env);
  }

  /**
   Each non-bad node up to the first draw's position is reached by lowering
   that position by the second draw: a second draw `r2` of the position minus
   `j` sends the request to the `j`-th non-bad node.
   */
  lemma SendNodesReqRandomSecondDraw(f: DhtFriend, now: Instant, r1: nat, r2: nat, j: nat,
                                     limits: Limits, env: Env)
    requires !Throttled(f, now, limits) && GoodNodes(f.closeNodes, now) != []
    requires j <= r1 % |GoodNodes(f.closeNodes, now)| && r2 == r1 % |GoodNodes(f.closeNodes, now)| - j
    ensures var good := GoodNodes(f.closeNodes, now);
            SendNodesReqRandom(f, now, r1, r2, limits, env).1 == [Request(good[j], f.pk, env)]
  {
    var good := GoodNodes(f.closeNodes, now);
    var n := |good|;
    assert RandomIndex(n, r1, r2) == j by { RandomIndexLowers(n, r1, j); }
    SendNodesReqRandomTarget(f, now, r1, r2, limits, env);
  }

  /** When the query is not throttled, every non-bad close node is reached by some pair of draws. */
  lemma SendNodesReqRandomReachesEveryGoodNode(f: DhtFriend, now: Instant, limits: Limits, env: Env, i: nat)
    requires !Throttled(f, now, limits)
    requires i < |f.closeNodes| && !Peer.IsBad(f.closeNodes[i].node, now)
    ensures exists r1: nat, r2: nat :: SendNodesReqRandom(f, now, r1, r2, limits, env).1
                                       == [Request(f.closeNodes[i].node, f.pk, env)]
  {
    var good := GoodNodes(f.closeNodes, now);
    assert f.closeNodes[i].node in good;
    var j :| 0 <= j < |good| && good[j] == f.closeNodes[i].node;
    RandomIndexCovers(|good|, j);
    assert |good| > 0;
    var r := SendNodesReqRandom(f, now, j, 0, limits, env);
    assert r.1 == [Request(good[j], f.pk, env)];
  }

  // ---------------------------------------------------------------------
  // The maintenance cycle

  /** The friend as the random query sees it: bootstrap list drained, close list refreshed. */
  function Refreshed(f: DhtFriend, now: Instant, env: Env): DhtFriend
  {
    f.(closeNodes := RefreshCloseNodes(f.closeNodes, now, f.pk, env).0, bootstrapNodes := [])
  }

  /**
   `send_nodes_req_packets`: the bootstrap drain, the close-node refresh and
   the random query, run one after the other on the friend.
   */
  function SendNodesReqPackets(f: DhtFriend, now: Instant, r1: nat, r2: nat, limits: Limits, env: Env)
    : (r: (DhtFriend, seq<NodesReq>))
    ensures r.0.pk == f.pk && r.0.bootstrapNodes == []
    ensures |r.0.closeNodes| == |f.closeNodes|
    ensures WellTagged(r.1, f.pk, env)
    ensures |f.bootstrapNodes| <= |r.1| <= |f.bootstrapNodes| + |f.closeNodes| + 1
    ensures forall i :: 0 <= i < |f.bootstrapNodes| ==> r.1[i] == Request(f.bootstrapNodes[i], f.pk, env)
    ensures r.0.closeNodes == RefreshCloseNodes(f.closeNodes, now, f.pk, env).0
    ensures r.0 == SendNodesReqRandom(Refreshed(f, now, env), now, r1, r2, limits, env).0
    ensures r.1 == PingBootstrapNodes(f, env).1
                   + RefreshCloseNodes(f.closeNodes, now, f.pk, env).1
                   + SendNodesReqRandom(Refreshed(f, now, env), now, r1, r2, limits, env).1
  {
    var t1 := PingBootstrapNodes(f, env).1;
    var t2 := RefreshCloseNodes(f.closeNodes, now, f.pk, env).1;
    var f2 := Refreshed(f, now, env);
    var random := SendNodesReqRandom(f2, now, r1, r2, limits, env);
    BootstrapWellTagged(f, env);
    RefreshWellTagged(f.closeNodes, now, f.pk, env);
    RandomWellTagged(f2, now, r1, r2, limits, env);
    WellTaggedAppend(t1, t2, f.pk, env);
    WellTaggedAppend(t1 + t2, random.1, f.pk, env);
    (random.0, t1 + t2 + random.1)
  }

  lemma WellTaggedAppend(a: seq<NodesReq>, b: seq<NodesReq>, friendPk: Peer.PublicKey, env: Env)
    requires WellTagged(a, friendPk, env) && WellTagged(b, friendPk, env)
    ensures WellTagged(a + b, friendPk, env)
  {
    assert forall k :: |a| <= k < |a + b| ==> (a + b)[k] == b[k - |a|];
  }

  lemma BootstrapWellTagged(f: DhtFriend, env: Env)
    ensures WellTagged(PingBootstrapNodes(f, env).1, f.pk, env)
  {
  }

  lemma RefreshWellTagged(nodes: seq<CloseNode>, now: Instant, friendPk: Peer.PublicKey, env: Env)
    ensures WellTagged(RefreshCloseNodes(nodes, now, friendPk, env).1, friendPk, env)
  {
    var t := RefreshCloseNodes(nodes, now, friendPk, env).1;
    forall k | 0 <= k < |t|
      ensures t[k].friendPk == friendPk && t[k].pingId == env.newPingId(t[k].target.pk)
    {
      var i :| 0 <= i < |nodes| && PingDue(nodes[i], now) && t[k] == Request(nodes[i].node, friendPk, env);
    }
  }

  lemma RandomWellTagged(f: DhtFriend, now: Instant, r1: nat, r2: nat, limits: Limits, env: Env)
    ensures WellTagged(SendNodesReqRandom(f, now, r1, r2, limits, env).1, f.pk, env)
  {
  }

  /** `get_addrs_of_clients`: the address each close node offers, skipping those with none. */
  function GetAddrsOfClients(f: DhtFriend, ipv6: bool): (r: seq<SocketAddr>)
    ensures |r| <= |f.closeNodes|
    ensures forall k :: 0 <= k < |r| ==>
              exists i :: 0 <= i < |f.closeNodes|
                          && Peer.GetSocketAddr(f.closeNodes[i].node, ipv6) == Some(r[k])
    ensures forall i :: 0 <= i < |f.closeNodes| && Peer.GetSocketAddr(f.closeNodes[i].node, ipv6).Some? ==>
              Peer.GetSocketAddr(f.closeNodes[i].node, ipv6).value in r
    ensures !ipv6 ==> forall k :: 0 <= k < |r| ==> r[k].V4?
  {
    var g := (c: CloseNode) => Peer.GetSocketAddr(c.node, ipv6);
    var r := Seqs.FilterMap(f.closeNodes, g);
    assert forall k :: 0 <= k < |r| ==>
             exists i :: 0 <= i < |f.closeNodes| && g(f.closeNodes[i]) == Some(r[k]);
    r
  }

  // ---------------------------------------------------------------------
  // Properties relating several calls

  /** The drain empties the list, so an immediate second drain sends nothing. */
  lemma BootstrapDrainIsOnce(f: DhtFriend, env: Env)
    ensures PingBootstrapNodes(f, env).0.bootstrapNodes == []
    ensures PingBootstrapNodes(PingBootstrapNodes(f, env).0, env).1 == []
  {
  }

  /** The requests of the refresh come in close-list order. */
  lemma {:induction false} RefreshKeepsOrder(a: seq<CloseNode>, b: seq<CloseNode>, now: Instant,
                                             friendPk: Peer.PublicKey, env: Env)
    ensures RefreshCloseNodes(a + b, now, friendPk, env).1
            == RefreshCloseNodes(a, now, friendPk, env).1 + RefreshCloseNodes(b, now, friendPk, env).1
  {
    Seqs.FilterMapAppend(a, b, c => DueRequest(c, now, friendPk, env));
  }

  /** After a refresh at `now` no close node is due at `now`. */
  lemma RefreshLeavesNothingDue(nodes: seq<CloseNode>, now: Instant, friendPk: Peer.PublicKey, env: Env)
    ensures forall i :: 0 <= i < |nodes| ==> !PingDue(RefreshCloseNodes(nodes, now, friendPk, env).0[i], now)
  {
    var ns := RefreshCloseNodes(nodes, now, friendPk, env).0;
    forall i | 0 <= i < |nodes| ensures !PingDue(ns[i], now) {
      if PingDue(nodes[i], now) {
        assert ns[i].lastPingReqTime == Some(now);
      } else {
        assert ns[i] == nodes[i];
      }
    }
  }

  /** A second refresh at the same instant sends nothing and changes nothing. */
  lemma RefreshTwiceIsSilent(nodes: seq<CloseNode>, now: Instant, friendPk: Peer.PublicKey, env: Env)
    ensures var ns := RefreshCloseNodes(nodes, now, friendPk, env).0;
            RefreshCloseNodes(ns, now, friendPk, env) == (ns, [])
  {
    var ns := RefreshCloseNodes(nodes, now, friendPk, env).0;
    RefreshLeavesNothingDue(nodes, now, friendPk, env);
    var r := RefreshCloseNodes(ns, now, friendPk, env);
    assert r.0 == ns;
  }

  /** The non-bad close nodes are listed in close-list order. */
  lemma {:induction false} GoodNodesKeepOrder(a: seq<CloseNode>, b: seq<CloseNode>, now: Instant)
    ensures GoodNodes(a + b, now) == GoodNodes(a, now) + GoodNodes(b, now)
  {
    Seqs.FilterMapAppend(a, b, c => GoodOf(c, now));
  }

  /** The friend's addresses come in close-list order. */
  lemma {:induction false} GetAddrsOfClientsKeepsOrder(f: DhtFriend, a: seq<CloseNode>, b: seq<CloseNode>,
                                                       ipv6: bool)
    requires f.closeNodes == a + b
    ensures GetAddrsOfClients(f, ipv6)
            == GetAddrsOfClients(f.(closeNodes := a), ipv6) + GetAddrsOfClients(f.(closeNodes := b), ipv6)
  {
    Seqs.FilterMapAppend(a, b, (c: CloseNode) => Peer.GetSocketAddr(c.node, ipv6));
  }

  /** A cycle keeps every stamp the friend holds valid. */
  lemma CycleKeepsValid(f: DhtFriend, now: Instant, r1: nat, r2: nat, limits: Limits, env: Env)
    requires ValidAt(f, now)
    ensures ValidAt(SendNodesReqPackets(f, now, r1, r2, limits, env).0, now)
  {
    var f2 := Refreshed(f, now, env);
    assert ValidAt(f2, now) by {
      forall i | 0 <= i < |f2.closeNodes|
        ensures Peer.ValidAt(f2.closeNodes[i].node, now)
                && Liveness.NotAfter(f2.closeNodes[i].lastPingReqTime, now)
      {
        assert f2.closeNodes[i].node == f.closeNodes[i].node;
      }
    }
    assert SendNodesReqPackets(f, now, r1, r2, limits, env).0
           == SendNodesReqRandom(f2, now, r1, r2, limits, env).0;
  }

  /**
   Right after a cycle, a second one at the same instant sends no bootstrap or
   refresh request: at most the random query goes out.
   */
  lemma CycleTwiceSendsAtMostOne(f: DhtFriend, now: Instant, r1: nat, r2: nat, s1: nat, s2: nat,
                                 limits: Limits, env: Env)
    ensures var g := SendNodesReqPackets(f, now, r1, r2, limits, env).0;
            |SendNodesReqPackets(g, now, s1, s2, limits, env).1| <= 1
  {
    var (f1, t1) := PingBootstrapNodes(f, env);
    var (ns, t2) := RefreshCloseNodes(f1.closeNodes, now, f.pk, env);
    var f2 := f1.(closeNodes := ns);
    var (g, t3) := SendNodesReqRandom(f2, now, r1, r2, limits, env);
    assert g.closeNodes == f2.closeNodes;
    RefreshTwiceIsSilent(f1.closeNodes, now, f.pk, env);
    var (g1, u1) := PingBootstrapNodes(g, env);
    var (ms, u2) := RefreshCloseNodes(g1.closeNodes, now, f.pk, env);
    var g2 := g1.(closeNodes := ms);
    var (g3, u3) := SendNodesReqRandom(g2, now, s1, s2, limits, env);
    assert u1 == [] && u2 == [];
    assert SendNodesReqPackets(g, now, s1, s2, limits, env).1 == u1 + u2 + u3;
  }

  /** A new friend knows no node, so its cycle sends nothing and leaves it as it was. */
  lemma NewFriendCycleIsSilent(pk: Peer.PublicKey, now: Instant, r1: nat, r2: nat, limits: Limits, env: Env)
    ensures SendNodesReqPackets(New(pk), now, r1, r2, limits, env) == (New(pk), [])
  {
    var f := New(pk);
    assert RefreshCloseNodes(f.closeNodes, now, pk, env) == ([], []);
    assert SendNodesReqRandom(f, now, r1, r2, limits, env) == (f, []);
  }

  /**
   A new friend with two bootstrap nodes sends exactly two requests on its
   first cycle, one per node with a ping id bound to that node's key, and
   keeps no bootstrap node.
   */
  lemma TwoBootstrapNodesScenario(pk: Peer.PublicKey, n1: Peer.DhtNode, n2: Peer.DhtNode, now: Instant,
                                  r1: nat, r2: nat, limits: Limits, env: Env)
    ensures var r := SendNodesReqPackets(New(pk).(bootstrapNodes := [n1, n2]), now, r1, r2, limits, env);
            r.0 == New(pk)
            && r.1 == [NodesReq(IntoPacked(n1, env), pk, env.newPingId(n1.pk)),
                       NodesReq(IntoPacked(n2, env), pk, env.newPingId(n2.pk))]
  {
    var f := New(pk).(bootstrapNodes := [n1, n2]);
    var (f1, t1) := PingBootstrapNodes(f, env);
    assert f1 == New(pk);
    assert RefreshCloseNodes(f1.closeNodes, now, pk, env) == ([], []);
    assert SendNodesReqRandom(f1, now, r1, r2, limits, env) == (f1, []);
  }

  /** Stamps valid now stay valid later. */
  lemma ValidAtLater(f: DhtFriend, now: Instant, later: Instant)
    requires ValidAt(f, now) && now <= later
    ensures ValidAt(f, later)
  {
    forall i | 0 <= i < |f.closeNodes| ensures Peer.ValidAt(f.closeNodes[i].node, later) {
      Peer.ValidAtLater(f.closeNodes[i].node, now, later);
    }
    forall i | 0 <= i < |f.bootstrapNodes| ensures Peer.ValidAt(f.bootstrapNodes[i], later) {
      Peer.ValidAtLater(f.bootstrapNodes[i], now, later);
    }
  }
}
