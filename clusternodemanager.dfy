/**
 * The cluster node pool of netutils/clusternodemanager.go, with its locks,
 * goroutine and logging taken away: three ordered lists of `host:port`
 * entries (all configured, currently available, currently broken) and a
 * round-robin counter. The TCP liveness probe `checkSocket` is not part of
 * this model: each health-check pass takes its answers as a `probe`.
 */
module NetUtils {
  import opened Wrappers
  import opened GoText
  import opened NodeLists
  import opened Widths

  /** The errors a caller can see: the two package errors and ParseUint's. */
  datatype Error =
    | ErrInvalidCluster
    | ErrNoValidNode
    | PortError(port: string, err: NumError)

  /** The counter after one atomic increment, wrapping at 2^64. */
  function Next(idx: uint64): (r: uint64)
    ensures idx as int < TWO_TO_THE_64 - 1 ==> r as int == idx as int + 1
    ensures idx as int == TWO_TO_THE_64 - 1 ==> r == 0
  {
    ((idx as int + 1) % TWO_TO_THE_64) as uint64
  }

  /** The counter after j increments. */
  function Advance(idx: uint64, j: nat): uint64
  {
    if j == 0 then idx else Next(Advance(idx, j - 1))
  }

  /** The list position that counter value res selects among len entries. */
  function RobinIndex(res: uint64, len: nat): (i: nat)
    requires len > 0
    ensures i < len
  {
    res as int % len
  }

  /** An entry that strings.Split cuts into exactly a host and a port. */
  predicate WellSplit(server: string)
  {
    |Split(server)| == 2
  }

  /** The port piece of a well-split entry. */
  function PortOf(server: string): string
    requires WellSplit(server)
  {
    Split(server)[1]
  }

  /** A well-split entry whose port ParseUint rejects: this aborts construction. */
  predicate Fatal(server: string)
  {
    WellSplit(server) && ParseUint16(PortOf(server)).Failure?
  }

  /** The well-split entries of servers, in order, duplicates kept. */
  function Kept(servers: seq<string>): (r: seq<string>)
    ensures forall x :: x in r <==> x in servers && WellSplit(x)
  {
    if servers == [] then []
    else (if WellSplit(servers[0]) then [servers[0]] else []) + Kept(servers[1..])
  }

  /**
   * The outcome of the constructor's validation loop over servers
   * (netutils/clusternodemanager.go:56-78): the list of accepted entries, or
   * the error of the first well-split entry whose port does not parse.
   */
  function ScreenServers(servers: seq<string>): Result<seq<string>, Error>
  {
    if servers == [] then Success([])
    else
      var server := servers[|servers| - 1];
      match ScreenServers(servers[..|servers| - 1])
      case Failure(e) => Failure(e)
      case Success(kept) =>
        if !WellSplit(server) then Success(kept)
        else match ParseUint16(PortOf(server))
          case Failure(k) => Failure(PortError(PortOf(server), k))
          case Success(_) => Success(kept + [server])
  }

  lemma {:induction false} KeptAppend(servers: seq<string>, server: string)
    ensures Kept(servers + [server]) == Kept(servers) + (if WellSplit(server) then [server] else [])
  {
    if servers != [] {
      assert (servers + [server])[1..] == servers[1..] + [server];
      KeptAppend(servers[1..], server);
    } else {
      assert servers + [server] == [server];
    }
  }

  /**
   * Validation succeeds exactly when no well-split entry has a bad port, and
   * then keeps exactly the well-split entries, in input order: an entry with
   * no colon or more than one is dropped without its port being looked at.
   */
  lemma {:induction false} ScreenServersSuccess(servers: seq<string>)
    ensures ScreenServers(servers).Success? <==> forall i :: 0 <= i < |servers| ==> !Fatal(servers[i])
    ensures ScreenServers(servers).Success? ==> ScreenServers(servers).value == Kept(servers)
  {
    if servers != [] {
      var init, server := servers[..|servers| - 1], servers[|servers| - 1];
      assert servers == init + [server];
      ScreenServersSuccess(init);
      KeptAppend(init, server);
      if ScreenServers(init).Failure? {
        var i :| 0 <= i < |init| && Fatal(init[i]);
        assert servers[i] == init[i];
      } else {
        assert forall i :: 0 <= i < |init| ==> servers[i] == init[i];
      }
    }
  }

  /**
   * Validation fails with the error of the FIRST well-split entry whose port
   * does not parse, even when other entries are valid.
   */
  lemma {:induction false} ScreenServersFailure(servers: seq<string>)
    requires ScreenServers(servers).Failure?
    ensures exists i :: (0 <= i < |servers| && Fatal(servers[i]) &&
      (forall j :: 0 <= j < i ==> !Fatal(servers[j])) &&
      ScreenServers(servers).error == PortError(PortOf(servers[i]), ParseUint16(PortOf(servers[i])).error))
  {
    var init, server := servers[..|servers| - 1], servers[|servers| - 1];
    assert forall j :: 0 <= j < |init| ==> servers[j] == init[j];
    if ScreenServers(init).Failure? {
      ScreenServersFailure(init);
      var i :| 0 <= i < |init| && Fatal(init[i]) &&
        (forall j :: 0 <= j < i ==> !Fatal(init[j])) &&
        ScreenServers(init).error == PortError(PortOf(init[i]), ParseUint16(PortOf(init[i])).error);
      assert servers[i] == init[i];
    } else {
      ScreenServersSuccess(init);
      assert Fatal(servers[|servers| - 1]);
    }
  }

  /**
   * The node pool. `Valid` is its invariant: every configured entry is in
   * exactly one of the available and broken lists, counting duplicates.
   */
  class ClusterNodeManager {
    var allNodes: seq<string>
    var brokenNodes: seq<string>
    var availableNodes: seq<string>
    var healthyInterval: uint64
    var idx: uint64

    ghost predicate Valid()
      reads this
    {
      multiset(availableNodes) + multiset(brokenNodes) == multiset(allNodes)
    }

    /** The struct literal of netutils/clusternodemanager.go:49-54. */
    constructor (interval: uint64)
      ensures allNodes == [] && availableNodes == [] && brokenNodes == []
      ensures healthyInterval == interval && idx == 0
    {
      allNodes, availableNodes, brokenNodes := [], [], [];
      healthyInterval, idx := interval, 0;
    }

    /**
     * Random: ErrNoValidNode on an empty available list, the counter left
     * alone; otherwise the counter moves on by one (wrapping) and the entry
     * at its new value modulo the list's length is returned.
     */
    method Random() returns (r: Result<string, Error>)
      modifies this`idx
      ensures r.Failure? <==> availableNodes == []
      ensures r.Failure? ==> r.error == ErrNoValidNode && idx == old(idx)
      ensures r.Success? ==>
        idx == Next(old(idx)) && r.value == availableNodes[RobinIndex(idx, |availableNodes|)]
      ensures r.Success? ==> r.value in availableNodes
    {
      if |availableNodes| <= 0 {
        return Failure(ErrNoValidNode);
      }
      idx := Next(idx);
      var robinIdx := RobinIndex(idx, |availableNodes|);
      return Success(availableNodes[robinIdx]);
    }

    /**
     * One round of selections: as many Random calls as there are available
     * entries. The k-th call returns the entry at the counter's position after
     * k + 1 increments; when the counter does not wrap during the round,
     * every available entry is returned.
     */
    method RandomRound() returns (picked: seq<string>)
      modifies this`idx
      ensures |picked| == |availableNodes|
      ensures idx == Advance(old(idx), |availableNodes|)
      ensures forall k :: 0 <= k < |picked| ==>
        picked[k] == availableNodes[RobinIndex(Advance(old(idx), k + 1), |availableNodes|)]
      ensures old(idx) as int + |availableNodes| < TWO_TO_THE_64 ==>
        forall x :: x in availableNodes ==> x in picked
    {
      picked := [];
      for k := 0 to |availableNodes|
        invariant |picked| == k && idx == Advance(old(idx), k)
        invariant forall j :: 0 <= j < k ==>
          picked[j] == availableNodes[RobinIndex(Advance(old(idx), j + 1), |availableNodes|)]
      {
        var r := Random();
        picked := picked + [r.value];
      }
      var len := |availableNodes|;
      if len > 0 && old(idx) as int + len < TWO_TO_THE_64 {
        RoundRobinCoversAll(old(idx), len);
        forall x | x in availableNodes
          ensures x in picked
        {
          var p :| 0 <= p < len && availableNodes[p] == x;
          var picks := Picks(old(idx), len, len);
          assert p in picks;
          var k :| 0 <= k < len && picks[k] == p;
          PicksAt(old(idx), len, len, k);
          assert picked[k] == x;
        }
      }
    }

    /** All: a copy of the configured list. */
    method All() returns (l: seq<string>)
      ensures l == allNodes
    {
      l := allNodes;
    }

    /** Available: a copy of the available list. */
    method Available() returns (l: seq<string>)
      ensures l == availableNodes
    {
      l := availableNodes;
    }

    /**
     * setBrokenNodes: the first occurrence of node (if any) leaves the
     * available list, the others keeping their order; node is appended to
     * the broken list in every case.
     */
    method SetBrokenNodes(node: string)
      modifies this`availableNodes, this`brokenNodes
      ensures availableNodes == RemoveFirst(old(availableNodes), node)
      ensures brokenNodes == old(brokenNodes) + [node]
      ensures node in old(availableNodes) && old(Valid()) ==> Valid()
    {
      var i := 0;
      while i < |availableNodes| && availableNodes[i] != node
        invariant i <= |availableNodes|
        invariant forall k :: 0 <= k < i ==> availableNodes[k] != node
      {
        i := i + 1;
      }
      if node in availableNodes && Valid() {
        MoveKeepsPartition(availableNodes, brokenNodes, allNodes, node);
      }
      if i < |availableNodes| {
        RemoveFirstAt(availableNodes, node, i);
        availableNodes := availableNodes[..i] + availableNodes[i + 1..];
      } else {
        RemoveFirstMultiset(availableNodes, node);
      }
      brokenNodes := brokenNodes + [node];
    }

    /** setAvailableNodes: the mirror image of setBrokenNodes. */
    method SetAvailableNodes(node: string)
      modifies this`availableNodes, this`brokenNodes
      ensures brokenNodes == RemoveFirst(old(brokenNodes), node)
      ensures availableNodes == old(availableNodes) + [node]
      ensures node in old(brokenNodes) && old(Valid()) ==> Valid()
    {
      var i := 0;
      while i < |brokenNodes| && brokenNodes[i] != node
        invariant i <= |brokenNodes|
        invariant forall k :: 0 <= k < i ==> brokenNodes[k] != node
      {
        i := i + 1;
      }
      if node in brokenNodes && Valid() {
        MoveKeepsPartition(brokenNodes, availableNodes, allNodes, node);
      }
      if i < |brokenNodes| {
        RemoveFirstAt(brokenNodes, node, i);
        brokenNodes := brokenNodes[..i] + brokenNodes[i + 1..];
      } else {
        RemoveFirstMultiset(brokenNodes, node);
      }
      availableNodes := availableNodes + [node];
    }

    /**
     * checkAvailableNodes: probes a snapshot of the available list and
     * demotes each entry that fails, one setBrokenNodes call per failure.
     */
    method CheckAvailableNodes(probe: string -> bool)
      requires Valid()
      modifies this`availableNodes, this`brokenNodes
      ensures Valid()
      ensures availableNodes == Select(old(availableNodes), probe, true)
      ensures brokenNodes == old(brokenNodes) + Select(old(availableNodes), probe, false)
    {
      var l := availableNodes;
      assert l[..0] == [] && l[0..] == l;
      for k := 0 to |l|
        invariant availableNodes == Select(l[..k], probe, true) + l[k..]
        invariant brokenNodes == old(brokenNodes) + Select(l[..k], probe, false)
      {
        var tmp := l[k];
        PassStep(l, k, probe, true, availableNodes, brokenNodes, old(brokenNodes));
        if !probe(tmp) {
          SetBrokenNodes(tmp);
        }
      }
      assert l[..|l|] == l;
      SelectPartition(l, probe);
    }

    /**
     * checkBrokenNodes: probes a snapshot of the broken list and promotes
     * each entry that answers, one setAvailableNodes call per success.
     */
    method CheckBrokenNodes(probe: string -> bool)
      requires Valid()
      modifies this`availableNodes, this`brokenNodes
      ensures Valid()
      ensures brokenNodes == Select(old(brokenNodes), probe, false)
      ensures availableNodes == old(availableNodes) + Select(old(brokenNodes), probe, true)
    {
      var l := brokenNodes;
      assert l[..0] == [] && l[0..] == l;
      for k := 0 to |l|
        invariant brokenNodes == Select(l[..k], probe, false) + l[k..]
        invariant availableNodes == old(availableNodes) + Select(l[..k], probe, true)
      {
        var tmp := l[k];
        PassStep(l, k, probe, false, brokenNodes, availableNodes, old(availableNodes));
        if probe(tmp) {
          SetAvailableNodes(tmp);
        }
      }
      assert l[..|l|] == l;
      SelectPartition(l, probe);
    }

    /**
     * One tick of the health loop (netutils/clusternodemanager.go:149-150):
     * the available pass, then the broken pass over the broken list as the
     * first pass left it, so an entry demoted by the first pass is probed
     * again by the second.
     */
    method HeartTick(firstPass: string -> bool, secondPass: string -> bool)
      requires Valid()
      modifies this`availableNodes, this`brokenNodes
      ensures Valid()
      ensures availableNodes == Select(old(availableNodes), firstPass, true) +
        Select(old(brokenNodes) + Select(old(availableNodes), firstPass, false), secondPass, true)
      ensures brokenNodes ==
        Select(old(brokenNodes) + Select(old(availableNodes), firstPass, false), secondPass, false)
    {
      CheckAvailableNodes(firstPass);
      CheckBrokenNodes(secondPass);
    }
  }

  /** What the constructor returns, as a function of its server list. */
  datatype Construction = Rejected(e: Error) | NoNodes | Built(nodes: seq<string>)

  /**
   * An empty list is ErrInvalidCluster; a bad port is that port's error; no
   * surviving entry is no manager and no error; otherwise a manager over the
   * surviving entries.
   */
  function ConstructionOf(servers: seq<string>): Construction
  {
    if servers == [] then Rejected(ErrInvalidCluster)
    else match ScreenServers(servers)
      case Failure(e) => Rejected(e)
      case Success(nodes) => if nodes == [] then NoNodes else Built(nodes)
  }

  /**
   * The validation loop of the constructor: every entry split on ":", an
   * entry that does not give two pieces skipped, the first port that does
   * not parse returned as the error, the others kept in order.
   */
  method CheckServers(servers: seq<string>) returns (r: Result<seq<string>, Error>)
    ensures r == ScreenServers(servers)
  {
    var allNodes: seq<string> := [];
    for i := 0 to |servers|
      invariant ScreenServers(servers[..i]) == Success(allNodes)
    {
      var server := servers[i];
      ScreenStep(servers, i);
      var ipPort := Split(server);
      if |ipPort| != 2 {
        continue;
      }
      var portStr := ipPort[1];
      var parsed := ParseUint16(portStr);
      if parsed.Failure? {
        ScreenFailurePersists(servers, i + 1);
        return Failure(PortError(portStr, parsed.error));
      }
      allNodes := allNodes + [server];
    }
    assert servers[..|servers|] == servers;
    return Success(allNodes);
  }

  /**
   * NewClusterNodeManager (netutils/clusternodemanager.go:44-93). On success
   * every accepted entry starts available, then one synchronous
   * checkAvailableNodes pass runs with `probe` before the manager is returned.
   */
  method NewClusterNodeManager(interval: uint64, servers: seq<string>, probe: string -> bool)
    returns (cnm: ClusterNodeManager?, err: Option<Error>)
    ensures match ConstructionOf(servers)
      case Rejected(e) => cnm == null && err == Some(e)
      case NoNodes => cnm == null && err == None
      case Built(nodes) =>
        cnm != null && fresh(cnm) && err == None && cnm.Valid() &&
        cnm.allNodes == nodes &&
        cnm.availableNodes == Select(nodes, probe, true) &&
        cnm.brokenNodes == Select(nodes, probe, false) &&
        cnm.healthyInterval == interval && cnm.idx == 0
  {
    if |servers| <= 0 {
      return null, Some(ErrInvalidCluster);
    }
    var checked := CheckServers(servers);
    if checked.Failure? {
      return null, Some(checked.error);
    }
    if |checked.value| <= 0 {
      return null, None;
    }
    var cli := new ClusterNodeManager(interval);
    cli.allNodes, cli.availableNodes := checked.value, checked.value;
    cli.CheckAvailableNodes(probe);
    return cli, None;
  }

  /**
   * Moving one entry that is present from one list to the other keeps the
   * pair of lists a split of the configured entries.
   */
  lemma MoveKeepsPartition(from: seq<string>, to: seq<string>, all: seq<string>, node: string)
    requires multiset(from) + multiset(to) == multiset(all)
    requires node in from
    ensures multiset(RemoveFirst(from, node)) + multiset(to + [node]) == multiset(all)
  {
    RemoveFirstMultiset(from, node);
  }

  /** Validation of one more entry, as the loop body of the constructor does it. */
  lemma ScreenStep(servers: seq<string>, i: nat)
    requires i < |servers| && ScreenServers(servers[..i]).Success?
    ensures var kept, server := ScreenServers(servers[..i]).value, servers[i];
      ScreenServers(servers[..i + 1]) ==
        if !WellSplit(server) then Success(kept)
        else if ParseUint16(PortOf(server)).Failure? then
          Failure(PortError(PortOf(server), ParseUint16(PortOf(server)).error))
        else Success(kept + [server])
  {
    assert servers[..i + 1][..i] == servers[..i];
  }

  /** Once a prefix of the entries fails validation, every longer prefix fails the same way. */
  lemma {:induction false} ScreenFailurePersists(servers: seq<string>, i: nat)
    requires i <= |servers| && ScreenServers(servers[..i]).Failure?
    ensures ScreenServers(servers) == ScreenServers(servers[..i])
    decreases |servers| - i
  {
    if i == |servers| {
      assert servers[..i] == servers;
    } else {
      assert servers[..i + 1][..i] == servers[..i];
      ScreenFailurePersists(servers, i + 1);
    }
  }

  /** Without wrap-around, j increments add j to the counter. */
  lemma {:induction false} AdvanceNoWrap(idx: uint64, j: nat)
    requires idx as int + j < TWO_TO_THE_64
    ensures Advance(idx, j) as int == idx as int + j
  {
    if j > 0 {
      AdvanceNoWrap(idx, j - 1);
    }
  }

  /** The positions picked by n consecutive selections among len entries, starting from counter idx. */
  function Picks(idx: uint64, len: nat, n: nat): (r: seq<nat>)
    requires len > 0
    ensures |r| == n
  {
    if n == 0 then [] else Picks(idx, len, n - 1) + [RobinIndex(Advance(idx, n), len)]
  }

  lemma {:induction false} PicksAt(idx: uint64, len: nat, n: nat, i: nat)
    requires len > 0 && i < n
    ensures Picks(idx, len, n)[i] == RobinIndex(Advance(idx, i + 1), len)
  {
    if i < n - 1 {
      PicksAt(idx, len, n - 1, i);
    }
  }

  /**
   * Round-robin fairness: len consecutive selections over an unchanged
   * available list of len entries pick every position exactly once, as long
   * as the counter does not wrap around during those selections.
   */
  lemma RoundRobinCoversAll(idx: uint64, len: nat)
    requires len > 0 && idx as int + len < TWO_TO_THE_64
    ensures forall p :: 0 <= p < len ==> p in Picks(idx, len, len)
    ensures forall i, k :: 0 <= i < k < len ==> Picks(idx, len, len)[i] != Picks(idx, len, len)[k]
  {
    var picks := Picks(idx, len, len);
    forall p | 0 <= p < len
      ensures p in picks
    {
      var j := (p - idx as int - 1) % len + 1;
      AdvanceNoWrap(idx, j);
      ModShift(idx as int, j, p, len);
      PicksAt(idx, len, len, j - 1);
      assert picks[j - 1] == p;
    }
    forall i, k | 0 <= i < k < len
      ensures picks[i] != picks[k]
    {
      PicksAt(idx, len, len, i);
      PicksAt(idx, len, len, k);
      AdvanceNoWrap(idx, i + 1);
      AdvanceNoWrap(idx, k + 1);
      ModDistinct(idx as int + i + 1, idx as int + k + 1, len);
    }
  }

  lemma ModShift(base: int, j: int, p: int, len: int)
    requires len > 0 && 0 <= p < len && j == (p - base - 1) % len + 1
    ensures (base + j) % len == p
  {
    var q := (p - base - 1) / len;
    assert p - base - 1 == q * len + (j - 1);
    assert base + j == p - q * len;
    ModMultiple(p, -q, len);
  }

  lemma ModMultiple(p: int, k: int, len: int)
    requires len > 0 && 0 <= p < len
    ensures (p + k * len) % len == p
  {
    var q, r := (p + k * len) / len, (p + k * len) % len;
    assert (k - q) * len == r - p;
    MulBounded(k - q, len);
  }

  /** A multiple of len strictly between -len and len is zero. */
  lemma MulBounded(x: int, len: int)
    requires len > 0 && -len < x * len < len
    ensures x == 0
  {
  }

  lemma ModDistinct(a: int, b: int, len: int)
    requires len > 0 && a < b < a + len
    ensures a % len != b % len
  {
    var qa, qb := a / len, b / len;
    assert b - a - (b % len - a % len) == (qb - qa) * len;
    if a % len == b % len {
      MulBounded(qb - qa, len);
    }
  }

  /**
   * At wrap-around the guarantee lapses: with 3 entries and the counter two
   * below 2^64, the next two selections both pick position 0, because 2^64
   * is not a multiple of 3.
   */
  lemma RoundRobinRepeatsAtWrap()
    ensures var idx := (TWO_TO_THE_64 - 2) as uint64;
      RobinIndex(Advance(idx, 1), 3) == 0 && RobinIndex(Advance(idx, 2), 3) == 0
  {
  }

  /** host:port with no other colon is well split, and its port piece is port. */
  lemma HostPortEntry(host: string, port: string)
    requires COLON !in host && COLON !in port
    ensures WellSplit(host + [COLON] + port) && PortOf(host + [COLON] + port) == port
  {
    SplitAtFirstColon(host, port);
    SplitNoColon(port);
  }

  lemma LoopbackPort9()
    ensures WellSplit("127.0.0.1:9") && PortOf("127.0.0.1:9") == "9"
  {
    HostPortEntry("127.0.0.1", "9");
    assert "127.0.0.1" + [COLON] + "9" == "127.0.0.1:9";
  }

  lemma LoopbackPort65599()
    ensures WellSplit("127.0.0.1:65599") && PortOf("127.0.0.1:65599") == "65599"
  {
    HostPortEntry("127.0.0.1", "65599");
    assert "127.0.0.1" + [COLON] + "65599" == "127.0.0.1:65599";
  }

  lemma LoopbackPort8848()
    ensures WellSplit("127.0.0.1:8848") && PortOf("127.0.0.1:8848") == "8848"
  {
    HostPortEntry("127.0.0.1", "8848");
    assert "127.0.0.1" + [COLON] + "8848" == "127.0.0.1:8848";
  }

  lemma TwoColonsNotWellSplit()
    ensures !WellSplit("10.0.0.1:80:x")
  {
    SplitAtFirstColon("10.0.0.1", "80:x");
    SplitAtFirstColon("80", "x");
    SplitNoColon("x");
    assert "80" + [COLON] + "x" == "80:x";
    assert "10.0.0.1" + [COLON] + "80:x" == "10.0.0.1:80:x" by {
      var glued := "10.0.0.1" + [COLON] + "80:x";
      assert forall i :: 0 <= i < |glued| ==> glued[i] == "10.0.0.1:80:x"[i];
    }
  }

  lemma Port8848Parses()
    ensures ParseUint16("8848") == Success(8848)
  {
    var p := "8848";
    assert ScanDigits(p, 0, 0) == ScanDigits(p, 1, 8);
    assert ScanDigits(p, 1, 8) == ScanDigits(p, 2, 88);
    assert ScanDigits(p, 2, 88) == ScanDigits(p, 3, 884);
    assert ScanDigits(p, 3, 884) == Success(8848);
  }

  lemma Port65599OutOfRange()
    ensures ParseUint16("65599") == Failure(ErrRange)
  {
    var q := "65599";
    assert ScanDigits(q, 0, 0) == ScanDigits(q, 1, 6);
    assert ScanDigits(q, 1, 6) == ScanDigits(q, 2, 65);
    assert ScanDigits(q, 2, 65) == ScanDigits(q, 3, 655);
    assert ScanDigits(q, 3, 655) == ScanDigits(q, 4, 6559);
  }

  /** One accepted entry on its own is kept. */
  lemma ScreenOneAccepted(entry: string, port: nat)
    requires WellSplit(entry) && ParseUint16(PortOf(entry)) == Success(port)
    ensures ScreenServers([entry]) == Success([entry])
  {
    assert [entry][..0] == [];
    assert [] + [entry] == [entry];
  }

  /** One entry that is not well split on its own leaves nothing. */
  lemma ScreenOneDropped(entry: string)
    requires !WellSplit(entry)
    ensures ScreenServers([entry]) == Success([])
  {
    assert [entry][..0] == [];
  }

  /** Screening a pair: the first entry's outcome, then the second entry's. */
  lemma ScreenPair(first: string, second: string)
    ensures ScreenServers([first, second]) ==
      match ScreenServers([first])
      case Failure(e) => Failure(e)
      case Success(kept) =>
        if !WellSplit(second) then Success(kept)
        else match ParseUint16(PortOf(second))
          case Failure(k) => Failure(PortError(PortOf(second), k))
          case Success(_) => Success(kept + [second])
  {
    assert [first, second][..1] == [first];
  }

  /**
   * A well-formed entry does not save the list: a second entry whose port is
   * out of range makes construction fail with a range error.
   */
  lemma OutOfRangePortRejectsAll()
    ensures ConstructionOf(["127.0.0.1:9", "127.0.0.1:65599"]) ==
      Rejected(PortError("65599", ErrRange))
  {
    LoopbackPort9();
    ScreenOneAccepted("127.0.0.1:9", 9);
    LoopbackPort65599();
    Port65599OutOfRange();
    ScreenPair("127.0.0.1:9", "127.0.0.1:65599");
  }

  /** An entry without a colon is dropped; construction goes on with the others. */
  lemma MissingColonIsDropped()
    ensures ConstructionOf(["localhost", "127.0.0.1:8848"]) == Built(["127.0.0.1:8848"])
  {
    SplitNoColon("localhost");
    ScreenOneDropped("localhost");
    LoopbackPort8848();
    Port8848Parses();
    ScreenPair("localhost", "127.0.0.1:8848");
    assert [] + ["127.0.0.1:8848"] == ["127.0.0.1:8848"];
  }

  /**
   * An entry with two colons is dropped without its port being looked at;
   * when nothing survives there is no manager and no error.
   */
  lemma NothingSurvivesGivesNoManager()
    ensures ConstructionOf(["10.0.0.1:80:x"]) == NoNodes
  {
    TwoColonsNotWellSplit();
    ScreenOneDropped("10.0.0.1:80:x");
  }
}
