/**
 Reporting relations as a parent array: position i holds the position of i's active manager, if
 it has one. This is the graph the org chart is built from; nothing forbids cycles in it.
 */
module ReportingGraph {
  import opened Options

  type Parents = seq<Option<nat>>

  predicate InRange(p: Parents) {
    forall i | 0 <= i < |p| && p[i].Some? :: p[i].value < |p|
  }

  /** The positions below n that report to j, in order. */
  function ReportsBelow(p: Parents, j: nat, n: nat): seq<nat>
    requires n <= |p|
  {
    if n == 0 then []
    else ReportsBelow(p, j, n - 1) + if p[n - 1] == Some(j) then [n - 1] else []
  }

  function Reports(p: Parents, j: nat): seq<nat> {
    ReportsBelow(p, j, |p|)
  }

  /** The positions below n without an active manager, in order. */
  function RootsBelow(p: Parents, n: nat): seq<nat>
    requires n <= |p|
  {
    if n == 0 then []
    else RootsBelow(p, n - 1) + if p[n - 1].None? then [n - 1] else []
  }

  function Roots(p: Parents): seq<nat> {
    RootsBelow(p, |p|)
  }

  function ReportsOfAll(p: Parents, s: seq<nat>): seq<nat> {
    if s == [] then [] else Reports(p, s[0]) + ReportsOfAll(p, s[1..])
  }

  /** What is met k steps below the roots, following the lists of direct reports. */
  function Level(p: Parents, k: nat): seq<nat> {
    if k == 0 then Roots(p) else ReportsOfAll(p, Level(p, k - 1))
  }

  /** Everything met in the first n levels. */
  function Listing(p: Parents, n: nat): seq<nat> {
    if n == 0 then [] else Listing(p, n - 1) + Level(p, n - 1)
  }

  /** The k-th manager above i. */
  function Up(p: Parents, i: nat, k: nat): Option<nat>
    requires InRange(p)
    decreases k
  {
    if i >= |p| then None
    else if k == 0 then Some(i)
    else if p[i].None? then None
    else Up(p, p[i].value, k - 1)
  }

  /** The manager chain of i ends after exactly k steps: at a node without an active manager. */
  predicate EndsAt(p: Parents, i: nat, k: nat)
    requires InRange(p)
    decreases k
  {
    i < |p| && if k == 0 then p[i].None? else p[i].Some? && EndsAt(p, p[i].value, k - 1)
  }

  ghost predicate ChainEnds(p: Parents, i: nat)
    requires InRange(p)
  {
    exists k: nat :: EndsAt(p, i, k)
  }

  /** Nobody is above himself. */
  ghost predicate Acyclic(p: Parents)
    requires InRange(p)
  {
    forall i: nat, k: nat | k > 0 :: Up(p, i, k) != Some(i)
  }

  predicate NoRepeats(s: seq<nat>) {
    forall i, j | 0 <= i < j < |s| :: s[i] != s[j]
  }

  // Each list of direct reports -------------------------------------------------------------

  lemma {:induction false} ReportsBelowContents(p: Parents, j: nat, n: nat)
    requires n <= |p|
    ensures forall i: nat :: i in ReportsBelow(p, j, n) <==> i < n && p[i] == Some(j)
    ensures NoRepeats(ReportsBelow(p, j, n))
  {
    if n > 0 {
      ReportsBelowContents(p, j, n - 1);
    }
  }

  lemma {:induction false} RootsBelowContents(p: Parents, n: nat)
    requires n <= |p|
    ensures forall i: nat :: i in RootsBelow(p, n) <==> i < n && p[i].None?
    ensures NoRepeats(RootsBelow(p, n))
  {
    if n > 0 {
      RootsBelowContents(p, n - 1);
    }
  }

  /** A member of the lists of `s` is a report of some member of `s`, and of no other node. */
  lemma {:induction false} ReportsOfAllContents(p: Parents, s: seq<nat>, i: nat)
    ensures i in ReportsOfAll(p, s) <==> i < |p| && p[i].Some? && p[i].value in s
  {
    if s != [] {
      ReportsBelowContents(p, s[0], |p|);
      ReportsOfAllContents(p, s[1..], i);
      assert s == [s[0]] + s[1..];
    }
  }

  lemma NoRepeatsConcat(a: seq<nat>, b: seq<nat>)
    requires NoRepeats(a) && NoRepeats(b) && forall x | x in a :: x !in b
    ensures NoRepeats(a + b)
  {
    var c := a + b;
    forall i, j | 0 <= i < j < |c| ensures c[i] != c[j] {
      if i < |a| <= j {
        assert a[i] in a && b[j - |a|] in b;
      }
    }
  }

  lemma {:induction false} ReportsOfAllNoRepeats(p: Parents, s: seq<nat>)
    requires NoRepeats(s)
    ensures NoRepeats(ReportsOfAll(p, s))
  {
    if s != [] {
      ReportsOfAllNoRepeats(p, s[1..]);
      ReportsBelowContents(p, s[0], |p|);
      forall x | x in Reports(p, s[0]) ensures x !in ReportsOfAll(p, s[1..]) {
        ReportsOfAllContents(p, s[1..], x);
      }
      NoRepeatsConcat(Reports(p, s[0]), ReportsOfAll(p, s[1..]));
    }
  }

  // Levels ------------------------------------------------------------------------------------

  /** A node is met at level k exactly when its manager chain ends after k steps; once only. */
  lemma {:induction false} LevelContents(p: Parents, k: nat, i: nat)
    requires InRange(p)
    ensures i in Level(p, k) <==> EndsAt(p, i, k)
    ensures NoRepeats(Level(p, k))
    decreases k
  {
    if k == 0 {
      RootsBelowContents(p, |p|);
    } else {
      var above := Level(p, k - 1);
      var manager := if i < |p| && p[i].Some? then p[i].value else 0;
      LevelContents(p, k - 1, manager);
      ReportsOfAllContents(p, above, i);
      ReportsOfAllNoRepeats(p, above);
      assert EndsAt(p, i, k) <==> i < |p| && p[i].Some? && EndsAt(p, p[i].value, k - 1);
    }
  }

  lemma {:induction false} EndsOnce(p: Parents, i: nat, k: nat, m: nat)
    requires InRange(p) && EndsAt(p, i, k) && EndsAt(p, i, m)
    ensures k == m
    decreases k
  {
    if k > 0 && m > 0 {
      EndsOnce(p, p[i].value, k - 1, m - 1);
    }
  }

  lemma {:induction false} ListingContents(p: Parents, n: nat, i: nat)
    requires InRange(p)
    ensures i in Listing(p, n) <==> exists k: nat | k < n :: EndsAt(p, i, k)
    decreases n
  {
    if n > 0 {
      ListingContents(p, n - 1, i);
      LevelContents(p, n - 1, i);
    }
  }

  lemma {:induction false} ListingNoRepeats(p: Parents, n: nat)
    requires InRange(p)
    ensures NoRepeats(Listing(p, n))
    decreases n
  {
    if n > 0 {
      var above, level := Listing(p, n - 1), Level(p, n - 1);
      ListingNoRepeats(p, n - 1);
      LevelContents(p, n - 1, 0);
      forall x | x in above ensures x !in level {
        ListedAboveLevel(p, n - 1, x);
      }
      NoRepeatsConcat(above, level);
    }
  }

  lemma ListedAboveLevel(p: Parents, n: nat, x: nat)
    requires InRange(p) && x in Listing(p, n)
    ensures x !in Level(p, n)
  {
    ListingContents(p, n, x);
    LevelContents(p, n, x);
    var k: nat :| k < n && EndsAt(p, x, k);
    if EndsAt(p, x, n) {
      EndsOnce(p, x, k, n);
    }
  }

  // Counting ------------------------------------------------------------------------------------

  /** More than n numbers below n repeat. */
  lemma {:induction false} Pigeonhole(s: seq<nat>, n: nat)
    requires NoRepeats(s) && forall i | 0 <= i < |s| :: s[i] < n
    ensures |s| <= n
    decreases n
  {
    if s != [] {
      assert s[0] < n;
      if n - 1 in s {
        var i :| 0 <= i < |s| && s[i] == n - 1;
        Pigeonhole(s[..i] + s[i + 1..], n - 1);
      } else {
        Pigeonhole(s, n - 1);
      }
    }
  }

  /** n different numbers below n are all of them. */
  lemma FullCount(s: seq<nat>, n: nat, x: nat)
    requires NoRepeats(s) && |s| == n && x < n && forall i | 0 <= i < |s| :: s[i] < n
    ensures x in s
  {
    if x !in s {
      Pigeonhole(s + [x], n);
    }
  }

  /** The chain of managers of i, from i up to its k-th manager. */
  function Chain(p: Parents, i: nat, k: nat): (c: seq<nat>)
    requires InRange(p) && Up(p, i, k).Some?
    ensures |c| == k + 1 && c[0] == i && forall j | 0 <= j <= k :: c[j] < |p|
    decreases k
  {
    if k == 0 then [i] else [i] + Chain(p, p[i].value, k - 1)
  }

  lemma {:induction false} ChainIsUp(p: Parents, i: nat, k: nat, j: nat)
    requires InRange(p) && Up(p, i, k).Some? && j <= k
    ensures Up(p, i, j) == Some(Chain(p, i, k)[j])
    decreases k
  {
    if j > 0 {
      ChainIsUp(p, p[i].value, k - 1, j - 1);
    }
  }

  lemma {:induction false} UpUp(p: Parents, i: nat, a: nat, b: nat)
    requires InRange(p) && Up(p, i, a).Some?
    ensures Up(p, i, a + b) == Up(p, Up(p, i, a).value, b)
    decreases a
  {
    if a > 0 {
      UpUp(p, p[i].value, a - 1, b);
    }
  }

  lemma {:induction false} EndsAtUp(p: Parents, i: nat, k: nat)
    requires InRange(p)
    ensures EndsAt(p, i, k) <==> Up(p, i, k).Some? && Up(p, i, k + 1).None?
    decreases k
  {
    if k > 0 && i < |p| && p[i].Some? {
      EndsAtUp(p, p[i].value, k - 1);
    }
  }

  /** A chain either ends within |p| steps or can be followed that far. */
  lemma {:induction false} EndsOrGoesOn(p: Parents, i: nat, k: nat)
    requires InRange(p) && i < |p|
    ensures Up(p, i, k).Some? || exists m: nat | m < k :: EndsAt(p, i, m)
    decreases k
  {
    if k > 0 {
      EndsOrGoesOn(p, i, k - 1);
      if Up(p, i, k - 1).Some? && Up(p, i, k).None? {
        EndsAtUp(p, i, k - 1);
      }
    }
  }

  /** A chain that comes back to where it was is a cycle. */
  lemma RepeatIsCycle(p: Parents, i: nat, k: nat, a: nat, b: nat)
    requires InRange(p) && Up(p, i, k).Some? && a < b <= k && Chain(p, i, k)[a] == Chain(p, i, k)[b]
    ensures Up(p, Chain(p, i, k)[a], b - a) == Some(Chain(p, i, k)[a])
  {
    ChainIsUp(p, i, k, a);
    ChainIsUp(p, i, k, b);
    UpUp(p, i, a, b - a);
  }

  /** Without cycles every chain ends, and before |p| steps. */
  lemma AcyclicEnds(p: Parents, i: nat)
    requires InRange(p) && Acyclic(p) && i < |p|
    ensures exists m: nat | m < |p| :: EndsAt(p, i, m)
  {
    var n := |p|;
    EndsOrGoesOn(p, i, n);
    if Up(p, i, n).Some? {
      var c := Chain(p, i, n);
      if !NoRepeats(c) {
        var a, b :| 0 <= a < b < |c| && c[a] == c[b];
        RepeatIsCycle(p, i, n, a, b);
      }
      Pigeonhole(c, n);
    }
  }

  /** A chain that ends does so before |p| steps. */
  lemma EndsEarly(p: Parents, i: nat, k: nat)
    requires InRange(p) && EndsAt(p, i, k)
    ensures k < |p|
  {
    EndsAtUp(p, i, k);
    var c := Chain(p, i, k);
    if !NoRepeats(c) {
      var a, b :| 0 <= a < b < |c| && c[a] == c[b];
      ChainIsUp(p, i, k, a);
      ChainIsUp(p, i, k, b);
      EndsAlong(p, i, k, a);
      EndsAlong(p, i, k, b);
      EndsOnce(p, c[a], k - a, k - b);
    }
    Pigeonhole(c, |p|);
  }

  /** Further up the chain, the end is that much nearer. */
  lemma {:induction false} EndsAlong(p: Parents, i: nat, k: nat, a: nat)
    requires InRange(p) && EndsAt(p, i, k) && a <= k
    ensures Up(p, i, a).Some? && EndsAt(p, Up(p, i, a).value, k - a)
    decreases a
  {
    if a > 0 {
      EndsAlong(p, p[i].value, k - 1, a - 1);
    }
  }

  /** A node on a cycle has a chain that never ends. */
  lemma CycleNeverEnds(p: Parents, i: nat, c: nat, k: nat)
    requires InRange(p) && c > 0 && Up(p, i, c) == Some(i)
    ensures !EndsAt(p, i, k)
  {
    if EndsAt(p, i, k) {
      if c <= k {
        var m: nat := k - c;
        EndsAlong(p, i, k, c);
        EndsOnce(p, i, k, m);
      } else {
        EndsAtUp(p, i, k);
        UpStops(p, i, k + 1, c);
      }
    }
  }

  lemma {:induction false} UpStops(p: Parents, i: nat, a: nat, b: nat)
    requires InRange(p) && Up(p, i, a).None? && a <= b
    ensures Up(p, i, b).None?
    decreases a
  {
    if a > 0 && i < |p| && p[i].Some? {
      UpStops(p, p[i].value, a - 1, b - 1);
    }
  }

  // ---------------------------------------------------------------------------------------
  // What is reachable from the roots
  // ---------------------------------------------------------------------------------------

  /**
   For every reporting relation, cyclic or not: following direct reports from the roots meets
   exactly the nodes whose manager chain ends, each of them once, and nothing is left after |p|
   levels.
   */
  lemma ReachableIffChainEnds(p: Parents)
    requires InRange(p)
    ensures forall i: nat :: i in Listing(p, |p|) <==> ChainEnds(p, i)
    ensures NoRepeats(Listing(p, |p|))
    ensures forall k: nat | k >= |p| :: Level(p, k) == []
  {
    forall i: nat ensures i in Listing(p, |p|) <==> ChainEnds(p, i) {
      ListedIffEnds(p, i);
    }
    ListingNoRepeats(p, |p|);
    forall k: nat | k >= |p| ensures Level(p, k) == [] {
      LevelsStop(p, k);
    }
  }

  lemma {:induction false} ListedIffEnds(p: Parents, i: nat)
    requires InRange(p)
    ensures i in Listing(p, |p|) <==> ChainEnds(p, i)
  {
    ListingContents(p, |p|, i);
    if ChainEnds(p, i) {
      var k: nat :| EndsAt(p, i, k);
      EndsEarly(p, i, k);
      assert exists m: nat | m < |p| :: EndsAt(p, i, m);
    }
  }

  lemma LevelsStop(p: Parents, k: nat)
    requires InRange(p) && k >= |p|
    ensures Level(p, k) == []
  {
    if Level(p, k) != [] {
      var i := Level(p, k)[0];
      LevelContents(p, k, i);
      EndsEarly(p, i, k);
    }
  }

  /** The forest holds all nodes if and only if the reporting relation has no cycle. */
  lemma CompleteIffAcyclic(p: Parents)
    requires InRange(p)
    ensures |Listing(p, |p|)| == |p| <==> Acyclic(p)
  {
    var all := Listing(p, |p|);
    ReachableIffChainEnds(p);
    assert forall i | 0 <= i < |all| :: all[i] < |p| by {
      forall i | 0 <= i < |all| ensures all[i] < |p| {
        assert all[i] in all;
        assert ChainEnds(p, all[i]);
      }
    }
    Pigeonhole(all, |p|);
    if Acyclic(p) {
      AllListed(p, all);
    } else {
      var i: nat, c: nat :| c > 0 && Up(p, i, c) == Some(i);
      if |all| == |p| {
        FullCount(all, |p|, i);
        var k: nat :| EndsAt(p, i, k);
        CycleNeverEnds(p, i, c, k);
      }
    }
  }

  lemma AllListed(p: Parents, all: seq<nat>)
    requires InRange(p) && Acyclic(p) && all == Listing(p, |p|)
    ensures |all| >= |p|
  {
    forall i: nat | i < |p| ensures i in all {
      AcyclicEnds(p, i);
      ListingContents(p, |p|, i);
    }
    CoversCount(all, |p|);
  }

  /** A sequence that contains every number below n is at least n long. */
  lemma {:induction false} CoversCount(s: seq<nat>, n: nat)
    requires forall i: nat | i < n :: i in s
    ensures |s| >= n
    decreases n
  {
    if n > 0 {
      var last: nat := n - 1;
      assert last in s;
      var i :| 0 <= i < |s| && s[i] == last;
      var rest := s[..i] + s[i + 1..];
      forall j: nat | j < n - 1 ensures j in rest {
        assert j in s;
        var m :| 0 <= m < |s| && s[m] == j;
        assert rest[if m < i then m else m - 1] == j;
      }
      CoversCount(rest, n - 1);
    }
  }
}

/** The org chart handler: a forest of nodes linked in place from the assignments' manager ids. */
module OrgChart {
  import opened Options
  import opened ReportingGraph

  datatype Assignment = Assignment(id: string, functionalKey: string, specId: string, reportsTo: Option<string>)

  /** An empty manager id counts as none. */
  function Manager(a: Assignment): (r: Option<string>)
    ensures forall id :: r == Some(id) <==> id != "" && a.reportsTo == Some(id)
  {
    if a.reportsTo.Some? && a.reportsTo.value != "" then a.reportsTo else None
  }

  predicate DistinctIds(s: seq<Assignment>) {
    forall i, j | 0 <= i < j < |s| :: s[i].id != s[j].id
  }

  /** The position of the assignment with this id. */
  function Find(s: seq<Assignment>, id: string): (r: Option<nat>)
    ensures r.Some? ==> r.value < |s| && s[r.value].id == id
    ensures r.None? ==> forall i | 0 <= i < |s| :: s[i].id != id
  {
    Search(s, (a: Assignment) => a.id == id)
  }

  /** Whom each assignment reports to among the active ones. */
  function ActiveManagers(s: seq<Assignment>): (p: Parents)
    ensures |p| == |s| && InRange(p)
    ensures forall i, j: nat | 0 <= i < |s| && p[i] == Some(j) :: s[j].id != "" && s[i].reportsTo == Some(s[j].id)
    ensures forall i, j | 0 <= i < |s| && 0 <= j < |s| && s[j].id != "" && s[i].reportsTo == Some(s[j].id) :: p[i].Some?
  {
    seq(|s|, i requires 0 <= i < |s| => if Manager(s[i]).Some? then Find(s, Manager(s[i]).value) else None)
  }

  class Node {
    const id: string
    const functionalKey: string
    const specId: string
    const reportsTo: Option<string>
    var directReports: seq<Node>
    var managerNotActive: bool

    constructor (a: Assignment)
      ensures id == a.id && functionalKey == a.functionalKey && specId == a.specId && reportsTo == Manager(a)
      ensures directReports == [] && !managerNotActive
    {
      id, functionalKey, specId, reportsTo := a.id, a.functionalKey, a.specId, Manager(a);
      directReports, managerNotActive := [], false;
    }
  }

  /** The nodes at the given positions. */
  function Pick(nodes: seq<Node>, at: seq<nat>): seq<Node> {
    if at == [] then []
    else
      var i := at[|at| - 1];
      Pick(nodes, at[..|at| - 1]) + if i < |nodes| then [nodes[i]] else []
  }

  /** `nodes[i]` is the node of assignment i, and they are different objects. */
  ghost predicate NodesOf(nodes: seq<Node>, s: seq<Assignment>) {
    && |nodes| == |s|
    && Distinct(nodes)
    && (forall i | 0 <= i < |s| ::
          && nodes[i].id == s[i].id && nodes[i].functionalKey == s[i].functionalKey
          && nodes[i].specId == s[i].specId && nodes[i].reportsTo == Manager(s[i]))
  }

  lemma PickAppend(nodes: seq<Node>, at: seq<nat>, i: nat)
    requires i < |nodes|
    ensures Pick(nodes, at + [i]) == Pick(nodes, at) + [nodes[i]]
  {
    assert (at + [i])[..|at|] == at;
  }

  /** One more node adds itself to its manager's list and to no other. */
  lemma NextReport(nodes: seq<Node>, p: Parents, j: nat, i: nat)
    requires i < |nodes| == |p|
    ensures p[i] == Some(j) ==> Pick(nodes, ReportsBelow(p, j, i + 1)) == Pick(nodes, ReportsBelow(p, j, i)) + [nodes[i]]
    ensures p[i] != Some(j) ==> ReportsBelow(p, j, i + 1) == ReportsBelow(p, j, i)
  {
    PickAppend(nodes, ReportsBelow(p, j, i), i);
  }

  /** A node without an active manager is one more root. */
  lemma NextRoot(nodes: seq<Node>, p: Parents, i: nat)
    requires i < |nodes| == |p|
    ensures p[i].None? ==> Pick(nodes, RootsBelow(p, i + 1)) == Pick(nodes, RootsBelow(p, i)) + [nodes[i]]
    ensures p[i].Some? ==> RootsBelow(p, i + 1) == RootsBelow(p, i)
  {
    PickAppend(nodes, RootsBelow(p, i), i);
  }

  /** Node j's list holds those of the first n nodes that report to it, in order. */
  ghost predicate ListOf(nodes: seq<Node>, p: Parents, j: nat, n: nat)
    requires j < |nodes| && n <= |p|
    reads nodes[j]
  {
    nodes[j].directReports == Pick(nodes, ReportsBelow(p, j, n))
  }

  ghost predicate ReportsLinked(nodes: seq<Node>, p: Parents, n: nat)
    requires n <= |p|
    reads nodes
  {
    forall j: nat | j < |nodes| :: ListOf(nodes, p, j, n)
  }

  /** Node j, if among the first n, is warned about exactly when it names a manager who is not active. */
  ghost predicate WarningOf(nodes: seq<Node>, p: Parents, j: nat, n: nat)
    requires j < |nodes| == |p|
    reads nodes[j]
  {
    nodes[j].managerNotActive <==> j < n && nodes[j].reportsTo.Some? && p[j].None?
  }

  ghost predicate Warned(nodes: seq<Node>, p: Parents, n: nat)
    requires |p| == |nodes|
    reads nodes
  {
    forall j: nat | j < |nodes| :: WarningOf(nodes, p, j, n)
  }

  /** The forest after the first n nodes have been linked. */
  ghost predicate Linked(nodes: seq<Node>, roots: seq<Node>, p: Parents, n: nat)
    requires n <= |p| == |nodes|
    reads nodes
  {
    roots == Pick(nodes, RootsBelow(p, n)) && ReportsLinked(nodes, p, n) && Warned(nodes, p, n)
  }

  /** The dictionary from id to node. */
  ghost predicate MapOf(nodeMap: map<string, Node>, nodes: seq<Node>, s: seq<Assignment>)
    requires |nodes| == |s|
  {
    && (forall id :: id in nodeMap <==> Find(s, id).Some?)
    && (forall id | id in nodeMap :: nodeMap[id] == nodes[Find(s, id).value])
  }

  method MakeNodes(s: seq<Assignment>) returns (nodes: seq<Node>, nodeMap: map<string, Node>)
    requires DistinctIds(s)
    ensures fresh(nodes) && NodesOf(nodes, s) && MapOf(nodeMap, nodes, s)
    ensures forall i | 0 <= i < |nodes| :: nodes[i].directReports == [] && !nodes[i].managerNotActive
  {
    nodes := [];
    for i := 0 to |s|
      invariant fresh(nodes) && NodesOf(nodes, s[..i])
      invariant forall j | 0 <= j < i :: nodes[j].directReports == [] && !nodes[j].managerNotActive
    {
      var node := new Node(s[i]);
      nodes := nodes + [node];
    }
    assert s[..|s|] == s;
    nodeMap := MakeMap(s, nodes);
  }

  lemma FindNext(s: seq<Assignment>, i: nat, id: string)
    requires i < |s| && DistinctIds(s)
    ensures Find(s[..i + 1], id) == if s[i].id == id then Some(i) else Find(s[..i], id)
  {
    var more, less := s[..i + 1], s[..i];
    assert more[i] == s[i] && forall j | 0 <= j < i :: more[j] == less[j] == s[j];
  }

  lemma MapNext(nodeMap: map<string, Node>, nodes: seq<Node>, s: seq<Assignment>, i: nat)
    requires |nodes| == |s| && i < |s| && DistinctIds(s) && MapOf(nodeMap, nodes[..i], s[..i])
    ensures MapOf(nodeMap[s[i].id := nodes[i]], nodes[..i + 1], s[..i + 1])
  {
    forall id ensures Find(s[..i + 1], id) == if s[i].id == id then Some(i) else Find(s[..i], id) {
      FindNext(s, i, id);
    }
    var less, more := nodes[..i], nodes[..i + 1];
    assert more[i] == nodes[i] && forall j | 0 <= j < i :: more[j] == less[j];
  }

  /** Enters the nodes into the dictionary one by one. */
  method MakeMap(s: seq<Assignment>, nodes: seq<Node>) returns (nodeMap: map<string, Node>)
    requires |nodes| == |s| && DistinctIds(s)
    ensures MapOf(nodeMap, nodes, s)
  {
    nodeMap := map[];
    for i := 0 to |s|
      invariant MapOf(nodeMap, nodes[..i], s[..i])
    {
      MapNext(nodeMap, nodes, s, i);
      nodeMap := nodeMap[s[i].id := nodes[i]];
    }
    assert s[..|s|] == s && nodes[..|s|] == nodes;
  }

  /** Looking a node's manager up in the dictionary finds its active manager. */
  ghost predicate LooksUp(nodes: seq<Node>, nodeMap: map<string, Node>, p: Parents) {
    && |nodes| == |p| && InRange(p)
    && (forall i | 0 <= i < |nodes| ::
          p[i].Some? <==> nodes[i].reportsTo.Some? && nodes[i].reportsTo.value in nodeMap)
    && (forall i | 0 <= i < |nodes| && p[i].Some? :: nodeMap[nodes[i].reportsTo.value] == nodes[p[i].value])
  }

  lemma MapLooksUp(nodes: seq<Node>, nodeMap: map<string, Node>, s: seq<Assignment>)
    requires |nodes| == |s| && NodesOf(nodes, s) && MapOf(nodeMap, nodes, s)
    ensures LooksUp(nodes, nodeMap, ActiveManagers(s))
  {
  }

  predicate Distinct(nodes: seq<Node>) {
    forall i, j | 0 <= i < j < |nodes| :: nodes[i] != nodes[j]
  }

  /** Hangs node i under its manager. */
  method Attach(nodes: seq<Node>, manager: Node, ghost p: Parents, i: nat)
    requires Distinct(nodes) && i < |nodes| == |p| && ReportsLinked(nodes, p, i) && Warned(nodes, p, i)
    requires p[i].Some? && p[i].value < |nodes| && manager == nodes[p[i].value]
    modifies manager`directReports
    ensures ReportsLinked(nodes, p, i + 1) && Warned(nodes, p, i + 1)
  {
    manager.directReports := manager.directReports + [nodes[i]];
    ghost var n := i + 1;
    NextReport(nodes, p, p[i].value, i);
    assert old(ListOf(nodes, p, p[i].value, i));
    forall j: nat | j < |nodes| ensures ListOf(nodes, p, j, n) {
      if j != p[i].value {
        NextReport(nodes, p, j, i);
        assert old(ListOf(nodes, p, j, i)) && nodes[j] != manager;
      }
    }
    forall j: nat | j < |nodes| ensures WarningOf(nodes, p, j, n) {
      assert old(WarningOf(nodes, p, j, i));
    }
  }

  /** Node i is a root: it is on nobody's list, and warned about if it names a manager. */
  method MarkRoot(ghost nodes: seq<Node>, node: Node, ghost p: Parents, ghost i: nat)
    requires Distinct(nodes) && i < |nodes| == |p| && ReportsLinked(nodes, p, i) && Warned(nodes, p, i)
    requires p[i].None? && node == nodes[i]
    modifies node`managerNotActive
    ensures ReportsLinked(nodes, p, i + 1) && Warned(nodes, p, i + 1)
  {
    if node.reportsTo.Some? {
      node.managerNotActive := true;
    }
    ghost var n := i + 1;
    forall j: nat | j < |nodes| ensures ListOf(nodes, p, j, n) {
      NextReport(nodes, p, j, i);
      assert old(ListOf(nodes, p, j, i));
    }
    forall j: nat | j < |nodes| ensures WarningOf(nodes, p, j, n) {
      assert old(WarningOf(nodes, p, j, i)) && (j != i ==> nodes[j] != node);
    }
  }

  /** One round of the loop: hang the node under its manager or make it a root. */
  method LinkOne(nodes: seq<Node>, nodeMap: map<string, Node>, roots: seq<Node>, ghost p: Parents, i: nat)
    returns (roots': seq<Node>)
    requires LooksUp(nodes, nodeMap, p) && Distinct(nodes) && i < |nodes| && Linked(nodes, roots, p, i)
    modifies nodes
    ensures Linked(nodes, roots', p, i + 1)
  {
    var node := nodes[i];
    NextRoot(nodes, p, i);
    if node.reportsTo.Some? && node.reportsTo.value in nodeMap {
      Attach(nodes, nodeMap[node.reportsTo.value], p, i);
      roots' := roots;
    } else {
      MarkRoot(nodes, node, p, i);
      roots' := roots + [node];
    }
  }

  method LinkAll(nodes: seq<Node>, nodeMap: map<string, Node>, ghost p: Parents) returns (roots: seq<Node>)
    requires LooksUp(nodes, nodeMap, p) && Distinct(nodes)
    requires forall i | 0 <= i < |nodes| :: nodes[i].directReports == [] && !nodes[i].managerNotActive
    modifies nodes
    ensures Linked(nodes, roots, p, |nodes|)
  {
    roots := [];
    for i := 0 to |nodes|
      invariant Linked(nodes, roots, p, i)
    {
      roots := LinkOne(nodes, nodeMap, roots, p, i);
    }
  }

  /**
   Builds the forest: every node's `directReports` are the nodes that name it as manager, in
   order; the roots are the nodes without an active manager, in order; a root is warned about
   exactly when it names a manager that is not active.
   */
  method BuildOrgChart(assignments: seq<Assignment>)
    returns (nodes: seq<Node>, roots: seq<Node>, totalAssignments: nat)
    requires forall i, j | 0 <= i < j < |assignments| :: assignments[i].id != assignments[j].id
    ensures fresh(nodes) && NodesOf(nodes, assignments)
    ensures |nodes| == |assignments| && forall i | 0 <= i < |nodes| ::
              && nodes[i].id == assignments[i].id && nodes[i].functionalKey == assignments[i].functionalKey
              && nodes[i].specId == assignments[i].specId
              && nodes[i].reportsTo == if NamesNone(assignments[i]) then None else assignments[i].reportsTo
    ensures Linked(nodes, roots, ActiveManagers(assignments), |assignments|)
    ensures totalAssignments == |assignments|
    ensures forall i, j | 0 <= i < |nodes| && 0 <= j < |nodes| ::
              nodes[i] in nodes[j].directReports <==>
                assignments[j].id != "" && assignments[i].reportsTo == Some(assignments[j].id)
    ensures forall i | 0 <= i < |nodes| :: nodes[i] in roots <==>
              NamesNone(assignments[i]) || NamesNobody(assignments, i)
    ensures forall i | 0 <= i < |nodes| :: nodes[i].managerNotActive <==>
              !NamesNone(assignments[i]) && NamesNobody(assignments, i)
  {
    var nodeMap: map<string, Node>;
    nodes, nodeMap := MakeNodes(assignments);
    MapLooksUp(nodes, nodeMap, assignments);
    roots := LinkAll(nodes, nodeMap, ActiveManagers(assignments));
    totalAssignments := |assignments|;
    LinksMean(nodes, assignments, ActiveManagers(assignments));
    RootsMean(nodes, roots, assignments, ActiveManagers(assignments));
  }

  predicate NamesNone(a: Assignment) {
    a.reportsTo.None? || a.reportsTo.value == ""
  }

  /** The manager id the assignment carries, if it carries one, is that of no assignment. */
  predicate NamesNobody(s: seq<Assignment>, i: nat)
    requires i < |s|
  {
    forall j | 0 <= j < |s| :: s[i].reportsTo != Some(s[j].id)
  }

  /** Node i hangs under node j exactly if its assignment names that of j. */
  lemma LinksMean(nodes: seq<Node>, s: seq<Assignment>, p: Parents)
    requires DistinctIds(s) && p == ActiveManagers(s) && |nodes| == |p| && Distinct(nodes) && ReportsLinked(nodes, p, |p|)
    ensures forall i, j | 0 <= i < |nodes| && 0 <= j < |nodes| ::
              nodes[i] in nodes[j].directReports <==> s[j].id != "" && s[i].reportsTo == Some(s[j].id)
  {
    forall i: nat, j: nat | i < |nodes| && j < |nodes|
      ensures nodes[i] in nodes[j].directReports <==> s[j].id != "" && s[i].reportsTo == Some(s[j].id)
    {
      LinkMeans(nodes, p, i, j);
      ManagerMeans(s, i, j);
    }
  }

  /** Node i is a root exactly if its assignment names nobody active, and warned about if it names somebody. */
  lemma RootsMean(nodes: seq<Node>, roots: seq<Node>, s: seq<Assignment>, p: Parents)
    requires p == ActiveManagers(s) && |nodes| == |p| && NodesOf(nodes, s) && Linked(nodes, roots, p, |p|)
    ensures forall i | 0 <= i < |nodes| :: nodes[i] in roots <==> NamesNone(s[i]) || NamesNobody(s, i)
    ensures forall i | 0 <= i < |nodes| :: nodes[i].managerNotActive <==> !NamesNone(s[i]) && NamesNobody(s, i)
  {
    forall i: nat | i < |nodes|
      ensures nodes[i] in roots <==> NamesNone(s[i]) || NamesNobody(s, i)
      ensures nodes[i].managerNotActive <==> !NamesNone(s[i]) && NamesNobody(s, i)
    {
      RootMeans(nodes, roots, p, i);
      NoManagerMeans(s, i);
      assert nodes[i].reportsTo.Some? <==> !NamesNone(s[i]);
    }
  }

  lemma LinkMeans(nodes: seq<Node>, p: Parents, i: nat, j: nat)
    requires Distinct(nodes) && i < |nodes| == |p| && j < |nodes| && ReportsLinked(nodes, p, |p|)
    ensures nodes[i] in nodes[j].directReports <==> p[i] == Some(j)
  {
    assert ListOf(nodes, p, j, |p|);
    ReportsBelowContents(p, j, |p|);
    var at := Reports(p, j);
    forall k | 0 <= k < |at| ensures at[k] < |nodes| {
      assert at[k] in at;
    }
    PickMember(nodes, at, i);
  }

  lemma RootMeans(nodes: seq<Node>, roots: seq<Node>, p: Parents, i: nat)
    requires Distinct(nodes) && i < |nodes| == |p| && Linked(nodes, roots, p, |p|)
    ensures nodes[i] in roots <==> p[i].None?
    ensures nodes[i].managerNotActive <==> nodes[i].reportsTo.Some? && p[i].None?
  {
    RootsBelowContents(p, |p|);
    var at := Roots(p);
    forall k | 0 <= k < |at| ensures at[k] < |nodes| {
      assert at[k] in at;
    }
    PickMember(nodes, at, i);
    assert WarningOf(nodes, p, i, |p|);
  }

  lemma ManagerMeans(s: seq<Assignment>, i: nat, j: nat)
    requires DistinctIds(s) && i < |s| && j < |s|
    ensures ActiveManagers(s)[i] == Some(j) <==> s[j].id != "" && s[i].reportsTo == Some(s[j].id)
  {
  }

  lemma NoManagerMeans(s: seq<Assignment>, i: nat)
    requires i < |s|
    ensures ActiveManagers(s)[i].None? <==> NamesNone(s[i]) || NamesNobody(s, i)
  {
  }

  // ---------------------------------------------------------------------------------------
  // What a reader of the response meets
  // ---------------------------------------------------------------------------------------

  function SetOf(nodes: seq<Node>): set<Node> {
    set x | x in nodes
  }

  /** The direct reports of all nodes in a list, one list after the other. */
  ghost function Gather(all: set<Node>, list: seq<Node>): seq<Node>
    reads all
  {
    if list == [] then []
    else (if list[0] in all then list[0].directReports else []) + Gather(all, list[1..])
  }

  /** What is met k links below the roots. */
  ghost function Below(all: set<Node>, roots: seq<Node>, k: nat): seq<Node>
    reads all
  {
    if k == 0 then roots else Gather(all, Below(all, roots, k - 1))
  }

  /** What is met in the first n levels. */
  ghost function Traversal(all: set<Node>, roots: seq<Node>, n: nat): seq<Node>
    reads all
  {
    if n == 0 then [] else Traversal(all, roots, n - 1) + Below(all, roots, n - 1)
  }

  lemma {:induction false} PickConcat(nodes: seq<Node>, a: seq<nat>, b: seq<nat>)
    ensures Pick(nodes, a + b) == Pick(nodes, a) + Pick(nodes, b)
    decreases |b|
  {
    if b == [] {
      assert a + b == a;
    } else {
      assert (a + b)[..|a + b| - 1] == a + b[..|b| - 1];
      PickConcat(nodes, a, b[..|b| - 1]);
    }
  }

  lemma {:induction false} GatherReports(nodes: seq<Node>, all: set<Node>, p: Parents, at: seq<nat>)
    requires |nodes| == |p| && all == SetOf(nodes) && ReportsLinked(nodes, p, |p|)
    requires forall k | 0 <= k < |at| :: at[k] < |nodes|
    ensures Gather(all, Pick(nodes, at)) == Pick(nodes, ReportsOfAll(p, at))
  {
    if at != [] {
      var i, rest := at[0], at[1..];
      GatherReports(nodes, all, p, rest);
      assert at == [i] + rest;
      PickConcat(nodes, [i], rest);
      assert Pick(nodes, [i]) == [nodes[i]];
      assert ListOf(nodes, p, i, |p|) && nodes[i] in all;
      PickConcat(nodes, Reports(p, i), ReportsOfAll(p, rest));
      assert ([nodes[i]] + Pick(nodes, rest))[1..] == Pick(nodes, rest);
    }
  }

  lemma LevelInRange(p: Parents, k: nat, level: seq<nat>)
    requires InRange(p) && level == Level(p, k)
    ensures forall i | 0 <= i < |level| :: level[i] < |p|
  {
    forall i | 0 <= i < |level| ensures level[i] < |p| {
      LevelContents(p, k, level[i]);
    }
  }

  /** Following the links on the heap meets the nodes of each level of the reporting graph. */
  lemma {:induction false} BelowIsLevel(nodes: seq<Node>, all: set<Node>, roots: seq<Node>, p: Parents, k: nat)
    requires |nodes| == |p| && InRange(p) && all == SetOf(nodes) && ReportsLinked(nodes, p, |p|)
    requires roots == Pick(nodes, Roots(p))
    ensures Below(all, roots, k) == Pick(nodes, Level(p, k))
  {
    if k > 0 {
      var level := Level(p, k - 1);
      BelowIsLevel(nodes, all, roots, p, k - 1);
      LevelInRange(p, k - 1, level);
      GatherReports(nodes, all, p, level);
    }
  }

  lemma {:induction false} TraversalIsListing(nodes: seq<Node>, all: set<Node>, roots: seq<Node>, p: Parents, n: nat)
    requires forall k: nat :: Below(all, roots, k) == Pick(nodes, Level(p, k))
    ensures Traversal(all, roots, n) == Pick(nodes, Listing(p, n))
  {
    if n > 0 {
      TraversalIsListing(nodes, all, roots, p, n - 1);
      PickConcat(nodes, Listing(p, n - 1), Level(p, n - 1));
    }
  }

  lemma {:induction false} PickLength(nodes: seq<Node>, at: seq<nat>)
    requires forall k | 0 <= k < |at| :: at[k] < |nodes|
    ensures |Pick(nodes, at)| == |at|
  {
    if at != [] {
      PickLength(nodes, at[..|at| - 1]);
    }
  }

  /**
   The response of the handler, for every set of active assignments: following the links from the
   roots, the reader meets as many nodes as `total_assignments` says if and only if nobody reports
   to himself through any number of managers; each node is met under its own manager only.
   */
  lemma {:induction false} ChartIsCompleteIffAcyclic(nodes: seq<Node>, roots: seq<Node>, s: seq<Assignment>)
    requires |nodes| == |s| && Linked(nodes, roots, ActiveManagers(s), |s|)
    ensures |Traversal(SetOf(nodes), roots, |s|)| == |s| <==> Acyclic(ActiveManagers(s))
    ensures Traversal(SetOf(nodes), roots, |s|) == Pick(nodes, Listing(ActiveManagers(s), |s|))
  {
    var p := ActiveManagers(s);
    forall k: nat ensures Below(SetOf(nodes), roots, k) == Pick(nodes, Level(p, k)) {
      BelowIsLevel(nodes, SetOf(nodes), roots, p, k);
    }
    TraversalIsListing(nodes, SetOf(nodes), roots, p, |s|);
    CompleteIffAcyclic(p);
    var all := Listing(p, |s|);
    forall i | 0 <= i < |all| ensures all[i] < |nodes| {
      assert all[i] in all;
      ListingContents(p, |s|, all[i]);
    }
    PickLength(nodes, all);
  }

  lemma {:induction false} PickMember(nodes: seq<Node>, at: seq<nat>, i: nat)
    requires Distinct(nodes) && i < |nodes|
    requires forall k | 0 <= k < |at| :: at[k] < |nodes|
    ensures nodes[i] in Pick(nodes, at) <==> i in at
  {
    if at != [] {
      var n := |at| - 1;
      PickMember(nodes, at[..n], i);
      assert at == at[..n] + [at[n]];
    }
  }

  lemma {:induction false} PickDistinct(nodes: seq<Node>, at: seq<nat>)
    requires Distinct(nodes) && NoRepeats(at)
    requires forall k | 0 <= k < |at| :: at[k] < |nodes|
    ensures Distinct(Pick(nodes, at))
  {
    if at != [] {
      var n := |at| - 1;
      PickDistinct(nodes, at[..n]);
      PickMember(nodes, at[..n], at[n]);
    }
  }

  /**
   Who is in the chart, cycles or not: following the links from the roots meets the node of an
   assignment if and only if its manager chain ends, and no node twice.
   */
  lemma {:induction false} ChartHoldsEndingChains(nodes: seq<Node>, roots: seq<Node>, s: seq<Assignment>)
    requires |nodes| == |s| && Distinct(nodes) && Linked(nodes, roots, ActiveManagers(s), |s|)
    ensures Distinct(Traversal(SetOf(nodes), roots, |s|))
    ensures forall i: nat | i < |s| ::
              nodes[i] in Traversal(SetOf(nodes), roots, |s|) <==> ChainEnds(ActiveManagers(s), i)
  {
    var p := ActiveManagers(s);
    var all := Listing(p, |s|);
    ChartIsCompleteIffAcyclic(nodes, roots, s);
    ReachableIffChainEnds(p);
    forall k | 0 <= k < |all| ensures all[k] < |nodes| {
      assert all[k] in all;
      ListingContents(p, |s|, all[k]);
    }
    PickDistinct(nodes, all);
    forall i: nat | i < |s| ensures nodes[i] in Pick(nodes, all) <==> ChainEnds(p, i) {
      PickMember(nodes, all, i);
    }
  }
}
