/**
 The Program dispatcher: which tracked issues are ready, in what order it recommends them, and what happens when
 its first recommendation is carried out again and again.

 Titles enter only through whether they mention certification or a cut-over.
 */
module Dispatcher {
  import opened Sequences
  import opened Wrappers
  import opened Digraph
  import opened Ordering

  datatype Program = Program(priority: int, terminalIssue: int)

  const PROGRAM_BY_KEY: map<string, Program> := map[
    "teaching-content-factory-v2" := Program(0, 474),
    "creator-trust-plane-v1" := Program(1, 487),
    "pedagogical-intelligence-kernel-v1" := Program(2, 503),
    "methodology-operating-system-v1" := Program(3, 538),
    "export-delivery-hardening-v1" := Program(3, 521)]

  const PROGRAM_GATES: map<int, seq<int>> := map[503 := [538], 474 := [487, 503, 521]]

  datatype Issue = Issue(number: int, certificationTitle: bool, isOpen: bool, programKey: Option<string>,
                         isEpic: bool, blockers: seq<int>)

  type Repository = map<int, Issue>

  function EffectiveBlockers(issue: Issue): seq<int> {
    Dedup(issue.blockers + (if issue.number in PROGRAM_GATES then PROGRAM_GATES[issue.number] else []))
  }

  function OpenBlockers(repo: Repository, blockers: seq<int>): seq<int> {
    Filter(b => b in repo && repo[b].isOpen, blockers)
  }

  function UnknownBlockers(repo: Repository, blockers: seq<int>): seq<int> {
    Filter(b => b !in repo, blockers)
  }

  function Readiness(issue: Issue, repo: Repository): (bool, seq<int>, seq<int>) {
    var open, unknown := OpenBlockers(repo, EffectiveBlockers(issue)), UnknownBlockers(repo, EffectiveBlockers(issue));
    (issue.isOpen && open == [] && unknown == [], open, unknown)
  }

  method ComputeReadiness(issue: Issue, repo: Repository)
    returns (ready: bool, openBlockers: seq<int>, unknownBlockers: seq<int>)
    ensures (ready, openBlockers, unknownBlockers) == Readiness(issue, repo)
  {
    openBlockers, unknownBlockers := [], [];
    var numbers := EffectiveBlockers(issue);
    for i := 0 to |numbers|
      invariant openBlockers == OpenBlockers(repo, numbers[..i])
      invariant unknownBlockers == UnknownBlockers(repo, numbers[..i])
    {
      var number := numbers[i];
      assert numbers[..i + 1] == numbers[..i] + [number];
      FilterAppend(b => b in repo && repo[b].isOpen, numbers[..i], number);
      FilterAppend(b => b !in repo, numbers[..i], number);
      if number !in repo {
        unknownBlockers := unknownBlockers + [number];
      } else if repo[number].isOpen {
        openBlockers := openBlockers + [number];
      }
    }
    assert numbers[..|numbers|] == numbers;
    ready := issue.isOpen && openBlockers == [] && unknownBlockers == [];
  }

  predicate Tracked(issue: Issue) {
    issue.programKey.Some? && issue.programKey.value in PROGRAM_BY_KEY && !issue.isEpic
  }

  function TrackedChildren(issues: seq<Issue>): seq<Issue> {
    Filter((issue: Issue) => Tracked(issue), issues)
  }

  /** How many open children name `blocker`. */
  function DependentCount(children: seq<Issue>, blocker: int): nat {
    |Filter((child: Issue) => child.isOpen && blocker in EffectiveBlockers(child), children)|
  }

  function CountOf(counts: map<int, int>, blocker: int): int {
    if blocker in counts then counts[blocker] else 0
  }

  method DependentCounts(children: seq<Issue>) returns (counts: map<int, int>)
    ensures forall b :: CountOf(counts, b) == DependentCount(children, b)
  {
    counts := map[];
    for i := 0 to |children|
      invariant forall b :: CountOf(counts, b) == DependentCount(children[..i], b)
    {
      var child := children[i];
      assert children[..i + 1] == children[..i] + [child];
      forall b
        ensures DependentCount(children[..i + 1], b) ==
                DependentCount(children[..i], b) + (if child.isOpen && b in EffectiveBlockers(child) then 1 else 0)
      {
        FilterAppend((c: Issue) => c.isOpen && b in EffectiveBlockers(c), children[..i], child);
      }
      if child.isOpen {
        var numbers := EffectiveBlockers(child);
        DedupMembers(child.blockers
                     + (if child.number in PROGRAM_GATES then PROGRAM_GATES[child.number] else []));
        for j := 0 to |numbers|
          invariant forall b ::
            CountOf(counts, b) == DependentCount(children[..i], b) + (if b in numbers[..j] then 1 else 0)
        {
          counts := counts[numbers[j] := CountOf(counts, numbers[j]) + 1];
        }
        assert numbers[..|numbers|] == numbers;
      }
    }
    assert children[..|children|] == children;
  }

  function ProgramOf(issue: Issue): Program {
    if issue.programKey.Some? && issue.programKey.value in PROGRAM_BY_KEY
    then PROGRAM_BY_KEY[issue.programKey.value]
    else Program(0, 0)  // not met: only tracked issues are ranked
  }

  predicate IsCertification(issue: Issue) {
    issue.number == ProgramOf(issue).terminalIssue || issue.certificationTitle
  }

  function FrontierKey(children: seq<Issue>, issue: Issue): seq<real> {
    [ProgramOf(issue).priority as real,
     if IsCertification(issue) then 1.0 else 0.0,
     -(DependentCount(children, issue.number) as real),
     issue.number as real]
  }

  function FrontierOrder(children: seq<Issue>): (Issue, Issue) -> bool {
    (a, b) => TupleLe(FrontierKey(children, a), FrontierKey(children, b))
  }

  function ReadyFrontier(children: seq<Issue>, repo: Repository): seq<Issue> {
    SortBy(FrontierOrder(children), Filter((issue: Issue) => Readiness(issue, repo).0, children))
  }

  /** `issue_by_number`: a later issue with the same number replaces an earlier one. */
  function ByNumber(issues: seq<Issue>): Repository {
    if issues == [] then map[]
    else ByNumber(issues[..|issues| - 1])[issues[|issues| - 1].number := issues[|issues| - 1]]
  }

  function Frontier(issues: seq<Issue>): seq<Issue> {
    ReadyFrontier(TrackedChildren(issues), ByNumber(issues))
  }

  function Closed(issues: seq<Issue>, number: int): (r: seq<Issue>)
    ensures |r| == |issues|
  {
    Map((issue: Issue) => if issue.number == number then issue.(isOpen := false) else issue, issues)
  }

  ghost predicate DistinctNumbers(issues: seq<Issue>) {
    forall i, j :: 0 <= i < j < |issues| ==> issues[i].number != issues[j].number
  }

  // ---- the repository as a dictionary

  ghost predicate WellKeyed(repo: Repository) {
    forall n <- repo :: repo[n].number == n
  }

  lemma {:induction false} ByNumberIndexes(issues: seq<Issue>)
    requires DistinctNumbers(issues)
    ensures WellKeyed(ByNumber(issues))
    ensures var repo := ByNumber(issues);
            forall issue :: issue in issues <==> issue.number in repo && repo[issue.number] == issue
    ensures forall n <- ByNumber(issues) :: ByNumber(issues)[n] in issues
  {
    if issues != [] {
      var init, last := issues[..|issues| - 1], issues[|issues| - 1];
      assert issues == init + [last];
      ByNumberIndexes(init);
      forall issue | issue in init
        ensures issue.number != last.number
      {
      }
    }
  }

  lemma {:induction false} ByNumberOfClosed(issues: seq<Issue>, number: int)
    requires DistinctNumbers(issues) && number in ByNumber(issues)
    ensures DistinctNumbers(Closed(issues, number))
    ensures ByNumber(Closed(issues, number)) == CloseIn(ByNumber(issues), number)
  {
    ByNumberIndexes(issues);
    ByNumberIndexes(Closed(issues, number));
    SameDictionary(issues, Closed(issues, number), ByNumber(issues), ByNumber(Closed(issues, number)), number);
  }

  lemma SameDictionary(issues: seq<Issue>, closed: seq<Issue>, before: Repository, after: Repository, number: int)
    requires |closed| == |issues| && number in before && WellKeyed(before) && WellKeyed(after)
    requires forall i :: 0 <= i < |issues| ==>
      closed[i] == (if issues[i].number == number then issues[i].(isOpen := false) else issues[i])
    requires forall issue <- issues :: issue.number in before && before[issue.number] == issue
    requires forall issue <- closed :: issue.number in after && after[issue.number] == issue
    requires (forall n <- before :: before[n] in issues) && (forall n <- after :: after[n] in closed)
    ensures after == CloseIn(before, number)
  {
    forall n | n in before
      ensures n in after && after[n] == CloseIn(before, number)[n]
    {
      var i :| 0 <= i < |issues| && issues[i] == before[n];
      assert closed[i] in closed;
    }
    forall n | n in after
      ensures n in before
    {
      var i :| 0 <= i < |closed| && closed[i] == after[n];
      assert issues[i] in issues;
    }
  }

  ghost function CloseIn(repo: Repository, number: int): Repository
    requires number in repo
  {
    repo[number := repo[number].(isOpen := false)]
  }

  /** The tracked children that are still open. */
  function OpenTracked(repo: Repository): set<int> {
    set n | n in repo && repo[n].isOpen && Tracked(repo[n])
  }

  ghost predicate AllClosed(repo: Repository, blockers: seq<int>) {
    forall b :: b in blockers ==> b in repo && !repo[b].isOpen
  }

  ghost predicate Ready(repo: Repository, n: int) {
    n in OpenTracked(repo) && AllClosed(repo, EffectiveBlockers(repo[n]))
  }

  lemma ReadinessMeans(issue: Issue, repo: Repository)
    ensures Readiness(issue, repo).0 <==> issue.isOpen && AllClosed(repo, EffectiveBlockers(issue))
  {
    var blockers := EffectiveBlockers(issue);
    FilterMembers(b => b in repo && repo[b].isOpen, blockers);
    FilterMembers(b => b !in repo, blockers);
    var open, unknown := OpenBlockers(repo, blockers), UnknownBlockers(repo, blockers);
    if open != [] {
      var b := open[0];
      assert b in open;
    } else if unknown != [] {
      var b := unknown[0];
      assert b in unknown;
    } else {
      forall b | b in blockers
        ensures b in repo && !repo[b].isOpen
      {
        assert b !in open && b !in unknown;
      }
    }
  }

  /** The frontier lists exactly the ready tracked children, each once, best first. */
  lemma FrontierIsReadyChildren(issues: seq<Issue>)
    requires DistinctNumbers(issues)
    ensures var frontier, repo := Frontier(issues), ByNumber(issues);
            && (forall issue :: issue in frontier <==> issue in issues && Ready(repo, issue.number))
            && multiset(frontier) <= multiset(issues)
            && SortedBy(FrontierOrder(TrackedChildren(issues)), frontier)
  {
    var children, repo := TrackedChildren(issues), ByNumber(issues);
    var ready := Filter((issue: Issue) => Readiness(issue, repo).0, children);
    FilterMembers((issue: Issue) => Tracked(issue), issues);
    FilterMembers((issue: Issue) => Readiness(issue, repo).0, children);
    ByNumberIndexes(issues);
    var le := FrontierOrder(children);
    FrontierOrderIsOrder(children);
    SortPermutes(le, ready);
    SortSorts(le, ready);
    FilterShrinks((issue: Issue) => Tracked(issue), issues);
    FilterShrinks((issue: Issue) => Readiness(issue, repo).0, children);
    forall issue
      ensures issue in ready <==> issue in issues && Ready(repo, issue.number)
    {
      ReadinessMeans(issue, repo);
    }
  }

  /** A blocker is one the issue's own body names, these first, or one that gates its program. */
  lemma EffectiveBlockersExactly(issue: Issue, b: int)
    ensures b in EffectiveBlockers(issue)
       <==> b in issue.blockers || (issue.number in PROGRAM_GATES && b in PROGRAM_GATES[issue.number])
    ensures Distinct(EffectiveBlockers(issue)) && Dedup(issue.blockers) <= EffectiveBlockers(issue)
  {
    var all := issue.blockers + (if issue.number in PROGRAM_GATES then PROGRAM_GATES[issue.number] else []);
    DedupMembers(all);
    DedupKeepsFirst(all, |issue.blockers|);
    assert all[..|issue.blockers|] == issue.blockers;
  }

  /** The reported blockers, each once: the known open ones, and the unknown ones. */
  lemma ReadinessReportsExactly(issue: Issue, repo: Repository, b: int)
    ensures var (ready, open, unknown) := Readiness(issue, repo);
            var blocks := b in issue.blockers || (issue.number in PROGRAM_GATES && b in PROGRAM_GATES[issue.number]);
            && (b in open <==> blocks && b in repo && repo[b].isOpen)
            && (b in unknown <==> blocks && b !in repo)
            && Distinct(open) && Distinct(unknown)
  {
    EffectiveBlockersExactly(issue, b);
    var blockers := EffectiveBlockers(issue);
    FilterMembers(b => b in repo && repo[b].isOpen, blockers);
    FilterMembers(b => b !in repo, blockers);
    FilterKeepsDistinct(b => b in repo && repo[b].isOpen, blockers);
    FilterKeepsDistinct(b => b !in repo, blockers);
  }

  /** The issue is open, tracked, and names `b` as a blocker or is gated by it. */
  predicate Depends(issue: Issue, b: int) {
    issue.isOpen && issue.programKey.Some? && issue.programKey.value in PROGRAM_BY_KEY && !issue.isEpic
    && (b in issue.blockers || (issue.number in PROGRAM_GATES && b in PROGRAM_GATES[issue.number]))
  }

  /** The numbers of the open tracked issues that name `b` as a blocker or are gated by it. */
  function OpenDependents(issues: seq<Issue>, b: int): set<int> {
    set issue | issue in issues && Depends(issue, b) :: issue.number
  }

  lemma OpenDependentsPrepend(issues: seq<Issue>, b: int)
    requires DistinctNumbers(issues) && issues != []
    ensures |OpenDependents(issues, b)| == (if Depends(issues[0], b) then 1 else 0) + |OpenDependents(issues[1..], b)|
  {
    hide Depends;
    var head, rest := issues[0], issues[1..];
    forall n | n in OpenDependents(rest, b)
      ensures n != head.number
    {
      var i :| 0 <= i < |rest| && rest[i].number == n;
      assert issues[0].number != issues[i + 1].number;
    }
    assert issues == [head] + rest;
    assert OpenDependents(issues, b) == OpenDependents(rest, b) + if Depends(head, b) then {head.number} else {};
  }

  lemma {:induction false} DependentCountExactly(issues: seq<Issue>, b: int)
    requires DistinctNumbers(issues)
    ensures DependentCount(TrackedChildren(issues), b) == |OpenDependents(issues, b)|
  {
    hide EffectiveBlockers, OpenDependents, DependentCount, TrackedChildren;
    if issues == [] {
      NobodyDepends(b);
    } else {
      DependentCountExactly(issues[1..], b);
      EffectiveBlockersExactly(issues[0], b);
      DependentCountPrepend(issues, b);
      OpenDependentsPrepend(issues, b);
    }
  }

  lemma NobodyDepends(b: int)
    ensures DependentCount(TrackedChildren([]), b) == |OpenDependents([], b)|
  {
  }

  lemma DependentCountPrepend(issues: seq<Issue>, b: int)
    requires issues != []
    ensures var counts := Tracked(issues[0]) && issues[0].isOpen && b in EffectiveBlockers(issues[0]);
            DependentCount(TrackedChildren(issues), b)
            == (if counts then 1 else 0) + DependentCount(TrackedChildren(issues[1..]), b)
  {
    var rest := TrackedChildren(issues[1..]);
    if Tracked(issues[0]) {
      assert TrackedChildren(issues) == [issues[0]] + rest;
      assert TrackedChildren(issues)[1..] == rest;
    } else {
      assert TrackedChildren(issues) == [] + rest == rest;
    }
  }

  /**
   What the frontier lists, in terms of the issues: the open ones that belong to a program, are no epic, and have every
   blocker known and closed.
   */
  lemma FrontierMembersExactly(issues: seq<Issue>, issue: Issue)
    requires DistinctNumbers(issues)
    ensures issue in Frontier(issues)
       <==> issue in issues && issue.isOpen && issue.programKey.Some? && issue.programKey.value in PROGRAM_BY_KEY
            && !issue.isEpic
            && forall b :: b in issue.blockers
                           || (issue.number in PROGRAM_GATES && b in PROGRAM_GATES[issue.number]) ==>
                 exists other :: other in issues && other.number == b && !other.isOpen
  {
    hide ByNumber, Frontier, EffectiveBlockers;
    var repo := ByNumber(issues);
    FrontierIsReadyChildren(issues);
    ByNumberIndexes(issues);
    forall b
      ensures b in EffectiveBlockers(issue)
         <==> b in issue.blockers || (issue.number in PROGRAM_GATES && b in PROGRAM_GATES[issue.number])
      ensures b in repo && !repo[b].isOpen <==> exists other :: other in issues && other.number == b && !other.isOpen
    {
      EffectiveBlockersExactly(issue, b);
      ClosedInDictionary(issues, b);
    }
  }

  lemma ClosedInDictionary(issues: seq<Issue>, b: int)
    requires DistinctNumbers(issues)
    ensures b in ByNumber(issues) && !ByNumber(issues)[b].isOpen
       <==> exists other :: other in issues && other.number == b && !other.isOpen
  {
    hide ByNumber;
    ByNumberIndexes(issues);
    if b in ByNumber(issues) {
      assert ByNumber(issues)[b] in issues && ByNumber(issues)[b].number == b;
    }
  }

  /**
   The order of the frontier, field by field: the program's priority does not fall; at equal priority certification
   comes last; then the issue on which more open tracked issues depend comes first; then the smaller number.
   */
  lemma FrontierOrderExactly(issues: seq<Issue>, i: nat, j: nat)
    requires DistinctNumbers(issues) && i < j < |Frontier(issues)|
    ensures var a, b := Frontier(issues)[i], Frontier(issues)[j];
            && a.programKey.Some? && b.programKey.Some?
            && a.programKey.value in PROGRAM_BY_KEY && b.programKey.value in PROGRAM_BY_KEY
            && var p, q := PROGRAM_BY_KEY[a.programKey.value], PROGRAM_BY_KEY[b.programKey.value];
               var lastA, lastB := a.number == p.terminalIssue || a.certificationTitle,
                                   b.number == q.terminalIssue || b.certificationTitle;
               var dependA, dependB := |OpenDependents(issues, a.number)|, |OpenDependents(issues, b.number)|;
               && p.priority <= q.priority
               && (p.priority == q.priority ==> (lastA ==> lastB))
               && (p.priority == q.priority && lastA == lastB ==> dependA >= dependB)
               && (p.priority == q.priority && lastA == lastB && dependA == dependB ==> a.number < b.number)
  {
    hide ReadyFrontier, ByNumber, DependentCount, OpenDependents, EffectiveBlockers, TrackedChildren;
    var frontier, children := Frontier(issues), TrackedChildren(issues);
    var a, b := frontier[i], frontier[j];
    FrontierIsReadyChildren(issues);
    assert a in frontier && b in frontier;
    FrontierMembersExactly(issues, a);
    FrontierMembersExactly(issues, b);
    assert FrontierOrder(children)(a, b);
    FrontierKeyCompares(children, a, b);
    DependentCountExactly(issues, a.number);
    DependentCountExactly(issues, b.number);
    FrontierNumbersDiffer(issues, i, j);
  }

  lemma FrontierKeyCompares(children: seq<Issue>, a: Issue, b: Issue)
    ensures FrontierOrder(children)(a, b) ==>
              var p, q := ProgramOf(a).priority, ProgramOf(b).priority;
              var m, n := DependentCount(children, a.number), DependentCount(children, b.number);
              && p <= q
              && (p == q ==> (IsCertification(a) ==> IsCertification(b)))
              && (p == q && IsCertification(a) == IsCertification(b) ==> m >= n)
              && (p == q && IsCertification(a) == IsCertification(b) && m == n ==> a.number <= b.number)
  {
    hide DependentCount, ProgramOf, IsCertification;
    var x, y := FrontierKey(children, a), FrontierKey(children, b);
    assert TupleLe(x, y) ==> x[0] < y[0] || (x[0] == y[0] && TupleLe(x[1..], y[1..]));
    assert TupleLe(x[1..], y[1..]) ==> x[1] < y[1] || (x[1] == y[1] && TupleLe(x[1..][1..], y[1..][1..]));
    var u, v := x[1..][1..], y[1..][1..];
    assert u == x[2..] && v == y[2..];
    assert TupleLe(u, v) ==> u[0] < v[0] || (u[0] == v[0] && TupleLe(u[1..], v[1..]));
    assert TupleLe(u[1..], v[1..]) ==> u[1] <= v[1];
  }

  lemma FrontierNumbersDiffer(issues: seq<Issue>, i: nat, j: nat)
    requires DistinctNumbers(issues) && i < j < |Frontier(issues)|
    ensures Frontier(issues)[i].number != Frontier(issues)[j].number
  {
    var children, repo := TrackedChildren(issues), ByNumber(issues);
    var ready, frontier := Filter((issue: Issue) => Readiness(issue, repo).0, children), Frontier(issues);
    FrontierIsReadyChildren(issues);
    FilterKeepsDistinct((issue: Issue) => Tracked(issue), issues);
    FilterKeepsDistinct((issue: Issue) => Readiness(issue, repo).0, children);
    SortKeepsDistinct(FrontierOrder(children), ready);
    assert frontier[i] in frontier && frontier[j] in frontier && frontier[i] != frontier[j];
  }

  lemma FrontierOrderIsOrder(children: seq<Issue>)
    ensures TotalPreorder(FrontierOrder(children))
  {
    var le := FrontierOrder(children);
    forall a, b ensures le(a, b) || le(b, a) {
      TupleLeTotal(FrontierKey(children, a), FrontierKey(children, b));
    }
    forall a, b, c | le(a, b) && le(b, c) ensures le(a, c) {
      TupleLeTransitive(FrontierKey(children, a), FrontierKey(children, b), FrontierKey(children, c));
    }
  }

  /** Closing an issue never makes another one unready. */
  lemma ClosingKeepsReady(repo: Repository, closed: int, n: int)
    requires closed in repo && n != closed && Ready(repo, n)
    ensures Ready(CloseIn(repo, closed), n)
  {
    assert EffectiveBlockers(CloseIn(repo, closed)[n]) == EffectiveBlockers(repo[n]);
  }

  // ---- carrying out the first recommendation until none is left

  /** The numbers closed by following the head of the frontier. */
  function Drain(issues: seq<Issue>): seq<int>
    requires DistinctNumbers(issues)
    decreases OpenTracked(ByNumber(issues))
  {
    if Frontier(issues) == [] then []
    else
      var head := Frontier(issues)[0].number;
      CloseHead(issues);
      [head] + Drain(Closed(issues, head))
  }

  lemma CloseHead(issues: seq<Issue>)
    requires DistinctNumbers(issues) && Frontier(issues) != []
    ensures var repo, head := ByNumber(issues), Frontier(issues)[0].number;
            && Ready(repo, head)
            && DistinctNumbers(Closed(issues, head)) && ByNumber(Closed(issues, head)) == CloseIn(repo, head)
            && OpenTracked(CloseIn(repo, head)) == OpenTracked(repo) - {head}
            && OpenTracked(CloseIn(repo, head)) < OpenTracked(repo)
  {
    var head := Frontier(issues)[0];
    FrontierIsReadyChildren(issues);
    assert head in Frontier(issues);
    ClosingShrinks(ByNumber(issues), head.number);
    ByNumberOfClosed(issues, head.number);
  }

  lemma ClosingShrinks(repo: Repository, n: int)
    requires n in OpenTracked(repo)
    ensures OpenTracked(CloseIn(repo, n)) == OpenTracked(repo) - {n}
    ensures OpenTracked(CloseIn(repo, n)) < OpenTracked(repo)
  {
  }

  /** The blocking relation among the open tracked children. */
  ghost function BlockingEdges(repo: Repository): set<(int, int)> {
    set n, b | n in OpenTracked(repo) && b in EffectiveBlockers(repo[n]) && b in OpenTracked(repo) :: (b, n)
  }

  lemma BlockingEdge(repo: Repository, b: int, n: int)
    ensures (b, n) in BlockingEdges(repo)
       <==> n in OpenTracked(repo) && b in EffectiveBlockers(repo[n]) && b in OpenTracked(repo)
  {
  }

  /** Every blocker of an open tracked child is known, and closed or itself a tracked child. */
  ghost predicate BlockersResolvable(repo: Repository) {
    forall n, b :: n in OpenTracked(repo) && b in EffectiveBlockers(repo[n]) ==>
      b in repo && (!repo[b].isOpen || b in OpenTracked(repo))
  }

  ghost predicate Drainable(repo: Repository) {
    BlockersResolvable(repo) && Acyclic(BlockingEdges(repo))
  }

  /** While a tracked child is open, a drainable repository has something ready. */
  lemma DrainableHasFrontier(issues: seq<Issue>)
    requires DistinctNumbers(issues) && Drainable(ByNumber(issues)) && OpenTracked(ByNumber(issues)) != {}
    ensures Frontier(issues) != []
  {
    var repo := ByNumber(issues);
    var n := AcyclicHasSource(BlockingEdges(repo), OpenTracked(repo));
    forall b | b in EffectiveBlockers(repo[n])
      ensures b in repo && !repo[b].isOpen
    {
      BlockingEdge(repo, b, n);
    }
    assert Ready(repo, n);
    ByNumberIndexes(issues);
    FrontierIsReadyChildren(issues);
    assert repo[n] in Frontier(issues);
  }

  lemma ClosingKeepsDrainable(repo: Repository, n: int)
    requires Drainable(repo) && n in OpenTracked(repo)
    ensures Drainable(CloseIn(repo, n))
  {
    var after := CloseIn(repo, n);
    forall m | m in after
      ensures EffectiveBlockers(after[m]) == EffectiveBlockers(repo[m])
    {
    }
    assert OpenTracked(after) == OpenTracked(repo) - {n};
    forall b, m | (b, m) in BlockingEdges(after)
      ensures (b, m) in BlockingEdges(repo)
    {
      BlockingEdge(after, b, m);
      BlockingEdge(repo, b, m);
    }
    FewerEdgesStayAcyclic(BlockingEdges(after), BlockingEdges(repo));
  }

  lemma FewerEdgesStayAcyclic<V(!new)>(fewer: set<(V, V)>, edges: set<(V, V)>)
    requires Acyclic(edges) && forall u, v :: (u, v) in fewer ==> (u, v) in edges
    ensures Acyclic(fewer)
  {
    forall v ensures !Reaches(fewer, v, v) {
      if Reaches(fewer, v, v) {
        var p :| WalkFromTo(fewer, v, v, p);
        forall i: nat | i < |p| - 1 ensures Linked(edges, p, i) {
          assert Linked(fewer, p, i);
        }
        assert WalkFromTo(edges, v, v, p);
        assert Reaches(edges, v, v);
      }
    }
  }

  lemma DrainUnfolds(issues: seq<Issue>)
    requires DistinctNumbers(issues) && Frontier(issues) != []
    ensures var head := Frontier(issues)[0].number;
            && DistinctNumbers(Closed(issues, head))
            && Drain(issues) == [head] + Drain(Closed(issues, head))
            && Elements(Drain(issues)) == {head} + Elements(Drain(Closed(issues, head)))
  {
    CloseHead(issues);
    var head := Frontier(issues)[0].number;
    ElementsPrepend(head, Drain(Closed(issues, head)));
  }

  /** All blockers of the `k`-th issue closed were closed to begin with or earlier in the drain. */
  ghost predicate AfterItsBlockers(repo: Repository, order: seq<int>, k: nat)
    requires k < |order|
  {
    && order[k] in OpenTracked(repo)
    && forall b <- EffectiveBlockers(repo[order[k]]) :: b in repo && (!repo[b].isOpen || b in order[..k])
  }

  /** Whatever the repository, a drain closes open tracked children only, each once and after all its blockers. */
  lemma {:induction false} DrainRespectsBlockers(issues: seq<Issue>)
    requires DistinctNumbers(issues)
    ensures Distinct(Drain(issues))
    ensures forall k: nat :: k < |Drain(issues)| ==> AfterItsBlockers(ByNumber(issues), Drain(issues), k)
    decreases OpenTracked(ByNumber(issues))
  {
    if Frontier(issues) != [] {
      var head := Frontier(issues)[0].number;
      CloseHead(issues);
      DrainUnfolds(issues);
      DrainRespectsBlockers(Closed(issues, head));
      PrependKeepsOrder(ByNumber(issues), head, Drain(Closed(issues, head)));
    }
  }

  lemma PrependKeepsOrder(repo: Repository, head: int, rest: seq<int>)
    requires Ready(repo, head) && Distinct(rest)
    requires forall k: nat :: k < |rest| ==> AfterItsBlockers(CloseIn(repo, head), rest, k)
    ensures Distinct([head] + rest)
    ensures forall k: nat :: k < |[head] + rest| ==> AfterItsBlockers(repo, [head] + rest, k)
  {
    var order := [head] + rest;
    forall k: nat | 0 < k < |order|
      ensures order[k] != head && AfterItsBlockers(repo, order, k)
    {
      assert AfterItsBlockers(CloseIn(repo, head), rest, k - 1);
      assert order[..k] == [head] + rest[..k - 1];
    }
  }

  lemma {:induction false} DrainableDrains(issues: seq<Issue>)
    requires DistinctNumbers(issues) && Drainable(ByNumber(issues))
    ensures Elements(Drain(issues)) == OpenTracked(ByNumber(issues))
    decreases OpenTracked(ByNumber(issues))
  {
    if Frontier(issues) == [] {
      if OpenTracked(ByNumber(issues)) != {} {
        DrainableHasFrontier(issues);
      }
    } else {
      var head := Frontier(issues)[0].number;
      CloseHead(issues);
      ClosingKeepsDrainable(ByNumber(issues), head);
      DrainableDrains(Closed(issues, head));
      DrainUnfolds(issues);
    }
  }

  lemma DrainedWasDrainable(issues: seq<Issue>)
    requires DistinctNumbers(issues) && Elements(Drain(issues)) == OpenTracked(ByNumber(issues))
    ensures Drainable(ByNumber(issues))
  {
    hide Drain, ByNumber, EffectiveBlockers, BlockingEdges;
    var repo, order := ByNumber(issues), Drain(issues);
    DrainRespectsBlockers(issues);
    forall n, b | n in OpenTracked(repo) && b in EffectiveBlockers(repo[n])
      ensures b in repo && (!repo[b].isOpen || b in OpenTracked(repo))
    {
      assert n in Elements(order);
      var k :| 0 <= k < |order| && order[k] == n;
      assert AfterItsBlockers(repo, order, k);
      assert b in order[..k] ==> b in Elements(order);
    }
    var edges := BlockingEdges(repo);
    forall i, u | 0 <= i < |order| && (u, order[i]) in edges
      ensures u in order[..i]
    {
      assert AfterItsBlockers(repo, order, i);
      BlockingEdge(repo, u, order[i]);
    }
    forall e | e in edges
      ensures e.1 in order
    {
      BlockingEdge(repo, e.0, e.1);
      assert e.1 in Elements(order);
    }
    TopologicalIsAcyclic(edges, order);
  }

  /**
   Following the head of the frontier closes every open tracked child, in exactly as many steps as there are,
   exactly when every blocker is known, closed or tracked, and the open children do not block one another in a
   cycle.
   */
  lemma DrainCompletesExactly(issues: seq<Issue>)
    requires DistinctNumbers(issues)
    ensures Elements(Drain(issues)) == OpenTracked(ByNumber(issues)) <==> Drainable(ByNumber(issues))
    ensures Drainable(ByNumber(issues)) ==> |Drain(issues)| == |OpenTracked(ByNumber(issues))|
  {
    if Drainable(ByNumber(issues)) {
      DrainableDrains(issues);
      DrainRespectsBlockers(issues);
      DistinctCount(Drain(issues));
    } else if Elements(Drain(issues)) == OpenTracked(ByNumber(issues)) {
      DrainedWasDrainable(issues);
    }
  }
}
