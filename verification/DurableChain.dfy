// The commits of a net as one gap-free chain.

module DurableChain {
  import opened PureActionRecords
  import opened DurableTables
  import opened DurableInvariant
  import opened DurableRuns

  function CommitsOfNet(t: Tables, net: string): set<ReservationIdentity> {
    set id | id in t.commits && t.commits[id].event.net == net
  }

  // The commits of a net, listed: each once, none missing, each starting exactly where its
  // predecessor ended, the first at the initial and the last at the current coordinate.
  ghost predicate GapFree(t: Tables, net: string, path: seq<ReservationIdentity>)
    requires net in t.initial && net in t.current
  {
    && (forall i | 0 <= i < |path| :: path[i] in CommitsOfNet(t, net))
    && (forall id | id in CommitsOfNet(t, net) :: id in path)
    && (forall i, j | 0 <= i < j < |path| :: path[i] != path[j])
    && (path == [] ==> t.current[net] == t.initial[net])
    && (path != [] ==> t.commits[path[0]].event.predecessor == t.initial[net])
    && (forall i | 0 < i < |path| :: t.commits[path[i]].event.predecessor == t.commits[path[i - 1]].event.successor)
    && (path != [] ==> t.commits[path[|path| - 1]].event.successor == t.current[net])
  }

  lemma {:induction false} LeadsStepByStep(commits: map<ReservationIdentity, CommitRow>, start: Coordinate,
                                           path: seq<ReservationIdentity>, end: Coordinate, i: nat)
    requires CommitsAdvance(commits) && Leads(commits, start, path, end) && i < |path|
    ensures path[i] in commits
    ensures i == 0 ==> commits[path[i]].event.predecessor == start
    ensures i > 0 ==> path[i - 1] in commits
                      && commits[path[i]].event.predecessor == commits[path[i - 1]].event.successor
    decreases |path|
  {
    var n := |path| - 1;
    if i == n {
      if i > 0 { assert path[..n][n - 1] == path[i - 1]; }
    } else {
      LeadsStepByStep(commits, start, path[..n], commits[path[n]].event.predecessor, i);
    }
  }

  lemma {:induction false} DistinctCount<T>(path: seq<T>, members: set<T>)
    requires forall i, j | 0 <= i < j < |path| :: path[i] != path[j]
    requires forall x :: x in path <==> x in members
    ensures |members| == |path|
    decreases |path|
  {
    if path == [] {
      assert members == {};
    } else {
      var n := |path| - 1;
      forall x ensures x in path[..n] <==> x in members - {path[n]} {
        assert x in path <==> x in path[..n] || x == path[n];
      }
      DistinctCount(path[..n], members - {path[n]});
    }
  }

  lemma HistoryIsGapFree(t: Tables, net: string, path: seq<ReservationIdentity>)
    requires CommitsAgree(t) && IsHistory(t, net, path)
    ensures GapFree(t, net, path)
    ensures t.current[net].revision == t.initial[net].revision + |path|
  {
    CommitsDoAdvance(t);
    HistoryRevisions(t.commits, t.initial[net], path, t.current[net]);
    forall i | 0 <= i < |path|
      ensures path[i] in CommitsOfNet(t, net)
      ensures i == 0 ==> t.commits[path[i]].event.predecessor == t.initial[net]
      ensures i > 0 ==> path[i - 1] in t.commits
                        && t.commits[path[i]].event.predecessor == t.commits[path[i - 1]].event.successor
      ensures t.commits[path[i]].event.successor.revision == t.initial[net].revision + i + 1
    {
      assert path[i] in path;
      LeadsStepByStep(t.commits, t.initial[net], path, t.current[net], i);
      HistoryBounds(t.commits, t.initial[net], path, t.current[net], i);
    }
    forall id | id in CommitsOfNet(t, net) ensures id in path {}
    forall i, j | 0 <= i < j < |path| ensures path[i] != path[j] {
      assert t.commits[path[i]].event.successor.revision < t.commits[path[j]].event.successor.revision;
    }
  }

  // In every reachable store, the commits of each net form one gap-free chain from its initial to
  // its current predecessor, and the current revision counts them.
  lemma CommitsFormOneChain(t: Tables, actions: seq<Action>, net: string) returns (path: seq<ReservationIdentity>)
    requires Invariant(t) && net in Run(t, actions).initial
    ensures var s := Run(t, actions);
            && net in s.current
            && GapFree(s, net, path)
            && s.current[net].revision == s.initial[net].revision + |CommitsOfNet(s, net)|
  {
    var s := Run(t, actions);
    RunKeeps(t, actions);
    assert HasHistory(s, net);
    path :| IsHistory(s, net, path);
    HistoryIsGapFree(s, net, path);
    DistinctCount(path, CommitsOfNet(s, net));
  }
}
