/** The score-change monitor: a baseline snapshot, then one poll after another,
    each comparing the points of the home and the away slot with the previous
    snapshot and spawning a notification for the current team of every slot
    whose points differ. */
module Monitor {
  import opened Common
  import opened Models

  /** What `notify_if_score_changed` spawns for one slot: the current team when
      the points differ, nothing otherwise. Names play no part. */
  function Notification(prevTeam: Team, currentTeam: Team): (spawned: seq<Team>)
    ensures |spawned| <= 1
    ensures spawned != [] <==> prevTeam.points != currentTeam.points
    ensures spawned != [] ==> spawned[0] == currentTeam
  {
    if prevTeam.points != currentTeam.points then [currentTeam] else []
  }

  /** What one poll spawns: the home slot's notification, then the away slot's. */
  function PollNotifications(prev: MatchScore, current: MatchScore): (spawned: seq<Team>)
    ensures |spawned| <= 2
    ensures spawned == [] <==> prev.homeTeam.points == current.homeTeam.points
                               && prev.awayTeam.points == current.awayTeam.points
    ensures |spawned| == 2 <==> prev.homeTeam.points != current.homeTeam.points
                                && prev.awayTeam.points != current.awayTeam.points
    ensures |spawned| == 2 ==> spawned == [current.homeTeam, current.awayTeam]
    ensures |spawned| == 1 ==>
              spawned[0] == if prev.homeTeam.points != current.homeTeam.points
                            then current.homeTeam else current.awayTeam
  {
    Notification(prev.homeTeam, current.homeTeam) + Notification(prev.awayTeam, current.awayTeam)
  }

  /** Everything spawned over the snapshots s0..sn: for each i from 1 to n, in
      order, the notifications of the poll that compares s(i-1) with s(i). */
  function Dispatched(snapshots: seq<MatchScore>): (spawned: seq<Team>)
    ensures |snapshots| <= 1 ==> spawned == []
    ensures |snapshots| >= 1 ==> |spawned| <= 2 * (|snapshots| - 1)
  {
    if |snapshots| <= 1 then []
    else
      var n := |snapshots|;
      Dispatched(snapshots[..n - 1]) + PollNotifications(snapshots[n - 2], snapshots[n - 1])
  }

  /** Team `t` is spawned by the poll that brings in snapshot `i`. */
  ghost predicate FiresAt(snapshots: seq<MatchScore>, i: int, t: Team) {
    1 <= i < |snapshots| &&
    ((snapshots[i].homeTeam == t && snapshots[i - 1].homeTeam.points != t.points) ||
     (snapshots[i].awayTeam == t && snapshots[i - 1].awayTeam.points != t.points))
  }

  /** A team is dispatched exactly when some poll finds its slot's points
      changed and that team is the slot's current occupant. */
  lemma {:induction false} DispatchedMembers(snapshots: seq<MatchScore>, t: Team)
    ensures t in Dispatched(snapshots) <==> exists i :: FiresAt(snapshots, i, t)
  {
    var n := |snapshots|;
    if n > 1 {
      var init := snapshots[..n - 1];
      DispatchedMembers(init, t);
      assert forall i :: FiresAt(init, i, t) <==> (FiresAt(snapshots, i, t) && i < n - 1);
      var last := PollNotifications(snapshots[n - 2], snapshots[n - 1]);
      assert t in last <==> FiresAt(snapshots, n - 1, t);
      if t in Dispatched(snapshots) {
        if t in Dispatched(init) {
          var i :| FiresAt(init, i, t);
          assert FiresAt(snapshots, i, t);
        } else {
          assert FiresAt(snapshots, n - 1, t);
        }
      }
      if i :| FiresAt(snapshots, i, t) {
        if i < n - 1 {
          assert FiresAt(init, i, t);
        }
      }
    }
  }

  /** Polling the same snapshot twice in a row spawns nothing on the second poll. */
  lemma {:induction false} RepeatedSnapshotDispatchesNothing(snapshots: seq<MatchScore>, s: MatchScore)
    ensures Dispatched(snapshots + [s, s]) == Dispatched(snapshots + [s])
  {
    var longer := snapshots + [s, s];
    assert longer[..|longer| - 1] == snapshots + [s];
    assert PollNotifications(s, s) == [];
  }

  /** The snapshots a run obtains: the successful fetches up to the first one
      that raised. */
  function Snapshots(fetches: seq<Result<MatchScore>>): (snapshots: seq<MatchScore>)
    ensures |snapshots| <= |fetches|
    ensures forall i :: 0 <= i < |snapshots| ==> fetches[i] == Ok(snapshots[i])
    ensures |snapshots| < |fetches| ==> fetches[|snapshots|].Err?
  {
    if |fetches| == 0 || fetches[0].Err? then []
    else [fetches[0].value] + Snapshots(fetches[1..])
  }

  /** `ScoreChangeMonitor`. Each spawned notification thread is recorded, in
      spawn order, as the team it was started with. */
  class ScoreChangeMonitor {
    const pollingInterval: Duration
    var spawned: seq<Team>

    constructor (pollingInterval: Duration)
      ensures this.pollingInterval == pollingInterval && spawned == []
    {
      this.pollingInterval := pollingInterval;
      spawned := [];
    }

    /** `notify_if_score_changed`. */
    method NotifyIfScoreChanged(prevTeam: Team, currentTeam: Team)
      modifies this`spawned
      ensures spawned == old(spawned) + Notification(prevTeam, currentTeam)
    {
      if prevTeam.points != currentTeam.points {
        spawned := spawned + [currentTeam];
      }
    }

    /** `start`, run over what successive `get_current_score` calls return
        (each an `ExtractScore` of the page fetched at that moment). The
        baseline spawns nothing; each later snapshot is compared with the one
        before it. The run ends at the first fetch that raised, returning that
        failure, or when the fetches run out (`None`). */
    method Start(fetches: seq<Result<MatchScore>>) returns (failure: Option<Failure>)
      modifies this`spawned
      ensures spawned == old(spawned) + Dispatched(Snapshots(fetches))
      ensures failure.None? <==> |Snapshots(fetches)| == |fetches|
      ensures failure.Some? ==> fetches[|Snapshots(fetches)|] == Err(failure.value)
    {
      ghost var snapshots := Snapshots(fetches);
      if |fetches| == 0 {
        return None;
      }
      var baseline := fetches[0];
      if baseline.Err? {
        return Some(baseline.error);
      }
      var prevScore := baseline.value;
      var i := 1;
      while i < |fetches|
        invariant 1 <= i <= |snapshots|
        invariant prevScore == snapshots[i - 1]
        invariant spawned == old(spawned) + Dispatched(snapshots[..i])
      {
        var current := fetches[i];
        if current.Err? {
          assert snapshots[..i] == snapshots;
          return Some(current.error);
        }
        var currentScore := current.value;
        assert snapshots[..i + 1][..i] == snapshots[..i];
        NotifyIfScoreChanged(prevScore.homeTeam, currentScore.homeTeam);
        NotifyIfScoreChanged(prevScore.awayTeam, currentScore.awayTeam);
        prevScore := currentScore;
        i := i + 1;
      }
      assert snapshots[..i] == snapshots;
      return None;
    }
  }
}


