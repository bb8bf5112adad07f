/**
 * The decision part of one pass of the reaper loop over a pod listing: which pods
 * are terminating, how old their deletion request is, which are overdue, and the
 * forced delete issued for each overdue pod.
 *
 * Instants of the wall clock (`datetime.utcnow()`) are microseconds since
 * 0001-01-01T00:00:00 UTC; parsed deletion timestamps are seconds on the same
 * scale (see `Timestamp.ParseTimestamp`). The loop is specified over the stamp
 * each pod carries (`StampOf`), so that the decision lemmas are independent of
 * the parser's internals.
 */
module Reaper {
  import opened Wrappers
  import Calendar
  import Timestamp

  const MicrosPerSecond: int := 1000000

  /** One pod as the listing shows it: identity and the optional deletion-request timestamp. */
  datatype PodSnapshot = PodSnapshot(namespace: string, name: string, deletionTimestamp: Option<string>)

  /** The body sent with a delete. */
  datatype DeleteOptions = DeleteOptions(apiVersion: string, kind: string, gracePeriodSeconds: int, propagationPolicy: string)

  /** One `v1_pods.delete(namespace=..., name=..., body=...)` call. */
  datatype DeleteCommand = DeleteCommand(namespace: string, name: string, body: DeleteOptions)

  /** Zero grace period, children removed in the background. */
  const ForceDeleteOptions: DeleteOptions := DeleteOptions("v1", "DeleteOptions", 0, "Background")

  function ForceDelete(pod: PodSnapshot): DeleteCommand {
    DeleteCommand(pod.namespace, pod.name, ForceDeleteOptions)
  }

  /** `pod.metadata.deletionTimestamp` is truthy: present and not empty. */
  predicate Terminating(pod: PodSnapshot) {
    pod.deletionTimestamp.Some? && pod.deletionTimestamp.value != ""
  }

  /** What the loop reads from a pod's deletion timestamp. */
  datatype Stamp = NoStamp | Malformed | StampedAt(seconds: int)

  /** No stamp for a pod that is not terminating (its timestamp is never parsed); otherwise the parse. */
  function StampOf(pod: PodSnapshot): Stamp {
    if !Terminating(pod) then NoStamp
    else match Timestamp.ParseTimestamp(pod.deletionTimestamp.value)
      case None => Malformed
      case Some(seconds) => StampedAt(seconds)
  }

  /** The stamps of a whole listing, pod by pod. */
  function StampsOf(pods: seq<PodSnapshot>): (r: seq<Stamp>)
    ensures |r| == |pods|
  {
    if pods == [] then [] else [StampOf(pods[0])] + StampsOf(pods[1..])
  }

  /** The stamp at position `i` is that of the pod at position `i`. */
  lemma {:induction false} StampsOfAt(pods: seq<PodSnapshot>, i: nat)
    requires i < |pods|
    ensures StampsOf(pods)[i] == StampOf(pods[i])
  {
    if i > 0 {
      StampsOfAt(pods[1..], i - 1);
    }
  }

  /** `now - deletion_timestamp`, in microseconds. */
  function AgeMicros(nowMicros: int, deletedAtSeconds: int): int {
    nowMicros - deletedAtSeconds * MicrosPerSecond
  }

  /** What one iteration of the pod loop makes of a pod. */
  datatype Verdict = NotTerminating | BadTimestamp | WithinGrace | Overdue

  /** The verdict on a pod with `stamp` when the clock read `nowMicros`, under threshold `maxSeconds`. */
  function Judge(stamp: Stamp, nowMicros: int, maxSeconds: int): Verdict {
    match stamp
    case NoStamp => NotTerminating
    case Malformed => BadTimestamp
    case StampedAt(deletedAt) =>
      if AgeMicros(nowMicros, deletedAt) > maxSeconds * MicrosPerSecond then Overdue else WithinGrace
  }

  /**
   * The strict threshold: a pod is overdue exactly when its age exceeds
   * `maxSeconds`; an age equal to it, or a deletion stamped in the future under a
   * non-negative threshold, leaves the pod alone.
   */
  lemma JudgeThreshold(pod: PodSnapshot, nowMicros: int, maxSeconds: int, deletedAt: int)
    requires Terminating(pod) && Timestamp.ParseTimestamp(pod.deletionTimestamp.value) == Some(deletedAt)
    ensures Judge(StampOf(pod), nowMicros, maxSeconds) == Overdue <==> AgeMicros(nowMicros, deletedAt) > maxSeconds * MicrosPerSecond
    ensures AgeMicros(nowMicros, deletedAt) == maxSeconds * MicrosPerSecond ==> Judge(StampOf(pod), nowMicros, maxSeconds) == WithinGrace
    ensures AgeMicros(nowMicros, deletedAt) <= 0 && maxSeconds >= 0 ==> Judge(StampOf(pod), nowMicros, maxSeconds) == WithinGrace
  {
  }

  /** A pod without a (non-empty) deletion timestamp is skipped: its timestamp is not parsed, and it is never overdue. */
  lemma NotTerminatingSkipped(pod: PodSnapshot, nowMicros: int, maxSeconds: int)
    requires !Terminating(pod)
    ensures StampOf(pod) == NoStamp && Judge(StampOf(pod), nowMicros, maxSeconds) == NotTerminating
  {
  }

  /** How the pod loop ends: after the last pod, or at pod `at`, whose timestamp raised. */
  datatype SweepOutcome =
    | Finished(deletes: seq<DeleteCommand>)
    | Aborted(deletes: seq<DeleteCommand>, at: nat)

  /**
   * The pod loop of one cycle over `pods` with their `stamps`, where `nows[i]` is
   * the clock reading taken while handling `pods[i]`: the deletes issued, in
   * order, and whether the loop ran to the end. Defined on the listing's
   * prefixes, as the loop runs.
   */
  function Sweep(pods: seq<PodSnapshot>, stamps: seq<Stamp>, nows: seq<int>, maxSeconds: int, dryRun: bool): SweepOutcome
    requires |stamps| == |pods| && |nows| == |pods|
    decreases |pods|
  {
    if pods == [] then Finished([])
    else
      var n := |pods| - 1;
      match Sweep(pods[..n], stamps[..n], nows[..n], maxSeconds, dryRun)
      case Aborted(ds, k) => Aborted(ds, k)
      case Finished(ds) =>
        match Judge(stamps[n], nows[n], maxSeconds)
        case BadTimestamp => Aborted(ds, n)
        case Overdue => Finished(if dryRun then ds else ds + [ForceDelete(pods[n])])
        case _ => Finished(ds)
  }

  /** One more pod after a prefix that ran to its end: what the loop body does with it. */
  lemma SweepStep(pods: seq<PodSnapshot>, stamps: seq<Stamp>, nows: seq<int>, maxSeconds: int, dryRun: bool, i: nat)
    requires |stamps| == |pods| && |nows| == |pods| && i < |pods|
    requires Sweep(pods[..i], stamps[..i], nows[..i], maxSeconds, dryRun).Finished?
    ensures var ds := Sweep(pods[..i], stamps[..i], nows[..i], maxSeconds, dryRun).deletes;
      Sweep(pods[..i + 1], stamps[..i + 1], nows[..i + 1], maxSeconds, dryRun) ==
        match Judge(stamps[i], nows[i], maxSeconds)
        case BadTimestamp => Aborted(ds, i)
        case Overdue => Finished(if dryRun then ds else ds + [ForceDelete(pods[i])])
        case _ => Finished(ds)
  {
    assert pods[..i + 1][..i] == pods[..i] && stamps[..i + 1][..i] == stamps[..i] && nows[..i + 1][..i] == nows[..i];
  }

  /** Reference: one forced delete per overdue pod, in listing order, ignoring parse failures. */
  function OverdueCommands(pods: seq<PodSnapshot>, stamps: seq<Stamp>, nows: seq<int>, maxSeconds: int): seq<DeleteCommand>
    requires |stamps| == |pods| && |nows| == |pods|
  {
    if pods == [] then []
    else (if Judge(stamps[0], nows[0], maxSeconds) == Overdue then [ForceDelete(pods[0])] else [])
         + OverdueCommands(pods[1..], stamps[1..], nows[1..], maxSeconds)
  }

  /** The position of the first pod whose timestamp cannot be parsed. */
  function FirstMalformed(stamps: seq<Stamp>): (r: Option<nat>)
    ensures r.None? ==> forall j :: 0 <= j < |stamps| ==> stamps[j] != Malformed
    ensures r.Some? ==> r.value < |stamps| && stamps[r.value] == Malformed
                        && forall j :: 0 <= j < r.value ==> stamps[j] != Malformed
  {
    if stamps == [] then None
    else if stamps[0] == Malformed then Some(0)
    else match FirstMalformed(stamps[1..])
      case None => None
      case Some(k) => Some(k + 1)
  }

  lemma {:induction false} OverdueCommandsSnoc(pods: seq<PodSnapshot>, stamps: seq<Stamp>, nows: seq<int>, maxSeconds: int, n: nat)
    requires |stamps| == |pods| && |nows| == |pods| && n < |pods|
    ensures OverdueCommands(pods[..n + 1], stamps[..n + 1], nows[..n + 1], maxSeconds)
         == OverdueCommands(pods[..n], stamps[..n], nows[..n], maxSeconds)
            + (if Judge(stamps[n], nows[n], maxSeconds) == Overdue then [ForceDelete(pods[n])] else [])
  {
    if n > 0 {
      OverdueCommandsSnoc(pods[1..], stamps[1..], nows[1..], maxSeconds, n - 1);
      assert pods[..n + 1][1..] == pods[1..][..n];
      assert stamps[..n + 1][1..] == stamps[1..][..n];
      assert nows[..n + 1][1..] == nows[1..][..n];
      assert pods[..n][1..] == pods[1..][..n - 1];
      assert stamps[..n][1..] == stamps[1..][..n - 1];
      assert nows[..n][1..] == nows[1..][..n - 1];
    } else {
      assert pods[..1][1..] == [];
    }
  }

  lemma FirstMalformedIs(stamps: seq<Stamp>, k: nat)
    requires k < |stamps| && stamps[k] == Malformed && forall j :: 0 <= j < k ==> stamps[j] != Malformed
    ensures FirstMalformed(stamps) == Some(k)
  {
  }

  lemma FirstMalformedPrefix(stamps: seq<Stamp>, n: nat)
    requires n < |stamps|
    ensures FirstMalformed(stamps[..n + 1]) ==
      match FirstMalformed(stamps[..n])
      case Some(k) => Some(k)
      case None => if stamps[n] == Malformed then Some(n) else None
  {
    var p, q := stamps[..n + 1], stamps[..n];
    assert forall j :: 0 <= j < n ==> p[j] == q[j];
    match FirstMalformed(q)
    case Some(k) =>
      FirstMalformedIs(p, k);
    case None =>
      if stamps[n] == Malformed {
        FirstMalformedIs(p, n);
      }
  }

  /**
   * The pod loop, both ways it can end: it runs to the end exactly when no
   * terminating pod's timestamp is malformed, and then it has issued the
   * reference commands (none in dry-run mode); otherwise it stops at the first
   * such pod, having issued the commands for the overdue pods before it.
   */
  lemma {:induction false} SweepCharacterized(pods: seq<PodSnapshot>, stamps: seq<Stamp>, nows: seq<int>, maxSeconds: int, dryRun: bool)
    requires |stamps| == |pods| && |nows| == |pods|
    ensures Sweep(pods, stamps, nows, maxSeconds, dryRun) ==
      match FirstMalformed(stamps)
      case None => Finished(if dryRun then [] else OverdueCommands(pods, stamps, nows, maxSeconds))
      case Some(k) => Aborted(if dryRun then [] else OverdueCommands(pods[..k], stamps[..k], nows[..k], maxSeconds), k)
    decreases |pods|
  {
    if pods != [] {
      var n := |pods| - 1;
      SweepCharacterized(pods[..n], stamps[..n], nows[..n], maxSeconds, dryRun);
      OverdueCommandsSnoc(pods, stamps, nows, maxSeconds, n);
      FirstMalformedPrefix(stamps, n);
      assert pods[..n + 1] == pods && stamps[..n + 1] == stamps && nows[..n + 1] == nows;
      match FirstMalformed(stamps[..n])
      case Some(k) =>
        assert pods[..n][..k] == pods[..k] && stamps[..n][..k] == stamps[..k] && nows[..n][..k] == nows[..k];
      case None =>
    } else {
      assert OverdueCommands(pods, stamps, nows, maxSeconds) == [];
    }
  }

  /** Once the loop has stopped at a pod, later pods change nothing. */
  lemma {:induction false} SweepStopsAtAbort(pods: seq<PodSnapshot>, stamps: seq<Stamp>, nows: seq<int>, maxSeconds: int, dryRun: bool, n: nat)
    requires |stamps| == |pods| && |nows| == |pods| && n <= |pods|
    requires Sweep(pods[..n], stamps[..n], nows[..n], maxSeconds, dryRun).Aborted?
    ensures Sweep(pods, stamps, nows, maxSeconds, dryRun) == Sweep(pods[..n], stamps[..n], nows[..n], maxSeconds, dryRun)
    decreases |pods| - n
  {
    if n < |pods| {
      assert pods[..n + 1][..n] == pods[..n] && stamps[..n + 1][..n] == stamps[..n] && nows[..n + 1][..n] == nows[..n];
      SweepStopsAtAbort(pods, stamps, nows, maxSeconds, dryRun, n + 1);
    } else {
      assert pods[..n] == pods && stamps[..n] == stamps && nows[..n] == nows;
    }
  }

  /** Every reference command force-deletes an overdue pod of the listing, by its own namespace and name. */
  lemma {:induction false} OverdueCommandsSound(pods: seq<PodSnapshot>, stamps: seq<Stamp>, nows: seq<int>, maxSeconds: int)
    requires |stamps| == |pods| && |nows| == |pods|
    ensures forall c :: c in OverdueCommands(pods, stamps, nows, maxSeconds) ==>
      exists j :: 0 <= j < |pods| && Judge(stamps[j], nows[j], maxSeconds) == Overdue && c == ForceDelete(pods[j])
  {
    if pods != [] {
      OverdueCommandsSound(pods[1..], stamps[1..], nows[1..], maxSeconds);
      forall c | c in OverdueCommands(pods, stamps, nows, maxSeconds)
        ensures exists j :: 0 <= j < |pods| && Judge(stamps[j], nows[j], maxSeconds) == Overdue && c == ForceDelete(pods[j])
      {
        if c !in OverdueCommands(pods[1..], stamps[1..], nows[1..], maxSeconds) {
          assert Judge(stamps[0], nows[0], maxSeconds) == Overdue && c == ForceDelete(pods[0]);
        } else {
          var j :| 0 <= j < |pods[1..]| && Judge(stamps[1..][j], nows[1..][j], maxSeconds) == Overdue && c == ForceDelete(pods[1..][j]);
          assert pods[1..][j] == pods[j + 1] && stamps[1..][j] == stamps[j + 1] && nows[1..][j] == nows[j + 1];
        }
      }
    }
  }

  /** Every overdue pod of the listing has its forced delete among the reference commands. */
  lemma {:induction false} OverdueCommandsComplete(pods: seq<PodSnapshot>, stamps: seq<Stamp>, nows: seq<int>, maxSeconds: int, j: nat)
    requires |stamps| == |pods| && |nows| == |pods| && j < |pods| && Judge(stamps[j], nows[j], maxSeconds) == Overdue
    ensures ForceDelete(pods[j]) in OverdueCommands(pods, stamps, nows, maxSeconds)
  {
    var head := if Judge(stamps[0], nows[0], maxSeconds) == Overdue then [ForceDelete(pods[0])] else [];
    var tail := OverdueCommands(pods[1..], stamps[1..], nows[1..], maxSeconds);
    assert OverdueCommands(pods, stamps, nows, maxSeconds) == head + tail;
    if j > 0 {
      assert pods[1..][j - 1] == pods[j] && stamps[1..][j - 1] == stamps[j] && nows[1..][j - 1] == nows[j];
      OverdueCommandsComplete(pods[1..], stamps[1..], nows[1..], maxSeconds, j - 1);
      assert ForceDelete(pods[j]) in tail;
    } else {
      assert ForceDelete(pods[j]) in head;
    }
  }

  /** The indices below `n` of the overdue pods. */
  function OverdueIndices(stamps: seq<Stamp>, nows: seq<int>, maxSeconds: int, n: nat): set<nat>
    requires |nows| == |stamps| && n <= |stamps|
  {
    set j: nat | j < n && Judge(stamps[j], nows[j], maxSeconds) == Overdue
  }

  lemma OverdueIndicesStep(stamps: seq<Stamp>, nows: seq<int>, maxSeconds: int, n: nat)
    requires |nows| == |stamps| && n < |stamps|
    ensures OverdueIndices(stamps, nows, maxSeconds, n + 1) ==
      OverdueIndices(stamps, nows, maxSeconds, n) + (if Judge(stamps[n], nows[n], maxSeconds) == Overdue then {n} else {})
    ensures n !in OverdueIndices(stamps, nows, maxSeconds, n)
  {
    var last := Judge(stamps[n], nows[n], maxSeconds) == Overdue;
    var before, after := OverdueIndices(stamps, nows, maxSeconds, n), OverdueIndices(stamps, nows, maxSeconds, n + 1);
    forall j: nat ensures j in after <==> j in before || (last && j == n) {
      if j < n {
        assert j in after <==> Judge(stamps[j], nows[j], maxSeconds) == Overdue;
        assert j in before <==> Judge(stamps[j], nows[j], maxSeconds) == Overdue;
      } else if j == n {
        assert j in after <==> last;
      }
    }
  }

  /** The reference issues exactly one command per overdue pod: as many commands as overdue pods. */
  lemma {:induction false} OverdueCommandsCount(pods: seq<PodSnapshot>, stamps: seq<Stamp>, nows: seq<int>, maxSeconds: int, n: nat)
    requires |stamps| == |pods| && |nows| == |pods| && n <= |pods|
    ensures |OverdueCommands(pods[..n], stamps[..n], nows[..n], maxSeconds)| == |OverdueIndices(stamps, nows, maxSeconds, n)|
  {
    if n > 0 {
      OverdueCommandsCount(pods, stamps, nows, maxSeconds, n - 1);
      OverdueCommandsSnoc(pods, stamps, nows, maxSeconds, n - 1);
      OverdueIndicesStep(stamps, nows, maxSeconds, n - 1);
    } else {
      assert OverdueIndices(stamps, nows, maxSeconds, 0) == {};
    }
  }

  /** Whatever way the loop ends, each delete it issued is the forced delete of a pod judged overdue. */
  lemma SweepDeletesAreOverdue(pods: seq<PodSnapshot>, stamps: seq<Stamp>, nows: seq<int>, maxSeconds: int, dryRun: bool)
    requires |stamps| == |pods| && |nows| == |pods|
    ensures dryRun ==> Sweep(pods, stamps, nows, maxSeconds, dryRun).deletes == []
    ensures forall c :: c in Sweep(pods, stamps, nows, maxSeconds, dryRun).deletes ==>
      exists j :: 0 <= j < |pods| && Judge(stamps[j], nows[j], maxSeconds) == Overdue && c == ForceDelete(pods[j])
  {
    SweepCharacterized(pods, stamps, nows, maxSeconds, dryRun);
    match FirstMalformed(stamps)
    case None =>
      OverdueCommandsSound(pods, stamps, nows, maxSeconds);
    case Some(k) =>
      OverdueCommandsSound(pods[..k], stamps[..k], nows[..k], maxSeconds);
      forall c | c in OverdueCommands(pods[..k], stamps[..k], nows[..k], maxSeconds)
        ensures exists j :: 0 <= j < |pods| && Judge(stamps[j], nows[j], maxSeconds) == Overdue && c == ForceDelete(pods[j])
      {
        var j :| 0 <= j < k && Judge(stamps[..k][j], nows[..k][j], maxSeconds) == Overdue && c == ForceDelete(pods[..k][j]);
        assert pods[..k][j] == pods[j] && stamps[..k][j] == stamps[j] && nows[..k][j] == nows[j];
      }
  }

  /**
   * Over a real listing, whatever way the loop ends, each delete it issued
   * targets, by its own namespace and name and with zero grace and background
   * propagation, a terminating pod whose parsed deletion request is strictly
   * older than the threshold; in dry-run mode it issued none.
   */
  lemma SweepDeletesOnlyOverdue(pods: seq<PodSnapshot>, nows: seq<int>, maxSeconds: int, dryRun: bool)
    requires |nows| == |pods|
    ensures dryRun ==> Sweep(pods, StampsOf(pods), nows, maxSeconds, dryRun).deletes == []
    ensures forall c :: c in Sweep(pods, StampsOf(pods), nows, maxSeconds, dryRun).deletes ==>
      c.body == ForceDeleteOptions &&
      exists j :: 0 <= j < |pods| && Terminating(pods[j]) && c.namespace == pods[j].namespace && c.name == pods[j].name
        && Timestamp.ParseTimestamp(pods[j].deletionTimestamp.value).Some?
        && AgeMicros(nows[j], Timestamp.ParseTimestamp(pods[j].deletionTimestamp.value).value) > maxSeconds * MicrosPerSecond
  {
    var stamps := StampsOf(pods);
    SweepDeletesAreOverdue(pods, stamps, nows, maxSeconds, dryRun);
    forall c | c in Sweep(pods, stamps, nows, maxSeconds, dryRun).deletes
      ensures c.body == ForceDeleteOptions &&
        exists j :: 0 <= j < |pods| && Terminating(pods[j]) && c.namespace == pods[j].namespace && c.name == pods[j].name
          && Timestamp.ParseTimestamp(pods[j].deletionTimestamp.value).Some?
          && AgeMicros(nows[j], Timestamp.ParseTimestamp(pods[j].deletionTimestamp.value).value) > maxSeconds * MicrosPerSecond
    {
      var j :| 0 <= j < |pods| && Judge(stamps[j], nows[j], maxSeconds) == Overdue && c == ForceDelete(pods[j]);
      StampsOfAt(pods, j);
    }
  }

  /** A deletion timestamp written in the canonical form reads back as its instant. */
  lemma StampOfFormatted(pod: PodSnapshot, t: Calendar.CivilTime)
    requires Calendar.Valid(t) && pod.deletionTimestamp == Some(Timestamp.Format(t))
    ensures StampOf(pod) == StampedAt(Calendar.ToSeconds(t))
  {
    Timestamp.ParseFormatRoundTrip(t);
  }

  /** The example cycle on stamps: only the stamp 15 seconds old is past a 10-second threshold. */
  lemma ExampleSweep(pods: seq<PodSnapshot>, stamps: seq<Stamp>, s0: int, dryRun: bool)
    requires |pods| == 3 && stamps == [StampedAt(s0), StampedAt(s0 + 10), NoStamp]
    ensures var now := (s0 + 15) * MicrosPerSecond;
      Sweep(pods, stamps, [now, now, now], 10, dryRun) == Finished(if dryRun then [] else [ForceDelete(pods[0])])
  {
    var now := (s0 + 15) * MicrosPerSecond;
    var nows := [now, now, now];
    assert pods[..0] == [] && stamps[..0] == [] && nows[..0] == [];
    assert pods[..3] == pods && stamps[..3] == stamps && nows[..3] == nows;
    SweepStep(pods, stamps, nows, 10, dryRun, 0);
    SweepStep(pods, stamps, nows, 10, dryRun, 1);
    SweepStep(pods, stamps, nows, 10, dryRun, 2);
  }

  /**
   * The stamps of the example listing: the pods requested for deletion at `t0`
   * and 10 seconds later read as those instants, the pod without a deletion
   * timestamp as not terminating.
   */
  lemma {:induction false} ExampleStamps(pods: seq<PodSnapshot>, t0: Calendar.CivilTime)
    requires Calendar.Valid(t0) && t0.second < 50 && |pods| == 3
    requires pods[0].deletionTimestamp == Some(Timestamp.Format(t0))
    requires pods[1].deletionTimestamp == Some(Timestamp.Format(t0.(second := t0.second + 10)))
    requires pods[2].deletionTimestamp == None
    ensures StampsOf(pods) == [StampedAt(Calendar.ToSeconds(t0)), StampedAt(Calendar.ToSeconds(t0) + 10), NoStamp]
  {
    var t1 := t0.(second := t0.second + 10);
    assert Calendar.ToSeconds(t1) == Calendar.ToSeconds(t0) + 10;
    StampsOfAt(pods, 0);
    StampsOfAt(pods, 1);
    StampsOfAt(pods, 2);
    StampOfFormatted(pods[0], t0);
    StampOfFormatted(pods[1], t1);
  }
}
