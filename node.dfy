/**
 * A failure-detection node (src/protocol/node.rs) as objects whose methods update
 * them in place: the membership table with its sequence counter, and the node with
 * its pending probes, its send queue and its latency metrics.
 *
 * The socket, the event loop and logging are not modelled: a message is handled
 * once it has been decoded, and a queued message stays in `sendQueue`. Every reading
 * of the clock within one operation is the instant `now` passed in. A random choice
 * is a nondeterministic one.
 */
module Node {
  import opened Wrappers
  import opened Messages
  import opened NodeState
  import Metrics

  /** `Membership`: the member table and the counter the node draws sequence numbers from. */
  class Membership {
    var selfSeq: U32
    var members: Members

    /** `Membership::new`. */
    constructor()
      ensures selfSeq == 0 && members == map[]
    {
      selfSeq := 0;
      members := map[];
    }

    /** `next_seq`: hands out the current number and advances the counter, wrapping at 2^32. */
    method NextSeq() returns (s: U32)
      modifies this
      ensures s == old(selfSeq) && selfSeq == WrappingIncrement(old(selfSeq))
      ensures members == old(members)
    {
      s := selfSeq;
      selfSeq := WrappingIncrement(selfSeq);
    }
  }

  /** Some probe is pending for `target` (`probes.iter().any(...)`). */
  predicate HasProbe(probes: seq<PendingProbe>, target: SocketAddr) {
    exists i :: 0 <= i < |probes| && probes[i].target == target
  }

  /** Each address at most once. */
  predicate Distinct(s: seq<SocketAddr>) {
    forall i, j :: 0 <= i < j < |s| ==> s[i] != s[j]
  }

  /**
   * The selection loop of `send_indirect_probes`: `count` times, a random index into the
   * indices not yet used picks the next member and that index is swap-removed, so the
   * result is `count` different members of `pool` in an order left to chance. The random
   * draw is a nondeterministic choice among the members not picked yet.
   */
  method ChooseMultiple(pool: set<SocketAddr>, count: nat) returns (chosen: seq<SocketAddr>)
    requires count <= |pool|
    ensures |chosen| == count && Distinct(chosen)
    ensures forall i :: 0 <= i < |chosen| ==> chosen[i] in pool
  {
    chosen := [];
    var remaining := pool;
    while |chosen| < count
      invariant |chosen| <= count
      invariant remaining <= pool && |remaining| == |pool| - |chosen|
      invariant forall i :: 0 <= i < |chosen| ==> chosen[i] in pool && chosen[i] !in remaining
      invariant Distinct(chosen)
    {
      var a :| a in remaining;
      chosen := chosen + [a];
      remaining := remaining - {a};
    }
  }

  /** Every message queued from position `from` on is an indirect-probe request for an item of `work`. */
  predicate AllIndirect(queue: seq<OutgoingMessage>, from: nat, ms: Members, work: seq<(SocketAddr, U32)>, local: SocketAddr) {
    forall i :: from <= i < |queue| ==> IndirectRequest(queue[i], ms, work, local)
  }

  /** Queuing the requests for one work item keeps every queued request one for the work list. */
  lemma AllIndirectAppend(queue: seq<OutgoingMessage>, from: nat, ms: Members, work: seq<(SocketAddr, U32)>,
                          local: SocketAddr, selected: seq<SocketAddr>, k: nat)
    requires AllIndirect(queue, from, ms, work, local) && from <= |queue| && k < |work|
    requires forall i :: 0 <= i < |selected| ==> selected[i] in Others(ms, work[k].0)
    ensures AllIndirect(queue + PingReqs(selected, work[k].1, local, work[k].0), from, ms, work, local)
  {
    var q := queue + PingReqs(selected, work[k].1, local, work[k].0);
    forall i | from <= i < |q|
      ensures IndirectRequest(q[i], ms, work, local)
    {
      if i >= |queue| {
        assert q[i] == PingReqs(selected, work[k].1, local, work[k].0)[i - |queue|];
        assert (work[k].0, work[k].1) == work[k];
      } else {
        assert q[i] == queue[i];
      }
    }
  }

  /**
   * What `send_indirect_probes` may pick for `target`: as many intermediaries as
   * `FanoutFor` says, each an Active member other than the target, none twice.
   */
  predicate ValidSelection(sel: seq<SocketAddr>, ms: Members, target: SocketAddr) {
    && |sel| == FanoutFor(ms, target)
    && Distinct(sel)
    && forall i :: 0 <= i < |sel| ==> sel[i] in Others(ms, target)
  }

  /** A valid pick for every item of a work list. */
  predicate ValidSelections(sels: seq<seq<SocketAddr>>, ms: Members, work: seq<(SocketAddr, U32)>) {
    |sels| == |work| && forall k :: 0 <= k < |work| ==> ValidSelection(sels[k], ms, work[k].0)
  }

  /** One more valid pick extends the picks for a work list by its next item. */
  lemma SelectionsStep(sels: seq<seq<SocketAddr>>, sel: seq<SocketAddr>, ms: Members, work: seq<(SocketAddr, U32)>, k: nat)
    requires k < |work|
    requires ValidSelections(sels, ms, work[..k])
    requires ValidSelection(sel, ms, work[k].0)
    ensures ValidSelections(sels + [sel], ms, work[..k + 1])
  {
    var next := sels + [sel];
    forall j | 0 <= j < k + 1
      ensures ValidSelection(next[j], ms, work[..k + 1][j].0)
    {
      if j < k {
        assert next[j] == sels[j] && work[..k][j] == work[j];
      }
    }
  }

  /** Requests appended behind a queue are all indirect-probe requests from the queue's old length on. */
  lemma AllIndirectAfter(queue: seq<OutgoingMessage>, batch: seq<OutgoingMessage>, ms: Members, work: seq<(SocketAddr, U32)>, local: SocketAddr)
    requires AllIndirect(batch, 0, ms, work, local)
    ensures AllIndirect(queue + batch, |queue|, ms, work, local)
  {
    forall i | |queue| <= i < |queue + batch|
      ensures IndirectRequest((queue + batch)[i], ms, work, local)
    {
      assert (queue + batch)[i] == batch[i - |queue|];
    }
  }

  /** Queuing the requests for the next work item extends the queued batch by that item. */
  lemma QueueStep(queue: seq<OutgoingMessage>, sels: seq<seq<SocketAddr>>, sel: seq<SocketAddr>, work: seq<(SocketAddr, U32)>,
                  k: nat, local: SocketAddr, before: seq<OutgoingMessage>, after: seq<OutgoingMessage>)
    requires |sels| == k < |work|
    requires before == queue + IndirectBatch(sels, work[..k], local)
    requires after == before + PingReqs(sel, work[k].1, local, work[k].0)
    ensures after == queue + IndirectBatch(sels + [sel], work[..k + 1], local)
  {
    IndirectBatchStep(sels, sel, work, k, local);
  }

  /** With valid picks, a work list queues exactly `Fanout` requests in all. */
  lemma {:induction false} IndirectBatchLength(sels: seq<seq<SocketAddr>>, ms: Members, work: seq<(SocketAddr, U32)>, local: SocketAddr)
    requires ValidSelections(sels, ms, work)
    ensures |IndirectBatch(sels, work, local)| == Fanout(ms, work)
  {
    if work != [] {
      var k := |work| - 1;
      assert ValidSelection(sels[k], ms, work[k].0);
      assert ValidSelections(sels[..k], ms, work[..k]) by {
        forall j | 0 <= j < k
          ensures ValidSelection(sels[..k][j], ms, work[..k][j].0)
        {
          assert ValidSelection(sels[j], ms, work[j].0);
        }
      }
      IndirectBatchLength(sels[..k], ms, work[..k], local);
    }
  }

  /** With valid picks, every request a work list queues is an indirect-probe request for one of its items. */
  lemma {:induction false} IndirectBatchRequests(sels: seq<seq<SocketAddr>>, ms: Members, work: seq<(SocketAddr, U32)>, local: SocketAddr)
    requires ValidSelections(sels, ms, work)
    ensures AllIndirect(IndirectBatch(sels, work, local), 0, ms, work, local)
  {
    if work != [] {
      var k := |work| - 1;
      var init := work[..k];
      assert ValidSelections(sels[..k], ms, init) by {
        forall j | 0 <= j < k
          ensures ValidSelection(sels[..k][j], ms, init[j].0)
        {
          assert ValidSelection(sels[j], ms, work[j].0);
        }
      }
      IndirectBatchRequests(sels[..k], ms, init, local);
      var front := IndirectBatch(sels[..k], init, local);
      assert AllIndirect(front, 0, ms, work, local) by {
        forall i | 0 <= i < |front|
          ensures IndirectRequest(front[i], ms, work, local)
        {
          assert IndirectRequest(front[i], ms, init, local);
          var m := front[i].msg;
          assert (m.target, m.seqNo) in init;
          var j :| 0 <= j < |init| && init[j] == (m.target, m.seqNo);
          assert work[j] == init[j];
        }
      }
      assert ValidSelection(sels[k], ms, work[k].0);
      AllIndirectAppend(front, 0, ms, work, local, sels[k], k);
    }
  }

  /** `Node`, without its socket and its tick timer. */
  class Node {
    const localAddr: SocketAddr
    const members: Membership
    var probes: seq<PendingProbe>
    var sendQueue: seq<OutgoingMessage>
    const metrics: Metrics.LatencyMetrics

    /** The node never lists itself as a member, and its metrics are consistent. */
    ghost predicate Valid()
      reads this, members, metrics
    {
      localAddr !in members.members && metrics.Valid()
    }

    /** `Node::new` after the socket is bound: no members, no probes, metrics over the last 1000 samples. */
    constructor(localAddr: SocketAddr)
      ensures Valid()
      ensures this.localAddr == localAddr && fresh(members) && fresh(metrics)
      ensures members.members == map[] && members.selfSeq == 0
      ensures probes == [] && sendQueue == []
      ensures metrics.maxSamples == 1000 && metrics.samples == []
      ensures metrics.pingsSent == 0 && metrics.acksReceived == 0 && metrics.timeouts == 0
    {
      this.localAddr := localAddr;
      members := new Membership();
      probes := [];
      sendQueue := [];
      metrics := new Metrics.LatencyMetrics(1000);
    }

    /** `queue_send`: the message goes to the back of the queue. */
    method QueueSend(msg: Message, target: SocketAddr)
      modifies this
      ensures sendQueue == old(sendQueue) + [OutgoingMessage(msg, target)]
      ensures probes == old(probes)
    {
      sendQueue := sendQueue + [OutgoingMessage(msg, target)];
    }

    /** `send_ping`: a fresh sequence number, a pending probe started at `now`, a `Ping` queued, one more ping counted. */
    method SendPing(target: SocketAddr, now: nat)
      requires Valid()
      modifies this, members, metrics
      ensures Valid()
      ensures probes == old(probes) + [PendingProbe(old(members.selfSeq), target, now, false)]
      ensures sendQueue == old(sendQueue) + [OutgoingMessage(Ping(old(members.selfSeq), localAddr), target)]
      ensures members.selfSeq == WrappingIncrement(old(members.selfSeq)) && members.members == old(members.members)
      ensures metrics.pingsSent == old(metrics.pingsSent) + 1
      ensures metrics.samples == old(metrics.samples) && metrics.rtts == old(metrics.rtts)
      ensures metrics.acksReceived == old(metrics.acksReceived) && metrics.timeouts == old(metrics.timeouts)
    {
      var s := members.NextSeq();
      probes := probes + [PendingProbe(s, target, now, false)];
      QueueSend(Ping(s, localAddr), target);
      metrics.RecordPingSent();
    }

    /**
     * `send_indirect_probes`: up to `INDIRECT_PROBE_COUNT` different Active members other
     * than the target, picked at random, each get a `PingReq` for it.
     */
    method SendIndirectProbes(target: SocketAddr, seqNo: U32) returns (selected: seq<SocketAddr>)
      modifies this
      ensures |selected| == FanoutFor(members.members, target)
      ensures Distinct(selected)
      ensures forall i :: 0 <= i < |selected| ==> selected[i] in Others(members.members, target)
      ensures sendQueue == old(sendQueue) + PingReqs(selected, seqNo, localAddr, target)
      ensures probes == old(probes)
    {
      var others := Others(members.members, target);
      selected := [];
      if others == {} {
        return;
      }
      selected := ChooseMultiple(others, Min(|others|, IndirectProbeCount));
      QueuePingReqs(selected, seqNo, target);
    }

    /** One `PingReq` about `target` queued for each intermediary, in order. */
    method QueuePingReqs(intermediaries: seq<SocketAddr>, seqNo: U32, target: SocketAddr)
      modifies this
      ensures sendQueue == old(sendQueue) + PingReqs(intermediaries, seqNo, localAddr, target)
      ensures probes == old(probes)
    {
      var k := 0;
      while k < |intermediaries|
        invariant k <= |intermediaries|
        invariant sendQueue == old(sendQueue) + PingReqs(intermediaries[..k], seqNo, localAddr, target)
        invariant probes == old(probes)
      {
        QueueSend(PingReq(seqNo, localAddr, target), intermediaries[k]);
        assert PingReqs(intermediaries[..k + 1], seqNo, localAddr, target)
          == PingReqs(intermediaries[..k], seqNo, localAddr, target) + [OutgoingMessage(PingReq(seqNo, localAddr, target), intermediaries[k])];
        k := k + 1;
      }
      assert intermediaries[..k] == intermediaries;
    }

    /** `ensure_member`. */
    method EnsureMember(addr: SocketAddr, now: nat)
      requires Valid()
      modifies members
      ensures Valid()
      ensures members.members == Ensured(old(members.members), localAddr, addr, now)
      ensures members.selfSeq == old(members.selfSeq)
    {
      LocalNeverMember(members.members, localAddr, addr, now);
      members.members := Ensured(members.members, localAddr, addr, now);
    }

    /** `mark_active`. */
    method MarkActive(addr: SocketAddr, now: nat)
      requires Valid()
      modifies members
      ensures Valid()
      ensures members.members == MarkedActive(old(members.members), localAddr, addr, now)
      ensures members.selfSeq == old(members.selfSeq)
    {
      LocalNeverMember(members.members, localAddr, addr, now);
      members.members := MarkedActive(members.members, localAddr, addr, now);
    }

    /** `mark_suspect`. */
    method MarkSuspect(addr: SocketAddr, now: nat)
      requires Valid()
      modifies members
      ensures Valid()
      ensures members.members == MarkedSuspect(old(members.members), addr, now)
      ensures members.selfSeq == old(members.selfSeq)
    {
      LocalNeverMember(members.members, localAddr, addr, now);
      members.members := MarkedSuspect(members.members, addr, now);
    }

    /** `mark_dead`. */
    method MarkDead(addr: SocketAddr, now: nat)
      requires Valid()
      modifies members
      ensures Valid()
      ensures members.members == MarkedDead(old(members.members), addr, now)
      ensures members.selfSeq == old(members.selfSeq)
    {
      LocalNeverMember(members.members, localAddr, addr, now);
      members.members := MarkedDead(members.members, addr, now);
    }

    /**
     * `handle_message`: a `Ping` adds its sender and is answered with an `Ack`; an `Ack`
     * records the round trip of the first probe it answers, drops every probe it answers
     * and marks its sender Active; a `PingReq` adds its sender and pings the target with
     * the requester's sequence number.
     */
    method HandleMessage(msg: Message, now: nat)
      requires Valid()
      modifies this, members, metrics
      ensures Valid()
      ensures members.selfSeq == old(members.selfSeq)
      ensures msg.Ping? ==>
        && members.members == Ensured(old(members.members), localAddr, msg.from, now)
        && sendQueue == old(sendQueue) + [OutgoingMessage(Ack(msg.seqNo, localAddr), msg.from)]
        && probes == old(probes) && unchanged(metrics)
      ensures msg.PingReq? ==>
        && members.members == Ensured(old(members.members), localAddr, msg.from, now)
        && sendQueue == old(sendQueue) + [OutgoingMessage(Ping(msg.seqNo, localAddr), msg.target)]
        && probes == old(probes) && unchanged(metrics)
      ensures msg.Ack? ==>
        && members.members == MarkedActive(old(members.members), localAddr, msg.from, now)
        && probes == Unanswered(old(probes), msg.seqNo, msg.from)
        && sendQueue == old(sendQueue)
      ensures msg.Ack? && FirstAnswered(old(probes), msg.seqNo, msg.from).None? ==> unchanged(metrics)
      ensures msg.Ack? && FirstAnswered(old(probes), msg.seqNo, msg.from).Some? ==>
        var rtt := Elapsed(now, FirstAnswered(old(probes), msg.seqNo, msg.from).value.sentAt);
        && metrics.rtts == old(metrics.rtts) + [rtt]
        && metrics.samples == Metrics.Pushed(old(metrics.samples), metrics.maxSamples, rtt)
        && metrics.acksReceived == old(metrics.acksReceived) + 1
        && metrics.pingsSent == old(metrics.pingsSent) && metrics.timeouts == old(metrics.timeouts)
    {
      match msg
      case Ping(s, from) =>
        EnsureMember(from, now);
        QueueSend(Ack(s, localAddr), from);
      case Ack(s, from) =>
        var found := FirstAnswered(probes, s, from);
        if found.Some? {
          metrics.RecordRtt(Elapsed(now, found.value.sentAt));
        }
        probes := Unanswered(probes, s, from);
        MarkActive(from, now);
      case PingReq(s, from, target) =>
        EnsureMember(from, now);
        QueueSend(Ping(s, localAddr), target);
    }

    /** The first pass of `check_probe_timeouts`: which expired probes need an indirect attempt, and which targets have timed out. */
    method ClassifyExpired(now: nat) returns (needIndirect: seq<(SocketAddr, U32)>, timedOut: seq<SocketAddr>)
      ensures needIndirect == NeedIndirect(probes, now)
      ensures timedOut == TimedOut(probes, now)
      ensures forall t :: t in Targets(needIndirect) <==> ExpiredDirect(probes, now, t)
    {
      needIndirect, timedOut := [], [];
      var i := 0;
      while i < |probes|
        invariant i <= |probes|
        invariant needIndirect == NeedIndirect(probes[..i], now) && timedOut == TimedOut(probes[..i], now)
      {
        var p := probes[i];
        if Elapsed(now, p.sentAt) > ProbeTimeout {
          if !p.indirectSent {
            needIndirect := needIndirect + [(p.target, p.seqNo)];
          } else {
            timedOut := timedOut + [p.target];
          }
        }
        assert probes[..i + 1][..i] == probes[..i];
        i := i + 1;
      }
      assert probes[..i] == probes;
      forall t
        ensures t in Targets(needIndirect) <==> ExpiredDirect(probes, now, t)
      {
        NeedIndirectTargets(probes, now, t);
      }
    }

    /** The inner loop of the second pass: every probe to `target` is escalated in place. */
    method EscalateProbes(target: SocketAddr, now: nat)
      modifies this
      ensures probes == EscalateTargets(old(probes), {target}, now)
      ensures sendQueue == old(sendQueue)
    {
      var i := 0;
      while i < |probes|
        invariant i <= |probes| == |old(probes)|
        invariant forall j :: 0 <= j < i ==> probes[j] == EscalateTargets(old(probes), {target}, now)[j]
        invariant forall j :: i <= j < |probes| ==> probes[j] == old(probes)[j]
        invariant sendQueue == old(sendQueue)
      {
        if probes[i].target == target {
          probes := probes[i := Escalated(probes[i], now)];
        }
        i := i + 1;
      }
    }

    /**
     * The second pass of `check_probe_timeouts`: for each work item, indirect probes are
     * requested and the target's probes escalated. `sels[k]` are the intermediaries picked
     * for `work[k]`.
     */
    method EscalateAll(work: seq<(SocketAddr, U32)>, now: nat) returns (ghost sels: seq<seq<SocketAddr>>)
      requires Valid()
      modifies this
      ensures Valid()
      ensures probes == EscalateTargets(old(probes), Targets(work), now)
      ensures ValidSelections(sels, members.members, work)
      ensures sendQueue == old(sendQueue) + IndirectBatch(sels, work, localAddr)
      ensures old(sendQueue) <= sendQueue
      ensures |sendQueue| == |old(sendQueue)| + Fanout(members.members, work)
      ensures AllIndirect(sendQueue, |old(sendQueue)|, members.members, work, localAddr)
    {
      sels := [];
      var k := 0;
      while k < |work|
        invariant k <= |work|
        invariant probes == EscalateTargets(old(probes), Targets(work[..k]), now)
        invariant ValidSelections(sels, members.members, work[..k])
        invariant sendQueue == old(sendQueue) + IndirectBatch(sels, work[..k], localAddr)
      {
        var target, seqNo := work[k].0, work[k].1;
        ghost var before := sendQueue;
        var selected := SendIndirectProbes(target, seqNo);
        QueueStep(old(sendQueue), sels, selected, work, k, localAddr, before, sendQueue);
        SelectionsStep(sels, selected, members.members, work, k);
        sels := sels + [selected];
        EscalateProbes(target, now);
        EscalateMore(old(probes), Targets(work[..k]), target, now);
        WorkStep(members.members, work, k);
        k := k + 1;
      }
      assert work[..k] == work;
      IndirectBatchLength(sels, members.members, work, localAddr);
      IndirectBatchRequests(sels, members.members, work, localAddr);
      AllIndirectAfter(old(sendQueue), IndirectBatch(sels, work, localAddr), members.members, work, localAddr);
    }

    /** The third pass of `check_probe_timeouts`: each timed-out target is marked Suspect and a timeout counted. */
    method SuspectTimedOut(timedOut: seq<SocketAddr>, now: nat)
      requires Valid()
      modifies members, metrics
      ensures Valid()
      ensures members.members == SuspectAll(old(members.members), timedOut, now)
      ensures members.selfSeq == old(members.selfSeq)
      ensures metrics.timeouts == old(metrics.timeouts) + |timedOut|
      ensures metrics.samples == old(metrics.samples) && metrics.rtts == old(metrics.rtts)
      ensures metrics.acksReceived == old(metrics.acksReceived) && metrics.pingsSent == old(metrics.pingsSent)
    {
      var k := 0;
      while k < |timedOut|
        invariant k <= |timedOut|
        invariant Valid()
        invariant members.members == SuspectAll(old(members.members), timedOut[..k], now)
        invariant members.selfSeq == old(members.selfSeq)
        invariant metrics.timeouts == old(metrics.timeouts) + k
        invariant metrics.samples == old(metrics.samples) && metrics.rtts == old(metrics.rtts)
        invariant metrics.acksReceived == old(metrics.acksReceived) && metrics.pingsSent == old(metrics.pingsSent)
      {
        MarkSuspect(timedOut[k], now);
        metrics.RecordTimeout();
        assert timedOut[..k + 1][..k] == timedOut[..k];
        k := k + 1;
      }
      assert timedOut[..k] == timedOut;
    }

    /**
     * `check_probe_timeouts`: expired probes not yet escalated get indirect probes and a
     * restarted timer, targets whose escalated probes expired become Suspect and count as
     * timeouts, and the expired escalated probes are dropped.
     */
    method CheckProbeTimeouts(now: nat) returns (ghost sels: seq<seq<SocketAddr>>)
      requires Valid()
      modifies this, members, metrics
      ensures Valid()
      ensures probes == AfterProbeTimeouts(old(probes), now)
      ensures members.members == SuspectAll(old(members.members), TimedOut(old(probes), now), now)
      ensures members.selfSeq == old(members.selfSeq)
      ensures ValidSelections(sels, old(members.members), NeedIndirect(old(probes), now))
      ensures sendQueue == old(sendQueue) + IndirectBatch(sels, NeedIndirect(old(probes), now), localAddr)
      ensures old(sendQueue) <= sendQueue
      ensures |sendQueue| == |old(sendQueue)| + Fanout(old(members.members), NeedIndirect(old(probes), now))
      ensures AllIndirect(sendQueue, |old(sendQueue)|, old(members.members), NeedIndirect(old(probes), now), localAddr)
      ensures metrics.timeouts == old(metrics.timeouts) + |TimedOut(old(probes), now)|
      ensures metrics.samples == old(metrics.samples) && metrics.rtts == old(metrics.rtts)
      ensures metrics.acksReceived == old(metrics.acksReceived) && metrics.pingsSent == old(metrics.pingsSent)
    {
      var needIndirect, timedOut := ClassifyExpired(now);
      sels := EscalateAll(needIndirect, now);
      SuspectTimedOut(timedOut, now);
      probes := Retained(probes, now);
    }

    /** The first pass of `check_suspect_timeouts`: the suspects past the timeout, each once. */
    method ExpiredSuspectList(now: nat) returns (toMarkDead: seq<SocketAddr>)
      ensures Distinct(toMarkDead)
      ensures forall a :: a in toMarkDead <==> a in ExpiredSuspects(members.members, now)
    {
      var ms := members.members;
      toMarkDead := [];
      var unvisited := ms.Keys;
      while unvisited != {}
        invariant unvisited <= ms.Keys
        invariant Distinct(toMarkDead)
        invariant forall a :: a in toMarkDead <==> a in ExpiredSuspects(ms, now) && a !in unvisited
        decreases |unvisited|
      {
        var a :| a in unvisited;
        if ms[a].state == Suspect && Elapsed(now, ms[a].lastStateChange) > SuspectTimeout {
          toMarkDead := toMarkDead + [a];
        }
        unvisited := unvisited - {a};
      }
    }

    /** `check_suspect_timeouts`: every suspect whose state is older than `SUSPECT_TIMEOUT` becomes Dead. */
    method CheckSuspectTimeouts(now: nat)
      requires Valid()
      modifies members
      ensures Valid()
      ensures members.members == AfterSuspectTimeouts(old(members.members), now)
      ensures members.selfSeq == old(members.selfSeq)
    {
      var toMarkDead := ExpiredSuspectList(now);
      ghost var ms := members.members;
      var k := 0;
      while k < |toMarkDead|
        invariant k <= |toMarkDead|
        invariant Valid()
        invariant members.selfSeq == old(members.selfSeq)
        invariant members.members.Keys == ms.Keys
        invariant forall a :: a in ms ==>
          members.members[a] == (if a in toMarkDead[..k] then Moved(ms[a], Dead, now) else ms[a])
      {
        var a := toMarkDead[k];
        assert a !in toMarkDead[..k];
        assert a in ExpiredSuspects(ms, now);
        assert members.members[a] == ms[a];
        MarkedDeadEffect(members.members, a, now);
        MarkDead(a, now);
        assert forall b :: b in toMarkDead[..k + 1] <==> b in toMarkDead[..k] || b == a;
        k := k + 1;
      }
      assert toMarkDead[..k] == toMarkDead;
      assert members.members == AfterSuspectTimeouts(ms, now);
    }

    /**
     * `probe_random_member`: when some member is Active, one of them is picked at random
     * and pinged unless a probe to it is already pending. The pick is returned.
     */
    method ProbeRandomMember(now: nat) returns (chosen: Option<SocketAddr>)
      requires Valid()
      modifies this, members, metrics
      ensures Valid()
      ensures chosen.None? <==> InState(old(members.members), Active) == {}
      ensures chosen.Some? ==> chosen.value in InState(old(members.members), Active)
      ensures chosen.None? || HasProbe(old(probes), chosen.value) ==>
        probes == old(probes) && sendQueue == old(sendQueue) && unchanged(members) && unchanged(metrics)
      ensures chosen.Some? && !HasProbe(old(probes), chosen.value) ==>
        && probes == old(probes) + [PendingProbe(old(members.selfSeq), chosen.value, now, false)]
        && sendQueue == old(sendQueue) + [OutgoingMessage(Ping(old(members.selfSeq), localAddr), chosen.value)]
        && members.selfSeq == WrappingIncrement(old(members.selfSeq)) && members.members == old(members.members)
        && metrics.pingsSent == old(metrics.pingsSent) + 1
        && metrics.samples == old(metrics.samples) && metrics.rtts == old(metrics.rtts)
        && metrics.acksReceived == old(metrics.acksReceived) && metrics.timeouts == old(metrics.timeouts)
    {
      var active := InState(members.members, Active);
      if active == {} {
        return None;
      }
      var target :| target in active;
      chosen := Some(target);
      if HasProbe(probes, target) {
        return;
      }
      SendPing(target, now);
    }
  }
}
