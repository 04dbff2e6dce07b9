/**
 * The values a failure-detection node works on (src/protocol/node.rs) and the effect
 * of each of its operations on them, as functions: sequence numbers that wrap at
 * 2^32, the membership table with its Active / Suspect / Dead transitions, and the
 * list of pending probes that acks and timeouts rewrite.
 *
 * Time is a number of nanoseconds passed in as `now`; `Instant::duration_since`
 * saturates at zero, as `Elapsed` does.
 */
module NodeState {
  import opened Wrappers
  import opened Messages

  /** `PROBE_TIMEOUT`: 500 ms. */
  const ProbeTimeout: nat := 500_000_000

  /** `SUSPECT_TIMEOUT`: 3 s. */
  const SuspectTimeout: nat := 3_000_000_000

  /** `INDIRECT_PROBE_COUNT`. */
  const IndirectProbeCount: nat := 3

  /** `now.duration_since(since)`, zero when `since` is later. */
  function Elapsed(now: nat, since: nat): nat {
    if since <= now then now - since else 0
  }

  // ---------------------------------------------------------------------------
  // Sequence numbers

  /** `wrapping_add(1)` on a `u32`. */
  function WrappingIncrement(x: U32): U32 {
    (x + 1) % U32Modulus
  }

  /** The sequence number handed out by the `k`-th call of `next_seq` after starting at `start`. */
  function SeqAfter(start: U32, k: nat): U32 {
    (start + k) % U32Modulus
  }

  /** Each call of `next_seq` moves from one issued number to the next. */
  lemma SeqAfterStep(start: U32, k: nat)
    ensures WrappingIncrement(SeqAfter(start, k)) == SeqAfter(start, k + 1)
  {
    var q := (start + k) / U32Modulus;
    assert start + k == q * U32Modulus + SeqAfter(start, k);
    assert start + k + 1 == q * U32Modulus + SeqAfter(start, k) + 1;
  }

  /** Fewer than 2^32 consecutive calls of `next_seq` never hand out the same number twice. */
  lemma SeqsDistinct(start: U32, i: nat, j: nat)
    requires i < j < U32Modulus
    ensures SeqAfter(start, i) != SeqAfter(start, j)
  {
    var qi := (start + i) / U32Modulus;
    var qj := (start + j) / U32Modulus;
    assert start + i == qi * U32Modulus + SeqAfter(start, i);
    assert start + j == qj * U32Modulus + SeqAfter(start, j);
    if qi == qj {
      assert SeqAfter(start, j) - SeqAfter(start, i) == j - i;
    } else {
      assert qi < qj;
      assert SeqAfter(start, i) - SeqAfter(start, j) == (qj - qi) * U32Modulus - (j - i);
    }
  }

  // ---------------------------------------------------------------------------
  // The membership table

  /** `PeerState`. */
  datatype PeerState = Active | Suspect | Dead

  /** `Member`: its state, its incarnation number and when the state last changed. */
  datatype Member = Member(state: PeerState, incarnation: U32, lastStateChange: nat)

  /** `Membership::members`. */
  type Members = map<SocketAddr, Member>

  /** A member moved to `s` at `now`. */
  function Moved(m: Member, s: PeerState, now: nat): Member {
    m.(state := s, lastStateChange := now)
  }

  /** `ensure_member`: a new address other than the node's own joins as Active with incarnation 0. */
  function Ensured(ms: Members, local: SocketAddr, addr: SocketAddr, now: nat): Members {
    if addr != local && addr !in ms then ms[addr := Member(Active, 0, now)] else ms
  }

  /** `mark_active`: a known member becomes Active; an unknown one is added as by `ensure_member`. */
  function MarkedActive(ms: Members, local: SocketAddr, addr: SocketAddr, now: nat): Members {
    if addr in ms then
      if ms[addr].state != Active then ms[addr := Moved(ms[addr], Active, now)] else ms
    else Ensured(ms, local, addr, now)
  }

  /** `mark_suspect`: only an Active member becomes Suspect. */
  function MarkedSuspect(ms: Members, addr: SocketAddr, now: nat): Members {
    if addr in ms && ms[addr].state == Active then ms[addr := Moved(ms[addr], Suspect, now)] else ms
  }

  /** `mark_dead`: any member not yet Dead becomes Dead. */
  function MarkedDead(ms: Members, addr: SocketAddr, now: nat): Members {
    if addr in ms && ms[addr].state != Dead then ms[addr := Moved(ms[addr], Dead, now)] else ms
  }

  /**
   * `ensure_member` adds exactly the new address, unless it is the node's own, and
   * leaves every existing entry as it was.
   */
  lemma EnsuredEffect(ms: Members, local: SocketAddr, addr: SocketAddr, now: nat)
    ensures var r := Ensured(ms, local, addr, now);
      && r.Keys == (if addr == local then ms.Keys else ms.Keys + {addr})
      && (forall a :: a in ms ==> r[a] == ms[a])
      && (addr != local && addr !in ms ==> r[addr] == Member(Active, 0, now))
  {
  }

  /**
   * `mark_active` leaves the sender Active (unless it is the node's own address and
   * unknown), changes nothing else, and touches `last_state_change` only when the
   * state really changes.
   */
  lemma MarkedActiveEffect(ms: Members, local: SocketAddr, addr: SocketAddr, now: nat)
    ensures var r := MarkedActive(ms, local, addr, now);
      && (forall a :: a in ms ==> a in r)
      && (forall a :: a in r ==> a in ms || a == addr)
      && (forall a :: a in ms && a != addr ==> r[a] == ms[a])
      && (addr in ms || addr != local ==> addr in r && r[addr].state == Active)
      && (addr in ms && ms[addr].state == Active ==> r[addr] == ms[addr])
      && (addr in ms && ms[addr].state != Active ==> r[addr] == Moved(ms[addr], Active, now))
  {
  }

  /** `mark_suspect` moves only Active to Suspect; a Suspect or Dead member, or an unknown address, is left alone. */
  lemma MarkedSuspectEffect(ms: Members, addr: SocketAddr, now: nat)
    ensures var r := MarkedSuspect(ms, addr, now);
      && r.Keys == ms.Keys
      && (forall a :: a in ms && a != addr ==> r[a] == ms[a])
      && (addr in ms && ms[addr].state == Active ==> r[addr] == Moved(ms[addr], Suspect, now))
      && (addr in ms && ms[addr].state != Active ==> r[addr] == ms[addr])
  {
  }

  /** `mark_dead` moves Active or Suspect to Dead; a Dead member, or an unknown address, is left alone. */
  lemma MarkedDeadEffect(ms: Members, addr: SocketAddr, now: nat)
    ensures var r := MarkedDead(ms, addr, now);
      && r.Keys == ms.Keys
      && (forall a :: a in ms && a != addr ==> r[a] == ms[a])
      && (addr in ms && ms[addr].state != Dead ==> r[addr] == Moved(ms[addr], Dead, now))
      && (addr in ms && ms[addr].state == Dead ==> r[addr] == ms[addr])
  {
  }

  /** No member ever has the node's own address, whatever the node does to the table. */
  lemma LocalNeverMember(ms: Members, local: SocketAddr, addr: SocketAddr, now: nat)
    requires local !in ms
    ensures local !in Ensured(ms, local, addr, now)
    ensures local !in MarkedActive(ms, local, addr, now)
    ensures local !in MarkedSuspect(ms, addr, now)
    ensures local !in MarkedDead(ms, addr, now)
  {
  }

  /** The addresses of members in state `s`. */
  function InState(ms: Members, s: PeerState): set<SocketAddr> {
    set a | a in ms && ms[a].state == s
  }

  /** `count_by_state`. */
  function CountByState(ms: Members, s: PeerState): (c: nat)
    ensures c <= |ms|
  {
    var rest := ms.Keys - InState(ms, s);
    assert ms.Keys == InState(ms, s) + rest && InState(ms, s) * rest == {};
    assert |InState(ms, s) + rest| == |InState(ms, s)| + |rest|;
    |InState(ms, s)|
  }

  /** Every member is counted in exactly one state, so the three counts add up to the table's size. */
  lemma CountsPartition(ms: Members)
    ensures CountByState(ms, Active) + CountByState(ms, Suspect) + CountByState(ms, Dead) == |ms|
  {
    var a, s, d := InState(ms, Active), InState(ms, Suspect), InState(ms, Dead);
    assert a * s == {} && (a + s) * d == {};
    assert |a + s| == |a| + |s|;
    assert |a + s + d| == |a + s| + |d|;
    assert a + s + d == ms.Keys by {
      forall x | x in ms.Keys
        ensures x in a + s + d
      {
        match ms[x].state
        case Active =>
        case Suspect =>
        case Dead =>
      }
    }
  }

  /** The Active members other than `target`: the candidates for indirect probes. */
  function Others(ms: Members, target: SocketAddr): set<SocketAddr> {
    InState(ms, Active) - {target}
  }

  // ---------------------------------------------------------------------------
  // Pending probes

  /** `PendingProbe`: a ping awaiting its ack. */
  datatype PendingProbe = PendingProbe(seqNo: U32, target: SocketAddr, sentAt: nat, indirectSent: bool)

  /** An `Ack { seq, from }` answers the probe with that sequence number sent to `from`. */
  predicate Answers(p: PendingProbe, seqNo: U32, from: SocketAddr) {
    p.seqNo == seqNo && p.target == from
  }

  /** `probes.iter().find(...)`: the first probe the ack answers. */
  function FirstAnswered(probes: seq<PendingProbe>, seqNo: U32, from: SocketAddr): (r: Option<PendingProbe>)
    ensures r.None? <==> forall i :: 0 <= i < |probes| ==> !Answers(probes[i], seqNo, from)
    ensures r.Some? ==> exists i :: (0 <= i < |probes| && probes[i] == r.value
      && Answers(probes[i], seqNo, from)
      && forall j :: 0 <= j < i ==> !Answers(probes[j], seqNo, from))
  {
    if probes == [] then None
    else if Answers(probes[0], seqNo, from) then Some(probes[0])
    else
      var r := FirstAnswered(probes[1..], seqNo, from);
      assert forall i :: 1 <= i < |probes| ==> probes[i] == probes[1..][i - 1];
      if r.Some? then
        var i :| 0 <= i < |probes[1..]| && probes[1..][i] == r.value
          && Answers(probes[1..][i], seqNo, from)
          && forall j :: 0 <= j < i ==> !Answers(probes[1..][j], seqNo, from);
        assert probes[i + 1] == r.value;
        r
      else r
  }

  /** `probes.retain(|p| !(p.seq == seq && p.target == from))`. */
  function Unanswered(probes: seq<PendingProbe>, seqNo: U32, from: SocketAddr): (r: seq<PendingProbe>)
    ensures |r| <= |probes|
  {
    if probes == [] then []
    else
      var p := probes[|probes| - 1];
      Unanswered(probes[..|probes| - 1], seqNo, from) + (if Answers(p, seqNo, from) then [] else [p])
  }

  /** An ack removes every probe it answers and keeps every other one. */
  lemma {:induction false} UnansweredMembers(probes: seq<PendingProbe>, seqNo: U32, from: SocketAddr, p: PendingProbe)
    ensures p in Unanswered(probes, seqNo, from) <==> p in probes && !Answers(p, seqNo, from)
  {
    if probes != [] {
      var init := probes[..|probes| - 1];
      UnansweredMembers(init, seqNo, from, p);
      assert probes == init + [probes[|probes| - 1]];
    }
  }

  /** Probes the ack does not answer keep their order. */
  lemma {:induction false} UnansweredAll(probes: seq<PendingProbe>, seqNo: U32, from: SocketAddr)
    requires forall i :: 0 <= i < |probes| ==> !Answers(probes[i], seqNo, from)
    ensures Unanswered(probes, seqNo, from) == probes
  {
    if probes != [] {
      UnansweredAll(probes[..|probes| - 1], seqNo, from);
    }
  }

  /** A probe whose timer has run out. */
  predicate Expired(p: PendingProbe, now: nat) {
    Elapsed(now, p.sentAt) > ProbeTimeout
  }

  /** The `need_indirect` list: target and sequence number of each expired probe not yet escalated, in order. */
  function NeedIndirect(probes: seq<PendingProbe>, now: nat): (r: seq<(SocketAddr, U32)>)
    ensures |r| <= |probes|
  {
    if probes == [] then []
    else
      var p := probes[|probes| - 1];
      NeedIndirect(probes[..|probes| - 1], now) + (if Expired(p, now) && !p.indirectSent then [(p.target, p.seqNo)] else [])
  }

  /** The `timed_out` list: the target of each expired probe that was already escalated, in order. */
  function TimedOut(probes: seq<PendingProbe>, now: nat): (r: seq<SocketAddr>)
    ensures |r| <= |probes|
  {
    if probes == [] then []
    else
      var p := probes[|probes| - 1];
      TimedOut(probes[..|probes| - 1], now) + (if Expired(p, now) && p.indirectSent then [p.target] else [])
  }

  /** The targets of a work list. */
  function Targets(work: seq<(SocketAddr, U32)>): set<SocketAddr> {
    set i | 0 <= i < |work| :: work[i].0
  }

  /** Some probe to `t` has expired without an indirect attempt. */
  predicate ExpiredDirect(probes: seq<PendingProbe>, now: nat, t: SocketAddr) {
    exists i :: 0 <= i < |probes| && probes[i].target == t && Expired(probes[i], now) && !probes[i].indirectSent
  }

  /** A target is escalated exactly when one of its probes has expired without an indirect attempt. */
  lemma {:induction false} NeedIndirectTargets(probes: seq<PendingProbe>, now: nat, t: SocketAddr)
    ensures t in Targets(NeedIndirect(probes, now)) <==> ExpiredDirect(probes, now, t)
  {
    if probes != [] {
      var init := probes[..|probes| - 1];
      NeedIndirectTargets(init, now, t);
      var w := NeedIndirect(probes, now);
      var wi := NeedIndirect(init, now);
      assert forall i :: 0 <= i < |wi| ==> w[i] == wi[i];
      if t in Targets(w) && t !in Targets(wi) {
        var k :| 0 <= k < |w| && w[k].0 == t;
        assert k == |wi|;
      }
      forall i | 0 <= i < |init|
        ensures probes[i] == init[i]
      {
      }
      var p := probes[|probes| - 1];
      if p.target == t && Expired(p, now) && !p.indirectSent {
        assert w[|wi|].0 == t;
      }
    }
  }

  /** One more item of a work list adds its target and its fan-out. */
  lemma WorkStep(ms: Members, work: seq<(SocketAddr, U32)>, k: nat)
    requires k < |work|
    ensures Targets(work[..k + 1]) == Targets(work[..k]) + {work[k].0}
    ensures Fanout(ms, work[..k + 1]) == Fanout(ms, work[..k]) + FanoutFor(ms, work[k].0)
  {
    assert work[..k + 1] == work[..k] + [work[k]];
    assert work[..k + 1][..k] == work[..k];
  }

  /** A probe after an indirect attempt for its target: marked, and its timer restarted. */
  function Escalated(p: PendingProbe, now: nat): PendingProbe {
    p.(indirectSent := true, sentAt := now)
  }

  /** Every probe to one of `targets` escalated in place; the others untouched. */
  function EscalateTargets(probes: seq<PendingProbe>, targets: set<SocketAddr>, now: nat): (r: seq<PendingProbe>)
    ensures |r| == |probes|
  {
    seq(|probes|, i requires 0 <= i < |probes| => if probes[i].target in targets then Escalated(probes[i], now) else probes[i])
  }

  /** Escalating one more target after a set of them is escalating the union: a restarted timer is restarted again at the same instant. */
  lemma EscalateMore(probes: seq<PendingProbe>, targets: set<SocketAddr>, t: SocketAddr, now: nat)
    ensures EscalateTargets(EscalateTargets(probes, targets, now), {t}, now) == EscalateTargets(probes, targets + {t}, now)
  {
  }

  /** `probes.retain(|p| now.duration_since(p.sent_at) <= PROBE_TIMEOUT || !p.indirect_sent)`. */
  function Retained(probes: seq<PendingProbe>, now: nat): (r: seq<PendingProbe>)
    ensures |r| <= |probes|
  {
    if probes == [] then []
    else
      var p := probes[|probes| - 1];
      Retained(probes[..|probes| - 1], now) + (if !Expired(p, now) || !p.indirectSent then [p] else [])
  }

  /** `retain` keeps exactly the probes that are unexpired or not yet escalated. */
  lemma {:induction false} RetainedMembers(probes: seq<PendingProbe>, now: nat, p: PendingProbe)
    ensures p in Retained(probes, now) <==> p in probes && (!Expired(p, now) || !p.indirectSent)
  {
    if probes != [] {
      var init := probes[..|probes| - 1];
      RetainedMembers(init, now, p);
      assert probes == init + [probes[|probes| - 1]];
    }
  }

  /** The pending probes after `check_probe_timeouts`. */
  function AfterProbeTimeouts(probes: seq<PendingProbe>, now: nat): (r: seq<PendingProbe>)
    ensures |r| <= |probes|
  {
    Retained(EscalateTargets(probes, Targets(NeedIndirect(probes, now)), now), now)
  }

  /**
   * Every probe to a target that needed an indirect attempt is kept, escalated with its
   * timer restarted; this includes an already escalated, expired probe to the same target.
   */
  lemma EscalatedKept(probes: seq<PendingProbe>, now: nat, i: nat)
    requires i < |probes| && probes[i].target in Targets(NeedIndirect(probes, now))
    ensures Escalated(probes[i], now) in AfterProbeTimeouts(probes, now)
  {
    var e := EscalateTargets(probes, Targets(NeedIndirect(probes, now)), now);
    assert e[i] == Escalated(probes[i], now);
    RetainedMembers(e, now, e[i]);
  }

  /**
   * A probe to a target that needed no indirect attempt is kept as it was while its
   * timer runs, and removed once it has expired (it was escalated earlier).
   */
  lemma OtherProbesFate(probes: seq<PendingProbe>, now: nat, i: nat)
    requires i < |probes| && probes[i].target !in Targets(NeedIndirect(probes, now))
    ensures !Expired(probes[i], now) ==> probes[i] in AfterProbeTimeouts(probes, now)
    ensures Expired(probes[i], now) ==> probes[i].indirectSent && probes[i] !in AfterProbeTimeouts(probes, now)
  {
    var t := Targets(NeedIndirect(probes, now));
    var e := EscalateTargets(probes, t, now);
    NeedIndirectTargets(probes, now, probes[i].target);
    RetainedMembers(e, now, probes[i]);
    assert e[i] == probes[i];
    if Expired(probes[i], now) && probes[i] in e {
      var k :| 0 <= k < |e| && e[k] == probes[i];
      if probes[k].target in t {
        assert e[k].sentAt == now;
      }
    }
  }

  /** Nothing else survives the timeouts: a probe kept is an untouched unexpired one or an escalated one. */
  lemma AfterProbeTimeoutsOrigin(probes: seq<PendingProbe>, now: nat, q: PendingProbe)
    requires q in AfterProbeTimeouts(probes, now)
    ensures exists i :: 0 <= i < |probes| && (q == probes[i] || q == Escalated(probes[i], now))
    ensures q.sentAt != now ==> !Expired(q, now) || !q.indirectSent
  {
    var e := EscalateTargets(probes, Targets(NeedIndirect(probes, now)), now);
    RetainedMembers(e, now, q);
    var k :| 0 <= k < |e| && e[k] == q;
  }

  // ---------------------------------------------------------------------------
  // Outgoing messages

  /** `OutgoingMessage`: a queued message and its destination, kept as the message rather than its bytes. */
  datatype OutgoingMessage = OutgoingMessage(msg: Message, target: SocketAddr)

  function Min(a: nat, b: nat): nat { if a <= b then a else b }

  /** How many intermediaries `send_indirect_probes` asks about `target`. */
  function FanoutFor(ms: Members, target: SocketAddr): nat {
    Min(|Others(ms, target)|, IndirectProbeCount)
  }

  /** How many `PingReq`s a work list of escalations queues in all. */
  function Fanout(ms: Members, work: seq<(SocketAddr, U32)>): nat {
    if work == [] then 0 else Fanout(ms, work[..|work| - 1]) + FanoutFor(ms, work[|work| - 1].0)
  }

  /** Every work item asks at most `INDIRECT_PROBE_COUNT` intermediaries. */
  lemma {:induction false} FanoutBound(ms: Members, work: seq<(SocketAddr, U32)>)
    ensures Fanout(ms, work) <= IndirectProbeCount * |work|
  {
    if work != [] {
      FanoutBound(ms, work[..|work| - 1]);
    }
  }

  /** A `PingReq` about `target`, from `local`, to each of `intermediaries` in turn. */
  function PingReqs(intermediaries: seq<SocketAddr>, seqNo: U32, local: SocketAddr, target: SocketAddr): (r: seq<OutgoingMessage>)
    ensures |r| == |intermediaries|
  {
    seq(|intermediaries|, i requires 0 <= i < |intermediaries| => OutgoingMessage(PingReq(seqNo, local, target), intermediaries[i]))
  }

  /**
   * The `PingReq`s a work list queues, item after item: `sels[k]` are the intermediaries
   * picked for `work[k]`, and each gets a request about that item's target and sequence number.
   */
  function IndirectBatch(sels: seq<seq<SocketAddr>>, work: seq<(SocketAddr, U32)>, local: SocketAddr): seq<OutgoingMessage>
    requires |sels| == |work|
  {
    if work == [] then []
    else
      var k := |work| - 1;
      IndirectBatch(sels[..k], work[..k], local) + PingReqs(sels[k], work[k].1, local, work[k].0)
  }

  /** One more work item appends the requests to its own intermediaries. */
  lemma IndirectBatchStep(sels: seq<seq<SocketAddr>>, sel: seq<SocketAddr>, work: seq<(SocketAddr, U32)>, k: nat, local: SocketAddr)
    requires |sels| == k < |work|
    ensures IndirectBatch(sels + [sel], work[..k + 1], local)
      == IndirectBatch(sels, work[..k], local) + PingReqs(sel, work[k].1, local, work[k].0)
  {
    assert (sels + [sel])[..k] == sels;
    assert work[..k + 1][..k] == work[..k];
  }

  /** A queued indirect-probe request for one item of the work list, sent to an Active member other than its target. */
  predicate IndirectRequest(out: OutgoingMessage, ms: Members, work: seq<(SocketAddr, U32)>, local: SocketAddr) {
    && out.msg.PingReq?
    && out.msg.from == local
    && (out.msg.target, out.msg.seqNo) in work
    && out.target in Others(ms, out.msg.target)
  }

  /** `mark_suspect` applied to each target in turn. */
  function SuspectAll(ms: Members, targets: seq<SocketAddr>, now: nat): Members {
    if targets == [] then ms
    else MarkedSuspect(SuspectAll(ms, targets[..|targets| - 1], now), targets[|targets| - 1], now)
  }

  /** After the timed-out targets are marked, each that was Active is Suspect, and nothing else changed. */
  lemma {:induction false} SuspectAllEffect(ms: Members, targets: seq<SocketAddr>, now: nat)
    ensures var r := SuspectAll(ms, targets, now);
      && r.Keys == ms.Keys
      && (forall a :: a in ms && a in targets && ms[a].state == Active ==> r[a] == Moved(ms[a], Suspect, now))
      && (forall a :: a in ms && (a !in targets || ms[a].state != Active) ==> r[a] == ms[a])
  {
    if targets != [] {
      var init := targets[..|targets| - 1];
      var t := targets[|targets| - 1];
      SuspectAllEffect(ms, init, now);
      assert targets == init + [t];
      assert forall a :: a in targets <==> a in init || a == t;
    }
  }

  /** The suspects whose last change is older than `SUSPECT_TIMEOUT`. */
  function ExpiredSuspects(ms: Members, now: nat): set<SocketAddr> {
    set a | a in ms && ms[a].state == Suspect && Elapsed(now, ms[a].lastStateChange) > SuspectTimeout
  }

  /** The table after `check_suspect_timeouts`. */
  function AfterSuspectTimeouts(ms: Members, now: nat): (r: Members)
    ensures r.Keys == ms.Keys
  {
    map a | a in ms :: if a in ExpiredSuspects(ms, now) then Moved(ms[a], Dead, now) else ms[a]
  }

  /**
   * Suspects past the timeout become Dead and nothing else changes; in particular no
   * Active member and no suspect within the timeout is touched.
   */
  lemma SuspectTimeoutsEffect(ms: Members, now: nat)
    ensures var r := AfterSuspectTimeouts(ms, now);
      && r.Keys == ms.Keys
      && (forall a :: a in ms && ms[a].state == Suspect && Elapsed(now, ms[a].lastStateChange) > SuspectTimeout
            ==> r[a].state == Dead && r[a].lastStateChange == now)
      && (forall a :: a in ms && (ms[a].state != Suspect || Elapsed(now, ms[a].lastStateChange) <= SuspectTimeout)
            ==> r[a] == ms[a])
      && CountByState(r, Dead) == CountByState(ms, Dead) + |ExpiredSuspects(ms, now)|
  {
    var r := AfterSuspectTimeouts(ms, now);
    var x := ExpiredSuspects(ms, now);
    assert InState(r, Dead) == InState(ms, Dead) + x;
    assert InState(ms, Dead) * x == {};
  }
}
