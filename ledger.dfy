/** The burst ledger as a value: the records of the doubly-linked list
    `wave->bursts`, head first. The imperative list in module WaveCC is
    proved to hold exactly these values. */
module Ledger {
  import opened Arith64

  datatype Option<T> = None | Some(value: T)

  /** A packet as the congestion controller sees it (`ngtcp2_cc_pkt`):
      its send timestamp and its length in bytes. */
  datatype Pkt = Pkt(sentTs: U64, pktlen: U64)

  /** One `burst_stats` record, without its `previous`/`next` links. */
  datatype Burst = Burst(
    sendTime: U64,
    sendBurstSize: U64,
    firstAckTime: U64,
    lastAckTime: U64,
    ackNum: U64,
    ackedBytes: U64,
    cumulativeAckRtt: U64,
    pilotRtt: U64)

  /** The record `wave_cc_on_pkt_sent` allocates for a send time it has
      not seen: no acknowledgment yet, both "unset" sentinels in place. */
  function NewBurst(sentTs: U64, pktlen: U64): Burst
  {
    Burst(sentTs, pktlen, UINT64_MAX, 0, 0, 0, 0, UINT64_MAX)
  }

  /** The record has seen no acknowledgment since it was created. */
  predicate Unacked(b: Burst)
  {
    b.firstAckTime == UINT64_MAX && b.lastAckTime == 0 && b.ackNum == 0 &&
    b.ackedBytes == 0 && b.cumulativeAckRtt == 0 && b.pilotRtt == UINT64_MAX
  }

  /** The send timestamps of the ledger, head first. */
  function Keys(l: seq<Burst>): (ks: seq<U64>)
    ensures |ks| == |l|
    ensures forall i :: 0 <= i < |l| ==> ks[i] == l[i].sendTime
  {
    seq(|l|, i requires 0 <= i < |l| => l[i].sendTime)
  }

  /** At most one record per send timestamp. */
  predicate DistinctKeys(l: seq<Burst>)
  {
    forall i, j :: 0 <= i < j < |l| ==> l[i].sendTime != l[j].sendTime
  }

  /** The scan from the head that both packet handlers perform: the
      position of the first record whose send time is `t`, if any. */
  function FindIndex(l: seq<Burst>, t: U64): (r: Option<nat>)
    ensures r.Some? ==> r.value < |l| && l[r.value].sendTime == t
    ensures r.Some? ==> forall j :: 0 <= j < r.value ==> l[j].sendTime != t
    ensures r.None? <==> t !in Keys(l)
  {
    if l == [] then None
    else if l[0].sendTime == t then Some(0)
    else
      match FindIndex(l[1..], t)
      case None => None
      case Some(i) => Some(i + 1)
  }

  /** The ledger after `wave_cc_on_pkt_sent`: a packet whose send time
      is already recorded grows that burst; any other packet opens a new
      burst at the tail. */
  function RecordSent(l: seq<Burst>, pkt: Pkt): seq<Burst>
  {
    match FindIndex(l, pkt.sentTs)
    case Some(i) => l[i := l[i].(sendBurstSize := Add(l[i].sendBurstSize, pkt.pktlen))]
    case None => l + [NewBurst(pkt.sentTs, pkt.pktlen)]
  }

  /** The record after one acknowledgment at time `ts` of a packet of
      `pktlen` bytes belonging to it (`wave_cc_on_pkt_acked`, per-ack
      bookkeeping). */
  function AckUpdate(b: Burst, ts: U64, pktlen: U64): (r: Burst)
    ensures r.sendTime == b.sendTime && r.sendBurstSize == b.sendBurstSize
    ensures r.firstAckTime == Min(b.firstAckTime, ts)
    ensures r.pilotRtt == if ts < b.firstAckTime then Sub(ts, b.sendTime) else b.pilotRtt
    ensures r.lastAckTime == Max(b.lastAckTime, ts)
    ensures r.ackNum == if ts > b.lastAckTime then Add(b.ackNum, 1) else b.ackNum
    ensures r.cumulativeAckRtt ==
      if ts > b.lastAckTime then Add(b.cumulativeAckRtt, Sub(ts, b.sendTime)) else b.cumulativeAckRtt
    ensures r.ackedBytes == Add(b.ackedBytes, pktlen)
  {
    var b1 := if ts < b.firstAckTime
      then b.(firstAckTime := ts, pilotRtt := Sub(ts, b.sendTime))
      else b;
    var b2 := if ts > b1.lastAckTime
      then b1.(lastAckTime := ts, ackNum := Add(b1.ackNum, 1),
               cumulativeAckRtt := Add(b1.cumulativeAckRtt, Sub(ts, b.sendTime)))
      else b1;
    b2.(ackedBytes := Add(b2.ackedBytes, pktlen))
  }

  function Min(a: U64, b: U64): U64 { if a <= b then a else b }
  function Max(a: U64, b: U64): U64 { if a >= b then a else b }

  /** The ledger without its `k`-th record, the others in their order. */
  function RemoveAt(l: seq<Burst>, k: nat): (r: seq<Burst>)
    requires k < |l|
    ensures |r| == |l| - 1
    ensures forall j :: 0 <= j < k ==> r[j] == l[j]
    ensures forall j :: k <= j < |r| ==> r[j] == l[j + 1]
  {
    l[..k] + l[k + 1..]
  }

  /** Sending a packet keeps one record per send time, and afterwards
      the packet's send time is recorded. */
  lemma RecordSentKeepsKeysDistinct(l: seq<Burst>, pkt: Pkt)
    requires DistinctKeys(l)
    ensures DistinctKeys(RecordSent(l, pkt))
    ensures pkt.sentTs in Keys(RecordSent(l, pkt))
  {
    var r := RecordSent(l, pkt);
    match FindIndex(l, pkt.sentTs)
    case Some(i) =>
      assert Keys(r) == Keys(l);
    case None =>
      assert r[|l|].sendTime == pkt.sentTs;
  }

  /** A send whose timestamp is recorded at position `i` grows exactly
      that record by the packet's length and changes nothing else. */
  lemma RecordSentExisting(l: seq<Burst>, pkt: Pkt, i: nat)
    requires DistinctKeys(l)
    requires i < |l| && l[i].sendTime == pkt.sentTs
    ensures |RecordSent(l, pkt)| == |l|
    ensures RecordSent(l, pkt)[i] == l[i].(sendBurstSize := Add(l[i].sendBurstSize, pkt.pktlen))
    ensures forall j :: 0 <= j < |l| && j != i ==> RecordSent(l, pkt)[j] == l[j]
  {
    assert pkt.sentTs in Keys(l);
    var f := FindIndex(l, pkt.sentTs).value;
    assert f == i;
  }

  /** A send whose timestamp is not recorded appends a fresh, unacked
      record at the tail and keeps every other record in its place. */
  lemma RecordSentFresh(l: seq<Burst>, pkt: Pkt)
    requires pkt.sentTs !in Keys(l)
    ensures RecordSent(l, pkt) == l + [NewBurst(pkt.sentTs, pkt.pktlen)]
    ensures |RecordSent(l, pkt)| == |l| + 1
    ensures RecordSent(l, pkt)[..|l|] == l
    ensures var b := RecordSent(l, pkt)[|l|];
      b.sendTime == pkt.sentTs && b.sendBurstSize == pkt.pktlen && Unacked(b)
  {
  }

  /** Removing a record keeps the other keys distinct and drops exactly
      the removed record's key. */
  lemma RemoveAtKeys(l: seq<Burst>, k: nat)
    requires DistinctKeys(l) && k < |l|
    ensures DistinctKeys(RemoveAt(l, k))
    ensures l[k].sendTime !in Keys(RemoveAt(l, k))
    ensures forall t :: t in Keys(l) && t != l[k].sendTime ==> t in Keys(RemoveAt(l, k))
  {
    var r := RemoveAt(l, k);
    forall t | t in Keys(l) && t != l[k].sendTime
      ensures t in Keys(r)
    {
      var j :| 0 <= j < |l| && l[j].sendTime == t;
      if j < k {
        assert Keys(r)[j] == t;
      } else {
        assert j > k;
        assert Keys(r)[j - 1] == t;
      }
    }
  }

  // ---------------------------------------------------------------
  // A run of sends, starting from the empty ledger.

  /** The ledger after `wave_cc_on_pkt_sent` was called for each packet
      of `pkts` in order, starting from an empty ledger. */
  function Sends(pkts: seq<Pkt>): seq<Burst>
  {
    if pkts == [] then [] else RecordSent(Sends(pkts[..|pkts| - 1]), pkts[|pkts| - 1])
  }

  /** The distinct values of `ts` in order of first appearance. */
  function FirstSeen(ts: seq<U64>): (r: seq<U64>)
  {
    if ts == [] then []
    else
      var p := FirstSeen(ts[..|ts| - 1]);
      if ts[|ts| - 1] in p then p else p + [ts[|ts| - 1]]
  }

  function SendTimes(pkts: seq<Pkt>): (ts: seq<U64>)
    ensures |ts| == |pkts|
    ensures forall i :: 0 <= i < |pkts| ==> ts[i] == pkts[i].sentTs
  {
    seq(|pkts|, i requires 0 <= i < |pkts| => pkts[i].sentTs)
  }

  /** The total length, modulo 2^64 as `send_burst_size` accumulates it,
      of the packets of `pkts` sent at time `t`. */
  function SentBytes(pkts: seq<Pkt>, t: U64): U64
  {
    if pkts == [] then 0
    else
      var last := pkts[|pkts| - 1];
      var before := SentBytes(pkts[..|pkts| - 1], t);
      if last.sentTs == t then Add(before, last.pktlen) else before
  }

  /** Ledger integrity over any run of sends: one record per distinct
      send time, in order of first appearance, each record's size the
      sum of the lengths sent at its time, and no acknowledgment data. */
  lemma {:induction false} SendsLedger(pkts: seq<Pkt>)
    ensures DistinctKeys(Sends(pkts))
    ensures Keys(Sends(pkts)) == FirstSeen(SendTimes(pkts))
    ensures forall i :: 0 <= i < |Sends(pkts)| ==>
      Unacked(Sends(pkts)[i]) && Sends(pkts)[i].sendBurstSize == SentBytes(pkts, Sends(pkts)[i].sendTime)
  {
    if pkts != [] {
      var init := pkts[..|pkts| - 1];
      var p := pkts[|pkts| - 1];
      SendsLedger(init);
      var l := Sends(init);
      var r := Sends(pkts);
      assert r == RecordSent(l, p);
      assert SendTimes(pkts)[..|pkts| - 1] == SendTimes(init);
      RecordSentKeepsKeysDistinct(l, p);
      match FindIndex(l, p.sentTs)
      case Some(k) =>
        RecordSentExisting(l, p, k);
        assert Keys(r) == Keys(l);
        forall i | 0 <= i < |r|
          ensures Unacked(r[i]) && r[i].sendBurstSize == SentBytes(pkts, r[i].sendTime)
        {
          assert r[i].sendTime == l[i].sendTime;
        }
      case None =>
        RecordSentFresh(l, p);
        assert Keys(r) == Keys(l) + [p.sentTs];
        forall i | 0 <= i < |r|
          ensures Unacked(r[i]) && r[i].sendBurstSize == SentBytes(pkts, r[i].sendTime)
        {
          if i == |l| {
            SentBytesAbsent(init, p.sentTs);
          } else {
            assert r[i] == l[i];
            assert r[i].sendTime != p.sentTs by { assert Keys(l)[i] == l[i].sendTime; }
          }
        }
    }
  }

  /** No packet of `pkts` was sent at a time that `FirstSeen` does not
      list, so nothing was accumulated for it. */
  lemma {:induction false} SentBytesAbsent(pkts: seq<Pkt>, t: U64)
    requires t !in FirstSeen(SendTimes(pkts))
    ensures SentBytes(pkts, t) == 0
  {
    if pkts != [] {
      var init := pkts[..|pkts| - 1];
      assert SendTimes(pkts)[..|pkts| - 1] == SendTimes(init);
      FirstSeenGrows(SendTimes(pkts));
      SentBytesAbsent(init, t);
    }
  }

  /** `FirstSeen` of a non-empty sequence lists its last element and
      everything `FirstSeen` of the prefix lists. */
  lemma FirstSeenGrows(ts: seq<U64>)
    requires ts != []
    ensures ts[|ts| - 1] in FirstSeen(ts)
    ensures forall x :: x in FirstSeen(ts[..|ts| - 1]) ==> x in FirstSeen(ts)
  {
  }
}
