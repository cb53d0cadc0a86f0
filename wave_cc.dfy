/** The Wave controller as lib/ngtcp2_wave.c runs it: handlers that
    update the controller's fields and the connection statistics in
    place and walk, grow and splice a doubly-linked list of burst
    records. Every handler is proved to produce exactly the state the
    matching function of module WaveSpec describes. */
module WaveCC {
  import opened Arith64
  import opened Ledger
  import WaveSpec

  /** The fields of `ngtcp2_conn_stat` the controller reads or writes. */
  class ConnStat {
    var smoothedRtt: U64
    var pacingIntervalM: U64
    var sendQuantum: U64
    var cwnd: U64
    var ssthresh: U64

    function Snapshot(): WaveSpec.Stat
      reads this
    {
      WaveSpec.Stat(smoothedRtt, pacingIntervalM, sendQuantum, cwnd, ssthresh)
    }
  }

  /** One `burst_stats` node of the ledger. */
  class BurstNode {
    var sendTime: U64
    var sendBurstSize: U64
    var firstAckTime: U64
    var lastAckTime: U64
    var ackNum: U64
    var ackedBytes: U64
    var cumulativeAckRtt: U64
    var pilotRtt: U64
    var previous: BurstNode?
    var next: BurstNode?

    /** The record this node holds, without its links. */
    function Value(): Burst
      reads this`sendTime, this`sendBurstSize, this`firstAckTime, this`lastAckTime,
        this`ackNum, this`ackedBytes, this`cumulativeAckRtt, this`pilotRtt
    {
      Burst(sendTime, sendBurstSize, firstAckTime, lastAckTime, ackNum, ackedBytes, cumulativeAckRtt, pilotRtt)
    }

    /** A node for a send time not seen before, linked after `previous`
        and ending the list. */
    constructor (sentTs: U64, pktlen: U64, previous: BurstNode?)
      ensures Value() == NewBurst(sentTs, pktlen)
      ensures this.previous == previous && next == null
    {
      sendTime := sentTs;
      sendBurstSize := pktlen;
      firstAckTime := UINT64_MAX;
      lastAckTime := 0;
      ackNum := 0;
      ackedBytes := 0;
      cumulativeAckRtt := 0;
      pilotRtt := UINT64_MAX;
      this.previous := previous;
      next := null;
    }

    /** Another packet of this burst was sent: its length joins the
        burst's size. */
    method AddBytes(pktlen: U64)
      modifies this`sendBurstSize
      ensures Value() == old(Value()).(sendBurstSize := Add(old(sendBurstSize), pktlen))
    {
      sendBurstSize := Add(sendBurstSize, pktlen);
    }

    /** An acknowledgment at `ts` of a packet of `pktlen` bytes sent at
        `sentTs`, this burst's send time (the per-ack bookkeeping of
        `wave_cc_on_pkt_acked`). */
    method RecordAck(sentTs: U64, pktlen: U64, ts: U64)
      requires sendTime == sentTs
      modifies this`firstAckTime, this`pilotRtt, this`lastAckTime, this`ackNum,
        this`cumulativeAckRtt, this`ackedBytes
      ensures Value() == AckUpdate(old(Value()), ts, pktlen)
    {
      if ts < firstAckTime {
        firstAckTime := ts;
        pilotRtt := Sub(ts, sentTs);
      }
      if ts > lastAckTime {
        lastAckTime := ts;
        ackNum := Add(ackNum, 1);
        cumulativeAckRtt := Add(cumulativeAckRtt, Sub(ts, sentTs));
      }
      ackedBytes := Add(ackedBytes, pktlen);
    }
  }

  /** `head` heads a well-formed doubly-linked list of exactly the nodes
      `ns`, in that order: the head has no predecessor, the tail no
      successor, and neighbours point at each other. */
  ghost predicate Linked(head: BurstNode?, ns: seq<BurstNode>)
    reads ns`previous, ns`next
  {
    (head == null <==> ns == []) &&
    (ns != [] ==> head == ns[0] && ns[0].previous == null && ns[|ns| - 1].next == null) &&
    (forall i :: 0 < i < |ns| ==> ns[i].previous == ns[i - 1]) &&
    (forall i :: 0 <= i < |ns| - 1 ==> ns[i].next == ns[i + 1])
  }

  /** In a well-formed list only the last node has no successor, and
      only the first has no predecessor. */
  lemma LinkedNext(head: BurstNode?, ns: seq<BurstNode>, k: nat)
    requires Linked(head, ns) && k < |ns|
    ensures ns[k].next == null <==> k == |ns| - 1
    ensures ns[k].previous == null <==> k == 0
  {
    if k < |ns| - 1 {
      assert ns[k].next == ns[k + 1];
    }
    if k > 0 {
      assert ns[k].previous == ns[k - 1];
    }
  }

  /** A well-formed list has no cycle: its nodes are distinct, as the
      successors of a repeated node would repeat up to the tail. */
  lemma {:induction false} LinkedDistinct(head: BurstNode?, ns: seq<BurstNode>, i: nat, j: nat)
    requires Linked(head, ns) && i < j < |ns|
    ensures ns[i] != ns[j]
    decreases |ns| - j
  {
    assert ns[i].next == ns[i + 1];
    if j < |ns| - 1 {
      LinkedDistinct(head, ns, i + 1, j + 1);
      assert ns[j].next == ns[j + 1];
    }
  }

  /** Distinct positions of a well-formed list hold distinct nodes. */
  lemma LinkedApart(head: BurstNode?, ns: seq<BurstNode>, i: nat, j: nat)
    requires Linked(head, ns) && i < |ns| && j < |ns| && i != j
    ensures ns[i] != ns[j]
  {
    if i < j {
      LinkedDistinct(head, ns, i, j);
    } else {
      LinkedDistinct(head, ns, j, i);
    }
  }

  /** Linking the neighbours of an inner node `ns[k]` to each other,
      with every other link as in a well-formed list, yields a
      well-formed list without that node. */
  lemma LinkedSplice(head: BurstNode?, ns: seq<BurstNode>, k: nat)
    requires 0 < k < |ns| - 1
    requires head == ns[0] && ns[0].previous == null && ns[|ns| - 1].next == null
    requires forall i :: 0 < i < |ns| && i != k && i != k + 1 ==> ns[i].previous == ns[i - 1]
    requires forall i :: 0 <= i < |ns| - 1 && i != k - 1 && i != k ==> ns[i].next == ns[i + 1]
    requires ns[k - 1].next == ns[k + 1] && ns[k + 1].previous == ns[k - 1]
    ensures Linked(head, ns[..k] + ns[k + 1..])
  {
    var r := ns[..k] + ns[k + 1..];
    assert forall i :: 0 <= i < |r| ==> r[i] == if i < k then ns[i] else ns[i + 1];
  }

  /** The link repair of an inner excision: the neighbours `prevBurst`
      and `nextBurst` of the `k`-th node of the list `ns` are linked to
      each other, which leaves the list without that node and every
      record where it was. */
  method Bypass(ghost head: BurstNode?, ghost ns: seq<BurstNode>, ghost k: nat, prevBurst: BurstNode, nextBurst: BurstNode)
    requires Linked(head, ns) && 0 < k < |ns| - 1
    requires prevBurst == ns[k - 1] && nextBurst == ns[k + 1]
    modifies prevBurst`next, nextBurst`previous
    ensures Linked(head, ns[..k] + ns[k + 1..])
    ensures Records(ns[..k] + ns[k + 1..]) == old(Records(ns[..k] + ns[k + 1..]))
  {
    forall i | 0 <= i < |ns| && i != k - 1
      ensures ns[i] != prevBurst
    {
      LinkedApart(head, ns, i, k - 1);
    }
    forall i | 0 <= i < |ns| && i != k + 1
      ensures ns[i] != nextBurst
    {
      LinkedApart(head, ns, i, k + 1);
    }
    prevBurst.next := nextBurst;
    nextBurst.previous := prevBurst;
    LinkedSplice(head, ns, k);
  }

  /** Linking a fresh node `n` after the tail `cur` of the list `ns` yields
      the list extended by it, with every record where it was. */
  method Attach(ghost head: BurstNode?, ghost ns: seq<BurstNode>, cur: BurstNode, n: BurstNode)
    requires Linked(head, ns) && ns != [] && cur == ns[|ns| - 1] && n !in ns
    requires n.previous == cur && n.next == null
    modifies cur`next
    ensures Linked(head, ns + [n])
    ensures Records(ns + [n]) == old(Records(ns + [n]))
  {
    forall i | 0 <= i < |ns| - 1
      ensures ns[i] != cur
    {
      LinkedApart(head, ns, i, |ns| - 1);
    }
    cur.next := n;
  }

  /** The records the nodes `ns` hold, in the same order. */
  ghost function Records(ns: seq<BurstNode>): (l: seq<Burst>)
    reads ns`sendTime, ns`sendBurstSize, ns`firstAckTime, ns`lastAckTime,
      ns`ackNum, ns`ackedBytes, ns`cumulativeAckRtt, ns`pilotRtt
    ensures |l| == |ns|
    ensures forall i :: 0 <= i < |ns| ==> l[i] == ns[i].Value()
  {
    if ns == [] then [] else Records(ns[..|ns| - 1]) + [ns[|ns| - 1].Value()]
  }

  /** Nodes that hold the records `l`, one by one, hold them as a
      sequence. */
  lemma RecordsOf(ns: seq<BurstNode>, l: seq<Burst>)
    requires |ns| == |l| && forall i :: 0 <= i < |ns| ==> ns[i].Value() == l[i]
    ensures Records(ns) == l
  {
  }

  /** The records of the nodes without the `k`-th one are the records
      without the `k`-th one. */
  lemma RecordsRemoveAt(ns: seq<BurstNode>, k: nat)
    requires k < |ns|
    ensures Records(ns[..k] + ns[k + 1..]) == RemoveAt(Records(ns), k)
  {
    var r := ns[..k] + ns[k + 1..];
    var a, l := Records(r), Records(ns);
    var b := RemoveAt(l, k);
    forall i | 0 <= i < |a|
      ensures a[i] == b[i]
    {
      if i < k {
        assert r[i] == ns[i];
      } else {
        assert r[i] == ns[i + 1];
      }
    }
  }

  /** `ngtcp2_cc_wave`: the controller's fields and the head of its burst
      list. The ghost sequence `nodes` lists the nodes from the head and
      `ledger` the records they hold. */
  class Wave {
    var defaultBurstSize: U64
    var txTime: U64
    var beta: U64
    var minRtt: U64
    var avgRtt: U64
    var alpha: U64
    var ackCount: U64
    var ackData: U64
    var bursts: BurstNode?
    ghost var nodes: seq<BurstNode>
    ghost var ledger: seq<Burst>

    /** The controller's list is well formed, `ledger` holds its records,
        and bursts have a non-zero size to divide by. */
    ghost predicate Valid()
      reads this, nodes
    {
      defaultBurstSize > 0 && Linked(bursts, nodes) && ledger == Records(nodes)
    }

    /** The controller's state as a value. */
    ghost function State(): WaveSpec.WaveState
      reads this
    {
      WaveSpec.WaveState(defaultBurstSize, txTime, beta, minRtt, avgRtt, alpha, ackCount, ackData, ledger)
    }

    /** `ngtcp2_cc_wave_init`: a zeroed controller, then `wave_reset`. */
    constructor (cstat: ConnStat)
      modifies cstat
      ensures Valid()
      ensures (State(), cstat.Snapshot()) == WaveSpec.Init(old(cstat.Snapshot()))
    {
      defaultBurstSize, txTime, beta, minRtt, avgRtt := 0, 0, 0, 0, 0;
      alpha, ackCount, ackData := 0, 0, 0;
      bursts := null;
      nodes, ledger := [], [];
      new;
      Reset(cstat);
    }

    /** `wave_reset`: defaults restored, the list dropped, the defaults
        published into the statistics. */
    method Reset(cstat: ConnStat)
      modifies this, cstat
      ensures Valid()
      ensures (State(), cstat.Snapshot()) == WaveSpec.Reset(old(cstat.Snapshot()))
    {
      defaultBurstSize, txTime, beta := WaveSpec.DEFAULT_BURST_SIZE, WaveSpec.DEFAULT_TX_TIME, WaveSpec.DEFAULT_BETA;
      minRtt, avgRtt, alpha, ackCount, ackData := UINT64_MAX, cstat.smoothedRtt, 0, 0, 0;
      bursts, nodes, ledger := null, [], [];
      PublishDefaults(cstat);
    }

    /** The statistics `wave_reset` publishes: the pacing interval of the
        current timer, one burst per send quantum, and no window limit. */
    method PublishDefaults(cstat: ConnStat)
      requires defaultBurstSize > 0
      modifies cstat`pacingIntervalM, cstat`sendQuantum, cstat`cwnd, cstat`ssthresh
      ensures cstat.Snapshot() == old(cstat.Snapshot()).(
        pacingIntervalM := WaveSpec.PacingInterval(txTime, defaultBurstSize),
        sendQuantum := defaultBurstSize, cwnd := UINT64_MAX, ssthresh := UINT64_MAX)
    {
      cstat.pacingIntervalM := Shl10(txTime / defaultBurstSize);
      cstat.sendQuantum := defaultBurstSize;
      cstat.cwnd := UINT64_MAX;
      cstat.ssthresh := UINT64_MAX;
    }

    /** `wave_cc_reset`: the outer stack's reset request; the timestamp
        is unused. */
    method CcReset(cstat: ConnStat, ts: U64)
      modifies this, cstat
      ensures Valid()
      ensures (State(), cstat.Snapshot()) == WaveSpec.Reset(old(cstat.Snapshot()))
    {
      Reset(cstat);
    }

    /** The walk from the head shared by both packet handlers: it stops at
        the first node whose send time is `sentTs`, or at the tail. */
    method Seek(sentTs: U64) returns (cur: BurstNode, ghost k: nat)
      requires Valid() && bursts != null
      ensures k < |nodes| && cur == nodes[k]
      ensures cur.sendTime == sentTs ==> FindIndex(ledger, sentTs) == Some(k)
      ensures cur.sendTime != sentTs ==> k == |nodes| - 1 && sentTs !in Keys(ledger)
    {
      cur, k := bursts, 0;
      LinkedNext(bursts, nodes, k);
      while cur.sendTime != sentTs && cur.next != null
        invariant k < |nodes| && cur == nodes[k]
        invariant cur.next == null <==> k == |nodes| - 1
        invariant forall j :: 0 <= j < k ==> ledger[j].sendTime != sentTs
        decreases |nodes| - k
      {
        cur, k := cur.next, k + 1;
        LinkedNext(bursts, nodes, k);
      }
      assert ledger[k].sendTime == cur.sendTime;
      if cur.sendTime != sentTs {
        assert forall j :: 0 <= j < |ledger| ==> Keys(ledger)[j] != sentTs;
      }
    }

    /** `wave_cc_on_pkt_sent`: open the list with the packet's burst, grow
        the burst with the packet's send time, or append a new burst at
        the tail. */
    method OnPktSent(pkt: Pkt)
      requires Valid()
      modifies this`bursts, this`nodes, this`ledger, nodes`sendBurstSize, nodes`next
      ensures Valid()
      ensures State() == WaveSpec.OnPktSent(old(State()), pkt)
      ensures forall n :: n in nodes ==> n in old(nodes) || fresh(n)
    {
      if bursts == null {
        var n := new BurstNode(pkt.sentTs, pkt.pktlen, null);
        bursts, nodes, ledger := n, [n], [n.Value()];
        return;
      }
      var cur, k := Seek(pkt.sentTs);
      if cur.sendTime == pkt.sentTs {
        Grow(cur, k, pkt.pktlen);
      } else {
        RecordSentFresh(ledger, pkt);
        Append(cur, pkt);
      }
    }

    /** A packet of the `k`-th burst adds its length to that burst. */
    method Grow(cur: BurstNode, ghost k: nat, pktlen: U64)
      requires Valid() && k < |nodes| && cur == nodes[k]
      modifies cur`sendBurstSize, this`ledger
      ensures Valid()
      ensures State() == old(State().(ledger := ledger[k := ledger[k].(sendBurstSize := Add(ledger[k].sendBurstSize, pktlen))]))
    {
      cur.AddBytes(pktlen);
      ledger := ledger[k := cur.Value()];
      forall j | 0 <= j < |nodes| && j != k
        ensures nodes[j].Value() == old(nodes[j].Value())
      {
        LinkedApart(bursts, nodes, j, k);
      }
    }

    /** A packet of a new burst: a fresh node linked after the tail `cur`. */
    method Append(cur: BurstNode, pkt: Pkt)
      requires Valid() && nodes != [] && cur == nodes[|nodes| - 1]
      modifies cur`next, this`bursts, this`nodes, this`ledger
      ensures Valid()
      ensures State() == old(State().(ledger := ledger + [NewBurst(pkt.sentTs, pkt.pktlen)]))
      ensures forall n :: n in nodes ==> n in old(nodes) || fresh(n)
    {
      var n := new BurstNode(pkt.sentTs, pkt.pktlen, cur);
      RecordsOf(nodes + [n], ledger + [n.Value()]);
      Attach(bursts, nodes, cur, n);
      Rebind(bursts, nodes + [n], ledger + [n.Value()], {n});
    }

    /** `wave_cc_on_pkt_acked`. */
    method OnPktAcked(cstat: ConnStat, pkt: Pkt, ts: U64, f: WaveSpec.Filter)
      requires Valid()
      modifies this, nodes, cstat`pacingIntervalM
      ensures Valid()
      ensures (State(), cstat.Snapshot()) ==
        WaveSpec.OnPktAcked(old(State()), old(cstat.Snapshot()), pkt, ts, f)
      ensures forall n :: n in nodes ==> n in old(nodes) || fresh(n)
    {
      if bursts != null {
        var cur, k := Seek(pkt.sentTs);
        if cur.sendTime == pkt.sentTs {
          Acked(cstat, cur, k, pkt, ts, f);
        }
      }
    }

    /** `wave_cc_on_pkt_acked` once the walk found the packet's burst at
        the `k`-th node: record the acknowledgment, then settle the burst. */
    method Acked(cstat: ConnStat, cur: BurstNode, ghost k: nat, pkt: Pkt, ts: U64, f: WaveSpec.Filter)
      requires Valid() && k < |nodes| && nodes[k] == cur && cur.sendTime == pkt.sentTs
      modifies this, nodes, cstat`pacingIntervalM
      ensures Valid()
      ensures (State(), cstat.Snapshot()) ==
        WaveSpec.Settle(old(State().(ledger := ledger[k := AckUpdate(ledger[k], ts, pkt.pktlen)])), old(cstat.Snapshot()), k, f)
      ensures forall n :: n in nodes ==> n in old(nodes) || fresh(n)
    {
      RecordAck(cur, k, pkt, ts);
      Settle(cstat, cur, k, f);
    }

    /** The per-ack bookkeeping of `wave_cc_on_pkt_acked` on the node
        found for the packet. */
    method RecordAck(cur: BurstNode, ghost k: nat, pkt: Pkt, ts: U64)
      requires Valid() && k < |nodes| && nodes[k] == cur && cur.sendTime == pkt.sentTs
      modifies cur`firstAckTime, cur`pilotRtt, cur`lastAckTime, cur`ackNum,
        cur`cumulativeAckRtt, cur`ackedBytes, this`ledger
      ensures Valid()
      ensures State() == old(State().(ledger := ledger[k := AckUpdate(ledger[k], ts, pkt.pktlen)]))
    {
      cur.RecordAck(pkt.sentTs, pkt.pktlen, ts);
      ledger := ledger[k := cur.Value()];
      forall j | 0 <= j < |nodes| && j != k
        ensures nodes[j].Value() == old(nodes[j].Value())
      {
        LinkedApart(bursts, nodes, j, k);
      }
    }

    /** The rest of `wave_cc_on_pkt_acked` once the `k`-th node holds the
        acknowledgment: a burst with bytes still unacknowledged stays; a
        complete one runs the filter when it saw at least three ack times
        and is then unlinked, unless the filter asks for adjustment, which
        drops the whole list. */
    method Settle(cstat: ConnStat, cur: BurstNode, ghost k: nat, f: WaveSpec.Filter)
      requires Valid() && k < |nodes| && nodes[k] == cur
      modifies this, nodes`previous, nodes`next, cstat`pacingIntervalM
      ensures Valid()
      ensures (State(), cstat.Snapshot()) == WaveSpec.Settle(old(State()), old(cstat.Snapshot()), k, f)
      ensures forall n :: n in nodes ==> n in old(nodes) || fresh(n)
    {
      if cur.ackedBytes == cur.sendBurstSize {
        if cur.ackNum < 3 {
          Excise(cur, k);
        } else {
          RunFilter(cstat, cur, k, f);
        }
      }
    }

    /** The filter of `wave_cc_on_pkt_acked` on a complete burst with at
        least three ack times: a new EWMA average, then either adjustment,
        which drops the whole list, or a new timer from the burst's ack
        train and the burst unlinked. */
    method RunFilter(cstat: ConnStat, cur: BurstNode, ghost k: nat, f: WaveSpec.Filter)
      requires Valid() && k < |nodes| && nodes[k] == cur
      modifies this, nodes`previous, nodes`next, cstat`pacingIntervalM
      ensures Valid()
      ensures (State(), cstat.Snapshot()) == WaveSpec.Filtered(old(State()), old(cstat.Snapshot()), k, f)
      ensures forall n :: n in nodes ==> n in old(nodes) || fresh(n)
    {
      var e := f.ewma(cur.pilotRtt, minRtt, avgRtt);
      if e.avgRtt - minRtt > beta {
        Restart(cstat, e);
      } else {
        Advance(cstat, cur, k, e, f.burstTimer(cur.Value(), e.avgRtt, minRtt));
      }
    }

    /** The adjustment branch of the filter: the new average is stored,
        the filter restarts and the whole list is dropped. */
    method Restart(cstat: ConnStat, e: WaveSpec.Ewma)
      requires Valid()
      modifies this, cstat`pacingIntervalM
      ensures Valid()
      ensures (State(), cstat.Snapshot()) ==
        (var (w, cs) := WaveSpec.Adjust(old(State()).(alpha := e.alpha, avgRtt := e.avgRtt), old(cstat.Snapshot()));
         (w.(ledger := []), cs))
      ensures forall n :: n in nodes ==> n in old(nodes) || fresh(n)
    {
      alpha, avgRtt := e.alpha, e.avgRtt;
      Readjust(cstat);
      bursts, nodes, ledger := null, [], [];
    }

    /** The steady branch of the filter: the new average is stored, the
        timer follows the candidate and the `k`-th node is unlinked. */
    method Advance(cstat: ConnStat, cur: BurstNode, ghost k: nat, e: WaveSpec.Ewma, txTimerCalc: U64)
      requires Valid() && k < |nodes| && nodes[k] == cur
      modifies this, nodes`previous, nodes`next, cstat`pacingIntervalM
      ensures Valid()
      ensures (State(), cstat.Snapshot()) ==
        (var (w, cs) := WaveSpec.Retime(old(State()).(alpha := e.alpha, avgRtt := e.avgRtt), old(cstat.Snapshot()), txTimerCalc);
         (w.(ledger := RemoveAt(old(ledger), k)), cs))
      ensures forall n :: n in nodes ==> n in old(nodes) || fresh(n)
    {
      alpha, avgRtt := e.alpha, e.avgRtt;
      SetTimer(cstat, txTimerCalc);
      KeepsList(this);
      Excise(cur, k);
    }

    /** The excision at the end of `wave_cc_on_pkt_acked`: unlink the
        `k`-th node, whether it is the only node, the head, in the middle
        or the tail, and repair its neighbours' links. */
    method Excise(cur: BurstNode, ghost k: nat)
      requires Valid() && k < |nodes| && nodes[k] == cur
      modifies this`bursts, this`nodes, this`ledger, nodes`previous, nodes`next
      ensures Valid()
      ensures State() == old(State().(ledger := RemoveAt(ledger, k)))
      ensures forall n :: n in nodes ==> n in old(nodes) || fresh(n)
    {
      var nextBurst := cur.next;
      var prevBurst := cur.previous;
      LinkedNext(bursts, nodes, k);
      if prevBurst == null && nextBurst == null {
        UnlinkOnly(cur);
      } else if prevBurst == null && nextBurst != null {
        UnlinkHead(cur);
      } else if prevBurst != null && nextBurst != null {
        UnlinkMiddle(cur, k);
      } else if prevBurst != null && nextBurst == null {
        UnlinkTail(cur, k);
      }
    }

    /** Excision of the only node: the list becomes empty. */
    method UnlinkOnly(cur: BurstNode)
      requires Valid() && nodes == [cur]
      modifies this`bursts, this`nodes, this`ledger
      ensures Valid()
      ensures State() == old(State().(ledger := RemoveAt(ledger, 0)))
      ensures forall n :: n in nodes ==> n in old(nodes) || fresh(n)
    {
      bursts := null;
      nodes, ledger := [], [];
    }

    /** Excision of the head of a longer list: its successor becomes the
        head. */
    method UnlinkHead(cur: BurstNode)
      requires Valid() && |nodes| > 1 && nodes[0] == cur
      modifies this`bursts, this`nodes, this`ledger, nodes`previous
      ensures Valid()
      ensures State() == old(State().(ledger := RemoveAt(ledger, 0)))
      ensures forall n :: n in nodes ==> n in old(nodes) || fresh(n)
    {
      var nextBurst := cur.next;
      assert nextBurst == nodes[1];
      forall i | 1 < i < |nodes|
        ensures nodes[i] != nextBurst
      {
        LinkedApart(bursts, nodes, i, 1);
      }
      bursts, nodes, ledger := nextBurst, nodes[1..], RemoveAt(ledger, 0);
      nextBurst.previous := null;
    }

    /** Excision of an inner node: its neighbours are linked to each
        other. */
    method UnlinkMiddle(cur: BurstNode, ghost k: nat)
      requires Valid() && 0 < k < |nodes| - 1 && nodes[k] == cur
      modifies this`bursts, this`nodes, this`ledger, nodes`next, nodes`previous
      ensures Valid()
      ensures State() == old(State().(ledger := RemoveAt(ledger, k)))
      ensures forall n :: n in nodes ==> n in old(nodes) || fresh(n)
    {
      var nextBurst := cur.next;
      var prevBurst := cur.previous;
      assert nextBurst == nodes[k + 1] && prevBurst == nodes[k - 1];
      RecordsRemoveAt(nodes, k);
      Bypass(bursts, nodes, k, prevBurst, nextBurst);
      Rebind(bursts, nodes[..k] + nodes[k + 1..], RemoveAt(ledger, k), {});
    }

    /** Makes `head` the head of the list and points the ghost view at
        the nodes `ns` the links now form from it and at the records `l`
        they hold; `ns` holds no node but the old ones and `added`. */
    method Rebind(head: BurstNode?, ghost ns: seq<BurstNode>, ghost l: seq<Burst>, ghost added: set<BurstNode>)
      requires defaultBurstSize > 0 && Linked(head, ns) && l == Records(ns)
      requires forall n :: n in ns ==> n in nodes || n in added
      modifies this`bursts, this`nodes, this`ledger
      ensures Valid() && bursts == head && nodes == ns && ledger == l
      ensures State() == old(State()).(ledger := l)
      ensures forall n :: n in nodes ==> n in old(nodes) || n in added
    {
      bursts, nodes, ledger := head, ns, l;
    }

    /** Excision of the tail of a longer list: its predecessor ends the
        list. */
    method UnlinkTail(cur: BurstNode, ghost k: nat)
      requires Valid() && 0 < k == |nodes| - 1 && nodes[k] == cur
      modifies this`nodes, this`ledger, nodes`next
      ensures Valid()
      ensures State() == old(State().(ledger := RemoveAt(ledger, k)))
      ensures forall n :: n in nodes ==> n in old(nodes) || fresh(n)
    {
      var prevBurst := cur.previous;
      assert prevBurst == nodes[k - 1];
      forall i | 0 <= i < k - 1
        ensures nodes[i] != prevBurst
      {
        LinkedApart(bursts, nodes, i, k - 1);
      }
      nodes, ledger := nodes[..k], RemoveAt(ledger, k);
      prevBurst.next := null;
    }

    /** The adjustment branch shared by both ack handlers, without its
        effect on the list: the filter restarts from its defaults and the
        default timer's pacing interval is published. */
    method Readjust(cstat: ConnStat)
      requires defaultBurstSize > 0
      modifies this`txTime, this`minRtt, this`avgRtt, this`alpha, this`ackCount, this`ackData,
        cstat`pacingIntervalM
      ensures (State(), cstat.Snapshot()) == WaveSpec.Adjust(old(State()), old(cstat.Snapshot()))
    {
      txTime, minRtt, avgRtt := WaveSpec.DEFAULT_TX_TIME, UINT64_MAX, cstat.smoothedRtt;
      alpha, ackCount, ackData := 0, 0, 0;
      cstat.pacingIntervalM := Shl10(txTime / defaultBurstSize);
    }

    /** The timer update shared by both ack handlers: the candidate is
        clamped to at least one millisecond and rounded down to whole
        milliseconds, and its pacing interval is published. */
    method SetTimer(cstat: ConnStat, txTimerCalc: U64)
      requires defaultBurstSize > 0
      modifies this`txTime, cstat`pacingIntervalM
      ensures (State(), cstat.Snapshot()) == WaveSpec.Retime(old(State()), old(cstat.Snapshot()), txTimerCalc)
    {
      if txTimerCalc < WaveSpec.MILLISECONDS {
        txTime := WaveSpec.MILLISECONDS;
      } else {
        txTime := (txTimerCalc / 1000000) * 1000000;
      }
      cstat.pacingIntervalM := Shl10(txTime / defaultBurstSize);
    }

    /** `wave_cc_on_ack_recv`; the timestamp is unused. */
    method OnAckRecv(cstat: ConnStat, ack: WaveSpec.Ack, f: WaveSpec.Filter)
      requires Valid()
      modifies this`minRtt, this`avgRtt, this`alpha, this`txTime, this`ackCount, this`ackData,
        cstat`pacingIntervalM
      ensures Valid()
      ensures (State(), cstat.Snapshot()) ==
        WaveSpec.OnAckRecv(old(State()), old(cstat.Snapshot()), ack, f)
    {
      if ack.bytesDelivered != 0 && ack.rtt <= Mul(10, minRtt) {
        if ack.rtt < minRtt {
          minRtt := ack.rtt;
        }
        if ack.bytesDelivered >= defaultBurstSize {
          var e := f.ewma(ack.rtt, minRtt, avgRtt);
          alpha, avgRtt := e.alpha, e.avgRtt;
          var dRtt := Sub(ack.rtt, minRtt);
          var deltaRtt := Sub(avgRtt, minRtt);
          if deltaRtt > beta {
            Readjust(cstat);
          } else {
            SetTimer(cstat, f.recvTimer(txTime, dRtt));
          }
        }
      }
      KeepsList(this);
    }
  }

  /** A handler that leaves the list, its records and the burst size
      alone keeps the controller valid. */
  twostate lemma KeepsList(w: Wave)
    requires old(w.Valid())
    requires unchanged(w`bursts, w`nodes, w`ledger, w`defaultBurstSize)
    requires unchanged(old(w.nodes))
    ensures w.Valid()
  {
  }
}
