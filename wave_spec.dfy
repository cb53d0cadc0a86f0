/** The Wave congestion controller as a state machine over values: one
    function per event handler of lib/ngtcp2_wave.c, each mapping the
    controller state and the connection statistics before the event to
    those after it. The floating-point parts of the filter are given as
    a `Filter` of total functions, so every property below holds
    whatever they compute. */
module WaveSpec {
  import opened Arith64
  import opened Ledger

  const MILLISECONDS: int := 1_000_000
  const MAX_QUIC_PACKET_SIZE: int := 1444
  const DEFAULT_BURST_SIZE: int := 10 * MAX_QUIC_PACKET_SIZE
  const DEFAULT_TX_TIME: int := 200 * MILLISECONDS
  const DEFAULT_BETA: int := 150 * MILLISECONDS

  /** The scalar fields of `ngtcp2_cc_wave` and its burst ledger. */
  datatype WaveState = WaveState(
    defaultBurstSize: U64,
    txTime: U64,
    beta: U64,
    minRtt: U64,
    avgRtt: U64,
    alpha: U64,
    ackCount: U64,
    ackData: U64,
    ledger: seq<Burst>)

  /** The fields of `ngtcp2_conn_stat` this controller reads or writes. */
  datatype Stat = Stat(
    smoothedRtt: U64,
    pacingIntervalM: U64,
    sendQuantum: U64,
    cwnd: U64,
    ssthresh: U64)

  /** An aggregated acknowledgment (`ngtcp2_cc_ack`). */
  datatype Ack = Ack(bytesDelivered: U64, rtt: U64)

  /** The EWMA weight as stored in `wave->alpha` and the new `avg_rtt`,
      both after their conversion to uint64. */
  datatype Ewma = Ewma(alpha: U64, avgRtt: U64)

  /** The double-precision parts of the filter, with their results
      already converted to uint64:
      - `ewma(sample, minRtt, avgRtt)`: the EWMA weight and average;
      - `burstTimer(burst, avgRtt, minRtt)`: ack-train dispersion of the
        completed burst plus half the RTT inflation;
      - `recvTimer(txTime, dRtt)`: 0.4 of the current timer plus 0.2 of
        the RTT sample's excess over the minimum. */
  datatype Filter = Filter(
    ewma: (U64, U64, U64) -> Ewma,
    burstTimer: (Burst, U64, U64) -> U64,
    recvTimer: (U64, U64) -> U64)

  /** `(tx_time / default_burst_size) << 10`: the pacing interval per
      byte, in fixed point with 10 fractional bits. */
  function PacingInterval(txTime: U64, burstSize: U64): U64
    requires burstSize > 0
  {
    Shl10(txTime / burstSize)
  }

  /** The transmission timer derived from a candidate: never below one
      millisecond, otherwise the candidate rounded down to whole
      milliseconds. */
  function TxTimeFromCandidate(c: U64): (t: U64)
    ensures t >= MILLISECONDS && t % MILLISECONDS == 0
    ensures c < MILLISECONDS ==> t == MILLISECONDS
    ensures c >= MILLISECONDS ==> t <= c < t + MILLISECONDS
  {
    if c < MILLISECONDS then MILLISECONDS else (c / 1000000) * 1000000
  }

  /** `wave_reset`: every controller field back to its default, the
      ledger emptied, and the defaults published into the statistics. */
  function Reset(cs: Stat): (WaveState, Stat)
  {
    (WaveState(DEFAULT_BURST_SIZE, DEFAULT_TX_TIME, DEFAULT_BETA, UINT64_MAX, cs.smoothedRtt, 0, 0, 0, []),
     cs.(pacingIntervalM := PacingInterval(DEFAULT_TX_TIME, DEFAULT_BURST_SIZE),
         sendQuantum := DEFAULT_BURST_SIZE,
         cwnd := UINT64_MAX,
         ssthresh := UINT64_MAX))
  }

  /** `ngtcp2_cc_wave_init`: `wave_reset` applied to a zeroed state. */
  function Init(cs: Stat): (WaveState, Stat)
  {
    Reset(cs)
  }

  /** The adjustment ("reset Wave state") branch shared by both ack
      handlers, without its effect on the ledger, which differs. */
  function Adjust(w: WaveState, cs: Stat): (WaveState, Stat)
    requires w.defaultBurstSize > 0
  {
    (w.(txTime := DEFAULT_TX_TIME, minRtt := UINT64_MAX, avgRtt := cs.smoothedRtt,
        alpha := 0, ackCount := 0, ackData := 0),
     cs.(pacingIntervalM := PacingInterval(DEFAULT_TX_TIME, w.defaultBurstSize)))
  }

  /** The steady branch shared by both ack handlers: a new timer from the
      candidate, and its pacing interval published. */
  function Retime(w: WaveState, cs: Stat, candidate: U64): (WaveState, Stat)
    requires w.defaultBurstSize > 0
  {
    var tx := TxTimeFromCandidate(candidate);
    (w.(txTime := tx), cs.(pacingIntervalM := PacingInterval(tx, w.defaultBurstSize)))
  }

  /** `wave_cc_on_pkt_sent`. */
  function OnPktSent(w: WaveState, pkt: Pkt): WaveState
  {
    w.(ledger := RecordSent(w.ledger, pkt))
  }

  /** `wave_cc_on_pkt_acked`: look the packet's burst up and, when it is
      found, record the acknowledgment in it and settle it. */
  function OnPktAcked(w: WaveState, cs: Stat, pkt: Pkt, ts: U64, f: Filter): (WaveState, Stat)
    requires w.defaultBurstSize > 0
  {
    match FindIndex(w.ledger, pkt.sentTs)
    case None => (w, cs)
    case Some(i) =>
      Settle(w.(ledger := w.ledger[i := AckUpdate(w.ledger[i], ts, pkt.pktlen)]), cs, i, f)
  }

  /** The rest of `wave_cc_on_pkt_acked` once the `i`-th record holds the
      acknowledgment: nothing more while bytes of the burst are still
      unacknowledged; otherwise run the filter (with at least three
      distinct ack times) and drop the record, or drop the whole ledger
      when the filter asks for adjustment. */
  function Settle(w: WaveState, cs: Stat, i: nat, f: Filter): (WaveState, Stat)
    requires w.defaultBurstSize > 0 && i < |w.ledger|
  {
    var b := w.ledger[i];
    if b.ackedBytes != b.sendBurstSize then (w, cs)
    else if b.ackNum < 3 then (w.(ledger := RemoveAt(w.ledger, i)), cs)
    else Filtered(w, cs, i, f)
  }

  /** The filter step on the complete `i`-th burst: a new EWMA average
      from its pilot RTT, then either adjustment, which drops the whole
      ledger, or a new timer from the burst's ack train, which drops the
      record. */
  function Filtered(w: WaveState, cs: Stat, i: nat, f: Filter): (WaveState, Stat)
    requires w.defaultBurstSize > 0 && i < |w.ledger|
  {
    var b := w.ledger[i];
    var e := f.ewma(b.pilotRtt, w.minRtt, w.avgRtt);
    var w1 := w.(alpha := e.alpha, avgRtt := e.avgRtt);
    if e.avgRtt - w.minRtt > w.beta then
      var (w2, cs2) := Adjust(w1, cs);
      (w2.(ledger := []), cs2)
    else
      var (w2, cs2) := Retime(w1, cs, f.burstTimer(b, e.avgRtt, w.minRtt));
      (w2.(ledger := RemoveAt(w.ledger, i)), cs2)
  }

  /** The sample filter's acceptance test in `wave_cc_on_ack_recv`; the
      product `10 * min_rtt` is the uint64 one. */
  predicate AcceptsSample(w: WaveState, ack: Ack)
  {
    ack.bytesDelivered != 0 && ack.rtt <= Mul(10, w.minRtt)
  }

  /** `wave_cc_on_ack_recv`. */
  function OnAckRecv(w: WaveState, cs: Stat, ack: Ack, f: Filter): (WaveState, Stat)
    requires w.defaultBurstSize > 0
  {
    if !AcceptsSample(w, ack) then (w, cs)
    else
      var w1 := w.(minRtt := if ack.rtt < w.minRtt then ack.rtt else w.minRtt);
      if ack.bytesDelivered < w.defaultBurstSize then (w1, cs)
      else
        var e := f.ewma(ack.rtt, w1.minRtt, w1.avgRtt);
        var w2 := w1.(alpha := e.alpha, avgRtt := e.avgRtt);
        var dRtt := Sub(ack.rtt, w1.minRtt);
        if Sub(e.avgRtt, w1.minRtt) > w.beta then Adjust(w2, cs)
        else Retime(w2, cs, f.recvTimer(w2.txTime, dRtt))
  }

  /** What every handler keeps true once the controller is initialised:
      fixed burst size and threshold, a timer of whole milliseconds no
      shorter than one, its pacing interval published, the unbounded
      window fields, and one ledger record per send time. */
  predicate Inv(w: WaveState, cs: Stat)
  {
    w.defaultBurstSize == DEFAULT_BURST_SIZE && w.beta == DEFAULT_BETA &&
    w.txTime >= MILLISECONDS && w.txTime % MILLISECONDS == 0 &&
    cs.pacingIntervalM == PacingInterval(w.txTime, w.defaultBurstSize) &&
    cs.sendQuantum == DEFAULT_BURST_SIZE && cs.cwnd == UINT64_MAX && cs.ssthresh == UINT64_MAX &&
    DistinctKeys(w.ledger)
  }
}
