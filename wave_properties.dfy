/** What the Wave state machine promises, stated over the functions of
    module WaveSpec. */
module WaveProperties {
  import opened Arith64
  import opened Ledger
  import opened WaveSpec

  /** The pacing interval published on reset: 200 ms over 14440-byte
      bursts, 13850 ns per byte, shifted into fixed point. */
  lemma DefaultPacingInterval()
    ensures PacingInterval(DEFAULT_TX_TIME, DEFAULT_BURST_SIZE) == 13850 * 1024
  {
    assert DEFAULT_TX_TIME / DEFAULT_BURST_SIZE == 13850;
  }

  /** The shift in `(tx_time / default_burst_size) << 10` never loses
      bits once a burst is at least 1024 bytes, as the default one is. */
  lemma PacingIntervalExact(txTime: U64, burstSize: U64)
    requires burstSize >= 1024
    ensures PacingInterval(txTime, burstSize) == (txTime / burstSize) * 1024
  {
    DivBound(txTime, burstSize);
  }

  lemma DivBound(a: U64, d: int)
    requires d >= 1024
    ensures a / d < TWO_TO_THE_64 / 1024
  {
    var q := a / d;
    assert q * d <= a;
    assert q * 1024 <= q * d;
  }

  /** `wave_reset` establishes the fixed defaults, the invariant, and a
      state that depends on nothing but the smoothed RTT. */
  lemma ResetDefaults(cs: Stat)
    ensures var (w, c) := Reset(cs);
      w.defaultBurstSize == 14440 && w.txTime == 200_000_000 && w.beta == 150_000_000 &&
      w.minRtt == UINT64_MAX && w.avgRtt == cs.smoothedRtt && w.ledger == [] &&
      w.alpha == 0 && w.ackCount == 0 && w.ackData == 0 &&
      c.pacingIntervalM == (200_000_000 / 14440) * 1024 && c.sendQuantum == 14440 &&
      c.cwnd == UINT64_MAX && c.ssthresh == UINT64_MAX && c.smoothedRtt == cs.smoothedRtt &&
      Inv(w, c)
  {
    DefaultPacingInterval();
  }

  /** Resetting a freshly reset controller changes nothing: reset is
      idempotent. */
  lemma ResetIdempotent(cs: Stat)
    ensures Reset(Reset(cs).1) == Reset(cs)
  {
  }

  /** `wave_cc_on_pkt_sent` touches only the ledger and keeps the
      invariant. */
  lemma OnPktSentKeepsInv(w: WaveState, cs: Stat, pkt: Pkt)
    requires Inv(w, cs)
    ensures Inv(OnPktSent(w, pkt), cs)
    ensures OnPktSent(w, pkt).(ledger := w.ledger) == w
    ensures pkt.sentTs in Keys(OnPktSent(w, pkt).ledger)
  {
    RecordSentKeepsKeysDistinct(w.ledger, pkt);
  }

  /** An acknowledgment for a send time the ledger does not hold is a
      complete no-op: controller, ledger and statistics unchanged. */
  lemma OnPktAckedUnmatched(w: WaveState, cs: Stat, pkt: Pkt, ts: U64, f: Filter)
    requires w.defaultBurstSize > 0
    requires pkt.sentTs !in Keys(w.ledger)
    ensures OnPktAcked(w, cs, pkt, ts, f) == (w, cs)
  {
  }

  /** While a burst still has unacknowledged bytes, an acknowledgment
      updates only that burst's record: no filter runs, and neither the
      other records, the controller nor the statistics change. */
  lemma OnPktAckedPartial(w: WaveState, cs: Stat, pkt: Pkt, ts: U64, f: Filter, i: nat)
    requires w.defaultBurstSize > 0 && DistinctKeys(w.ledger)
    requires i < |w.ledger| && w.ledger[i].sendTime == pkt.sentTs
    requires AckUpdate(w.ledger[i], ts, pkt.pktlen).ackedBytes != w.ledger[i].sendBurstSize
    ensures OnPktAcked(w, cs, pkt, ts, f) ==
      (w.(ledger := w.ledger[i := AckUpdate(w.ledger[i], ts, pkt.pktlen)]), cs)
  {
    assert pkt.sentTs in Keys(w.ledger);
    assert FindIndex(w.ledger, pkt.sentTs) == Some(i);
  }

  /** A burst completed with fewer than three distinct ack times is
      dropped from the ledger, the others keep their order, and nothing
      else changes. */
  lemma OnPktAckedFewAcks(w: WaveState, cs: Stat, pkt: Pkt, ts: U64, f: Filter, i: nat)
    requires w.defaultBurstSize > 0 && DistinctKeys(w.ledger)
    requires i < |w.ledger| && w.ledger[i].sendTime == pkt.sentTs
    requires var b := AckUpdate(w.ledger[i], ts, pkt.pktlen);
      b.ackedBytes == b.sendBurstSize && b.ackNum < 3
    ensures OnPktAcked(w, cs, pkt, ts, f) == (w.(ledger := w.ledger[..i] + w.ledger[i + 1..]), cs)
    ensures pkt.sentTs !in Keys(OnPktAcked(w, cs, pkt, ts, f).0.ledger)
  {
    assert pkt.sentTs in Keys(w.ledger);
    assert FindIndex(w.ledger, pkt.sentTs) == Some(i);
    RemoveAtKeys(w.ledger, i);
  }

  /** The adjustment branch of `wave_cc_on_pkt_acked`: the timer, minimum
      RTT, average RTT and counters go back to their defaults, the whole
      ledger is dropped, and of the statistics only the pacing interval
      changes. */
  lemma OnPktAckedAdjust(w: WaveState, cs: Stat, pkt: Pkt, ts: U64, f: Filter, i: nat)
    requires w.defaultBurstSize > 0 && DistinctKeys(w.ledger)
    requires i < |w.ledger| && w.ledger[i].sendTime == pkt.sentTs
    requires var b := AckUpdate(w.ledger[i], ts, pkt.pktlen);
      b.ackedBytes == b.sendBurstSize && b.ackNum >= 3 &&
      f.ewma(b.pilotRtt, w.minRtt, w.avgRtt).avgRtt - w.minRtt > w.beta
    ensures var (w', cs') := OnPktAcked(w, cs, pkt, ts, f);
      w' == w.(txTime := DEFAULT_TX_TIME, minRtt := UINT64_MAX, avgRtt := cs.smoothedRtt,
               alpha := 0, ackCount := 0, ackData := 0, ledger := []) &&
      cs' == cs.(pacingIntervalM := PacingInterval(DEFAULT_TX_TIME, w.defaultBurstSize))
  {
    assert pkt.sentTs in Keys(w.ledger);
    assert FindIndex(w.ledger, pkt.sentTs) == Some(i);
  }

  /** The steady branch of `wave_cc_on_pkt_acked`: the new average RTT is
      kept, the timer becomes the clamped candidate, its pacing interval
      is published, and the completed burst leaves the ledger. */
  lemma OnPktAckedSteady(w: WaveState, cs: Stat, pkt: Pkt, ts: U64, f: Filter, i: nat)
    requires w.defaultBurstSize > 0 && DistinctKeys(w.ledger)
    requires i < |w.ledger| && w.ledger[i].sendTime == pkt.sentTs
    requires var b := AckUpdate(w.ledger[i], ts, pkt.pktlen);
      b.ackedBytes == b.sendBurstSize && b.ackNum >= 3 &&
      f.ewma(b.pilotRtt, w.minRtt, w.avgRtt).avgRtt - w.minRtt <= w.beta
    ensures var b := AckUpdate(w.ledger[i], ts, pkt.pktlen);
      var e := f.ewma(b.pilotRtt, w.minRtt, w.avgRtt);
      var (w', cs') := OnPktAcked(w, cs, pkt, ts, f);
      w'.txTime == TxTimeFromCandidate(f.burstTimer(b, e.avgRtt, w.minRtt)) &&
      w'.txTime >= MILLISECONDS && w'.txTime % MILLISECONDS == 0 &&
      w' == w.(txTime := w'.txTime, avgRtt := e.avgRtt, alpha := e.alpha,
               ledger := w.ledger[..i] + w.ledger[i + 1..]) &&
      cs' == cs.(pacingIntervalM := PacingInterval(w'.txTime, w.defaultBurstSize)) &&
      pkt.sentTs !in Keys(w'.ledger)
  {
    assert pkt.sentTs in Keys(w.ledger);
    assert FindIndex(w.ledger, pkt.sentTs) == Some(i);
    RemoveAtKeys(w.ledger, i);
  }

  /** The acknowledged burst's record stays in the ledger exactly when
      its acknowledged bytes differ from its size, and then every send
      time stays; a complete burst leaves, whichever branch it takes. */
  lemma OnPktAckedRetains(w: WaveState, cs: Stat, pkt: Pkt, ts: U64, f: Filter)
    requires w.defaultBurstSize > 0 && DistinctKeys(w.ledger)
    requires pkt.sentTs in Keys(w.ledger)
    ensures var b := AckUpdate(w.ledger[FindIndex(w.ledger, pkt.sentTs).value], ts, pkt.pktlen);
      var l := OnPktAcked(w, cs, pkt, ts, f).0.ledger;
      (pkt.sentTs in Keys(l) <==> b.ackedBytes != b.sendBurstSize) &&
      (b.ackedBytes != b.sendBurstSize ==> Keys(l) == Keys(w.ledger))
  {
    var i := FindIndex(w.ledger, pkt.sentTs).value;
    var b := AckUpdate(w.ledger[i], ts, pkt.pktlen);
    var u := w.ledger[i := b];
    assert Keys(u) == Keys(w.ledger);
    if b.ackedBytes == b.sendBurstSize {
      RemoveAtKeys(u, i);
      var l := OnPktAcked(w, cs, pkt, ts, f).0.ledger;
      assert l == [] || l == RemoveAt(u, i);
    }
  }

  /** `wave_cc_on_pkt_acked` keeps the invariant, whatever the filter
      computes. */
  lemma OnPktAckedKeepsInv(w: WaveState, cs: Stat, pkt: Pkt, ts: U64, f: Filter)
    requires Inv(w, cs)
    ensures Inv(OnPktAcked(w, cs, pkt, ts, f).0, OnPktAcked(w, cs, pkt, ts, f).1)
  {
    match FindIndex(w.ledger, pkt.sentTs)
    case None =>
    case Some(i) =>
      var b := AckUpdate(w.ledger[i], ts, pkt.pktlen);
      if b.ackedBytes != b.sendBurstSize {
        assert Keys(w.ledger[i := b]) == Keys(w.ledger);
      } else {
        RemoveAtKeys(w.ledger, i);
      }
  }

  /** With the minimum RTT still unset, the wrapped product `10 * min_rtt`
      is 2^64 - 10, so only the nine largest RTT values are rejected. */
  lemma UnsetMinRttBound(w: WaveState, ack: Ack)
    requires w.minRtt == UINT64_MAX
    ensures AcceptsSample(w, ack) <==> ack.bytesDelivered != 0 && ack.rtt <= TWO_TO_THE_64 - 10
  {
    assert Mul(10, UINT64_MAX) == TWO_TO_THE_64 - 10;
  }

  /** A sample that delivers no bytes or whose RTT exceeds the wrapped
      bound `10 * min_rtt` changes nothing. */
  lemma OnAckRecvRejects(w: WaveState, cs: Stat, ack: Ack, f: Filter)
    requires w.defaultBurstSize > 0
    requires ack.bytesDelivered == 0 || ack.rtt > Mul(10, w.minRtt)
    ensures OnAckRecv(w, cs, ack, f) == (w, cs)
  {
  }

  /** An accepted sample smaller than a burst only lowers the minimum RTT
      to the sample when the sample is smaller. */
  lemma OnAckRecvSmallSample(w: WaveState, cs: Stat, ack: Ack, f: Filter)
    requires w.defaultBurstSize > 0
    requires AcceptsSample(w, ack) && ack.bytesDelivered < w.defaultBurstSize
    ensures var (w', cs') := OnAckRecv(w, cs, ack, f);
      w' == w.(minRtt := w'.minRtt) && cs' == cs &&
      w'.minRtt <= w.minRtt && w'.minRtt <= ack.rtt &&
      (w'.minRtt == w.minRtt || w'.minRtt == ack.rtt)
  {
  }

  /** The adjustment branch of `wave_cc_on_ack_recv` resets the same
      fields as that of `wave_cc_on_pkt_acked` but leaves the ledger as
      it was. */
  lemma OnAckRecvAdjust(w: WaveState, cs: Stat, ack: Ack, f: Filter)
    requires w.defaultBurstSize > 0
    requires AcceptsSample(w, ack) && ack.bytesDelivered >= w.defaultBurstSize
    requires var m := Min(w.minRtt, ack.rtt);
      Sub(f.ewma(ack.rtt, m, w.avgRtt).avgRtt, m) > w.beta
    ensures var (w', cs') := OnAckRecv(w, cs, ack, f);
      w' == w.(txTime := DEFAULT_TX_TIME, minRtt := UINT64_MAX, avgRtt := cs.smoothedRtt,
               alpha := 0, ackCount := 0, ackData := 0) &&
      cs' == cs.(pacingIntervalM := PacingInterval(DEFAULT_TX_TIME, w.defaultBurstSize))
  {
  }

  /** The steady branch of `wave_cc_on_ack_recv`: the minimum RTT takes
      the sample into account, the timer becomes the clamped candidate
      and its pacing interval is published. */
  lemma OnAckRecvSteady(w: WaveState, cs: Stat, ack: Ack, f: Filter)
    requires w.defaultBurstSize > 0
    requires AcceptsSample(w, ack) && ack.bytesDelivered >= w.defaultBurstSize
    requires var m := Min(w.minRtt, ack.rtt);
      Sub(f.ewma(ack.rtt, m, w.avgRtt).avgRtt, m) <= w.beta
    ensures var m := Min(w.minRtt, ack.rtt);
      var e := f.ewma(ack.rtt, m, w.avgRtt);
      var (w', cs') := OnAckRecv(w, cs, ack, f);
      w'.txTime == TxTimeFromCandidate(f.recvTimer(w.txTime, ack.rtt - m)) &&
      w' == w.(txTime := w'.txTime, minRtt := m, avgRtt := e.avgRtt, alpha := e.alpha) &&
      cs' == cs.(pacingIntervalM := PacingInterval(w'.txTime, w.defaultBurstSize))
  {
  }

  /** `wave_cc_on_ack_recv` keeps the invariant, whatever the filter
      computes, and never touches the ledger. */
  lemma OnAckRecvKeepsInv(w: WaveState, cs: Stat, ack: Ack, f: Filter)
    requires Inv(w, cs)
    ensures Inv(OnAckRecv(w, cs, ack, f).0, OnAckRecv(w, cs, ack, f).1)
    ensures OnAckRecv(w, cs, ack, f).0.ledger == w.ledger
  {
  }
}
