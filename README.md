# Wave congestion controller (ngtcp2) in Dafny

This project models the Wave pacing congestion controller of ngtcp2
(`lib/ngtcp2_wave.c`) and proves properties of it. Wave keeps a burst
ledger: a doubly-linked list of `burst_stats` records, one per send
timestamp. Each acknowledgment updates the record of its burst. A fully
acknowledged burst is unlinked. If it saw at least three ack times, it
first feeds an RTT filter. The filter either sets a new transmission
timer or, when the RTT has inflated by more than `beta`, falls back to
"adjustment": the timer, `min_rtt`, `avg_rtt` and the counters go back
to their defaults, and the whole ledger is dropped instead of the one
burst. Every timer change is
published to the connection statistics as the fixed-point pacing
interval `(tx_time / default_burst_size) << 10`.

The project has five modules:

- `Arith64` (`arith64.dfy`): C `uint64_t` arithmetic, every result reduced
  modulo 2^64.
- `Ledger` (`ledger.dfy`): the burst records as values, the lookup, the
  per-ack update and removal, and the ledger's integrity over any run of
  sends.
- `WaveSpec` (`wave_spec.dfy`): one function per handler. Each maps the
  controller state and the statistics before the event to those after it.
- `WaveProperties` (`wave_properties.dfy`): what the handlers promise,
  proved over `WaveSpec`.
- `WaveCC` (`wave_cc.dfy`): the code as it runs. `ConnStat`, `BurstNode`
  and `Wave` are classes whose methods update their fields in place. The
  handlers walk the list with `while` loops and splice `previous`/`next`
  links. `Wave` carries a ghost view of the list (`nodes`, and `ledger`,
  the records they hold). `Valid()` says that the links form exactly that
  list and that `ledger` is what the nodes hold. Every handler keeps
  `Valid()` and is proved to produce exactly the state that its `WaveSpec`
  function computes. Every handler also promises that each node of the
  new list was in the old list or was freshly allocated. A caller that
  may modify the controller and its nodes can therefore drive a run of
  events, one handler call after another. So the properties proved in
  `WaveProperties` hold of the imperative code too.

The double-precision parts of the filter are the EWMA weight and average,
the ack-train dispersion, and the 0.5/0.4/0.2 scalings. They are a
`WaveSpec.Filter` of total functions, passed to the handlers as a
parameter, so every property holds whatever they compute. The integer
steps around them are modelled exactly:

- the sample filter;
- the `delta > beta` test, at lines 303-305, including the wrapping
  uint64 subtraction; at lines 143-145 it is modelled as the exact
  integer difference (see "## Left out");
- clamping the timer to one millisecond and truncating it to whole
  milliseconds;
- the pacing interval.

## Model

| member | source | states |
|---|---|---|
| Arith64.Add | lib/ngtcp2_wave.c:114 | uint64 `+`: the exact sum when it fits, otherwise the sum less 2^64 |
| Arith64.Sub | lib/ngtcp2_wave.c:107 | uint64 `-`: the exact difference when `b <= a`, otherwise it wraps around by 2^64 |
| Arith64.Mul | lib/ngtcp2_wave.c:276 | uint64 `*`: the exact product when it fits |
| Arith64.Shl10 | lib/ngtcp2_wave.c:50 | `<< 10` on uint64: multiplication by 1024 when no bit is lost; the result is always a multiple of 1024 |
| Ledger.FindIndex | lib/ngtcp2_wave.c:87-101 | the walk from the head finds the first record whose send time is the packet's; it finds none exactly when no record has that send time |
| Ledger.AckUpdate | lib/ngtcp2_wave.c:104-114 | per-ack update: `first_ack_time` becomes min(old, ts), and `pilot_rtt` is reset only when ts is strictly earlier; `last_ack_time` becomes max(old, ts), and `ack_num` and `cumulative_ack_rtt` grow only when ts is strictly later; `acked_bytes` always grows by the packet length; the send time and size are kept |
| Ledger.RemoveAt | lib/ngtcp2_wave.c:184-203 | removing a record keeps all the others in their order |
| Ledger.RecordSentKeepsKeysDistinct | lib/ngtcp2_wave.c:232-258 | sending keeps one record per send time, and the packet's send time is recorded afterwards |
| Ledger.RecordSentExisting | lib/ngtcp2_wave.c:233-236 | a packet whose send time is recorded grows exactly that record's `send_burst_size` by its length; nothing else changes |
| Ledger.RecordSentFresh | lib/ngtcp2_wave.c:239-256 | a packet with a new send time appends one unacked record at the tail (`first_ack_time` and `pilot_rtt` are UINT64_MAX, the counters 0); the existing records keep their order |
| Ledger.RemoveAtKeys | lib/ngtcp2_wave.c:184-203 | excision keeps send times distinct, drops the removed record's send time and keeps every other send time |
| Ledger.SendsLedger | lib/ngtcp2_wave.c:206-259 | after any run of sends from an empty ledger: one record per distinct send time, in order of first appearance; each size is the uint64 sum of the lengths sent at that time; no acknowledgment data |
| WaveSpec.PacingInterval | lib/ngtcp2_wave.c:50 | the published pacing interval `(tx_time / default_burst_size) << 10` with the uint64 shift; `WaveProperties.PacingIntervalExact` proves that the shift loses no bits for bursts of at least 1024 bytes, and `WaveProperties.DefaultPacingInterval` gives its value for the defaults |
| WaveSpec.Reset | lib/ngtcp2_wave.c:37-57 | `wave_reset` on values; `WaveProperties.ResetDefaults` states every value it sets and the invariant, and `WaveProperties.ResetIdempotent` that a second reset changes nothing |
| WaveSpec.Init | lib/ngtcp2_wave.c:339-350 | initialisation is reset applied to a zeroed state; `WaveCC.Wave.constructor` is proved to reach it |
| Ledger.RecordSent | lib/ngtcp2_wave.c:232-258 | the ledger after a send; `Ledger.RecordSentExisting` and `Ledger.RecordSentFresh` state its two cases, `Ledger.RecordSentKeepsKeysDistinct` that send times stay distinct, and `Ledger.SendsLedger` what any run of sends leaves |
| WaveSpec.OnPktSent | lib/ngtcp2_wave.c:206-259 | the send handler on values; `WaveProperties.OnPktSentKeepsInv` proves it changes only the ledger and keeps the invariant |
| WaveSpec.OnPktAcked | lib/ngtcp2_wave.c:64-204 | the ack handler on values; `WaveProperties.OnPktAckedUnmatched`, `OnPktAckedPartial`, `OnPktAckedFewAcks`, `OnPktAckedAdjust` and `OnPktAckedSteady` state each of its cases, `OnPktAckedRetains` when the record stays, and `OnPktAckedKeepsInv` the invariant |
| WaveSpec.Settle | lib/ngtcp2_wave.c:116-124 | completion of the found burst: it stays while incomplete, leaves when complete with fewer than three ack times, and goes through the filter otherwise (`WaveProperties.OnPktAckedPartial`, `OnPktAckedFewAcks`, `OnPktAckedRetains`) |
| WaveSpec.Filtered | lib/ngtcp2_wave.c:126-180 | the filter on a complete burst: adjustment with the whole ledger dropped, or a new timer with the record removed (`WaveProperties.OnPktAckedAdjust`, `OnPktAckedSteady`) |
| WaveSpec.Adjust | lib/ngtcp2_wave.c:146-155 | the adjustment assignments and pacing interval shared with lines 307-315; `WaveProperties.OnPktAckedAdjust` and `OnAckRecvAdjust` state them field by field |
| WaveSpec.Retime | lib/ngtcp2_wave.c:173-180 | the timer update shared with lines 318-325: the clamped candidate (`WaveSpec.TxTimeFromCandidate`) and its pacing interval; `WaveProperties.OnPktAckedSteady` and `OnAckRecvSteady` state it |
| WaveSpec.AcceptsSample | lib/ngtcp2_wave.c:276 | the sample filter with the uint64 product `10 * min_rtt`; `WaveProperties.OnAckRecvRejects` states that a rejected sample changes nothing and `UnsetMinRttBound` what the wrapped product accepts |
| WaveSpec.OnAckRecv | lib/ngtcp2_wave.c:262-330 | the ack-receive handler on values; `WaveProperties.OnAckRecvRejects`, `OnAckRecvSmallSample`, `OnAckRecvAdjust` and `OnAckRecvSteady` state its cases, and `OnAckRecvKeepsInv` the invariant and the untouched ledger |
| WaveSpec.TxTimeFromCandidate | lib/ngtcp2_wave.c:175-179 | the new timer is exactly 1 ms for a candidate below 1 ms, and otherwise the candidate rounded down to whole milliseconds; it is always at least 1 ms and a multiple of 1 ms |
| WaveProperties.DefaultPacingInterval | lib/ngtcp2_wave.c:50 | the pacing interval published on reset is `(200000000 / 14440) << 10` = 13850 * 1024 |
| WaveProperties.PacingIntervalExact | lib/ngtcp2_wave.c:180 | for a burst of at least 1024 bytes the shift loses no bits |
| WaveProperties.ResetDefaults | lib/ngtcp2_wave.c:37-57 | reset sets `default_burst_size = 14440`, `tx_time = 200 ms`, `beta = 150 ms`, `min_rtt = UINT64_MAX` and `avg_rtt = smoothed_rtt`; it zeroes the counters and empties the ledger; it publishes the default pacing interval, `send_quantum = 14440` and unbounded `cwnd`/`ssthresh`; the result satisfies the invariant |
| WaveProperties.ResetIdempotent | lib/ngtcp2_wave.c:332-337 | a second reset after a reset changes nothing |
| WaveProperties.OnPktSentKeepsInv | lib/ngtcp2_wave.c:206-259 | sending touches only the ledger, keeps the invariant and records the packet's send time |
| WaveProperties.OnPktAckedUnmatched | lib/ngtcp2_wave.c:79-101 | an ack for a send time the ledger lacks (the empty ledger included) changes neither the controller, the ledger nor the statistics |
| WaveProperties.OnPktAckedPartial | lib/ngtcp2_wave.c:116-119 | while bytes of the burst remain unacknowledged, only that burst's record changes |
| WaveProperties.OnPktAckedFewAcks | lib/ngtcp2_wave.c:121-124 | a complete burst with fewer than three ack times is removed and the other records keep their order; no controller or statistics field changes |
| WaveProperties.OnPktAckedAdjust | lib/ngtcp2_wave.c:145-171 | in the adjustment branch, the timer, `min_rtt`, `avg_rtt` and the counters go back to their defaults; the whole ledger is dropped; of the statistics only the pacing interval changes |
| WaveProperties.OnPktAckedSteady | lib/ngtcp2_wave.c:173-203 | in the steady branch, the new average is kept and the timer becomes the clamped candidate; its pacing interval is published and the completed record is removed, the others keeping their order |
| WaveProperties.OnPktAckedRetains | lib/ngtcp2_wave.c:116-124 | the acknowledged burst stays in the ledger exactly when its acked bytes differ from its size, and then every send time stays; a complete burst leaves whichever branch it takes |
| WaveProperties.OnPktAckedKeepsInv | lib/ngtcp2_wave.c:64-204 | the ack handler keeps the invariant whatever the filter computes |
| WaveProperties.UnsetMinRttBound | lib/ngtcp2_wave.c:276 | with `min_rtt` unset, the wrapped `10 * min_rtt` is 2^64 - 10, so only the nine largest RTTs are rejected |
| WaveProperties.OnAckRecvRejects | lib/ngtcp2_wave.c:276-280 | a sample with no delivered bytes or an RTT over `10 * min_rtt` changes nothing |
| WaveProperties.OnAckRecvSmallSample | lib/ngtcp2_wave.c:282-288 | an accepted sample smaller than a burst only lowers `min_rtt` to the sample's RTT, and only when the RTT is smaller |
| WaveProperties.OnAckRecvAdjust | lib/ngtcp2_wave.c:305-317 | the adjustment branch of the ack-receive handler resets the same fields as the ack handler's but leaves the ledger alone |
| WaveProperties.OnAckRecvSteady | lib/ngtcp2_wave.c:318-325 | in the steady branch, `min_rtt` takes the sample into account and the timer becomes the clamped candidate; its pacing interval is published |
| WaveProperties.OnAckRecvKeepsInv | lib/ngtcp2_wave.c:262-330 | the ack-receive handler keeps the invariant and never touches the ledger |
| WaveCC.BurstNode.constructor | lib/ngtcp2_wave.c:244-254 | a new node holds a fresh unacked record, is linked after the given node and ends the list |
| WaveCC.BurstNode.AddBytes | lib/ngtcp2_wave.c:235 | a packet of the burst adds its length to the burst size, and nothing else changes |
| WaveCC.BurstNode.RecordAck | lib/ngtcp2_wave.c:104-114 | the per-ack updates in place leave the node holding `AckUpdate` of its old record |
| WaveCC.LinkedNext | lib/ngtcp2_wave.c:92-100 | in a well-formed list only the tail has no successor and only the head has no predecessor, so the walk stops at the tail |
| WaveCC.LinkedDistinct | lib/ngtcp2_wave.c:184-203 | a well-formed list has no cycle: its nodes are pairwise distinct, so a write to one node leaves the others alone |
| WaveCC.LinkedSplice | lib/ngtcp2_wave.c:195-198 | linking the neighbours of an inner node to each other yields the well-formed list without that node |
| WaveCC.Bypass | lib/ngtcp2_wave.c:195-198 | the two link writes of an inner excision leave a well-formed list without the node, and every record where it was |
| WaveCC.Attach | lib/ngtcp2_wave.c:244 | linking a fresh node after the tail yields the well-formed list extended by it, and every record where it was |
| WaveCC.RecordsRemoveAt | lib/ngtcp2_wave.c:184-203 | the records of the list without a node are the records without that node's record |
| WaveCC.Wave.constructor | lib/ngtcp2_wave.c:339-350 | initialisation yields a valid controller in exactly the state reset defines |
| WaveCC.Wave.Reset | lib/ngtcp2_wave.c:37-62 | reset yields a valid controller with an empty list and exactly the fields and statistics `WaveSpec.Reset` defines |
| WaveCC.Wave.PublishDefaults | lib/ngtcp2_wave.c:49-57 | reset publishes the pacing interval, the send quantum and unbounded window fields; `smoothed_rtt` is kept |
| WaveCC.Wave.CcReset | lib/ngtcp2_wave.c:332-337 | the reset callback is reset; its timestamp is unused |
| WaveCC.Wave.Seek | lib/ngtcp2_wave.c:87-101 | the loop stops at the position `FindIndex` gives when the send time is recorded; otherwise it stops at the tail, and the send time is absent; the same walk serves `wave_cc_on_pkt_sent` (lines 232-258) |
| WaveCC.Wave.OnPktSent | lib/ngtcp2_wave.c:206-259 | the send handler keeps the list well formed and leaves exactly the ledger `WaveSpec.OnPktSent` computes (first node, grown burst, or appended tail) |
| WaveCC.Wave.Grow | lib/ngtcp2_wave.c:233-236 | only the found record grows by the packet length |
| WaveCC.Wave.Append | lib/ngtcp2_wave.c:239-256 | a new unacked record is appended after the tail, and the list stays well formed |
| WaveCC.Wave.OnPktAcked | lib/ngtcp2_wave.c:64-204 | the ack handler keeps the list well formed and leaves exactly the state and statistics `WaveSpec.OnPktAcked` computes |
| WaveCC.Wave.Acked | lib/ngtcp2_wave.c:103-124 | once the burst is found, the ack is recorded in it and the burst is settled |
| WaveCC.Wave.RecordAck | lib/ngtcp2_wave.c:104-114 | only the found record changes, to its `AckUpdate` |
| WaveCC.Wave.Settle | lib/ngtcp2_wave.c:116-124 | an incomplete burst stays; a complete one is removed when it saw fewer than three ack times, and filtered otherwise |
| WaveCC.Wave.RunFilter | lib/ngtcp2_wave.c:126-180 | the filter step on a complete burst: the EWMA, then adjustment or a new timer, as `WaveSpec.Filtered` computes |
| WaveCC.Wave.Restart | lib/ngtcp2_wave.c:145-171 | adjustment after the EWMA: the timer, `min_rtt`, `avg_rtt` and the counters go back to their defaults, the pacing interval is republished and the whole list is dropped |
| WaveCC.Wave.Advance | lib/ngtcp2_wave.c:173-203 | the steady branch: the new average, the retimed timer and its pacing interval, and the burst unlinked |
| WaveCC.Wave.Excise | lib/ngtcp2_wave.c:184-203 | the node is unlinked in each of the four position cases (only node, head, middle, tail); the list stays well formed and its records are the old ones without the node's record |
| WaveCC.Wave.UnlinkOnly | lib/ngtcp2_wave.c:188-190 | removing the only node empties the list |
| WaveCC.Wave.UnlinkHead | lib/ngtcp2_wave.c:191-194 | removing the head makes its successor the head, with no predecessor |
| WaveCC.Wave.UnlinkMiddle | lib/ngtcp2_wave.c:195-198 | removing an inner node links its neighbours to each other |
| WaveCC.Wave.UnlinkTail | lib/ngtcp2_wave.c:199-201 | removing the tail makes its predecessor end the list |
| WaveCC.Wave.Readjust | lib/ngtcp2_wave.c:146-155 | the adjustment fields and the pacing interval are exactly those of `WaveSpec.Adjust` |
| WaveCC.Wave.SetTimer | lib/ngtcp2_wave.c:174-180 | the timer is clamped and truncated, and its pacing interval is published, as `WaveSpec.Retime` computes |
| WaveCC.Wave.OnAckRecv | lib/ngtcp2_wave.c:262-330 | the ack-receive handler leaves exactly the state and statistics `WaveSpec.OnAckRecv` computes, and leaves the list as it was |

## Left out

- Floating point: the ack-train dispersion (lines 127-130), the EWMA weight and average (lines 133-140 and 293-300), and the 0.5/0.4/0.2 scalings (lines 174 and 319) are the functions of a `WaveSpec.Filter` parameter. Their results are taken already converted to uint64. The conversions of negative or out-of-range doubles to uint64 are undefined behaviour in C and are not modelled.
- The adjustment test at line 143 subtracts two doubles. It is modelled as the exact integer difference `avg_rtt - min_rtt`, so rounding of values beyond 2^53 is not modelled. Line 303 subtracts uint64 values, and that wrapping subtraction is modelled.
- Memory: `malloc` (including its unchecked results at lines 216 and 244) and `free` are not modelled. The loop that frees the chain on adjustment (lines 158-168) is modelled by its effect: the list becomes empty.
- `wave_reset` drops the list without freeing it (line 47); the model only makes the list empty.
- Logging (lines 59-61, 181-182 and 327-328) is a side channel and is left out.
- The callback table, `ngtcp2_struct_of` and the `memset` in `ngtcp2_cc_wave_init` are left out. Initialisation is modelled as reset applied to a zeroed state.
- The `send_quantum` branch at line 51 can never be taken with a 64-bit `default_burst_size`, so it is left out.
- lib/ngtcp2_wave.h is not part of this model. The fields of `ngtcp2_cc_wave` and `burst_stats` are taken to be `uint64_t`, and `size_t` to be 64 bits wide.
- Arith64.Mul: its contract states only the non-wrapping case. The wrapped value is what its body computes, and the `10 * min_rtt` case that matters is proved separately (`WaveProperties.UnsetMinRttBound`).
- The two adjustment branches differ, and the model keeps each as written:
  - neither restores `default_burst_size` (which never changes anyway) or `beta` (lines 147-152 and 307-312);
  - the adjustment branch of `wave_cc_on_ack_recv` (lines 305-317) keeps the burst ledger, unlike that of `wave_cc_on_pkt_acked` (lines 157-169);
  - `wave_cc_on_ack_recv` computes `10 * min_rtt` and `avg_rtt - min_rtt` modulo 2^64 (lines 276 and 303).
