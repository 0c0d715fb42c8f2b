/**
 * The drivers put together: the listeners the hwmon, poweroff, RTC and
 * power-supply drivers register on the PMU's notifier chain, what that means
 * for the acknowledgements the core sends, and what a received status report
 * does to the listeners' state.
 */
module Photonicat {
  import opened Wire
  import opened Codec
  import opened Pmu
  import Rtc
  import Supply
  import Hwmon

  /**
   * The verdict of the poweroff driver's listener, whose shutdown handling is
   * not part of this model: NOTIFY_DONE for every frame.
   */
  function PoweroffVerdict(action: u16, f: Frame): int
  {
    NOTIFY_DONE
  }

  /**
   * The notifier chain as the listener drivers leave it, in the order of the
   * PMU's cells (the LED driver registers no listener).
   */
  const Listeners: seq<Listener> := [Hwmon.Verdict, PoweroffVerdict, Rtc.Verdict, Supply.Verdict]

  /**
   * No listener claims a frame, so every frame that is not the reply to a
   * pending request is acknowledged exactly when it asks to be.
   */
  lemma UnclaimedFramesAcknowledged(f: Frame)
    ensures NeedsAck(f, ChainResult(Listeners, f.head.command, f)) <==> f.foot.needAck != 0
  {
    ChainAllDone(Listeners, f.head.command, f);
  }

  /** A decoded status report carries the whole status payload the listeners read. */
  predicate WholeStatus(d: Decoded)
  {
    d.Valid? && d.frame.head.command == CMD_STATUS_REPORT ==> |d.frame.data| >= StatusSize
  }

  /**
   * The PMU with the drivers whose listeners keep state; every driver talks
   * through the parent's PMU, as the RTC's `pmu` says.
   */
  class Board {
    const pmu: Pmu
    const hwmon: Hwmon.Hwmon
    const rtc: Rtc.Rtc
    const supply: Supply.Supply

    constructor (pmu: Pmu, hwmon: Hwmon.Hwmon, rtc: Rtc.Rtc, supply: Supply.Supply)
      requires rtc.pmu == pmu
      ensures rtc.pmu == this.pmu
      ensures this.pmu == pmu && this.hwmon == hwmon && this.rtc == rtc && this.supply == supply
    {
      this.pmu := pmu;
      this.hwmon := hwmon;
      this.rtc := rtc;
      this.supply := supply;
    }

    /** The listeners' state is what the status report `f` carries. */
    predicate Refreshed(f: Frame)
      requires |f.data| >= StatusSize
      reads hwmon, rtc, supply
    {
      && hwmon.temperature == f.data[StatusTempOffset] - Hwmon.TempOffset
      && rtc.time == ParseDateTime(f.data[StatusTimeOffset..])
      && supply.batMillivolt == U16At(f.data, StatusBatteryOffset)
      && supply.chgMillivolt == U16At(f.data, StatusChargerOffset)
    }

    /**
     * blocking_notifier_call_chain on the board's chain: every listener in
     * turn. The verdict is the one `ChainResult` gives for `Listeners`, and
     * only a status report changes any listener's state.
     */
    method Notify(action: u16, f: Frame) returns (verdict: int)
      requires action == CMD_STATUS_REPORT ==> |f.data| >= StatusSize
      modifies hwmon`temperature, rtc`time, supply`batMillivolt, supply`chgMillivolt
      ensures verdict == ChainResult(Listeners, action, f)
      ensures action == CMD_STATUS_REPORT ==> Refreshed(f)
      ensures action != CMD_STATUS_REPORT ==> unchanged(hwmon, rtc, supply)
    {
      var fromHwmon := hwmon.Notify(action, f);
      var fromPoweroff := PoweroffVerdict(action, f);
      var fromRtc := rtc.Notify(action, f);
      var fromSupply := supply.Notify(action, f);
      ChainAllDone(Listeners, action, f);
      verdict := fromSupply;
    }

    /**
     * pcat_pmu_receive_buf on the board: the core's reassembly, then the
     * chain on the frame it hands over. The buffer, the slot and the pending
     * request end as `Pmu.ReceiveBuf` leaves them. The frame handed over is
     * the decoded one unless it answered the pending request; it is
     * acknowledged exactly when it asks to be, and a status report refreshes
     * every listener.
     */
    method ReceiveBuf(buf: seq<byte>, ack: Writes) returns (processed: nat, delivered: Option<Frame>)
      requires pmu.Valid()
      requires WholeStatus(Decode(pmu.buffer[..pmu.length] + buf[..Min(|buf|, BufferSize - pmu.length)]))
      modifies pmu`length, pmu`reply, pmu`sent, pmu.buffer, pmu.reply
      modifies hwmon`temperature, rtc`time, supply`batMillivolt, supply`chgMillivolt
      ensures pmu.Valid()
      ensures |buf| == 0 ==> processed == 0 && delivered == None
      ensures |buf| == 0 ==> pmu.length == old(pmu.length) && pmu.buffer[..] == old(pmu.buffer[..]) && pmu.reply == old(pmu.reply)
      ensures |buf| == 0 && old(pmu.reply) != null ==> unchanged(old(pmu.reply))
      ensures |buf| > 0 ==> processed == Min(|buf|, BufferSize - old(pmu.length))
      ensures |buf| > 0 ==> var received := old(pmu.buffer[..pmu.length]) + buf[..processed];
        && pmu.buffer[..|received|] == received
        && pmu.length == (if Decode(received) == NeedMore then |received| else 0)
      ensures |buf| > 0 ==>
        var d := Decode(old(pmu.buffer[..pmu.length]) + buf[..processed]);
        && (!d.Valid? ==> pmu.reply == old(pmu.reply))
        && (!d.Valid? && old(pmu.reply) != null ==> unchanged(old(pmu.reply)))
        && (d.Valid? ==>
          var taken := old(pmu.reply) != null && old(pmu.reply.AnsweredBy(d.frame.head));
          && (taken ==> pmu.reply == null)
          && (!taken ==> pmu.reply == old(pmu.reply))
          && (old(pmu.reply) != null ==> Offered(old(pmu.reply.State()), old(pmu.reply).cmd, d.frame, taken, old(pmu.reply).State())))
      ensures |buf| > 0 ==>
        var d := Decode(old(pmu.buffer[..pmu.length]) + buf[..processed]);
        && (delivered.Some? <==> d.Valid? && !(old(pmu.reply) != null && old(pmu.reply.AnsweredBy(d.frame.head))))
        && (delivered.Some? ==> delivered.value == d.frame)
      ensures delivered.None? ==> pmu.sent == old(pmu.sent) && unchanged(hwmon, rtc, supply)
      ensures delivered.Some? ==>
        var f := delivered.value;
        && pmu.sent == old(pmu.sent) + (if f.foot.needAck != 0 then [AckOf(f, ack)] else [])
        && (f.head.command == CMD_STATUS_REPORT ==> Refreshed(f))
        && (f.head.command != CMD_STATUS_REPORT ==> unchanged(hwmon, rtc, supply))
    {
      processed, delivered := pmu.ReceiveBuf(buf, Listeners, ack);
      if delivered.Some? {
        var f := delivered.value;
        UnclaimedFramesAcknowledged(f);
        var _ := Notify(f.head.command, f);
      }
    }
  }
}
