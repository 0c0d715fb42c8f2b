/**
 * The core of drivers/mfd/photonicat-pmu.c: the frame counter, the receive
 * buffer that reassembles frames from the serial line, the slot holding the
 * one request waiting for its reply, and the request/reply exchange with
 * its retries.
 *
 * The serial line is the `sent` field: every `pcat_pmu_raw_write` call is
 * appended to it, and `WireBytes` gives the bytes those calls put on the
 * line. What the UART driver answers to each write, and what arrives while
 * `pcat_pmu_execute` waits, are parameters.
 */
module Pmu {
  import opened Wire
  import opened Codec

  const BufferSize: nat := 8192
  const MaxRetries: nat := 3

  const ETIMEDOUT: int := 110
  const NOTIFY_DONE: int := 0
  const NOTIFY_OK: int := 1
  const NOTIFY_STOP_MASK: int := 0x8000

  datatype Option<T> = None | Some(value: T)

  function Min(a: int, b: int): int
  {
    if a <= b then a else b
  }

  // ---------------------------------------------------------------------
  // Transmission
  // ---------------------------------------------------------------------

  /** What `serdev_device_write_buf` returns for the head, the payload and the foot of one frame. */
  datatype Writes = Writes(head: int, body: int, foot: int)

  /** The value `pcat_pmu_raw_write` returns: the first failing write's error, else the foot write's count. */
  function RawWriteResult(w: Writes): (r: int)
    ensures r < 0 <==> w.head < 0 || w.body < 0 || w.foot < 0
    ensures r >= 0 ==> r == w.foot
  {
    if w.head < 0 then w.head else if w.body < 0 then w.body else w.foot
  }

  /**
   * The bytes of a frame with an `n`-byte payload that reach the line: the
   * chunks written before the first failing write.
   */
  function Emitted(w: Writes, frame: seq<byte>, n: nat): (r: seq<byte>)
    requires |frame| == n + HeadSize + FootSize
    ensures RawWriteResult(w) >= 0 ==> r == frame
    ensures RawWriteResult(w) < 0 ==> |r| < |frame|
  {
    if w.head < 0 then []
    else if w.body < 0 then frame[..HeadSize]
    else if w.foot < 0 then frame[..HeadSize + n]
    else frame
  }

  /** The arguments of one `pcat_pmu_raw_write` call. */
  datatype RawFrame = RawFrame(frameId: u16, command: u16, needAck: bool, data: seq<byte>)

  /** One `pcat_pmu_raw_write` call: the frame asked for and what the UART answered to its writes. */
  datatype Transmission = Transmission(frame: RawFrame, write: Writes)

  /** The bytes one call puts on the line. */
  function Bytes(t: Transmission): (r: seq<byte>)
    ensures RawWriteResult(t.write) >= 0 ==> r == Encode(t.frame.frameId, t.frame.command, t.frame.needAck, t.frame.data)
  {
    Emitted(t.write, Encode(t.frame.frameId, t.frame.command, t.frame.needAck, t.frame.data), |t.frame.data|)
  }

  /** The pieces `f` gives for the elements of `s`, joined in order. */
  function Flatten<T>(s: seq<T>, f: T -> seq<byte>): seq<byte>
  {
    if |s| == 0 then [] else Flatten(s[..|s| - 1], f) + f(s[|s| - 1])
  }

  lemma {:induction false} FlattenConcat<T>(a: seq<T>, b: seq<T>, f: T -> seq<byte>)
    ensures Flatten(a + b, f) == Flatten(a, f) + Flatten(b, f)
    decreases |b|
  {
    if |b| == 0 {
      assert a + b == a;
    } else {
      var b' := b[..|b| - 1];
      assert (a + b)[..|a + b| - 1] == a + b' && (a + b)[|a + b| - 1] == b[|b| - 1];
      FlattenConcat(a, b', f);
    }
  }

  /** The bytes a sequence of calls puts on the line, in order. */
  function WireBytes(log: seq<Transmission>): seq<byte>
  {
    Flatten(log, Bytes)
  }

  /** The line is the concatenation of what each call wrote. */
  lemma WireBytesConcat(a: seq<Transmission>, b: seq<Transmission>)
    ensures WireBytes(a + b) == WireBytes(a) + WireBytes(b)
  {
    FlattenConcat(a, b, Bytes);
  }

  // ---------------------------------------------------------------------
  // The exchange of `pcat_pmu_execute`
  // ---------------------------------------------------------------------

  /** One round of `pcat_pmu_execute`: how the writes went, and the frame, if any, that arrived during the wait. */
  datatype Attempt = Attempt(write: Writes, arrival: Option<Frame>)

  /** How an exchange ends: the value returned, the raw writes made and the reply taken. */
  datatype Outcome = Outcome(ret: int, sent: seq<Transmission>, answer: Option<Frame>)

  /** A frame that arrives answers the request with this id and expected command. */
  predicate Answers(arrival: Option<Frame>, id: u16, want: u16)
  {
    arrival.Some? && arrival.value.head.frameId == id && arrival.value.head.command == want
  }

  /** The first `k` rounds of sending `req`. */
  function Rounds(attempts: nat -> Attempt, req: RawFrame, k: nat): (r: seq<Transmission>)
    ensures |r| == k
  {
    if k == 0 then [] else Rounds(attempts, req, k - 1) + [Transmission(req, attempts(k - 1).write)]
  }

  /**
   * The exchange from round `i` on: send `req`; a write error ends it with
   * that error; a reply with the request's id and expected command ends it
   * with 0; otherwise retry, up to three retries, and then give up with
   * -ETIMEDOUT.
   */
  function Execution(attempts: nat -> Attempt, req: RawFrame, want: u16, i: nat): (o: Outcome)
    requires i <= MaxRetries
    ensures 1 <= |o.sent| <= MaxRetries + 1 - i
    ensures o.ret == 0 <==> o.answer.Some?
    ensures o.answer.Some? ==> Answers(o.answer, req.frameId, want)
    decreases MaxRetries - i
  {
    var a := attempts(i);
    var t := Transmission(req, a.write);
    if RawWriteResult(a.write) < 0 then Outcome(RawWriteResult(a.write), [t], None)
    else if Answers(a.arrival, req.frameId, want) then Outcome(0, [t], a.arrival)
    else if i < MaxRetries then
      var o := Execution(attempts, req, want, i + 1);
      Outcome(o.ret, [t] + o.sent, o.answer)
    else Outcome(-ETIMEDOUT, [t], None)
  }

  /** Round `k` went out whole and brought no reply. */
  predicate Unanswered(attempts: nat -> Attempt, id: u16, want: u16, k: nat)
  {
    RawWriteResult(attempts(k).write) >= 0 && !Answers(attempts(k).arrival, id, want)
  }

  /** An unanswered round is followed by the next one. */
  lemma ExecutionStep(attempts: nat -> Attempt, req: RawFrame, want: u16, k: nat)
    requires k < MaxRetries && Unanswered(attempts, req.frameId, want, k)
    ensures var o, ok := Execution(attempts, req, want, k), Execution(attempts, req, want, k + 1);
      o == Outcome(ok.ret, [Transmission(req, attempts(k).write)] + ok.sent, ok.answer)
  {
  }

  /** If every round before `k` went unanswered, the exchange from 0 is those `k` rounds followed by the exchange from `k`. */
  lemma {:induction false} ExecutionSkips(attempts: nat -> Attempt, req: RawFrame, want: u16, k: nat)
    requires k <= MaxRetries
    requires forall j :: 0 <= j < k ==> Unanswered(attempts, req.frameId, want, j)
    ensures var o, ok := Execution(attempts, req, want, 0), Execution(attempts, req, want, k);
      o == Outcome(ok.ret, Rounds(attempts, req, k) + ok.sent, ok.answer)
    decreases k
  {
    if k > 0 {
      ExecutionSkips(attempts, req, want, k - 1);
      ExecutionStep(attempts, req, want, k - 1);
      var ok := Execution(attempts, req, want, k);
      var t := Transmission(req, attempts(k - 1).write);
      assert Rounds(attempts, req, k - 1) + ([t] + ok.sent) == Rounds(attempts, req, k) + ok.sent;
    }
  }

  /** The first reply with the right id and command ends the exchange successfully, after `k + 1` transmissions. */
  lemma ExecutionAnswered(attempts: nat -> Attempt, req: RawFrame, want: u16, k: nat)
    requires k <= MaxRetries
    requires forall j :: 0 <= j < k ==> Unanswered(attempts, req.frameId, want, j)
    requires RawWriteResult(attempts(k).write) >= 0 && Answers(attempts(k).arrival, req.frameId, want)
    ensures Execution(attempts, req, want, 0) == Outcome(0, Rounds(attempts, req, k + 1), attempts(k).arrival)
  {
    ExecutionSkips(attempts, req, want, k);
  }

  /** A write error ends the exchange at once with that error; no retry follows it. */
  lemma ExecutionWriteError(attempts: nat -> Attempt, req: RawFrame, want: u16, k: nat)
    requires k <= MaxRetries
    requires forall j :: 0 <= j < k ==> Unanswered(attempts, req.frameId, want, j)
    requires RawWriteResult(attempts(k).write) < 0
    ensures Execution(attempts, req, want, 0) == Outcome(RawWriteResult(attempts(k).write), Rounds(attempts, req, k + 1), None)
  {
    ExecutionSkips(attempts, req, want, k);
  }

  /** Four whole transmissions without a reply end the exchange with -ETIMEDOUT. */
  lemma ExecutionTimesOut(attempts: nat -> Attempt, req: RawFrame, want: u16)
    requires forall j :: 0 <= j <= MaxRetries ==> Unanswered(attempts, req.frameId, want, j)
    ensures Execution(attempts, req, want, 0) == Outcome(-ETIMEDOUT, Rounds(attempts, req, MaxRetries + 1), None)
  {
    ExecutionSkips(attempts, req, want, MaxRetries);
    assert Unanswered(attempts, req.frameId, want, MaxRetries);
  }

  /** Round `j` of the first `k` sends the request as it is, and reports what the UART answered in round `j`. */
  lemma {:induction false} RoundsSendRequest(attempts: nat -> Attempt, req: RawFrame, k: nat, j: nat)
    requires j < k
    ensures Rounds(attempts, req, k)[j] == Transmission(req, attempts(j).write)
    decreases k
  {
    if j < k - 1 {
      RoundsSendRequest(attempts, req, k - 1, j);
    }
  }

  /** `frame` repeated `k` times. */
  function Repeat(frame: seq<byte>, k: nat): seq<byte>
  {
    if k == 0 then [] else Repeat(frame, k - 1) + frame
  }

  /** Every retry puts the very same bytes on the line: same id, same command, same payload, same checksum. */
  lemma {:induction false} RetriesRepeatFrame(attempts: nat -> Attempt, req: RawFrame, k: nat)
    requires forall j :: 0 <= j < k ==> RawWriteResult(attempts(j).write) >= 0
    ensures WireBytes(Rounds(attempts, req, k)) == Repeat(Encode(req.frameId, req.command, req.needAck, req.data), k)
    decreases k
  {
    if k > 0 {
      var r := Rounds(attempts, req, k);
      assert r[..k - 1] == Rounds(attempts, req, k - 1);
      RetriesRepeatFrame(attempts, req, k - 1);
    }
  }

  // ---------------------------------------------------------------------
  // The notifier chain
  // ---------------------------------------------------------------------

  /** A listener as the chain sees it: its verdict on an action (the frame's command) and a frame. */
  type Listener = (u16, Frame) -> int

  /** The verdict carries NOTIFY_STOP_MASK (bit 15 of the two's complement int). */
  predicate StopsChain(verdict: int)
  {
    (verdict % 0x1_0000) / NOTIFY_STOP_MASK == 1
  }

  /**
   * `blocking_notifier_call_chain` on an ordered list: each listener in turn,
   * until one sets the stop bit; the last verdict, or NOTIFY_DONE for none.
   */
  function ChainResult(chain: seq<Listener>, action: u16, f: Frame): (r: int)
    ensures |chain| == 0 ==> r == NOTIFY_DONE
    ensures |chain| > 0 && StopsChain(chain[0](action, f)) ==> r == chain[0](action, f)
    decreases |chain|
  {
    if |chain| == 0 then NOTIFY_DONE
    else
      var r := chain[0](action, f);
      if StopsChain(r) || |chain| == 1 then r else ChainResult(chain[1..], action, f)
  }

  /** When every listener answers NOTIFY_DONE, so does the chain. */
  lemma {:induction false} ChainAllDone(chain: seq<Listener>, action: u16, f: Frame)
    requires forall i :: 0 <= i < |chain| ==> chain[i](action, f) == NOTIFY_DONE
    ensures ChainResult(chain, action, f) == NOTIFY_DONE
    decreases |chain|
  {
    if |chain| > 1 {
      assert chain[0](action, f) == NOTIFY_DONE;
      assert forall i :: 0 <= i < |chain[1..]| ==> chain[1..][i] == chain[i + 1];
      ChainAllDone(chain[1..], action, f);
    }
  }

  /**
   * The acknowledgement `pcat_process_data` sends for a frame nobody took:
   * same id, the next command, no payload and no ack requested.
   */
  function AckFrame(f: Frame): (a: Frame)
    ensures a.head.frameId == f.head.frameId && a.head.command == (f.head.command + 1) % 0x1_0000
    ensures a.head.source == ADDR_CPU && a.head.dest == ADDR_PMU && a.head.length == FootSize - 1
    ensures a.data == [] && a.foot.needAck == 0 && Sealed(a)
  {
    SealIsSealed(ADDR_CPU, ADDR_PMU, f.head.frameId, (f.head.command + 1) % 0x1_0000, AckByte(false), []);
    Seal(ADDR_CPU, ADDR_PMU, f.head.frameId, (f.head.command + 1) % 0x1_0000, AckByte(false), [])
  }

  /** An acknowledgement goes out exactly when the chain left the frame alone and the frame asks for one. */
  predicate NeedsAck(f: Frame, verdict: int)
  {
    verdict == NOTIFY_DONE && f.foot.needAck != 0
  }

  /** The raw write `pcat_process_data` makes to acknowledge `f`. */
  function AckOf(f: Frame, w: Writes): (t: Transmission)
    ensures t.write == w && t.frame.data == [] && !t.frame.needAck
  {
    Transmission(RawFrame(f.head.frameId, (f.head.command + 1) % 0x1_0000, false, []), w)
  }

  /** Written whole, that raw write puts exactly the acknowledgement frame on the line. */
  lemma AckBytes(f: Frame, w: Writes)
    requires RawWriteResult(w) >= 0
    ensures Bytes(AckOf(f, w)) == Serialize(AckFrame(f))
  {
  }

  // ---------------------------------------------------------------------
  // The request and the PMU
  // ---------------------------------------------------------------------

  /** struct pcat_request: what is asked, and the reply filled in when it comes. */
  class Request {
    var frameId: u16
    const cmd: u16
    var want: u16
    const data: seq<byte>
    var received: bool
    var replyHead: Head
    var replyFoot: Foot
    var replyData: seq<byte>

    /** A request as `pcat_pmu_write_data` and `pcat_pmu_read_string` set one up: id and expected reply left to default. */
    constructor (cmd: u16, data: seq<byte>)
      ensures this.cmd == cmd && this.data == data && frameId == 0 && want == 0
      ensures !received && replyHead == ZeroHead && replyFoot == ZeroFoot && replyData == []
    {
      this.cmd := cmd;
      this.data := data;
      frameId := 0;
      want := 0;
      received := false;
      replyHead := ZeroHead;
      replyFoot := ZeroFoot;
      replyData := [];
    }

    /** The reply command expected: `want`, or the request's command plus one when `want` is 0. */
    function Want(): (r: u16)
      reads this`want
      ensures want != 0 ==> r == want
      ensures want == 0 ==> r == (cmd + 1) % 0x1_0000
    {
      if want == 0 then (cmd + 1) % 0x1_0000 else want
    }

    /** The reply fields hold `answer`, or are as `pcat_pmu_execute` clears them when there is none. */
    predicate HasReply(answer: Option<Frame>)
      reads this`received, this`replyHead, this`replyFoot, this`replyData
    {
      && received == answer.Some?
      && replyHead == (if answer.Some? then answer.value.head else ZeroHead)
      && replyFoot == (if answer.Some? then answer.value.foot else ZeroFoot)
      && replyData == (if answer.Some? then answer.value.data else [])
    }

    /** The fields `pcat_process_reply` may change, as one value. */
    function State(): (s: RequestState)
      reads this`frameId, this`want, this`received, this`replyHead, this`replyFoot, this`replyData
      ensures s.frameId == frameId && s.want == want && s.received == received
      ensures s.replyHead == replyHead && s.replyFoot == replyFoot && s.replyData == replyData
    {
      RequestState(frameId, want, received, replyHead, replyFoot, replyData)
    }

    /** The frame with head `h` is this request's reply, and none has been taken yet. */
    predicate AnsweredBy(h: Head)
      reads this`frameId, this`want, this`received
    {
      frameId == h.frameId && Want() == h.command && !received
    }
  }

  /** A snapshot of the fields of struct pcat_request that a received frame may change. */
  datatype RequestState = RequestState(frameId: u16, want: u16, received: bool, replyHead: Head, replyFoot: Foot, replyData: seq<byte>)

  /**
   * `t` is the request `s` (for command `cmd`) after `pcat_process_reply`
   * was offered `f`: the expected command is defaulted once the id matches,
   * and only a frame that was `taken` fills the reply and marks it received;
   * an empty payload leaves the reply data as it was.
   */
  predicate Offered(s: RequestState, cmd: u16, f: Frame, taken: bool, t: RequestState)
  {
    && t.frameId == s.frameId
    && t.want == (if s.frameId == f.head.frameId && s.want == 0 then (cmd + 1) % 0x1_0000 else s.want)
    && t.received == (taken || s.received)
    && t.replyHead == (if taken then f.head else s.replyHead)
    && t.replyFoot == (if taken then f.foot else s.replyFoot)
    && t.replyData == (if taken && |f.data| > 0 then f.data else s.replyData)
  }

  const ZeroHead: Head := Head(0, 0, 0, 0, 0, 0)
  const ZeroFoot: Foot := Foot(0, 0, 0)

  /** The `str` buffer `pcat_pmu_read_string` leaves: `len` bytes, the reply's first bytes, then zeros. */
  function StringOf(reply: seq<byte>, len: nat): (s: seq<byte>)
    requires len >= 1
    ensures |s| == len && s[len - 1] == 0
    ensures forall i :: 0 <= i < len ==> s[i] == if i < |reply| && i < len - 1 then reply[i] else 0
  {
    var k := Min(len - 1, |reply|);
    reply[..k] + seq(len - k, _ => 0)
  }

  /** struct pcat_pmu: the frame counter, the receive buffer and the reply slot. */
  class Pmu {
    var frame: u16
    const buffer: array<byte>
    var length: nat
    var reply: Request?
    /** Every `pcat_pmu_raw_write` call, in order; `WireBytes(sent)` is what the serial line carried. */
    var sent: seq<Transmission>

    /** The buffer holds nothing, or the start of a frame still arriving. */
    predicate Valid()
      reads this`length, buffer
    {
      && buffer.Length == BufferSize
      && length <= BufferSize
      && (length > 0 ==> Decode(buffer[..length]) == NeedMore)
    }

    constructor ()
      ensures Valid() && fresh(buffer)
      ensures frame == 0 && length == 0 && reply == null && sent == []
    {
      frame := 0;
      buffer := new byte[BufferSize](_ => 0);
      length := 0;
      reply := null;
      sent := [];
    }

    /** `atomic_inc_return(&pmu->frame)`, truncated to the u16 a frame id is. */
    method NextFrameId() returns (id: u16)
      modifies this`frame
      ensures frame == (old(frame) + 1) % 0x1_0000 && id == frame
    {
      frame := (frame + 1) % 0x1_0000;
      id := frame;
    }

    /**
     * pcat_pmu_raw_write: the head, the payload, then the foot, each written
     * only if the one before succeeded; `Bytes` gives what reached the line.
     */
    method RawWrite(frameId: u16, cmd: u16, needAck: bool, data: seq<byte>, w: Writes) returns (ret: int)
      modifies this`sent
      ensures ret == RawWriteResult(w)
      ensures sent == old(sent) + [Transmission(RawFrame(frameId, cmd, needAck, data), w)]
    {
      sent := sent + [Transmission(RawFrame(frameId, cmd, needAck, data), w)];
      ret := w.head;
      if ret < 0 {
        return;
      }
      ret := w.body;
      if ret < 0 {
        return;
      }
      ret := w.foot;
    }

    /** pcat_pmu_send: a fresh frame id, no acknowledgement asked for, no waiting. */
    method Send(cmd: u16, data: seq<byte>, w: Writes) returns (ret: int)
      modifies this`frame, this`sent
      ensures frame == (old(frame) + 1) % 0x1_0000
      ensures ret == RawWriteResult(w)
      ensures sent == old(sent) + [Transmission(RawFrame(frame, cmd, false, data), w)]
    {
      var id := NextFrameId();
      ret := RawWrite(id, cmd, false, data, w);
    }

    /**
     * pcat_process_reply: hand a valid frame to the waiting request if it is
     * its reply. The expected command defaults once the id matches.
     */
    method ProcessReply(f: Frame) returns (processed: bool)
      modifies this`reply, reply
      ensures processed <==> old(reply) != null && old(reply.AnsweredBy(f.head))
      ensures !processed ==> reply == old(reply)
      ensures processed ==> reply == null
      ensures old(reply) != null ==> Offered(old(reply.State()), old(reply).cmd, f, processed, old(reply).State())
    {
      processed := false;
      var request := reply;
      if request == null {
        return;
      }
      if request.frameId != f.head.frameId {
        return;
      }
      if request.want == 0 {
        request.want := (request.cmd + 1) % 0x1_0000;
      }
      if request.want != f.head.command {
        return;
      }
      if request.received {
        return;
      }
      request.replyHead := f.head;
      request.replyFoot := f.foot;
      if |f.data| > 0 {
        request.replyData := f.data;
      }
      request.received := true;
      reply := null;
      processed := true;
    }

    /**
     * One round of `pcat_pmu_execute`: send the request with an
     * acknowledgement asked for, then hand the frame that arrives during the
     * wait, if any, to the reply slot.
     */
    method Transmit(request: Request, a: Attempt) returns (ret: int)
      requires reply == request && request.Want() == request.want && request.HasReply(None)
      modifies this`reply, this`sent, request
      ensures ret == RawWriteResult(a.write)
      ensures sent == old(sent) + [Transmission(RawFrame(request.frameId, request.cmd, true, request.data), a.write)]
      ensures request.frameId == old(request.frameId) && request.want == old(request.want)
      ensures var answered := ret >= 0 && Answers(a.arrival, request.frameId, request.want);
        && request.HasReply(if answered then a.arrival else None)
        && reply == (if answered then null else request)
    {
      ret := RawWrite(request.frameId, request.cmd, true, request.data, a.write);
      if ret >= 0 && a.arrival.Some? {
        var _ := ProcessReply(a.arrival.value);
      }
    }

    /**
     * pcat_pmu_execute: take a frame id if the request has none, occupy the
     * reply slot, default the expected reply, then run the exchange.
     */
    method Execute(request: Request, attempts: nat -> Attempt) returns (ret: int)
      modifies this`frame, this`reply, this`sent, request
      ensures frame == if old(request.frameId) == 0 then (old(frame) + 1) % 0x1_0000 else old(frame)
      ensures request.frameId == if old(request.frameId) == 0 then frame else old(request.frameId)
      ensures request.want == old(request.Want())
      ensures var o := Execution(attempts, RawFrame(request.frameId, request.cmd, true, request.data), request.want, 0);
        ret == o.ret && sent == old(sent) + o.sent && request.HasReply(o.answer)
      ensures reply == null
    {
      request.received := false;
      request.replyHead, request.replyFoot, request.replyData := ZeroHead, ZeroFoot, [];
      if request.frameId == 0 {
        request.frameId := NextFrameId();
      }
      reply := request;
      if request.want == 0 {
        request.want := (request.cmd + 1) % 0x1_0000;
      }
      ret := Exchange(request, attempts);
    }

    /**
     * The send-and-wait loop of `pcat_pmu_execute`: at most four rounds; a
     * write error or the last timeout frees the reply slot, a reply has
     * already freed it.
     */
    method Exchange(request: Request, attempts: nat -> Attempt) returns (ret: int)
      requires reply == request && request.Want() == request.want && request.HasReply(None)
      modifies this`reply, this`sent, request
      ensures request.frameId == old(request.frameId) && request.want == old(request.want)
      ensures var o := Execution(attempts, RawFrame(request.frameId, request.cmd, true, request.data), request.want, 0);
        ret == o.ret && sent == old(sent) + o.sent && request.HasReply(o.answer)
      ensures reply == null
    {
      ghost var req := RawFrame(request.frameId, request.cmd, true, request.data);
      ghost var id, want := request.frameId, request.want;
      ghost var start := sent;
      var retries := 0;
      while true
        invariant retries <= MaxRetries
        invariant request.frameId == id && request.want == want == request.Want() && reply == request && request.HasReply(None)
        invariant sent == start + Rounds(attempts, req, retries)
        invariant forall j :: 0 <= j < retries ==> Unanswered(attempts, id, want, j)
        decreases MaxRetries - retries
      {
        ret := Transmit(request, attempts(retries));
        assert sent == start + Rounds(attempts, req, retries + 1);
        if ret < 0 {
          ExecutionWriteError(attempts, req, want, retries);
          break;
        }
        if !request.received {
          assert Unanswered(attempts, id, want, retries);
          if retries < MaxRetries {
            retries := retries + 1;
            continue;
          }
          ExecutionTimesOut(attempts, req, want);
          ret := -ETIMEDOUT;
          break;
        }
        ExecutionAnswered(attempts, req, want, retries);
        ret := 0;
        break;
      }
      if ret < 0 {
        reply := null;
      }
    }

    /** pcat_pmu_write_data: send a payload and wait for the command's acknowledgement. */
    method WriteData(cmd: u16, data: seq<byte>, attempts: nat -> Attempt) returns (ret: int)
      modifies this`frame, this`reply, this`sent
      ensures frame == (old(frame) + 1) % 0x1_0000 && reply == null
      ensures var o := Execution(attempts, RawFrame(frame, cmd, true, data), (cmd + 1) % 0x1_0000, 0);
        ret == o.ret && sent == old(sent) + o.sent
    {
      var request := new Request(cmd, data);
      ret := Execute(request, attempts);
    }

    /**
     * pcat_pmu_read_string: clear all `len` bytes of `str`, ask, and copy in
     * at most `len - 1` bytes of the reply, so the string always ends in 0.
     * `str` is the caller's, never the core's private receive buffer, which
     * is left as it was.
     */
    method ReadString(cmd: u16, str: array<byte>, attempts: nat -> Attempt) returns (ret: int)
      requires str.Length >= 1 && str != buffer
      modifies this`frame, this`reply, this`sent, str
      ensures frame == (old(frame) + 1) % 0x1_0000 && reply == null
      ensures length == old(length) && buffer[..] == old(buffer[..]) && (old(Valid()) ==> Valid())
      ensures var o := Execution(attempts, RawFrame(frame, cmd, true, []), (cmd + 1) % 0x1_0000, 0);
        && ret == o.ret && sent == old(sent) + o.sent
        && str[..] == StringOf(if o.answer.Some? then o.answer.value.data else [], str.Length)
    {
      var request := new Request(cmd, []);
      forall i | 0 <= i < str.Length {
        str[i] := 0;
      }
      ret := Execute(request, attempts);
      if |request.replyData| > 0 {
        var k := Min(str.Length - 1, |request.replyData|);
        forall i | 0 <= i < k {
          str[i] := request.replyData[i];
        }
      }
      assert str[..] == StringOf(request.replyData, str.Length);
    }

    /** pcat_pmu_write_u8: a one-byte payload through `pcat_pmu_write_data`. */
    method WriteU8(cmd: u16, v: byte, attempts: nat -> Attempt) returns (ret: int)
      modifies this`frame, this`reply, this`sent
      ensures frame == (old(frame) + 1) % 0x1_0000 && reply == null
      ensures var o := Execution(attempts, RawFrame(frame, cmd, true, [v]), (cmd + 1) % 0x1_0000, 0);
        ret == o.ret && sent == old(sent) + o.sent
    {
      ret := WriteData(cmd, [v], attempts);
    }

    /**
     * pcat_process_data: classify the buffer; a valid frame goes to the
     * waiting request if it is its reply, otherwise to the listeners, and is
     * acknowledged when they leave it alone and it asks for that.
     * `delivered` is the frame handed to the notifier chain, if any.
     */
    method ProcessData(data: seq<byte>, chain: seq<Listener>, ack: Writes) returns (ret: int, delivered: Option<Frame>)
      modifies this`reply, this`sent, reply
      ensures ret == DecodeStatus(Decode(data))
      ensures !Decode(data).Valid? ==> reply == old(reply) && sent == old(sent) && delivered == None
      ensures !Decode(data).Valid? && old(reply) != null ==> unchanged(old(reply))
      ensures Decode(data).Valid? ==>
        var f := Decode(data).frame;
        var taken := old(reply) != null && old(reply.AnsweredBy(f.head));
        && (taken ==> reply == null && sent == old(sent) && delivered == None)
        && (!taken ==> reply == old(reply) && delivered == Some(f))
        && (!taken ==> sent == old(sent) + (if NeedsAck(f, ChainResult(chain, f.head.command, f)) then [AckOf(f, ack)] else []))
        && (old(reply) != null ==> Offered(old(reply.State()), old(reply).cmd, f, taken, old(reply).State()))
    {
      delivered := None;
      var d := Decode(data);
      ret := DecodeStatus(d);
      if !d.Valid? {
        return;
      }
      var f := d.frame;
      var processed := ProcessReply(f);
      if processed {
        return;
      }
      delivered := Some(f);
      var verdict := ChainResult(chain, f.head.command, f);
      if verdict == NOTIFY_DONE && f.foot.needAck != 0 {
        var _ := RawWrite(f.head.frameId, (f.head.command + 1) % 0x1_0000, false, [], ack);
      }
    }

    /**
     * The copy `pcat_pmu_receive_buf` makes: as much of `buf` as fits goes
     * after the bytes gathered so far.
     */
    method Gather(buf: seq<byte>) returns (processed: nat)
      requires Valid() && |buf| > 0
      modifies this`length, buffer
      ensures processed == Min(|buf|, BufferSize - old(length))
      ensures length == old(length) + processed <= BufferSize
      ensures buffer[..length] == old(buffer[..length]) + buf[..processed]
    {
      var newLen := length + |buf|;
      processed := |buf|;
      if newLen > BufferSize {
        newLen := BufferSize;
        processed := newLen - length;
      }
      forall i | length <= i < newLen {
        buffer[i] := buf[i - length];
      }
      length := newLen;
    }

    /**
     * pcat_pmu_receive_buf: append what fits of `buf` to the buffer, classify
     * it, and empty the buffer unless a frame is still arriving. Returns how
     * many bytes were taken, and the frame handed to the notifier chain, if
     * any: the bytes gathered so far decide everything, as `ProcessData` on
     * them does.
     */
    method ReceiveBuf(buf: seq<byte>, chain: seq<Listener>, ack: Writes) returns (processed: nat, delivered: Option<Frame>)
      requires Valid()
      modifies this`length, this`reply, this`sent, buffer, reply
      ensures Valid()
      ensures |buf| == 0 ==> processed == 0 && length == old(length) && sent == old(sent) && reply == old(reply)
      ensures |buf| == 0 ==> buffer[..] == old(buffer[..]) && delivered == None
      ensures |buf| == 0 && old(reply) != null ==> unchanged(old(reply))
      ensures |buf| > 0 ==> processed == Min(|buf|, BufferSize - old(length))
      ensures |buf| > 0 ==> var received := old(buffer[..length]) + buf[..processed];
        && buffer[..|received|] == received
        && length == (if Decode(received) == NeedMore then |received| else 0)
      ensures old(length) == BufferSize ==> processed == 0 && length == BufferSize
      ensures |buf| > 0 ==>
        var d := Decode(old(buffer[..length]) + buf[..processed]);
        && (!d.Valid? ==> reply == old(reply) && sent == old(sent) && delivered == None)
        && (!d.Valid? && old(reply) != null ==> unchanged(old(reply)))
        && (d.Valid? ==>
          var f := d.frame;
          var taken := old(reply) != null && old(reply.AnsweredBy(f.head));
          && (taken ==> reply == null && sent == old(sent) && delivered == None)
          && (!taken ==> reply == old(reply) && delivered == Some(f))
          && (!taken ==> sent == old(sent) + (if NeedsAck(f, ChainResult(chain, f.head.command, f)) then [AckOf(f, ack)] else []))
          && (old(reply) != null ==> Offered(old(reply.State()), old(reply).cmd, f, taken, old(reply).State())))
    {
      delivered := None;
      if |buf| == 0 {
        return 0, None;
      }
      processed := Gather(buf);
      var ret;
      ret, delivered := ProcessData(buffer[..length], chain, ack);
      if ret != -EAGAIN {
        length := 0;
      }
    }
  }

  // ---------------------------------------------------------------------
  // Reassembly
  // ---------------------------------------------------------------------

  /**
   * A frame for this host whose head declares more than the buffer can hold
   * stays "need more" in every buffer that fits: such a frame never
   * completes, and once the buffer is full every later call takes nothing.
   */
  lemma OversizedFrameNeverCompletes(b: seq<byte>, sum: seq<byte> -> u16)
    requires HeadSize <= |b| <= BufferSize
    requires var h := ParseHead(b);
      h.magicHead == MAGIC_HEAD && ForThisHost(h) && BufferSize - HeadSize - 1 < h.length < U16_MAX - 4
    ensures DecodeBy(b, sum) == NeedMore
  {
  }
}
