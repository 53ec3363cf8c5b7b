/**
 The firmware's sending side: `wifi2uart` takes packets from the queue, frames each into one
 buffer and feeds the transmit FIFO as much of it as there is room for, call by call.
 */
module EspSender {
  import opened Framing
  import opened PacketQueue

  /** Free room as the code computes it, in eight bits, which wraps for a level above 128. */
  function Room(txfifoCnt: byte): (r: byte)
    ensures r == if txfifoCnt <= UART_FIFO_LEN then UART_FIFO_LEN - txfifoCnt else 256 + UART_FIFO_LEN - txfifoCnt
  {
    (UART_FIFO_LEN - txfifoCnt) % 256
  }

  // ---------------------------------------------------------------------------
  // One call of wifi2uart
  // ---------------------------------------------------------------------------

  /** The queue, what is left of the frame being sent, and whether the send buffer was overrun. */
  datatype Sending = Sending(queue: seq<bytes>, pending: bytes, overrun: bool)

  /** With nothing pending, the next packet is framed; one above 1500 bytes overruns the buffer. */
  function Framed(s: Sending): Sending {
    if s.overrun || s.pending != [] || s.queue == [] then s
    else if |s.queue[0]| > MTU_LEN then s.(queue := s.queue[1..], overrun := true)
    else s.(queue := s.queue[1..], pending := Encode(s.queue[0]))
  }

  /** How many bytes of what is pending go to a FIFO at level `txfifoCnt`, of 128 bytes. */
  function Fits(pending: bytes, txfifoCnt: byte): nat {
    Min(|pending|, if txfifoCnt <= UART_FIFO_LEN then UART_FIFO_LEN - txfifoCnt else 384 - txfifoCnt)
  }

  /** The bytes written, and what is left. */
  function Fed(s: Sending, txfifoCnt: byte): bytes {
    if s.overrun then [] else s.pending[..Fits(s.pending, txfifoCnt)]
  }

  function Remaining(s: Sending, txfifoCnt: byte): Sending {
    if s.overrun then s else s.(pending := s.pending[Fits(s.pending, txfifoCnt)..])
  }

  predicate AllFit(ps: seq<bytes>) {
    forall p <- ps :: |p| <= MTU_LEN
  }

  class Sender {
    const queue: ThreadSafeQueue
    const uartSendbuffer: array<byte>
    var uartSendLen: nat
    var uartSendPtr: nat  // offset of the next byte to send
    ghost var frame: bytes  // the frame in the buffer
    var overrun: bool  // a packet was copied past the end of the buffer
    ghost var taken: seq<bytes>  // packets framed so far
    ghost var spilled: seq<bytes>  // the packet that overran the buffer
    ghost var written: bytes  // bytes given to the FIFO so far

    ghost predicate Valid()
      reads this, uartSendbuffer
    {
      && uartSendbuffer.Length == MAX_FRAME_LEN
      && uartSendPtr + uartSendLen == |frame| <= MAX_FRAME_LEN
      && uartSendbuffer[..|frame|] == frame
      && written + frame[uartSendPtr..] == EncodeAll(taken) && AllFit(taken)
      && (if overrun then |spilled| == 1 && |spilled[0]| > MTU_LEN else spilled == [])
    }

    /** What was accepted is what the sender took, what overran its buffer, and what still waits. */
    ghost predicate Holds(accepted: seq<bytes>)
      reads this, uartSendbuffer, queue, queue.spine
    {
      queue.Valid() && Valid() && accepted == taken + spilled + queue.Contents()
    }

    ghost function State(): Sending
      requires Valid()
      reads this, uartSendbuffer, queue
    {
      Sending(queue.Contents(), frame[uartSendPtr..], overrun)
    }

    constructor (queue: ThreadSafeQueue)
      ensures Valid() && taken == [] && written == [] && frame == [] && uartSendLen == uartSendPtr == 0 && !overrun
      ensures queue.Valid() && queue.Contents() == [] ==> Holds([]) && State() == Sending([], [], false)
      ensures this.queue == queue && fresh(uartSendbuffer)
    {
      this.queue := queue;
      uartSendbuffer := new byte[MAX_FRAME_LEN];
      uartSendLen, uartSendPtr, overrun, frame, taken, spilled, written := 0, 0, false, [], [], [], [];
    }

    /** `uart_wifi_recv`: a packet of the network is queued, or dropped if the queue does not take it. */
    method UartWifiRecv(p: bytes, elementOk: bool, dataOk: bool, accepted: seq<bytes>) returns (now: seq<bytes>)
      requires Holds(accepted)
      modifies queue, queue.spine
      ensures Holds(now) && forall x <- queue.spine :: x in old(queue.spine) || fresh(x)
      ensures now == accepted + if old(queue.Takes(p, elementOk, dataOk)) then [p] else []
      ensures State() == old(State()).(queue := State().queue)
      ensures State().queue == old(State().queue) + if old(queue.Takes(p, elementOk, dataOk)) then [p] else []
      ensures old(queue.Takes(p, elementOk, dataOk) == Takeable(State().queue, p, elementOk, dataOk))
    {
      hide Linked, DataOf, Total, EncodeAll;
      var code := queue.Enqueue(Some(p), elementOk, dataOk);
      now := accepted + if code == QUEUE_OK then [p] else [];
      assert code == QUEUE_OK ==> now == taken + spilled + queue.Contents();
    }

    /** Writes to the FIFO what fits of the `len` bytes at `ptr`. */
    method Uart0FillTxfifo(ptr: nat, len: nat, txfifoCnt: byte) returns (copied: nat, out: bytes)
      requires Valid() && ptr + len <= |frame|
      ensures txfifoCnt <= 128 ==> copied == Min(len, 128 - txfifoCnt)
      ensures txfifoCnt > 128 ==> copied == Min(len, 384 - txfifoCnt)
      ensures out == frame[ptr..ptr + copied]
      ensures txfifoCnt <= UART_FIFO_LEN ==> txfifoCnt + copied <= UART_FIFO_LEN
      ensures txfifoCnt < UART_FIFO_LEN && len > 0 ==> copied > 0
    {
      var room := Room(txfifoCnt);
      var copyCnt := if len >= room then room else len;
      copied, out := 0, [];
      while copied < copyCnt
        invariant copied <= copyCnt && out == frame[ptr..ptr + copied]
      {
        assert uartSendbuffer[ptr + copied] == frame[ptr + copied];
        out := out + [uartSendbuffer[ptr + copied]];
        copied := copied + 1;
      }
    }

    /** Builds the frame of `data` in the buffer. */
    method Frame(data: bytes)
      requires uartSendbuffer.Length == MAX_FRAME_LEN && |data| <= MTU_LEN
      modifies uartSendbuffer
      ensures uartSendbuffer[..|data| + 3] == Encode(data) && |Encode(data)| == |data| + 3
      ensures uartSendbuffer[|data| + 2] == 0x55
    {
      var n := |data|;
      forall i | 0 <= i < n {
        uartSendbuffer[2 + i] := data[i];
      }
      uartSendbuffer[0], uartSendbuffer[1] := n % 256, n / 256 % 256;
      uartSendbuffer[n + 2] := SPLIT_DATA;
    }

    /** The first half of `wifi2uart`: with nothing pending, frames the next packet of the queue. A
        packet above 1500 bytes does not fit the buffer the code copies it to. */
    method TakeNext()
      requires Valid() && queue.Valid() && !overrun
      modifies this`uartSendLen, this`uartSendPtr, this`overrun, this`frame, this`taken, this`spilled,
               uartSendbuffer, queue
      ensures Valid() && queue.Valid() && forall x <- queue.spine :: x in old(queue.spine)
      ensures State() == Framed(old(State()))
      ensures overrun <==> old(Overlong())
      ensures taken + spilled + queue.Contents() == old(taken + spilled + queue.Contents())
      ensures old(taken) <= taken && (overrun || old(uartSendLen) > 0 ==> taken == old(taken))
      ensures uartSendLen > 0 <==> !overrun && old(uartSendLen > 0 || queue.Contents() != [])
    {
      hide EncodeAll, Encode, Linked, DataOf, Total;
      if uartSendLen <= 0 {
        var code, data := queue.Dequeue();
        if code == QUEUE_OK {
          if |data| > MTU_LEN {
            overrun, spilled := true, [data];
            return;
          }
          Load(data);
        }
      }
    }

    /** Makes the frame of `data` the one to send. */
    method Load(data: bytes)
      requires Valid() && uartSendLen == 0 && |data| <= MTU_LEN
      modifies this`uartSendLen, this`uartSendPtr, this`frame, this`taken, uartSendbuffer
      ensures Valid() && taken == old(taken) + [data] && uartSendLen == |data| + 3
      ensures State() == old(State()).(pending := Encode(data))
    {
      hide EncodeAll, Encode;
      assert written == EncodeAll(taken) by { assert written + [] == written; }
      Frame(data);
      uartSendLen, uartSendPtr, frame := |data| + 3, 0, Encode(data);
      EncodeAllSnoc(taken, data);
      taken := taken + [data];
      assert frame[0..] == frame;
    }

    /** Nothing is pending, and the next packet of the queue does not fit the send buffer. */
    ghost predicate Overlong()
      reads this, queue
    {
      uartSendLen == 0 && queue.Contents() != [] && |queue.Contents()[0]| > MTU_LEN
    }

    /** One call of `wifi2uart`; `out` is what it wrote to the FIFO. After an overrun nothing is sent. */
    method Wifi2Uart(txfifoCnt: byte) returns (out: bytes)
      requires Valid() && queue.Valid()
      modifies this`uartSendLen, this`uartSendPtr, this`overrun, this`frame, this`taken, this`spilled, this`written,
               uartSendbuffer, queue
      ensures Valid() && queue.Valid() && forall x <- queue.spine :: x in old(queue.spine)
      ensures overrun <==> old(overrun || Overlong())
      ensures written == old(written) + out
      ensures var s := Framed(old(State())); out == Fed(s, txfifoCnt) && State() == Remaining(s, txfifoCnt)
      ensures taken + spilled + queue.Contents() == old(taken + spilled + queue.Contents())
      ensures old(taken) <= taken && (overrun || old(uartSendLen) > 0 ==> taken == old(taken))
      ensures txfifoCnt < UART_FIFO_LEN && !overrun && old(uartSendLen > 0 || queue.Contents() != []) ==> out != []
    {
      hide EncodeAll, Linked, DataOf, Total;
      out := [];
      if !overrun {
        TakeNext();
        out := Feed(txfifoCnt);
      }
    }

    /** The second half of `wifi2uart`: as much of what is pending as the FIFO has room for. */
    method Feed(txfifoCnt: byte) returns (out: bytes)
      requires Valid()
      modifies this`uartSendLen, this`uartSendPtr, this`written
      ensures Valid() && written == old(written) + out
      ensures out == old(State()).pending[..Fits(old(State()).pending, txfifoCnt)]
      ensures State() == old(State()).(pending := old(State()).pending[Fits(old(State()).pending, txfifoCnt)..])
      ensures txfifoCnt < UART_FIFO_LEN && old(uartSendLen) > 0 ==> out != []
    {
      hide EncodeAll, Room, AllFit, DataOf;
      ghost var was := frame[uartSendPtr..];
      out := [];
      if uartSendLen > 0 {
        var ret;
        ret, out := Uart0FillTxfifo(uartSendPtr, uartSendLen, txfifoCnt);
        assert ret == Fits(was, txfifoCnt);
        Advance(frame, uartSendPtr, ret, written);
        uartSendLen := uartSendLen - ret;
        uartSendPtr := uartSendPtr + ret;
        written := written + out;
        assert frame[uartSendPtr..] == was[ret..] && out == was[..ret];
      } else {
        assert was == [];
      }
    }
  }

  /** `n` more bytes of the frame are written. */
  lemma Advance(frame: bytes, ptr: nat, n: nat, written: bytes)
    requires ptr + n <= |frame|
    ensures frame[ptr..ptr + n] == frame[ptr..][..n] && frame[ptr + n..] == frame[ptr..][n..]
    ensures written + frame[ptr..] == (written + frame[ptr..ptr + n]) + frame[ptr + n..]
  {
  }
}
