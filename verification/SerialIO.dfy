/** Driver/SerialIO.c: the transmit and receive rings between the USB endpoints and the program. */
module SerialIO {
  import opened Common
  import opened Bits
  import opened Deque
  import opened Ring_Buffer
  import opened WireFormat

  const RB_LENGTH_C: nat := 64
  const CAPACITY: nat := 63

  lemma RingSize()
    ensures IsRingSize(RB_LENGTH_C)
  {
    assert Pow2(6) == 64 by {
      assert Pow2(3) == 8;
    }
  }

  /** The bulk OUT endpoint: the packets the host sent and the device has not acknowledged; the
      front one is the bank being read. */
  class OutEndpoint {
    var packets: seq<seq<byte>>

    constructor ()
      ensures packets == []
    {
      packets := [];
    }
  }

  // ----- What one call of usb_read_next_byte does to the receive side -----

  datatype Receiver = Receiver(ring: seq<byte>, clearBuffer: bool, reading: bool)

  function ReadByte(r: Receiver, packets: seq<seq<byte>>): (r': (Receiver, seq<seq<byte>>))
    requires |r.ring| <= CAPACITY
    ensures |r'.0.ring| <= CAPACITY
  {
    if packets == [] then (r, packets)
    else if packets[0] != [] then
      (Receiver(if r.clearBuffer then r.ring else PushBack(CAPACITY, r.ring, packets[0][0]), r.clearBuffer, true),
       packets[0 := packets[0][1..]])
    else if r.reading then (r.(clearBuffer := false), packets[1..])
    else (r, packets)
  }

  class Serial {
    const receiveBuffer: RingBuffer<byte>
    const sendBuffer: RingBuffer<byte>
    var clearBuffer: bool
    var reading: bool
    var sending: bool

    ghost predicate Valid()
      reads this, receiveBuffer, receiveBuffer.buffer, sendBuffer, sendBuffer.buffer
    {
      && receiveBuffer != sendBuffer && receiveBuffer.buffer != sendBuffer.buffer
      && receiveBuffer.Valid() && receiveBuffer.buffer.Length == RB_LENGTH_C
      && sendBuffer.Valid() && sendBuffer.buffer.Length == RB_LENGTH_C
    }

    ghost function Rx(): (r: Receiver)
      requires Valid()
      reads this, receiveBuffer, receiveBuffer.buffer, sendBuffer, sendBuffer.buffer
      ensures |r.ring| <= CAPACITY
    {
      Receiver(receiveBuffer.contents, clearBuffer, reading)
    }

    /** USB_SetupHardware */
    constructor ()
      ensures Valid() && fresh(receiveBuffer) && fresh(receiveBuffer.buffer)
      ensures fresh(sendBuffer) && fresh(sendBuffer.buffer)
      ensures Rx() == Receiver([], false, false) && sendBuffer.contents == [] && !sending
    {
      RingSize();
      var cells0, cells1 := new byte[RB_LENGTH_C], new byte[RB_LENGTH_C];
      receiveBuffer := new RingBuffer(cells0, 0);
      sendBuffer := new RingBuffer(cells1, 0);
      clearBuffer, reading, sending := false, false, false;
    }

    // ----- Receiving -----

    /** usb_read_next_byte */
    method ReadNextByte(out: OutEndpoint)
      requires Valid()
      modifies this`clearBuffer, this`reading, receiveBuffer, receiveBuffer.buffer, out
      ensures Valid()
      ensures (Rx(), out.packets) == ReadByte(old(Rx()), old(out.packets))
    {
      hide Live, IsRingSize, Deque.PushBack;
      if out.packets != [] {
        if out.packets[0] != [] {
          reading := true;
          var data := out.packets[0][0];
          out.packets := out.packets[0 := out.packets[0][1..]];
          if !clearBuffer {
            receiveBuffer.PushBack(data);
          }
        } else if reading {
          out.packets := out.packets[1..];
          clearBuffer := false;
          reading := true;
        }
      }
    }

    /** usb_msg_length */
    method MsgLength() returns (n: nat)
      requires Valid()
      ensures n == |receiveBuffer.contents|
    {
      n := receiveBuffer.Length();
    }

    /** usb_msg_peek */
    method MsgPeek() returns (b: byte)
      requires Valid()
      ensures b == if receiveBuffer.contents == [] then 0 else receiveBuffer.contents[0]
    {
      var n := receiveBuffer.Length();
      if n != 0 {
        b := receiveBuffer.Get(0);
      } else {
        b := 0;
      }
    }

    /** usb_msg_get */
    method MsgGet() returns (b: byte)
      requires Valid()
      modifies receiveBuffer
      ensures Valid()
      ensures old(receiveBuffer.contents) == [] ==> b == 0 && receiveBuffer.contents == []
      ensures old(receiveBuffer.contents) != [] ==>
                b == old(receiveBuffer.contents)[0] && receiveBuffer.contents == old(receiveBuffer.contents)[1..]
    {
      hide Live, IsRingSize;
      var n := receiveBuffer.Length();
      if n != 0 {
        b := receiveBuffer.PopFront();
      } else {
        b := 0;
      }
    }

    /** usb_msg_read_into: all the bytes asked for, or none. */
    method MsgReadInto(dataLen: nat) returns (ok: bool, data: seq<byte>)
      requires Valid()
      modifies receiveBuffer
      ensures Valid() && ok == (dataLen <= |old(receiveBuffer.contents)|)
      ensures ok ==> data == old(receiveBuffer.contents)[..dataLen] &&
                     receiveBuffer.contents == old(receiveBuffer.contents)[dataLen..]
      ensures !ok ==> data == [] && receiveBuffer.contents == old(receiveBuffer.contents)
    {
      hide Live, IsRingSize;
      data := [];
      var n := receiveBuffer.Length();
      if n < dataLen {
        return false, data;
      }
      ghost var q := receiveBuffer.contents;
      for i := 0 to dataLen
        invariant Valid() && data == q[..i] && receiveBuffer.contents == q[i..]
      {
        var b := receiveBuffer.PopFront();
        data := data + [b];
      }
      ok := true;
    }

    /** usb_flush_input_buffer */
    method FlushInputBuffer()
      requires Valid()
      modifies this`clearBuffer, receiveBuffer
      ensures Valid() && Rx() == Receiver([], true, old(reading))
    {
      hide Live, IsRingSize;
      receiveBuffer.Initialize();
      clearBuffer := true;
    }

    // ----- Sending -----

    /** usb_send_byte */
    method SendByte(b: byte)
      requires Valid()
      modifies sendBuffer, sendBuffer.buffer
      ensures Valid() && sendBuffer.contents == Deque.PushBack(CAPACITY, old(sendBuffer.contents), b)
    {
      hide Live, IsRingSize;
      sendBuffer.PushBack(b);
    }

    /** usb_send_data */
    method SendData(data: seq<byte>)
      requires Valid()
      modifies sendBuffer, sendBuffer.buffer
      ensures Valid() && sendBuffer.contents == PushAll(CAPACITY, old(sendBuffer.contents), data)
    {
      ghost var q := sendBuffer.contents;
      assert PushAll(CAPACITY, q, data[..0]) == q;
      hide Live, IsRingSize, PushAll, Deque.PushBack;
      for i := 0 to |data|
        invariant Valid() && sendBuffer.contents == PushAll(CAPACITY, q, data[..i])
      {
        PushAllNext(CAPACITY, q, data, i);
        sendBuffer.PushBack(data[i]);
      }
      assert data[..|data|] == data;
    }

    /** usb_send_str: the characters of the C string and its terminating NUL. */
    method SendStr(s: seq<byte>)
      requires Valid() && 0 !in s
      modifies sendBuffer, sendBuffer.buffer
      ensures Valid() && sendBuffer.contents == PushAll(CAPACITY, old(sendBuffer.contents), s + [0])
    {
      ghost var q := sendBuffer.contents;
      assert PushAll(CAPACITY, q, (s + [0])[..0]) == q;
      hide Live, IsRingSize, PushAll, Deque.PushBack;
      for i := 0 to |s|
        invariant Valid() && sendBuffer.contents == PushAll(CAPACITY, q, (s + [0])[..i])
      {
        PushAllNext(CAPACITY, q, s + [0], i);
        sendBuffer.PushBack(s[i]);
      }
      PushAllNext(CAPACITY, q, s + [0], |s|);
      sendBuffer.PushBack(0);
      assert (s + [0])[..|s| + 1] == s + [0];
    }

    /** usb_send_msg: the frame goes through the ring, which keeps only the newest 63 bytes. */
    method SendMsg(format: seq<byte>, cmd: byte, data: seq<byte>)
      requires Valid() && 0 !in format
      modifies sendBuffer, sendBuffer.buffer
      ensures Valid()
      ensures sendBuffer.contents == PushAll(CAPACITY, old(sendBuffer.contents), Frame(format, cmd, data))
      ensures |old(sendBuffer.contents)| + |Frame(format, cmd, data)| <= CAPACITY ==>
                sendBuffer.contents == old(sendBuffer.contents) + Frame(format, cmd, data)
    {
      hide Live, IsRingSize, PushAll, Deque.PushBack, FrameLength;
      ghost var q := sendBuffer.contents;
      var len: byte := FrameLength(|format|, |data|);
      SendByte(len);
      SendStr(format);
      SendByte(cmd);
      SendData(data);
      FramePushed(q, format, cmd, data);
      PushAllKeepsLast(CAPACITY, q, Frame(format, cmd, data));
      assert sendBuffer.contents == PushAll(CAPACITY, q, Frame(format, cmd, data));
    }

    /** usb_out_msg_length */
    method OutMsgLength() returns (n: nat)
      requires Valid()
      ensures n == |sendBuffer.contents|
    {
      n := sendBuffer.Length();
    }

    /** usb_write_next_byte: at most one byte leaves, and only when the IN endpoint is ready. */
    method WriteNextByte(inReady: bool) returns (sent: seq<byte>)
      requires Valid()
      modifies this`sending, sendBuffer
      ensures Valid()
      ensures sent + sendBuffer.contents == old(sendBuffer.contents)
      ensures |sent| == if inReady && old(sendBuffer.contents) != [] then 1 else 0
      ensures sending == (old(sendBuffer.contents) != [] || (old(sending) && !inReady))
    {
      hide Live, IsRingSize;
      sent := [];
      var n := sendBuffer.Length();
      if n != 0 {
        sending := true;
        if inReady {
          var data := sendBuffer.PopFront();
          sent := [data];
        }
      } else {
        if sending {
          if inReady {
            sending := false;
          }
        }
      }
    }
  }

  lemma FramePushed(q: seq<byte>, format: seq<byte>, cmd: byte, data: seq<byte>)
    requires |q| <= CAPACITY
    ensures PushAll(CAPACITY, q, Frame(format, cmd, data)) ==
            PushAll(CAPACITY,
                    Deque.PushBack(CAPACITY,
                      PushAll(CAPACITY, Deque.PushBack(CAPACITY, q, FrameLength(|format|, |data|)), format + [0]),
                      cmd), data)
  {
    hide PushAll, Deque.PushBack, FrameLength;
    PushAllPieces(CAPACITY, q, FrameLength(|format|, |data|), format + [0], cmd, data);
    Regroup([FrameLength(|format|, |data|)], format, [0], [cmd], data);
  }
}
