/** User/serial_monitor_lib.py: the dynamic-mode reader thread of the host. */
module HostSpec {
  import opened Common
  import opened WireFormat

  /** `format` is dataFormat without its leading '<'. */
  datatype Host = Host(isRun: bool, numBytes: int, format: seq<byte>, delivered: seq<seq<Field>>)
  {
    function Reset(): Host { this.(numBytes := -1, format := []) }
  }

  function Signed(b: byte): int { if b < 128 then b else b - 256 }

  /** One turn of the reader loop, with the bytes the operating system has waiting. */
  function HostStep(h: Host, waiting: seq<byte>): (r: (Host, seq<byte>))
  {
    if !h.isRun then (h, waiting)
    else if |waiting| > 0 && h.numBytes == -1 then
      (h.(numBytes := Signed(waiting[0])), waiting[1..])
    else if |waiting| >= h.numBytes && h.numBytes > 0 then
      var h' := h.(numBytes := h.numBytes - 1);
      if waiting[0] != 0 then (FormatByte(h', waiting[0]), waiting[1..])
      else FormatDone(h', waiting[1..])
    else if h.numBytes == 0 then (h.(numBytes := -1), waiting)
    else (h, waiting)
  }

  /** A format character: undecodable ones end the thread, impossible formats start over. */
  function FormatByte(h: Host, b: byte): Host {
    if b >= 128 then h.(isRun := false)
    else
      var h' := h.(format := h.format + [b]);
      if !IsDigit(b) && CalcSize(h'.format).None? then h'.Reset() else h'
  }

  /** The NUL after the format: the payload is read only if its size is what remains. */
  function FormatDone(h: Host, rest: seq<byte>): (r: (Host, seq<byte>))
    requires 0 <= h.numBytes <= |rest|
  {
    var size := CalcSize(h.format);
    if size.None? then (h.(isRun := false), rest)
    else if size.value == h.numBytes then
      var m := Unpack(h.format, rest[..h.numBytes]);
      if IsAscii(m) then (h.Reset().(delivered := h.delivered + [m]), rest[h.numBytes..])
      else (h.(isRun := false), rest[h.numBytes..])
    else (h.Reset(), rest)
  }

  /** n turns of the loop while nothing more arrives. */
  function HostRun(h: Host, waiting: seq<byte>, n: nat): (r: (Host, seq<byte>))
    decreases n
  {
    if n == 0 then (h, waiting)
    else var (h', rest) := HostStep(h, waiting); HostRun(h', rest, n - 1)
  }

  const IDLE: Host := Host(true, -1, [], [])

  // ----- One frame -----

  lemma FormatByteRead(h: Host, m: seq<Field>, j: nat, rest: seq<byte>)
    requires AllSendable(m) && j < |m| && h.isRun && h.format == FormatOf(m)[..j]
    requires 0 < h.numBytes <= 1 + |rest|
    ensures HostStep(h, [FormatOf(m)[j]] + rest) ==
            (h.(numBytes := h.numBytes - 1, format := FormatOf(m)[..j + 1]), rest)
  {
    var f := FormatOf(m);
    FieldRoundTrip(m[j]);
    CalcSizePrefix(m, j + 1);
    assert f[..j + 1] == f[..j] + [f[j]];
    assert ([f[j]] + rest)[1..] == rest;
  }

  lemma HostRunMore(h: Host, waiting: seq<byte>, n: nat)
    requires n > 0
    ensures var r := HostStep(h, waiting); HostRun(h, waiting, n) == HostRun(r.0, r.1, n - 1)
  {
    hide HostStep;
  }

  lemma SplitAt<T>(f: seq<T>, end: seq<T>, j: nat)
    requires j <= |f|
    ensures j == |f| ==> f[..j] == f && f[j..] + end == end
    ensures j < |f| ==> f[j..] + end == [f[j]] + (f[j + 1..] + end)
  {
  }

  lemma {:induction false} FormatRead(h: Host, m: seq<Field>, j: nat, tail: seq<byte>)
    requires AllSendable(m) && j <= |m| && h.isRun
    requires h.format == FormatOf(m)[..j] && h.numBytes == |m| - j + 1 + |Pack(m)|
    ensures HostRun(h, FormatOf(m)[j..] + ([0] + Pack(m) + tail), |m| - j) ==
            (h.(numBytes := 1 + |Pack(m)|, format := FormatOf(m)), [0] + Pack(m) + tail)
    decreases |m| - j
  {
    hide HostStep, Pack, FormatOf, AllSendable;
    var f := FormatOf(m);
    var end := [0] + Pack(m) + tail;
    SplitAt(f, end, j);
    if j < |m| {
      var rest := f[j + 1..] + end;
      hide *;
      FormatByteRead(h, m, j, rest);
      FormatRead(h.(numBytes := h.numBytes - 1, format := f[..j + 1]), m, j + 1, tail);
      HostRunMore(h, [f[j]] + rest, |m| - j);
    }
  }

  lemma LengthRead(h: Host, m: seq<Field>, tail: seq<byte>)
    requires h.isRun && h.numBytes == -1 && |Encode(m)| <= 128
    ensures HostStep(h, Encode(m) + tail) ==
            (h.(numBytes := |m| + 1 + |Pack(m)|), FormatOf(m) + ([0] + Pack(m) + tail))
  {
    var f, p := FormatOf(m), Pack(m);
    assert Encode(m) == [1 + |m| + |p|] + f + [0] + p;
    hide Encode, FormatOf, Pack;
    FrameTail(1 + |m| + |p|, f, p, tail);
  }

  lemma FrameTail(len: byte, f: seq<byte>, p: seq<byte>, tail: seq<byte>)
    ensures var all := [len] + f + [0] + p + tail; all[0] == len && all[1..] == f + ([0] + p + tail)
  {
  }

  lemma PayloadRead(h: Host, m: seq<Field>, tail: seq<byte>)
    requires h.isRun && AllSendable(m) && h.format == FormatOf(m) && h.numBytes == 1 + |Pack(m)|
    ensures HostStep(h, [0] + Pack(m) + tail) ==
            (if Ascii(m) then h.Reset().(delivered := h.delivered + [m])
             else h.(isRun := false, numBytes := |Pack(m)|), tail)
  {
    hide CalcSize, Unpack, IsAscii;
    var p := Pack(m);
    UnpackPack(m);
    assert ([0] + p + tail)[1..] == p + tail;
    assert (p + tail)[..|p|] == p && (p + tail)[|p|..] == tail;
    assert IsAscii(m) <==> Ascii(m);
  }

  lemma {:induction false} HostRunSplit(h: Host, waiting: seq<byte>, a: nat, b: nat)
    ensures var r := HostRun(h, waiting, a); HostRun(h, waiting, a + b) == HostRun(r.0, r.1, b)
    decreases a
  {
    if a == 0 {
    } else {
      var r := HostStep(h, waiting);
      HostRunSplit(r.0, r.1, a - 1, b);
    }
  }

  /** An idle reader that has a whole frame waiting delivers exactly its message, unless a 'c' value
      is not ASCII: then the thread ends with nothing delivered. */
  lemma FrameDecoded(h: Host, m: seq<Field>, tail: seq<byte>)
    requires h.isRun && h.numBytes == -1 && h.format == []
    requires AllSendable(m) && m != [] && |Encode(m)| <= 128
    ensures var r := HostRun(h, Encode(m) + tail, |m| + 2);
            r.1 == tail && r.0.isRun == Ascii(m) &&
            r.0.delivered == (if Ascii(m) then h.delivered + [m] else h.delivered)
  {
    hide HostStep, Encode, Ascii;
    var waiting := Encode(m) + tail;
    var h1 := h.(numBytes := |m| + 1 + |Pack(m)|);
    var w1 := FormatOf(m) + ([0] + Pack(m) + tail);
    var h2 := h1.(numBytes := 1 + |Pack(m)|, format := FormatOf(m));
    LengthRead(h, m, tail);
    assert FormatOf(m)[0..] == FormatOf(m);
    FormatRead(h1, m, 0, tail);
    HostRunSplit(h1, w1, |m|, 1);
    PayloadRead(h2, m, tail);
    HostRunOnce(h2, [0] + Pack(m) + tail);
  }

  lemma HostRunOnce(h: Host, waiting: seq<byte>)
    ensures HostRun(h, waiting, 1) == HostStep(h, waiting)
  {
    var r := HostStep(h, waiting);
    assert HostRun(r.0, r.1, 0) == r;
  }

  /** A length byte from 128 to 254 is read as a negative count: the reader never moves again. */
  lemma {:induction false} LongFrameStalls(h: Host, len: byte, waiting: seq<byte>, n: nat)
    requires h.isRun && h.numBytes == -1 && 128 <= len <= 254
    ensures var h' := HostStep(h, [len] + waiting).0;
            h'.delivered == h.delivered && HostRun(h', waiting, n) == (h', waiting)
  {
    if n == 0 {
    } else {
      LongFrameStalls(h, len, waiting, n - 1);
    }
  }
}

module HostDecoder {
  import opened Common
  import opened WireFormat
  import opened HostSpec

  /** SerialData in dynamic mode. */
  class SerialData {
    var isRun: bool
    var dataNumBytes: int
    var dataFormat: seq<byte>
    var rawData: seq<byte>
    var delivered: seq<seq<Field>>   // what the callbacks received

    ghost function Abs(): Host
      reads this
    {
      Host(isRun, dataNumBytes, dataFormat, delivered)
    }

    /** setDataFormat("Dynamic") on a started thread. */
    constructor ()
      ensures Abs() == IDLE
    {
      isRun, dataNumBytes, dataFormat, rawData, delivered := true, -1, [], [], [];
    }

    /** parseData: the callbacks run only if every character decodes. */
    method ParseData()
      requires CalcSize(dataFormat) == Some(|rawData|)
      modifies this`delivered, this`isRun
      ensures var m := Unpack(dataFormat, rawData);
              if IsAscii(m) then delivered == old(delivered) + [m] && isRun == old(isRun)
              else delivered == old(delivered) && !isRun
    {
      var value := Unpack(dataFormat, rawData);
      var i := 0;
      while i < |value|
        invariant 0 <= i <= |value|
        invariant forall k :: 0 <= k < i ==> value[k].Chr? ==> value[k].c < 128
        invariant delivered == old(delivered) && isRun == old(isRun)
      {
        if value[i].Chr? && value[i].c >= 128 {
          isRun := false;
          return;
        }
        i := i + 1;
      }
      delivered := delivered + [value];
    }

    /** One turn of backgroundThread; what it does not read stays waiting. */
    method Turn(waiting: seq<byte>) returns (rest: seq<byte>)
      modifies this
      ensures (Abs(), rest) == HostStep(old(Abs()), waiting)
    {
      rest := waiting;
      if !isRun {
        return;
      }
      if |rest| > 0 && dataNumBytes == -1 {
        dataNumBytes := Signed(rest[0]);
        rest := rest[1..];
      } else if |rest| >= dataNumBytes && dataNumBytes > 0 {
        var tmp := rest[0];
        rest := rest[1..];
        dataNumBytes := dataNumBytes - 1;
        if tmp != 0 {
          if tmp >= 128 {
            isRun := false;
            return;
          }
          dataFormat := dataFormat + [tmp];
          if !IsDigit(tmp) && CalcSize(dataFormat).None? {
            dataNumBytes, dataFormat := -1, [];
          }
        } else {
          var size := CalcSize(dataFormat);
          if size.None? {
            isRun := false;
            return;
          }
          if size.value == dataNumBytes {
            rawData := rest[..dataNumBytes];
            rest := rest[dataNumBytes..];
            ParseData();
            if !isRun {
              return;
            }
          }
          dataNumBytes, dataFormat := -1, [];
        }
      } else if dataNumBytes == 0 {
        dataNumBytes := -1;
      }
    }
  }
}
