/** The message format between the firmware (Driver/SerialIO.c) and the host
    (User/serial_monitor_lib.py): typed fields, their struct codes and their packed bytes. */
module WireFormat {
  import opened Common
  import opened Bits

  /** One value of a message. A float32 stays its four bytes; Raw stands for the other struct codes. */
  datatype Field =
    | Chr(c: byte)
    | I8(v: int)
    | U8(u: byte)
    | I16(v: int)
    | F32(raw: seq<byte>)
    | Raw(code: byte, raw: seq<byte>)

  /** Bytes taken by one struct code in little-endian standard mode; None for an invalid code. */
  function CodeSize(code: byte): (n: Option<nat>)
    ensures n.Some? ==> 1 <= n.value <= 8 && 1 <= code < 128 && !IsDigit(code)
  {
    var c := code as char;
    if c == 'c' || c == 'b' || c == 'B' || c == '?' then Some(1)
    else if c == 'h' || c == 'H' || c == 'e' then Some(2)
    else if c == 'i' || c == 'I' || c == 'l' || c == 'L' || c == 'f' then Some(4)
    else if c == 'q' || c == 'Q' || c == 'd' then Some(8)
    else None
  }

  predicate IsDigit(code: byte) { '0' as int <= code <= '9' as int }

  /** struct.calcsize("<" + format) */
  function CalcSize(format: seq<byte>): Option<nat>
  {
    if format == [] then Some(0)
    else
      var init := CalcSize(format[..|format| - 1]);
      var last := CodeSize(format[|format| - 1]);
      if init.Some? && last.Some? then Some(init.value + last.value) else None
  }

  function Code(f: Field): byte {
    match f
    case Chr(_) => 'c' as int
    case I8(_) => 'b' as int
    case U8(_) => 'B' as int
    case I16(_) => 'h' as int
    case F32(_) => 'f' as int
    case Raw(code, _) => code
  }

  /** The firmware sends characters, bytes, 16-bit integers and floats only. */
  predicate Sendable(f: Field) {
    match f
    case Chr(_) => true
    case I8(v) => -128 <= v < 128
    case U8(_) => true
    case I16(v) => -0x8000 <= v < 0x8000
    case F32(raw) => |raw| == 4
    case Raw(_, _) => false
  }

  function PackField(f: Field): seq<byte> {
    match f
    case Chr(c) => [c]
    case I8(v) => [v % 256]
    case U8(u) => [u]
    case I16(v) => [v % 256, (v % 0x10000) / 256]
    case F32(raw) => raw
    case Raw(_, raw) => raw
  }

  function UnpackField(code: byte, raw: seq<byte>): Field
    requires CodeSize(code) == Some(|raw|)
  {
    var c := code as char;
    var first: int := raw[0];
    if c == 'c' then Chr(raw[0])
    else if c == 'b' then I8(if first < 128 then first else first - 256)
    else if c == 'B' then U8(raw[0])
    else if c == 'h' then
      var second: int := raw[1];
      I16(Int16(first + 256 * second))
    else if c == 'f' then F32(raw)
    else Raw(code, raw)
  }

  function FormatOf(m: seq<Field>): (format: seq<byte>)
    ensures |format| == |m| && forall i :: 0 <= i < |m| ==> format[i] == Code(m[i])
  {
    seq(|m|, i requires 0 <= i < |m| => Code(m[i]))
  }

  /** The packed bytes, field after field. */
  function Pack(m: seq<Field>): seq<byte> {
    if m == [] then [] else Pack(m[..|m| - 1]) + PackField(m[|m| - 1])
  }

  /** struct.unpack("<" + format, data) */
  function Unpack(format: seq<byte>, data: seq<byte>): seq<Field>
    requires CalcSize(format) == Some(|data|)
    decreases |format|
  {
    if format == [] then []
    else
      var last := format[|format| - 1];
      var n := |data| - CodeSize(last).value;
      Unpack(format[..|format| - 1], data[..n]) + [UnpackField(last, data[n..])]
  }

  lemma Int16Bytes(v: int)
    requires -0x8000 <= v < 0x8000
    ensures Int16(v % 256 + 256 * ((v % 0x10000) / 256)) == v
  {
    var u, q := v % 0x10000, v / 0x10000;
    assert v == u + (q * 256) * 256;
    ModShift(u, q * 256, 256);
    assert u == u % 256 + 256 * (u / 256);
    assert v == u || v == u - 0x10000;
  }

  lemma FieldRoundTrip(f: Field)
    requires Sendable(f)
    ensures CodeSize(Code(f)) == Some(|PackField(f)|)
    ensures UnpackField(Code(f), PackField(f)) == f
  {
    hide Int16;
    match f
    case I16(v) => Int16Bytes(v);
    case I8(v) => assert v % 256 == if v < 0 then v + 256 else v;
    case _ =>
  }

  lemma FieldSize(code: byte, raw: seq<byte>)
    requires CodeSize(code) == Some(|raw|)
    ensures |PackField(UnpackField(code, raw))| == |raw|
  {
  }

  /** Whatever is unpacked has as many fields as the format and as many packed bytes as the data. */
  lemma {:induction false} UnpackSize(format: seq<byte>, data: seq<byte>)
    requires CalcSize(format) == Some(|data|)
    ensures var m := Unpack(format, data); |m| == |format| && |Pack(m)| == |data|
    decreases |format|
  {
    hide UnpackField, PackField, CodeSize;
    if format == [] {
    } else {
      var last := format[|format| - 1];
      var n := |data| - CodeSize(last).value;
      UnpackSize(format[..|format| - 1], data[..n]);
      FieldSize(last, data[n..]);
      Snoc(Unpack(format[..|format| - 1], data[..n]), UnpackField(last, data[n..]));
    }
  }

  ghost predicate AllSendable(m: seq<Field>) {
    forall i :: 0 <= i < |m| ==> Sendable(m[i])
  }

  lemma UnpackSnoc(format: seq<byte>, data: seq<byte>, code: byte, raw: seq<byte>)
    requires CalcSize(format) == Some(|data|) && CodeSize(code) == Some(|raw|)
    ensures CalcSize(format + [code]) == Some(|data + raw|)
    ensures Unpack(format + [code], data + raw) == Unpack(format, data) + [UnpackField(code, raw)]
  {
    hide CodeSize, UnpackField;
    assert (format + [code])[..|format|] == format;
    assert (data + raw)[..|data|] == data && (data + raw)[|data|..] == raw;
  }

  lemma Snoc(init: seq<Field>, last: Field)
    ensures FormatOf(init + [last]) == FormatOf(init) + [Code(last)]
    ensures Pack(init + [last]) == Pack(init) + PackField(last)
  {
    assert (init + [last])[..|init|] == init;
  }

  lemma SendableParts(m: seq<Field>)
    requires AllSendable(m) && m != []
    ensures AllSendable(m[..|m| - 1]) && Sendable(m[|m| - 1])
  {
  }

  lemma UnpackPackStep(init: seq<Field>, last: Field)
    requires Sendable(last)
    requires CalcSize(FormatOf(init)) == Some(|Pack(init)|) && Unpack(FormatOf(init), Pack(init)) == init
    ensures CalcSize(FormatOf(init + [last])) == Some(|Pack(init + [last])|)
    ensures Unpack(FormatOf(init + [last]), Pack(init + [last])) == init + [last]
  {
    Snoc(init, last);
    FieldRoundTrip(last);
    hide *;
    UnpackSnoc(FormatOf(init), Pack(init), Code(last), PackField(last));
  }

  /** Unpacking what was packed, with the format of the fields, gives the fields back. */
  lemma {:induction false} UnpackPack(m: seq<Field>)
    requires AllSendable(m)
    ensures CalcSize(FormatOf(m)) == Some(|Pack(m)|)
    ensures Unpack(FormatOf(m), Pack(m)) == m
    decreases |m|
  {
    if m == [] {
      assert FormatOf(m) == [] && Pack(m) == [];
    } else {
      var init, last := m[..|m| - 1], m[|m| - 1];
      assert m == init + [last];
      SendableParts(m);
      hide *;
      UnpackPack(init);
      UnpackPackStep(init, last);
    }
  }

  lemma {:induction false} CalcSizePrefix(m: seq<Field>, j: nat)
    requires AllSendable(m) && j <= |m|
    ensures CalcSize(FormatOf(m)[..j]).Some?
  {
    UnpackPack(m[..j]);
    assert FormatOf(m)[..j] == FormatOf(m[..j]);
  }

  /** The uint8_t length byte: the format with its NUL, the command and the data. */
  function FrameLength(formatLen: nat, dataLen: nat): byte {
    (2 + formatLen + dataLen) % 256
  }

  /** usb_send_msg: length byte, format with its NUL, command, data. */
  function Frame(format: seq<byte>, cmd: byte, data: seq<byte>): seq<byte> {
    [FrameLength(|format|, |data|)] + format + [0] + [cmd] + data
  }

  /** A message starts with the command character it answers. */
  ghost predicate IsMessage(m: seq<Field>) {
    m != [] && m[0].Chr? && AllSendable(m)
  }

  function Encode(m: seq<Field>): seq<byte> {
    [(1 + |m| + |Pack(m)|) % 256] + FormatOf(m) + [0] + Pack(m)
  }

  lemma PackLast(m: seq<Field>)
    requires m != []
    ensures Pack(m) == Pack(m[..|m| - 1]) + PackField(m[|m| - 1])
  {
  }

  lemma PackNone()
    ensures Pack([]) == []
  {
  }

  lemma {:induction false} PackFront(m: seq<Field>)
    requires m != []
    ensures Pack(m) == PackField(m[0]) + Pack(m[1..])
    decreases |m|
  {
    PackLast(m);
    hide Pack, PackField;
    if |m| > 1 {
      var init := m[..|m| - 1];
      PackFront(init);
      PackLast(m[1..]);
      assert init[1..] == m[1..][..|m| - 2];
    } else {
      assert m[..0] == [] && m[1..] == [];
      PackNone();
    }
  }

  /** A call of usb_send_msg with the packed remaining fields as data sends the encoding. */
  lemma FrameIsEncode(m: seq<Field>)
    requires IsMessage(m)
    ensures Frame(FormatOf(m), m[0].c, Pack(m[1..])) == Encode(m)
  {
    PackFront(m);
    assert Pack(m) == [m[0].c] + Pack(m[1..]);
    hide Pack, FormatOf;
    var f, d := FormatOf(m), Pack(m[1..]);
    assert f + [0] + [m[0].c] + d == f + [0] + ([m[0].c] + d);
  }

  /** parseData decodes every 'c' value as ASCII. */
  ghost predicate Ascii(m: seq<Field>) {
    forall i :: 0 <= i < |m| && m[i].Chr? ==> m[i].c < 128
  }

  predicate IsAscii(m: seq<Field>)
    ensures IsAscii(m) <==> Ascii(m)
  {
    forall i :: 0 <= i < |m| ==> m[i].Chr? ==> m[i].c < 128
  }

  function Codes(s: string): seq<byte>
    requires forall i :: 0 <= i < |s| ==> s[i] as int < 256
  {
    seq(|s|, i requires 0 <= i < |s| => s[i] as int)
  }
}
