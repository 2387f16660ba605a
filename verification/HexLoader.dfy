/** lufa/Bootloaders/Printer/BootloaderPrinter.c: the byte-fed Intel HEX parser. */
module HexParser {
  import opened Common
  import opened Bits
  import opened Flash

  datatype ParserState =
    | WaitLine | ByteCount | AddressHigh | AddressLow | RecordType | ReadData | CheckSum

  const TYPE_DATA: byte := 0
  const TYPE_EOF: byte := 1
  const TYPE_SEGMENT: byte := 2
  const TYPE_LINEAR: byte := 4

  /** The HEXParser struct, PageDirty, RunBootloader, and every flash operation asked for so far. */
  datatype Parser = Parser(
    state: ParserState, prevData: byte, data: byte, readMsb: bool, recordType: byte, dataRem: byte,
    checksum: byte, pageStart: nat, baseAddress: nat, address: nat, dirty: bool, running: bool, ops: seq<Op>)

  const RESET: Parser := Parser(WaitLine, 0, 0, false, 0, 0, 0, 0, 0, 0, false, true, [])

  /** HexToDecimal */
  function HexToDecimal(c: char): (d: int)
    ensures -1 <= d < 16
  {
    if 'A' <= c <= 'F' then 10 + (c as int - 'A' as int)
    else if '0' <= c <= '9' then c as int - '0' as int
    else -1
  }

  /** FlushPageIfRequired */
  function Flush(p: Parser): Parser {
    if !p.dirty then p
    else
      OffsetIsRem(p.address);
      var newStart := PageStart(p.address);
      if p.pageStart == newStart then p
      else p.(ops := p.ops + [Commit(p.pageStart)], pageStart := newStart, dirty := false)
  }

  /** A word of a data record reaches the page buffer; the first one of a page erases it. */
  function StoreWord(p: Parser, low: byte, high: byte): Parser {
    var ops := p.ops + (if p.dirty then [] else [Erase(p.pageStart)]) + [Fill(p.address, low, high)];
    Flush(p.(dirty := true, ops := ops, address := Uint32(p.address + 2)))
  }

  /** One byte of a data field; dataRem still counts it. */
  function DataByte(p: Parser): Parser {
    var p1 := p.(dataRem := (p.dataRem + 255) % 256);
    if p1.address >= BOOT_START then p1.(state := WaitLine, dirty := false)
    else if p1.dataRem % 2 == 1 then p1.(prevData := p1.data)
    else
      var word := 256 * p1.data + p1.prevData;
      var p2 :=
        if p1.recordType == TYPE_DATA then StoreWord(p1, p1.prevData, p1.data)
        else if p1.recordType == TYPE_SEGMENT then p1.(baseAddress := word * 16)
        else if p1.recordType == TYPE_LINEAR then p1.(baseAddress := word * 0x10000)
        else p1;
      if p2.dataRem == 0 then p2.(state := CheckSum) else p2
  }

  /** The switch on a complete byte, after the checksum was updated. */
  function WholeByte(p: Parser): Parser {
    match p.state
    case WaitLine => p
    case ByteCount => p.(dataRem := p.data, state := AddressHigh)
    case AddressHigh => p.(address := Uint32(p.address + 256 * p.data), state := AddressLow)
    case AddressLow => p.(address := Uint32(p.address + p.data), state := RecordType)
    case RecordType => p.(recordType := p.data, state := if p.dataRem != 0 then ReadData else CheckSum)
    case ReadData => DataByte(p)
    case CheckSum =>
      if p.data != (256 - p.checksum) % 256 then p
      else
        var p1 := Flush(p);
        if p1.recordType == TYPE_EOF then p1.(running := false) else p1
  }

  function AddToChecksum(p: Parser): Parser {
    if p.state == CheckSum then p else p.(checksum := (p.checksum + p.data) % 256)
  }

  /** ParseIntelHEXByte */
  function Step(p: Parser, c: char): Parser {
    if p.state == WaitLine || c == ':' then
      p.(checksum := 0, address := p.baseAddress, readMsb := false, state := if c == ':' then ByteCount else p.state)
    else
      var d := HexToDecimal(c);
      if d < 0 then p
      else
        var p1 := p.(data := (p.data * 16 + d) % 256, readMsb := !p.readMsb);
        if p1.readMsb then p1 else WholeByte(AddToChecksum(p1))
  }

  function Feed(p: Parser, text: string): Parser
    decreases |text|
  {
    if text == [] then p else Feed(Step(p, text[0]), text[1..])
  }

  lemma {:induction false} FeedAppend(p: Parser, x: string, y: string)
    ensures Feed(p, x + y) == Feed(Feed(p, x), y)
    decreases |x|
  {
    hide Step;
    if x == [] {
      assert x + y == y;
    } else {
      assert (x + y)[0] == x[0] && (x + y)[1..] == x[1..] + y;
      FeedAppend(Step(p, x[0]), x[1..], y);
    }
  }
}

/** Intel's Hexadecimal Object File Format, data and end-of-file records. */
module HexFormat {
  import opened Common

  function Digit(d: nat): char
    requires d < 16
  {
    "0123456789ABCDEF"[d]
  }

  function Hex2(b: byte): string { [Digit(b / 16), Digit(b % 16)] }

  function HexText(bytes: seq<byte>): string
    decreases |bytes|
  {
    if bytes == [] then "" else Hex2(bytes[0]) + HexText(bytes[1..])
  }

  function Sum(bytes: seq<byte>): nat
    decreases |bytes|
  {
    if bytes == [] then 0 else bytes[0] + Sum(bytes[1..])
  }

  /** The two's complement of the sum of all other bytes of the record. */
  function Checksum(bytes: seq<byte>): byte { (256 - Sum(bytes) % 256) % 256 }

  function Header(address: nat, n: byte): seq<byte>
    requires address < 0x10000
  {
    [n, address / 256, address % 256, 0]
  }

  /** A data record and its line end. */
  function DataRecord(address: nat, data: seq<byte>, eol: string): string
    requires address < 0x10000 && |data| < 256
  {
    var bytes := Header(address, |data|) + data;
    ":" + HexText(bytes + [Checksum(bytes)]) + eol
  }

  const END_OF_FILE: string := ":00000001FF"
}

module HexLoading {
  import opened Common
  import opened Bits
  import opened Flash
  import opened HexParser
  import opened HexFormat

  // ----- Two digits make a byte -----

  function ByteStep(p: Parser, b: byte): Parser { WholeByte(AddToChecksum(p.(data := b))) }

  function FeedBytes(p: Parser, bytes: seq<byte>): Parser
    decreases |bytes|
  {
    if bytes == [] then p else FeedBytes(ByteStep(p, bytes[0]), bytes[1..])
  }

  /** A parser that stays out of WaitLine reads hex text byte by byte. */
  ghost predicate IsAwake(p: Parser) { p.state != WaitLine && !p.readMsb }

  ghost predicate Awake(p: Parser, bytes: seq<byte>)
    decreases |bytes|
  {
    IsAwake(p) && (bytes != [] ==> Awake(ByteStep(p, bytes[0]), bytes[1..]))
  }

  lemma DigitRoundTrip(d: nat)
    requires d < 16
    ensures HexToDecimal(Digit(d)) == d && Digit(d) != ':'
  {
    assert d == 0 || d == 1 || d == 2 || d == 3 || d == 4 || d == 5 || d == 6 || d == 7 || d == 8 || d == 9
           || d == 10 || d == 11 || d == 12 || d == 13 || d == 14 || d == 15;
  }

  lemma TwoSteps(p: Parser, c: char, e: char)
    ensures Feed(p, [c, e]) == Step(Step(p, c), e)
  {
    hide Step;
    assert [c, e][1..] == [e] && [e][1..] == [];
    assert Feed(Step(p, c), [e]) == Feed(Step(Step(p, c), e), []);
  }

  lemma TwoDigits(p: Parser, b: byte)
    requires p.state != WaitLine && !p.readMsb
    ensures Feed(p, Hex2(b)) == ByteStep(p, b)
  {
    hide WholeByte, AddToChecksum, Digit, HexToDecimal;
    var hi, lo := b / 16, b % 16;
    DigitRoundTrip(hi);
    DigitRoundTrip(lo);
    TwoSteps(p, Digit(hi), Digit(lo));
    Nibbles(p.data, b);
    assert Step(p, Digit(hi)) == p.(data := (p.data * 16 + hi) % 256, readMsb := true);
    assert p.(data := b, readMsb := false) == p.(data := b);
  }

  lemma Nibbles(before: byte, b: byte)
    ensures ((before * 16 + b / 16) % 256 * 16 + b % 16) % 256 == b
  {
    var p, q, h, l: nat := before / 16, before % 16, b / 16, b % 16;
    assert before * 16 + h == p * 256 + (q * 16 + h);
    QuotientUnique(p, q * 16 + h, 256);
    var m := q * 16 + h;
    assert m * 16 + l == q * 256 + (h * 16 + l);
    QuotientUnique(q, h * 16 + l, 256);
    assert b == h * 16 + l;
  }

  // ----- Where the parser is -----

  /** n bytes of the image were accepted. */
  ghost predicate Progress(p: Parser, image: seq<byte>, n: nat) {
    && n <= |image| && n % 2 == 0
    && p.pageStart == n - Rem(n) && p.dirty == (Rem(n) != 0)
    && p.ops == ProgramOps(0, image, n)
    && p.baseAddress == 0 && p.running
  }

  /** Inside a data record with `rem` data bytes to come, `sum` the sum of the bytes so far. */
  ghost predicate InRecord(p: Parser, image: seq<byte>, n: nat, rem: nat, sum: nat) {
    && Progress(p, image, n) && !p.readMsb && p.recordType == TYPE_DATA
    && p.dataRem == rem && p.address == n && p.checksum == sum % 256
    && p.state == (if rem > 0 then ReadData else CheckSum)
  }

  lemma SumStep(sum: nat, b: byte)
    ensures (sum % 256 + b) % 256 == (sum + b) % 256
  {
  }

  lemma HeaderBytes(p: Parser, image: seq<byte>, n: nat, k: byte)
    requires Progress(p, image, n) && n < 0x10000
    requires p.state == ByteCount && p.checksum == 0 && p.address == 0 && !p.readMsb
    ensures var p4 := ByteStep(ByteStep(ByteStep(ByteStep(p, k), n / 256), n % 256), 0);
            InRecord(p4, image, n, k, Sum(Header(n, k)))
    ensures var p1 := ByteStep(p, k);
            var p2 := ByteStep(p1, n / 256);
            IsAwake(p) && IsAwake(p1) && IsAwake(p2) && IsAwake(ByteStep(p2, n % 256))
  {
    hide ProgramOps, Rem, HexParser.Flush, DataByte, Sum, ByteStep;
    HeaderStates(p, n, k);
    HeaderSum(n, k);
  }

  lemma HeaderStates(p: Parser, n: nat, k: byte)
    requires n < 0x10000 && p.state == ByteCount && p.checksum == 0 && p.address == 0 && !p.readMsb
    ensures var p1 := p.(data := k, checksum := k, dataRem := k, state := AddressHigh);
            var p2 := p1.(data := n / 256, checksum := (k + n / 256) % 256, address := 256 * (n / 256), state := AddressLow);
            var p3 := p2.(data := n % 256, checksum := (k + n / 256 + n % 256) % 256, address := n, state := RecordType);
            && ByteStep(p, k) == p1 && ByteStep(p1, n / 256) == p2 && ByteStep(p2, n % 256) == p3
            && ByteStep(p3, 0) == p3.(data := 0, recordType := 0, state := if k > 0 then ReadData else CheckSum)
  {
    var a, b := n / 256, n % 256;
    assert 256 * a + b == n;
    hide *;
    CountByte(p, k);
    var p1 := p.(data := k, checksum := k, dataRem := k, state := AddressHigh);
    HighByte(p1, a, k);
    var p2 := p1.(data := a, checksum := (k + a) % 256, address := 256 * a, state := AddressLow);
    LowByte(p2, b, k + a);
    TypeByte(p2.(data := b, checksum := (k + a + b) % 256, address := n, state := RecordType));
  }

  lemma CountByte(p: Parser, k: byte)
    requires p.state == ByteCount && p.checksum == 0
    ensures ByteStep(p, k) == p.(data := k, checksum := k, dataRem := k, state := AddressHigh)
  {
    hide HexParser.Flush, DataByte, Uint32;
  }

  lemma HighByte(p: Parser, a: byte, sum: nat)
    requires p.state == AddressHigh && p.address == 0 && p.checksum == sum % 256
    ensures ByteStep(p, a) == p.(data := a, checksum := (sum + a) % 256, address := 256 * a, state := AddressLow)
  {
    hide HexParser.Flush, DataByte, Uint32;
    SmallUint32(256 * a);
    SumStep(sum, a);
  }

  lemma LowByte(p: Parser, b: byte, sum: nat)
    requires p.state == AddressLow && p.address < 0x10000 && p.checksum == sum % 256
    ensures ByteStep(p, b) == p.(data := b, checksum := (sum + b) % 256, address := p.address + b, state := RecordType)
  {
    hide HexParser.Flush, DataByte, Uint32;
    SmallUint32(p.address + b);
    SumStep(sum, b);
  }

  lemma TypeByte(p: Parser)
    requires p.state == RecordType
    ensures ByteStep(p, 0) == p.(data := 0, recordType := 0, state := if p.dataRem > 0 then ReadData else CheckSum)
  {
    hide HexParser.Flush, DataByte, Uint32;
  }

  lemma SmallUint32(x: nat)
    requires x < 0x1_0000_0000
    ensures Uint32(x) == x
  {
  }

  lemma HeaderSum(n: nat, k: byte)
    requires n < 0x10000
    ensures Sum(Header(n, k)) == k + n / 256 + n % 256
  {
    var a, b := n / 256, n % 256;
    assert Header(n, k) == [k] + ([a] + ([b] + ([0] + [])));
    SumFront(k, [a] + ([b] + ([0] + [])));
    SumFront(a, [b] + ([0] + []));
    SumFront(b, [0] + []);
    SumFront(0, []);
  }

  lemma SumFront(x: byte, xs: seq<byte>)
    ensures Sum([x] + xs) == x + Sum(xs)
  {
    assert ([x] + xs)[1..] == xs;
  }

  lemma RecordAwake(p: Parser, image: seq<byte>, n: nat, rem: nat, sum: nat)
    requires InRecord(p, image, n, rem, sum)
    ensures IsAwake(p)
  {
    hide Rem, ProgramOps;
  }

  lemma AwakeFront(p: Parser, x: byte, xs: seq<byte>)
    ensures Awake(p, [x] + xs) <==> IsAwake(p) && Awake(ByteStep(p, x), xs)
  {
    hide ByteStep, IsAwake;
    assert ([x] + xs)[1..] == xs;
  }

  lemma FeedFront(p: Parser, x: byte, xs: seq<byte>)
    ensures FeedBytes(p, [x] + xs) == FeedBytes(ByteStep(p, x), xs)
  {
    hide ByteStep;
    assert ([x] + xs)[1..] == xs;
  }

  /** The first byte of a word waits, the second one stores it. */
  lemma WordBytes(p: Parser, image: seq<byte>, n: nat, rem: nat, sum: nat)
    requires InRecord(p, image, n, rem, sum) && 2 <= rem < 256 && rem % 2 == 0
    requires n + 2 <= |image| && |image| <= BOOT_START
    ensures InRecord(ByteStep(ByteStep(p, image[n]), image[n + 1]), image, n + 2, rem - 2, sum + image[n] + image[n + 1])
    ensures IsAwake(p) && IsAwake(ByteStep(p, image[n]))
  {
    hide ProgramOps, Rem, StoreWord;
    var p1 := ByteStep(p, image[n]);
    SumStep(sum, image[n]);
    assert p1 == p.(data := image[n], prevData := image[n], dataRem := rem - 1, checksum := (sum + image[n]) % 256);
    SumStep(sum + image[n], image[n + 1]);
    var q := p1.(data := image[n + 1], dataRem := rem - 2, checksum := (sum + image[n] + image[n + 1]) % 256);
    StoreProgress(q, image, n);
    var p2 := StoreWord(q, image[n], image[n + 1]);
    assert ByteStep(p1, image[n + 1]) == if rem == 2 then p2.(state := CheckSum) else p2;
  }

  lemma SwappedWord(high: byte, low: byte, unit: nat)
    requires unit > 0
    ensures Word(low, high) * unit == Word(high, low) * unit <==> high == low
  {
    if high != low {
      assert Word(low, high) != Word(high, low);
      var x, y := Word(low, high), Word(high, low);
      hide Word;
      MulSpread(x - y, unit);
      assert (x - y) * unit == x * unit - y * unit;
    }
  }

  lemma AddressBytes(p: Parser, high: byte, low: byte)
    requires p.state == ReadData && p.recordType in {TYPE_SEGMENT, TYPE_LINEAR} && p.dataRem == 2 && p.address < BOOT_START
    ensures ByteStep(ByteStep(p, high), low).baseAddress ==
            Word(low, high) * if p.recordType == TYPE_SEGMENT then 16 else 0x10000
  {
    hide StoreWord;
    var sum: byte := (p.checksum + high) % 256;
    var p1 := p.(data := high, prevData := high, dataRem := 1, checksum := sum);
    assert ByteStep(p, high) == p1;
    var sum2: byte := (sum + low) % 256;
    assert ByteStep(p1, low) == WholeByte(p1.(data := low, checksum := sum2));
  }

  /** Extended address records: the format sends the high byte first, the parser takes the first byte
      as the low one. So the base address is the one meant exactly if both bytes are equal. */
  lemma ExtendedAddressIsSwapped(p: Parser, high: byte, low: byte)
    requires p.state == ReadData && p.recordType in {TYPE_SEGMENT, TYPE_LINEAR} && p.dataRem == 2 && p.address < BOOT_START
    ensures var unit := if p.recordType == TYPE_SEGMENT then 16 else 0x10000;
            var base := ByteStep(ByteStep(p, high), low).baseAddress;
            base == Word(low, high) * unit && (base == Word(high, low) * unit <==> high == low)
  {
    hide ByteStep;
    AddressBytes(p, high, low);
    SwappedWord(high, low, if p.recordType == TYPE_SEGMENT then 16 else 0x10000);
  }

  lemma StoreProgress(p: Parser, image: seq<byte>, n: nat)
    requires Progress(p, image, n) && p.address == n && n + 2 <= |image| && |image| <= BOOT_START
    ensures var p' := StoreWord(p, image[n], image[n + 1]);
            Progress(p', image, n + 2) && p'.address == n + 2 &&
            p' == p.(address := n + 2, ops := p'.ops, dirty := p'.dirty, pageStart := p'.pageStart)
  {
    hide Rem, PageStart, WordOps;
    WordStep(n);
    PageBelow(n + 2);
    PageStartUnique(n + 2, n + 2 - Rem(n + 2), Rem(n + 2));
    WordOpsParts(0, image, n);
    var xs := ProgramOps(0, image, n);
    var e, c := EraseOps(0, n), CommitOps(0, n + 2);
    var fill := [Fill(n, image[n], image[n + 1])];
    Regroup(xs, e, fill, c);
    assert xs + e + fill + [] == xs + e + fill;
  }

  lemma {:induction false} DataBytes(p: Parser, image: seq<byte>, n: nat, rem: nat, sum: nat)
    requires InRecord(p, image, n, rem, sum) && rem < 256 && rem % 2 == 0
    requires n + rem <= |image| && |image| <= BOOT_START
    ensures InRecord(FeedBytes(p, image[n..n + rem]), image, n + rem, 0, sum + Sum(image[n..n + rem]))
    ensures Awake(p, image[n..n + rem])
    decreases rem
  {
    hide ByteStep, InRecord;
    if rem == 0 {
      assert image[n..n] == [];
      RecordAwake(p, image, n, rem, sum);
    } else {
      var x, y, tail := image[n], image[n + 1], image[n + 2..n + 2 + (rem - 2)];
      assert image[n..n + rem] == [x] + ([y] + tail);
      hide *;
      WordBytes(p, image, n, rem, sum);
      DataBytes(ByteStep(ByteStep(p, x), y), image, n + 2, rem - 2, sum + x + y);
      FeedFront(p, x, [y] + tail);
      FeedFront(ByteStep(p, x), y, tail);
      AwakeFront(p, x, [y] + tail);
      AwakeFront(ByteStep(p, x), y, tail);
      SumFront(x, [y] + tail);
      SumFront(y, tail);
    }
  }

  lemma ChecksumByte(p: Parser, image: seq<byte>, n: nat, sum: nat)
    requires InRecord(p, image, n, 0, sum)
    ensures var p' := ByteStep(p, (256 - sum % 256) % 256);
            Progress(p', image, n) && p'.state == CheckSum && IsAwake(p')
  {
    hide Rem, PageStart, ProgramOps;
    PageBelow(n);
    PageStartUnique(n, n - Rem(n), Rem(n));
  }

  // ----- From characters to bytes -----

  lemma {:induction false} FeedHexText(p: Parser, bytes: seq<byte>)
    requires Awake(p, bytes)
    ensures Feed(p, HexText(bytes)) == FeedBytes(p, bytes)
    decreases |bytes|
  {
    hide ByteStep, Hex2;
    if bytes == [] {
    } else {
      TwoDigits(p, bytes[0]);
      FeedAppend(p, Hex2(bytes[0]), HexText(bytes[1..]));
      FeedHexText(ByteStep(p, bytes[0]), bytes[1..]);
    }
  }

  lemma {:induction false} FeedBytesAppend(p: Parser, x: seq<byte>, y: seq<byte>)
    ensures FeedBytes(p, x + y) == FeedBytes(FeedBytes(p, x), y)
    ensures Awake(p, x) && Awake(FeedBytes(p, x), y) ==> Awake(p, x + y)
    decreases |x|
  {
    hide ByteStep, IsAwake;
    if x == [] {
      assert x + y == y;
    } else {
      assert (x + y)[0] == x[0] && (x + y)[1..] == x[1..] + y;
      FeedBytesAppend(ByteStep(p, x[0]), x[1..], y);
    }
  }

  // ----- Whole records -----

  /** Line ends, or anything else the parser ignores. */
  predicate Ignorable(text: string) {
    forall i :: 0 <= i < |text| ==> text[i] != ':' && HexToDecimal(text[i]) < 0
  }

  lemma {:induction false} IgnorableText(p: Parser, text: string)
    requires Ignorable(text) && p.state != WaitLine
    ensures Feed(p, text) == p
    decreases |text|
  {
    if text == [] {
    } else {
      assert Step(p, text[0]) == p;
      IgnorableText(p, text[1..]);
    }
  }

  lemma Colon(p: Parser, image: seq<byte>, n: nat)
    requires Progress(p, image, n)
    ensures var p' := Step(p, ':');
            Progress(p', image, n) && p'.state == ByteCount && p'.checksum == 0 && p'.address == 0 && !p'.readMsb
  {
    hide Rem, ProgramOps;
  }

  lemma HeaderFed(p: Parser, image: seq<byte>, n: nat, k: byte)
    requires Progress(p, image, n) && n < 0x10000
    requires p.state == ByteCount && p.checksum == 0 && p.address == 0 && !p.readMsb
    ensures InRecord(FeedBytes(p, Header(n, k)), image, n, k, Sum(Header(n, k))) && Awake(p, Header(n, k))
  {
    var a, b := n / 256, n % 256;
    HeaderBytes(p, image, n, k);
    assert Header(n, k) == [k] + ([a] + ([b] + ([0] + [])));
    var p1 := ByteStep(p, k);
    var p2 := ByteStep(p1, a);
    var p3 := ByteStep(p2, b);
    var p4 := ByteStep(p3, 0);
    RecordAwake(p4, image, n, k, Sum(Header(n, k)));
    assert FeedBytes(p4, []) == p4 && (Awake(p4, []) <==> IsAwake(p4));
    hide *;
    FeedFront(p, k, [a] + ([b] + ([0] + [])));
    FeedFront(p1, a, [b] + ([0] + []));
    FeedFront(p2, b, [0] + []);
    FeedFront(p3, 0, []);
    AwakeFront(p, k, [a] + ([b] + ([0] + [])));
    AwakeFront(p1, a, [b] + ([0] + []));
    AwakeFront(p2, b, [0] + []);
    AwakeFront(p3, 0, []);
  }

  lemma SumAppend(x: seq<byte>, y: seq<byte>)
    ensures Sum(x + y) == Sum(x) + Sum(y)
    decreases |x|
  {
    if x == [] {
      assert x + y == y;
    } else {
      assert (x + y)[1..] == x[1..] + y;
      SumAppend(x[1..], y);
    }
  }

  /** The bytes of a data record that goes on where the image has got to. */
  lemma RecordBytes(p: Parser, image: seq<byte>, n: nat, k: nat)
    requires Progress(p, image, n) && n < 0x10000 && k < 256 && k % 2 == 0
    requires n + k <= |image| && |image| <= BOOT_START
    requires p.state == ByteCount && p.checksum == 0 && p.address == 0 && !p.readMsb
    ensures var bytes := Header(n, k) + image[n..n + k];
            var p' := FeedBytes(p, bytes + [Checksum(bytes)]);
            Awake(p, bytes + [Checksum(bytes)]) && Progress(p', image, n + k) && p'.state == CheckSum
  {
    hide Header, Sum, Progress, InRecord, ByteStep, FeedBytes, Awake;
    var h, d := Header(n, k), image[n..n + k];
    BeforeChecksum(p, image, n, k);
    var p2 := FeedBytes(p, h + d);
    var c := Checksum(h + d);
    assert c == (256 - Sum(h + d) % 256) % 256;
    hide *;
    ChecksumByte(p2, image, n + k, Sum(h + d));
    RecordAwake(p2, image, n + k, 0, Sum(h + d));
    LastByte(p2, c);
    FeedBytesAppend(p, h + d, [c]);
  }

  lemma BeforeChecksum(p: Parser, image: seq<byte>, n: nat, k: nat)
    requires Progress(p, image, n) && n < 0x10000 && k < 256 && k % 2 == 0
    requires n + k <= |image| && |image| <= BOOT_START
    requires p.state == ByteCount && p.checksum == 0 && p.address == 0 && !p.readMsb
    ensures var bytes := Header(n, k) + image[n..n + k];
            InRecord(FeedBytes(p, bytes), image, n + k, 0, Sum(bytes)) && Awake(p, bytes)
  {
    hide *;
    var h, d := Header(n, k), image[n..n + k];
    HeaderFed(p, image, n, k);
    DataBytes(FeedBytes(p, h), image, n, k, Sum(h));
    SumAppend(h, d);
    FeedBytesAppend(p, h, d);
  }

  /** Such a record, as text with its line end, is taken in completely. */
  lemma RecordFed(p: Parser, image: seq<byte>, n: nat, k: nat, eol: string)
    requires Progress(p, image, n) && n < 0x10000 && k < 256 && k % 2 == 0
    requires n + k <= |image| && |image| <= BOOT_START && Ignorable(eol)
    ensures Progress(Feed(p, DataRecord(n, image[n..n + k], eol)), image, n + k)
  {
    var bytes := Header(n, k) + image[n..n + k];
    var all := bytes + [Checksum(bytes)];
    assert DataRecord(n, image[n..n + k], eol) == ":" + HexText(all) + eol;
    hide *;
    Colon(p, image, n);
    RecordBytes(Step(p, ':'), image, n, k);
    LineFed(p, all, eol);
  }

  lemma LineFed(p: Parser, bytes: seq<byte>, eol: string)
    requires Awake(Step(p, ':'), bytes) && FeedBytes(Step(p, ':'), bytes).state != WaitLine && Ignorable(eol)
    ensures Feed(p, ":" + HexText(bytes) + eol) == FeedBytes(Step(p, ':'), bytes)
  {
    hide Step, Awake, FeedBytes, HexText, Ignorable;
    assert Feed(p, ":") == Step(p, ':') by {
      assert ":"[1..] == "";
      assert Feed(Step(p, ':'), "") == Step(p, ':');
    }
    FeedAppend(p, ":" + HexText(bytes), eol);
    FeedAppend(p, ":", HexText(bytes));
    FeedHexText(Step(p, ':'), bytes);
    IgnorableText(FeedBytes(Step(p, ':'), bytes), eol);
  }

  lemma LastByte(p: Parser, c: byte)
    ensures FeedBytes(p, [c]) == ByteStep(p, c)
    ensures IsAwake(p) && IsAwake(ByteStep(p, c)) ==> Awake(p, [c])
  {
    hide ByteStep, IsAwake;
    assert [c][1..] == [];
    assert FeedBytes(ByteStep(p, c), []) == ByteStep(p, c);
  }

  // ----- Whole files -----

  function Flat(records: seq<seq<byte>>): seq<byte>
    decreases |records|
  {
    if records == [] then [] else Flat(records[..|records| - 1]) + records[|records| - 1]
  }

  /** Even data fields, every start address in 16 bits. */
  ghost predicate Wellformed(records: seq<seq<byte>>)
    decreases |records|
  {
    records != [] ==>
      var before, last := records[..|records| - 1], records[|records| - 1];
      Wellformed(before) && |Flat(before)| < 0x10000 && |last| < 256 && |last| % 2 == 0
  }

  /** The data records, contiguous from address 0. */
  ghost function RecordsText(records: seq<seq<byte>>, eol: string): string
    requires Wellformed(records)
    decreases |records|
  {
    if records == [] then ""
    else
      var before, last := records[..|records| - 1], records[|records| - 1];
      RecordsText(before, eol) + DataRecord(|Flat(before)|, last, eol)
  }

  lemma {:induction false} FlatPrefix(records: seq<seq<byte>>, image: seq<byte>)
    requires records != [] && Flat(records) <= image
    ensures var before, last := records[..|records| - 1], records[|records| - 1];
            Flat(before) <= image && |Flat(before)| + |last| <= |image| &&
            image[|Flat(before)|..|Flat(before)| + |last|] == last
  {
    var before, last := records[..|records| - 1], records[|records| - 1];
    var n := |Flat(before)|;
    assert image[..n + |last|] == Flat(before) + last;
    assert image[..n + |last|][n..] == image[n..n + |last|];
  }

  lemma StartProgress(image: seq<byte>)
    ensures Progress(RESET, image, 0)
  {
  }

  lemma {:induction false} RecordsFed(records: seq<seq<byte>>, image: seq<byte>, eol: string)
    requires Wellformed(records) && Flat(records) <= image && |image| <= BOOT_START && Ignorable(eol)
    ensures Progress(Feed(RESET, RecordsText(records, eol)), image, |Flat(records)|)
    decreases |records|
  {
    hide Progress, DataRecord, Ignorable, Step;
    if records == [] {
      StartProgress(image);
      assert Feed(RESET, "") == RESET;
    } else {
      var before, last := records[..|records| - 1], records[|records| - 1];
      FlatPrefix(records, image);
      RecordsFed(before, image, eol);
      RecordFed(Feed(RESET, RecordsText(before, eol)), image, |Flat(before)|, |last|, eol);
      FeedAppend(RESET, RecordsText(before, eol), DataRecord(|Flat(before)|, last, eol));
    }
  }

  /** The end-of-file record carries address 0: it flushes the open page unless that is page 0. */
  lemma EndOfFileFed(p: Parser, image: seq<byte>, eol: string)
    requires Progress(p, image, |image|) && Ignorable(eol)
    ensures var p' := Feed(p, END_OF_FILE + eol);
            !p'.running &&
            p'.ops == ProgramOps(0, image, |image|) + if |image| < PAGE then [] else FinishOps(0, |image|)
  {
    var bytes: seq<byte> := [0, 0, 0, 1, 255];
    EndOfFileText();
    EndOfFileBytes(p, image);
    hide *;
    LineFed(p, bytes, eol);
  }

  lemma EndOfFileText()
    ensures END_OF_FILE == ":" + HexText([0, 0, 0, 1, 255])
  {
    assert HexText([]) == "";
    hide HexText;
    assert Hex2(0) == "00" && Hex2(1) == "01" && Hex2(255) == "FF";
    hide Hex2;
    assert [0, 0, 0, 1, 255] == [0] + ([0] + ([0] + ([1] + ([255] + []))));
    HexFront(0, [0] + ([0] + ([1] + ([255] + []))));
    HexFront(0, [0] + ([1] + ([255] + [])));
    HexFront(0, [1] + ([255] + []));
    HexFront(1, [255] + []);
    HexFront(255, []);
    assert END_OF_FILE == ":" + ("00" + ("00" + ("00" + ("01" + ("FF" + "")))));
  }

  lemma HexFront(x: byte, xs: seq<byte>)
    ensures HexText([x] + xs) == Hex2(x) + HexText(xs)
  {
    hide Hex2;
    assert ([x] + xs)[1..] == xs;
  }

  lemma EndOfFileBytes(p: Parser, image: seq<byte>)
    requires Progress(p, image, |image|)
    ensures var p' := FeedBytes(Step(p, ':'), [0, 0, 0, 1, 255]);
            Awake(Step(p, ':'), [0, 0, 0, 1, 255]) && p'.state == CheckSum && !p'.running &&
            p'.ops == ProgramOps(0, image, |image|) + if |image| < PAGE then [] else FinishOps(0, |image|)
  {
    hide ProgramOps, FinishOps, Rem, FeedBytes, Awake, ByteStep;
    var q := Step(p, ':');
    Colon(p, image, |image|);
    EndOfFileHeader(q);
    var p4 := q.(data := 1, dataRem := 0, recordType := TYPE_EOF, checksum := 1, state := CheckSum);
    EndOfFileFlush(p4, image);
    hide *;
    FiveBytes(q, 0, 0, 0, 1, 255);
  }

  lemma EndOfFileHeader(q: Parser)
    requires q.state == ByteCount && q.checksum == 0 && q.address == 0 && !q.readMsb
    ensures var p1, p2 := ByteStep(q, 0), ByteStep(ByteStep(q, 0), 0);
            var p3, p4 := ByteStep(p2, 0), ByteStep(ByteStep(p2, 0), 1);
            && IsAwake(q) && IsAwake(p1) && IsAwake(p2) && IsAwake(p3) && IsAwake(p4)
            && p4 == q.(data := 1, dataRem := 0, recordType := TYPE_EOF, checksum := 1, state := CheckSum)
  {
    hide HexParser.Flush, DataByte;
    var p1 := q.(data := 0, dataRem := 0, state := AddressHigh);
    var p2 := p1.(state := AddressLow);
    var p3 := p2.(state := RecordType);
    assert ByteStep(q, 0) == p1 && ByteStep(p1, 0) == p2 && ByteStep(p2, 0) == p3;
  }

  lemma LastChecksum(p: Parser)
    requires p.state == CheckSum && p.checksum == 1
    ensures var p1 := HexParser.Flush(p.(data := 255));
            ByteStep(p, 255) == if p1.recordType == TYPE_EOF then p1.(running := false) else p1
  {
    hide HexParser.Flush;
  }

  lemma FlushAtZero(p: Parser)
    requires p.address == 0
    ensures HexParser.Flush(p) ==
            if p.dirty && p.pageStart != 0 then p.(ops := p.ops + [Commit(p.pageStart)], pageStart := 0, dirty := false)
            else p
  {
    hide PageStart;
    PageStartUnique(0, 0, 0);
  }

  lemma EndOfFileFlush(p: Parser, image: seq<byte>)
    requires Progress(p, image, |image|) && p.state == CheckSum && p.checksum == 1 && !p.readMsb
    requires p.recordType == TYPE_EOF && p.address == 0
    ensures var p' := ByteStep(p, 255);
            p'.state == CheckSum && !p'.readMsb && !p'.running &&
            p'.ops == ProgramOps(0, image, |image|) + if |image| < PAGE then [] else FinishOps(0, |image|)
  {
    hide ProgramOps, FinishOps, Rem, HexParser.Flush;
    LastChecksum(p);
    FlushAtZero(p.(data := 255));
    OpenPageZero(|image|);
    assert ProgramOps(0, image, |image|) + [] == ProgramOps(0, image, |image|);
  }

  lemma FiveBytes(p: Parser, a: byte, b: byte, c: byte, d: byte, e: byte)
    ensures var p1 := ByteStep(p, a);
            var p2 := ByteStep(p1, b);
            var p3 := ByteStep(p2, c);
            var p4 := ByteStep(p3, d);
            FeedBytes(p, [a, b, c, d, e]) == ByteStep(p4, e) &&
            (IsAwake(p) && IsAwake(p1) && IsAwake(p2) && IsAwake(p3) && IsAwake(p4) && IsAwake(ByteStep(p4, e))
             ==> Awake(p, [a, b, c, d, e]))
  {
    hide ByteStep, FeedBytes, Awake, IsAwake;
    assert [a, b, c, d, e] == [a] + ([b] + ([c] + ([d] + [e])));
    FeedFront(p, a, [b] + ([c] + ([d] + [e])));
    AwakeFront(p, a, [b] + ([c] + ([d] + [e])));
    var p1 := ByteStep(p, a);
    FeedFront(p1, b, [c] + ([d] + [e]));
    AwakeFront(p1, b, [c] + ([d] + [e]));
    var p2 := ByteStep(p1, b);
    FeedFront(p2, c, [d] + [e]);
    AwakeFront(p2, c, [d] + [e]);
    var p3 := ByteStep(p2, c);
    FeedFront(p3, d, [e]);
    AwakeFront(p3, d, [e]);
    LastByte(ByteStep(p3, d), e);
  }

  /** Only with its own checksum does the end-of-file record stop the loader; with any other it does
      nothing. */
  lemma EndOfFileNeedsChecksum(p: Parser, image: seq<byte>, checksum: byte)
    requires Progress(p, image, |image|)
    ensures var p' := FeedBytes(Step(p, ':'), [0, 0, 0, 1, checksum]);
            !p'.running <==> checksum == 0xFF
    ensures var p' := FeedBytes(Step(p, ':'), [0, 0, 0, 1, checksum]);
            checksum != 0xFF ==> p'.ops == p.ops && p'.dirty == p.dirty && p'.pageStart == p.pageStart
  {
    hide ProgramOps, FinishOps, Rem, FeedBytes, Awake, ByteStep;
    var q := Step(p, ':');
    Colon(p, image, |image|);
    EndOfFileHeader(q);
    var p4 := q.(data := 1, dataRem := 0, recordType := TYPE_EOF, checksum := 1, state := CheckSum);
    EndOfFileFlush(p4, image);
    WrongChecksum(p4, checksum);
    FiveBytes(q, 0, 0, 0, 1, checksum);
  }

  /** A record whose checksum is wrong ends without any effect of its own. */
  lemma WrongChecksum(p: Parser, b: byte)
    requires p.state == CheckSum
    ensures (p.checksum + b) % 256 != 0 ==> ByteStep(p, b) == p.(data := b)
  {
    Complement(p.checksum, b);
    hide HexParser.Flush, DataByte;
  }

  lemma Complement(x: byte, b: byte)
    ensures b == (256 - x) % 256 <==> (x + b) % 256 == 0
  {
  }

  /** Data for the boot section is refused: the record is over, nothing is asked of the flash, and
      everything up to the next colon is ignored. */
  lemma BootSectionRefused(p: Parser, b: byte, text: string)
    requires p.state == ReadData && p.address >= BOOT_START && ':' !in text
    ensures var p' := Feed(ByteStep(p, b), text);
            p'.ops == p.ops && p'.state == WaitLine && p'.running == p.running && p'.baseAddress == p.baseAddress
  {
    hide StoreWord;
    var p1 := ByteStep(p, b);
    assert p1.state == WaitLine && p1.ops == p.ops && p1.running == p.running && p1.baseAddress == p.baseAddress;
    hide ByteStep;
    WaitsForColon(p1, text);
  }

  lemma {:induction false} WaitsForColon(p: Parser, text: string)
    requires p.state == WaitLine && ':' !in text
    ensures var p' := Feed(p, text);
            p'.ops == p.ops && p'.state == WaitLine && p'.running == p.running && p'.baseAddress == p.baseAddress
    decreases |text|
  {
    if text == "" {
    } else {
      assert text[0] != ':' && ':' !in text[1..];
      WaitsForColon(Step(p, text[0]), text[1..]);
    }
  }

  /** The digits are the upper-case ones, each with its value; all other characters are ignored. */
  lemma DigitsExactly(c: char, d: nat)
    requires d < 16
    ensures HexToDecimal(c) == d <==> c == Digit(d)
    ensures HexToDecimal(c) < 0 <==> c !in "0123456789ABCDEF"
  {
    var digits := "0123456789ABCDEF";
    DigitRoundTrip(d);
    if 0 <= HexToDecimal(c) {
      assert digits[HexToDecimal(c)] == c;
    }
    if c in digits {
      var k: nat :| k < |digits| && digits[k] == c;
      DigitRoundTrip(k);
    }
  }

  /** Data of a record of any other type reaches neither flash nor base address. */
  lemma OtherTypesIgnored(p: Parser, b: byte)
    requires p.state == ReadData && p.recordType !in {TYPE_DATA, TYPE_SEGMENT, TYPE_LINEAR}
    ensures ByteStep(p, b).ops == p.ops && ByteStep(p, b).baseAddress == p.baseAddress && ByteStep(p, b).running == p.running
  {
    hide StoreWord;
  }

  /** The open page is page 0 exactly while less than a page was loaded. */
  lemma OpenPageZero(n: nat)
    ensures n - Rem(n) == 0 <==> n < PAGE
    ensures FinishOps(0, n) == if Rem(n) == 0 then [] else [Commit(n - Rem(n))]
    ensures EndOf(0, n) >= n
  {
  }

  /** The operations of a whole file. */
  lemma FileOps(records: seq<seq<byte>>, eol: string)
    requires Wellformed(records) && |Flat(records)| <= BOOT_START && Ignorable(eol)
    ensures var image := Flat(records);
            var p := Feed(RESET, RecordsText(records, eol) + END_OF_FILE + eol);
            |image| % 2 == 0 && !p.running &&
            p.ops == ProgramOps(0, image, |image|) + if |image| < PAGE then [] else FinishOps(0, |image|)
  {
    hide Wellformed, RecordsText, Ignorable, ProgramOps, FinishOps, Rem, Step;
    var image := Flat(records);
    RecordsFed(records, image, eol);
    var p := Feed(RESET, RecordsText(records, eol));
    EndOfFileFed(p, image, eol);
    FeedAppend(RESET, RecordsText(records, eol), END_OF_FILE + eol);
    assert RecordsText(records, eol) + END_OF_FILE + eol == RecordsText(records, eol) + (END_OF_FILE + eol);
  }

  /** Loading correctness: from reset, contiguous data records of at least a page, then the end of
      file, stop the loader and leave the image in flash, the rest of the last page blank and
      everything else as it was. Each page was erased before its fills and committed once. */
  lemma FileLoads(m: Memory, records: seq<seq<byte>>, eol: string)
    requires Wellformed(records) && Ignorable(eol) && Loadable(m, 0, Flat(records)) && |Flat(records)| >= PAGE
    ensures var image := Flat(records);
            var p := Feed(RESET, RecordsText(records, eol) + END_OF_FILE + eol);
            !p.running && ApplyAll(m, p.ops) == Complete(m, 0, image, EndOf(0, |image|)) &&
            PhaseAfter(0, p.ops).Closed?
  {
    hide Complete, Apply, ApplyAll, Feed, RecordsText, Wellformed, Ignorable, ProgramOps, Loadable, EndOf, Flat;
    var image := Flat(records);
    LoadableFits(m, image);
    FileOps(records, eol);
    ProgramOpsComplete(m, 0, image);
    OpsClosed(image);
  }

  lemma LoadableFits(m: Memory, image: seq<byte>)
    requires Loadable(m, 0, image)
    ensures ValidMemory(m) && |image| <= BOOT_START
  {
  }

  lemma OpsClosed(image: seq<byte>)
    requires |image| % 2 == 0
    ensures PhaseAfter(0, ProgramOps(0, image, |image|) + FinishOps(0, |image|)).Closed?
  {
    hide PhaseAfter, ProgramOps, Rem;
    var n := |image|;
    ProgramOpsInOrder(0, image, n);
    PhaseIf(0, ProgramOps(0, image, n), Commit(n - Rem(n)), Rem(n) != 0);
  }

  /** The restriction is needed: a shorter image is never committed, its page stays erased. So a file
      leaves its image in flash exactly if the image has at least a page or is blank itself. */
  lemma FileLoadsExactly(m: Memory, records: seq<seq<byte>>, eol: string)
    requires Wellformed(records) && Ignorable(eol) && Loadable(m, 0, Flat(records))
    ensures var image := Flat(records);
            var cells := ApplyAll(m, Feed(RESET, RecordsText(records, eol) + END_OF_FILE + eol).ops).cells;
            cells[..|image|] == image <==> |image| >= PAGE || forall i :: 0 <= i < |image| ==> image[i] == BLANK
  {
    var image := Flat(records);
    var n := |image|;
    if n >= PAGE {
      FileLoads(m, records, eol);
      hide Feed, RecordsText, Wellformed, ApplyAll;
    } else {
      FileOps(records, eol);
      ProgramOpsLoad(m, 0, image, n);
      hide Feed, RecordsText, Wellformed, ApplyAll, ProgramOps;
      assert ProgramOps(0, image, n) + [] == ProgramOps(0, image, n);
      var cells := AfterBytes(m, 0, image, n).cells;
      assert Rem(n) == n;
      assert forall i :: 0 <= i < n ==> cells[i] == BLANK;
      assert forall i :: 0 <= i < n ==> cells[..n][i] == BLANK;
    }
  }
}

module HexLoader {
  import opened Common
  import opened Bits
  import opened Flash
  import opened HexParser
  import BootloaderAPI

  /** The printer-class loader. */
  class Loader {
    const device: BootloaderAPI.FlashDevice
    var parserState: ParserState
    var prevData: byte
    var data: byte
    var readMsb: bool
    var recordType: byte
    var dataRem: byte
    var checksum: byte
    var pageStartAddress: nat
    var currBaseAddress: nat
    var currAddress: nat
    var pageDirty: bool
    var runBootloader: bool

    ghost function Abs(): Parser
      reads this, device
    {
      Parser(parserState, prevData, data, readMsb, recordType, dataRem, checksum, pageStartAddress,
             currBaseAddress, currAddress, pageDirty, runBootloader, device.ops)
    }

    constructor (device: BootloaderAPI.FlashDevice)
      requires device.Valid() && device.ops == []
      ensures this.device == device && Abs() == RESET
    {
      this.device := device;
      parserState, prevData, data, readMsb, recordType, dataRem := WaitLine, 0, 0, false, 0, 0;
      checksum, pageStartAddress, currBaseAddress, currAddress := 0, 0, 0, 0;
      pageDirty, runBootloader := false, true;
    }

    method FlushPageIfRequired()
      requires device.Valid()
      modifies this, device
      ensures device.Valid() && Abs() == HexParser.Flush(old(Abs()))
    {
      if !pageDirty {
        return;
      }
      OffsetIsRem(currAddress);
      var newPageStartAddress := PageStart(currAddress);
      if pageStartAddress != newPageStartAddress {
        device.WritePage(pageStartAddress);
        pageStartAddress := newPageStartAddress;
        pageDirty := false;
      }
    }

    /** The first word of a page erases it. */
    method BufferWord(low: byte, high: byte)
      requires device.Valid()
      modifies this`pageDirty, device
      ensures device.Valid() && pageDirty
      ensures device.ops ==
              old(device.ops) + (if old(pageDirty) then [] else [Erase(pageStartAddress)]) + [Fill(currAddress, low, high)]
    {
      hide Apply;
      assert device.ops + [] == device.ops;
      if !pageDirty {
        device.ErasePage(pageStartAddress);
        pageDirty := true;
      }
      device.FillWord(currAddress, low, high);
    }

    method StoreDataWord(low: byte, high: byte)
      requires device.Valid()
      modifies this, device
      ensures device.Valid() && Abs() == StoreWord(old(Abs()), low, high)
    {
      hide HexParser.Flush, Uint32, Apply;
      assert device.ops + [] == device.ops;
      BufferWord(low, high);
      currAddress := Uint32(currAddress + 2);
      FlushPageIfRequired();
    }

    method ReadDataByte()
      requires device.Valid()
      modifies this, device
      ensures device.Valid() && Abs() == DataByte(old(Abs()))
    {
      hide StoreWord;
      dataRem := (dataRem + 255) % 256;
      if currAddress >= BOOT_START {
        parserState := WaitLine;
        pageDirty := false;
        return;
      }
      if dataRem % 2 == 1 {
        prevData := data;
        return;
      }
      if recordType == TYPE_DATA {
        StoreDataWord(prevData, data);
      } else if recordType == TYPE_SEGMENT {
        currBaseAddress := (256 * data + prevData) * 16;
      } else if recordType == TYPE_LINEAR {
        currBaseAddress := (256 * data + prevData) * 0x10000;
      }
      if dataRem == 0 {
        parserState := CheckSum;
      }
    }

    /** The switch of ParseIntelHEXByte. */
    method ProcessByte()
      requires device.Valid()
      modifies this, device
      ensures device.Valid() && Abs() == WholeByte(old(Abs()))
    {
      hide HexParser.Flush, DataByte;
      match parserState {
        case WaitLine =>
        case ByteCount =>
          dataRem, parserState := data, AddressHigh;
        case AddressHigh =>
          currAddress, parserState := Uint32(currAddress + 256 * data), AddressLow;
        case AddressLow =>
          currAddress, parserState := Uint32(currAddress + data), RecordType;
        case RecordType =>
          recordType := data;
          parserState := if dataRem != 0 then ReadData else CheckSum;
        case ReadData =>
          ReadDataByte();
        case CheckSum =>
          if data == (256 - checksum) % 256 {
            FlushPageIfRequired();
            if recordType == TYPE_EOF {
              runBootloader := false;
            }
          }
      }
    }

    method ParseIntelHexByte(c: char)
      requires device.Valid()
      modifies this, device
      ensures device.Valid() && Abs() == Step(old(Abs()), c)
    {
      hide WholeByte;
      if parserState == WaitLine || c == ':' {
        checksum, currAddress, readMsb := 0, currBaseAddress, false;
        if c == ':' {
          parserState := ByteCount;
        }
        return;
      }
      var digit := HexToDecimal(c);
      if digit < 0 {
        return;
      }
      data := (data * 16 + digit) % 256;
      readMsb := !readMsb;
      if readMsb {
        return;
      }
      if parserState != CheckSum {
        checksum := (checksum + data) % 256;
      }
      ProcessByte();
    }

    /** The bytes of the printer stream, one after the other. */
    method Receive(text: string)
      requires device.Valid()
      modifies this, device
      ensures device.Valid() && Abs() == Feed(old(Abs()), text)
    {
      hide Step;
      for i := 0 to |text|
        invariant device.Valid() && Abs() == Feed(old(Abs()), text[..i])
      {
        assert text[..i + 1] == text[..i] + [text[i]];
        FeedAppend(old(Abs()), text[..i], [text[i]]);
        FeedOne(Abs(), text[i]);
        ParseIntelHexByte(text[i]);
      }
      assert text[..|text|] == text;
    }
  }

  lemma FeedOne(p: Parser, c: char)
    ensures Feed(p, [c]) == Step(p, c)
  {
    hide Step;
    assert [c][1..] == [];
    assert Feed(Step(p, c), []) == Step(p, c);
  }
}
