/**
 * The examples of the repository's encoder and parser tests, as facts
 * about the model. Expected data lines are written field by field: verb,
 * address digits, length digit, payload digits (in groups of four bytes),
 * CR.
 */
module Vectors {
  import opened Hex
  import opened Encoding
  import opened Parsing
  import opened RoundTrip

  // ---------------------------------------------------------------- encoder

  /** An empty payload at the largest standard address. */
  lemma EncodeStdEmpty()
    ensures DataLines(0x7FF, []) == "t" + "7FF" + "0" + "\r"
  {
    DataLinesShort(0x7FF, []);
    LineIs('t', AddressHex(0x7FF), []);
    assert (0x7FF / 0x100) % 0x10 == 7 && (0x7FF / 0x10) % 0x10 == 15 && 0x7FF % 0x10 == 15;
    assert NibbleToChar(7) == '7' && NibbleToChar(15) == 'F';
    assert LengthDigit(0) == '0';
  }

  /** Three bytes on one standard line. */
  lemma EncodeStdOneMsg(data: seq<byte>)
    requires data == [0xAA, 0xBB, 0xCC]
    ensures DataLines(0x0F0, data) == "t" + "0F0" + "3" + "AABBCC" + "\r"
  {
    DataLinesShort(0x0F0, data);
    LineIs('t', AddressHex(0x0F0), data);
    assert (0x0F0 / 0x100) % 0x10 == 0 && (0x0F0 / 0x10) % 0x10 == 15 && 0x0F0 % 0x10 == 0;
    assert NibbleToChar(0) == '0' && NibbleToChar(15) == 'F';
    assert LengthDigit(3) == '3';
    HexAABBCC(data);
  }

  /** Eight bytes still fit on one line. */
  lemma EncodeStdOneFullMsg(data: seq<byte>)
    requires data == [0xAA, 0xBB, 0xCC, 0xDD, 0xEE, 0xFF, 0x11, 0x22]
    ensures DataLines(0x111, data) == "t" + "111" + "8" + "AABBCCDD" + "EEFF1122" + "\r"
  {
    DataLinesShort(0x111, data);
    LineIs('t', AddressHex(0x111), data);
    assert (0x111 / 0x100) % 0x10 == 1 && (0x111 / 0x10) % 0x10 == 1 && 0x111 % 0x10 == 1;
    assert NibbleToChar(1) == '1';
    assert LengthDigit(8) == '8';
    HexAABBCCDDEEFF1122(data);
  }

  /** Ten bytes go out as a full line and then a line with the last two. */
  lemma EncodeStdTwoMsgs(data: seq<byte>)
    requires data == [0xAA, 0xBB, 0xCC, 0xDD, 0xEE, 0xFF, 0x11, 0x22, 0x24, 0x56]
    ensures DataLines(0x033, data) ==
      ("t" + "033" + "8" + "AABBCCDD" + "EEFF1122" + "\r") + ("t" + "033" + "2" + "2456" + "\r")
  {
    var a, b := data[..8], data[8..];
    assert Chunks(data) == [a, b];
    StdDigits033();
    LinesOfTwo('t', "033", a, b);
    LineIs('t', "033", a);
    LineIs('t', "033", b);
    assert LengthDigit(8) == '8' && LengthDigit(2) == '2';
    HexAABBCCDDEEFF1122(a);
    Hex2456(b);
  }

  lemma StdDigits033()
    ensures AddressHex(0x033) == "033"
  {
    assert (0x033 / 0x100) % 0x10 == 0 && (0x033 / 0x10) % 0x10 == 3 && 0x033 % 0x10 == 3;
    assert NibbleToChar(0) == '0' && NibbleToChar(3) == '3';
  }

  /** Sixteen bytes go out as two full lines, with no empty line after them. */
  lemma EncodeStdTwoFullMsgs(data: seq<byte>)
    requires data == [0xAA, 0xBB, 0xCC, 0xDD, 0xEE, 0xFF, 0x11, 0x22, 0x22, 0x11, 0xFF, 0xEE, 0xDD, 0xCC, 0xBB, 0xAA]
    ensures DataLines(0x056, data) ==
      ("t" + "056" + "8" + "AABBCCDD" + "EEFF1122" + "\r") + ("t" + "056" + "8" + "2211FFEE" + "DDCCBBAA" + "\r")
  {
    var a, b := data[..8], data[8..];
    assert Chunks(data) == [a, b];
    StdDigits056();
    LinesOfTwo('t', "056", a, b);
    LineIs('t', "056", a);
    LineIs('t', "056", b);
    assert LengthDigit(8) == '8';
    HexAABBCCDDEEFF1122(a);
    Hex2211FFEEDDCCBBAA(b);
  }

  lemma StdDigits056()
    ensures AddressHex(0x056) == "056"
  {
    assert (0x056 / 0x100) % 0x10 == 0 && (0x056 / 0x10) % 0x10 == 5 && 0x056 % 0x10 == 6;
    assert NibbleToChar(0) == '0' && NibbleToChar(5) == '5' && NibbleToChar(6) == '6';
  }

  /** An empty payload at the largest extended address. */
  lemma EncodeExtEmpty()
    ensures DataLines(0x1FFF_FFFF, []) == "T" + "1FFFFFFF" + "0" + "\r"
  {
    DataLinesShort(0x1FFF_FFFF, []);
    ExtDigits1FFFFFFF();
    LineIs('T', "1FFFFFFF", []);
    assert LengthDigit(0) == '0';
  }

  /** An address above the standard range takes an extended line, even a
      small one. */
  lemma EncodeExtOneMsg(data: seq<byte>)
    requires data == [0xF6, 0x26, 0x91]
    ensures DataLines(0x8FF, data) == "T" + "000008FF" + "3" + "F62691" + "\r"
  {
    DataLinesShort(0x8FF, data);
    ExtDigits000008FF();
    LineIs('T', "000008FF", data);
    assert LengthDigit(3) == '3';
    HexF62691(data);
  }

  /** All eight bytes of an extended payload on one line. */
  lemma EncodeExtOneFullMsg(data: seq<byte>)
    requires data == [0x22, 0x11, 0xFF, 0xEE, 0xDD, 0xCC, 0xBB, 0xAA]
    ensures DataLines(0x1020_3040, data) == "T" + "10203040" + "8" + "2211FFEE" + "DDCCBBAA" + "\r"
  {
    DataLinesShort(0x1020_3040, data);
    ExtDigits10203040();
    LineIs('T', "10203040", data);
    assert LengthDigit(8) == '8';
    Hex2211FFEEDDCCBBAA(data);
  }

  lemma ExtDigits1FFFFFFF()
    ensures ExtAddressHex(0x1FFF_FFFF) == "1FFFFFFF"
  {
    var a := 0x1FFF_FFFF;
    assert (a / 0x1000_0000) % 0x10 == 1 && (a / 0x100_0000) % 0x10 == 15 && (a / 0x10_0000) % 0x10 == 15;
    assert (a / 0x1_0000) % 0x10 == 15 && (a / 0x1000) % 0x10 == 15 && (a / 0x100) % 0x10 == 15;
    assert (a / 0x10) % 0x10 == 15 && a % 0x10 == 15;
    assert NibbleToChar(1) == '1' && NibbleToChar(15) == 'F';
  }

  lemma ExtDigits000008FF()
    ensures ExtAddressHex(0x8FF) == "000008FF"
  {
    var a := 0x8FF;
    assert (a / 0x1000_0000) % 0x10 == 0 && (a / 0x100_0000) % 0x10 == 0 && (a / 0x10_0000) % 0x10 == 0;
    assert (a / 0x1_0000) % 0x10 == 0 && (a / 0x1000) % 0x10 == 0 && (a / 0x100) % 0x10 == 8;
    assert (a / 0x10) % 0x10 == 15 && a % 0x10 == 15;
    assert NibbleToChar(0) == '0' && NibbleToChar(8) == '8' && NibbleToChar(15) == 'F';
  }

  lemma ExtDigits10203040()
    ensures ExtAddressHex(0x1020_3040) == "10203040"
  {
    var a := 0x1020_3040;
    assert (a / 0x1000_0000) % 0x10 == 1 && (a / 0x100_0000) % 0x10 == 0 && (a / 0x10_0000) % 0x10 == 2;
    assert (a / 0x1_0000) % 0x10 == 0 && (a / 0x1000) % 0x10 == 3 && (a / 0x100) % 0x10 == 0;
    assert (a / 0x10) % 0x10 == 4 && a % 0x10 == 0;
    assert NibbleToChar(0) == '0' && NibbleToChar(1) == '1' && NibbleToChar(2) == '2';
    assert NibbleToChar(3) == '3' && NibbleToChar(4) == '4';
  }

  // ----------------------------------------------------------------- parser

  /** The smallest data line: address 1, no payload. */
  lemma ParseStdEmpty(s: seq<char>)
    requires s == "t0010\r"
    ensures Accept([], s) == Scanned([Data(1, [])], [])
  {
    StdDigits001();
    assert LengthDigit(0) == '0';
    StdLineText(1, [], "001", "", s);
    LineRoundTrip(Frame(false, 1, []));
  }

  /** A trailing 'z' after a frame waits for the next call. */
  lemma ParseStdThenZ(s: seq<char>)
    requires s == "t0010\rz"
    ensures Accept([], s) == Scanned([Data(1, [])], ['z'])
  {
    var f := Frame(false, 1, []);
    StdDigits001();
    assert LengthDigit(0) == '0';
    StdLineText(1, [], "001", "", s[..6]);
    StepOnLine(f, ['z']);
    assert s == FrameLine(f) + ['z'];
    ZKept(s, [Data(1, [])], 6);
    assert [] + s == s;
  }

  lemma ParseStdFrame(s: seq<char>, payload: seq<byte>)
    requires s == "t7FA2AABB\r" && payload == [0xAA, 0xBB]
    ensures Accept([], s) == Scanned([Data(0x7FA, payload)], [])
  {
    StdDigits7FA();
    HexAABB(payload);
    assert LengthDigit(2) == '2';
    StdLineText(0x7FA, payload, "7FA", "AABB", s);
    LineRoundTrip(Frame(false, 0x7FA, payload));
  }

  /** Three lines in one call give three frames, in order. */
  lemma ParseStdSeveral(s: seq<char>, p0: seq<byte>, p1: seq<byte>, p2: seq<byte>)
    requires s == "t1111AA\r" + "t00021234\r" + "t7775AABBCCDDEE\r"
    requires p0 == [0xAA] && p1 == [0x12, 0x34] && p2 == [0xAA, 0xBB, 0xCC, 0xDD, 0xEE]
    ensures Accept([], s) == Scanned([Data(0x111, p0), Data(0x000, p1), Data(0x777, p2)], [])
  {
    var f0, f1, f2 := Frame(false, 0x111, p0), Frame(false, 0x000, p1), Frame(false, 0x777, p2);
    Line111(p0);
    Line000(p1);
    Line777(p2);
    WireThree(f0, f1, f2);
    AcceptWire([f0, f1, f2]);
  }

  lemma Line111(p: seq<byte>)
    requires p == [0xAA]
    ensures FrameLine(Frame(false, 0x111, p)) == "t1111AA\r"
  {
    StdDigits111();
    HexAA(p);
    assert LengthDigit(1) == '1';
    StdLineText(0x111, p, "111", "AA", "t1111AA\r");
  }

  lemma Line000(p: seq<byte>)
    requires p == [0x12, 0x34]
    ensures FrameLine(Frame(false, 0x000, p)) == "t00021234\r"
  {
    StdDigits000();
    Hex1234(p);
    assert LengthDigit(2) == '2';
    StdLineText(0x000, p, "000", "1234", "t00021234\r");
  }

  lemma Line777(p: seq<byte>)
    requires p == [0xAA, 0xBB, 0xCC, 0xDD, 0xEE]
    ensures FrameLine(Frame(false, 0x777, p)) == "t7775AABBCCDDEE\r"
  {
    StdDigits777();
    HexAABBCCDDEE(p);
    assert LengthDigit(5) == '5';
    StdLineText(0x777, p, "777", "AABBCCDDEE", "t7775AABBCCDDEE\r");
  }

  /** A standard address above 0x7FF makes the line junk, up to its CR. */
  lemma ParseStdWrongAddress(s: seq<char>)
    requires s == "t8FF0\r"
    ensures Accept([], s) == Scanned([Junk("t8FF0")], [])
  {
    Value8FF(s[1..4]);
    assert FrameStep(s, 3, 0x7FF) == JunkFrom(s, 1);
    CrFromUnique(s, 1, 5);
    assert s[..5] == "t8FF0";
    JunkThenCr(s, "t8FF0");
  }

  /** A length digit above 8 makes the line junk, up to its CR. */
  lemma ParseStdWrongDataSize(s: seq<char>)
    requires s == "t7FF9123\r"
    ensures Accept([], s) == Scanned([Junk("t7FF9123")], [])
  {
    Value7FF(s[1..4]);
    assert CharToNibble(s[4]) == 9;
    assert FrameStep(s, 3, 0x7FF) == JunkFrom(s, 4);
    CrFromUnique(s, 4, 8);
    assert s[..8] == "t7FF9123";
    JunkThenCr(s, "t7FF9123");
  }

  /** A line whose payload is followed by something other than CR is junk;
      with no CR after it either, it is reported whole, in the same call. */
  lemma ParseStdMissingCr(s: seq<char>)
    requires s == "t7FF21233t"
    ensures Accept([], s) == Scanned([Junk(s)], [])
  {
    Value7FF(s[1..4]);
    assert CharToNibble(s[4]) == 2;
    var payload: seq<byte> := [0x12, 0x33];
    Hex1233(payload);
    assert s[5..] == HexStream(payload) + "t";
    DecodeHexStream(payload, "t");
    assert FrameStep(s, 3, 0x7FF) == JunkFrom(s, 9);
    CrFromUnique(s, 9, 10);
    assert s[..10] == s;
    ScanOnce(s, [Junk(s)], 10);
    assert [] + s == s;
  }

  /** Junk before a line costs only the junk. */
  lemma ParseStdJunkPlusOne(s: seq<char>, payload: seq<byte>)
    requires s == "asd\rt00021234\r" && payload == [0x12, 0x34]
    ensures Accept([], s) == Scanned([Junk("asd"), Data(0x000, payload)], [])
  {
    var f := Frame(false, 0x000, payload);
    Line000(payload);
    JunkThenLine(s, "asd", f);
  }

  /** A junk line that does not start like a command, then one data line. */
  lemma JunkThenLine(s: seq<char>, j: seq<char>, f: Frame)
    requires |j| > 0 && '\r' !in j && j[0] != 'z' && j[0] != 't' && j[0] != 'T'
    requires ValidFrame(f) && s == j + ['\r'] + FrameLine(f)
    ensures Accept([], s) == Scanned([Junk(j), Data(f.address, f.payload)], [])
  {
    WireOne(f);
    ResyncUnknown(j, [f]);
  }

  /** A line that cannot be finished yet is kept whole, and so is every
      complete line after it in the same call: the length digit 8 asks for
      sixteen payload digits, which the text does not hold. */
  lemma KeepsLaterLines(s: seq<char>)
    requires s == "t0018AA\rt0010\r"
    ensures Accept([], s) == Scanned([], s)
  {
    StdDigits001();
    AddressHexValue(0x001);
    assert s[1..4] == "001";
    assert CharToNibble(s[4]) == 8;
    assert Step(s) == Defer;
    ScanDefer(s);
    assert [] + s == s;
  }

  /** A line cut between two calls is judged once it is whole: the first
      call keeps "t7FF", the second finds the length digit 9 and reports
      the joined line as junk. */
  lemma ParseStdWrongDataSizeInTwoCalls(a: seq<char>, b: seq<char>)
    requires a == "t7FF" && b == "9123\r"
    ensures Feed([], [a, b]) == Scanned([Junk("t7FF9123")], [])
  {
    KeepsShortLine(a);
    ParseStdWrongDataSize(a + b);
    assert Accept(a, b) == Accept([], a + b) by {
      assert [] + (a + b) == a + b;
    }
    FeedTwo(a, b);
    assert [] + [Junk("t7FF9123")] == [Junk("t7FF9123")];
  }

  lemma KeepsShortLine(a: seq<char>)
    requires a == "t7FF"
    ensures Accept([], a) == Scanned([], a)
  {
    assert Step(a) == Defer;
    ScanDefer(a);
    assert [] + a == a;
  }

  /** A length digit above 8 makes an extended line junk, up to its CR. */
  lemma ParseExtWrongDataSize(s: seq<char>)
    requires s == "T11111111a123\r"
    ensures Accept([], s) == Scanned([Junk("T11111111a123")], [])
  {
    ExtWrongDataSizeStep(s);
    CrFromUnique(s, 9, 13);
    assert s[..13] == "T11111111a123";
    JunkThenCr(s, "T11111111a123");
  }

  lemma ExtWrongDataSizeStep(s: seq<char>)
    requires s == "T11111111a123\r"
    ensures FrameStep(s, 8, 0x1FFF_FFFF) == JunkFrom(s, 9)
  {
    ExtDigits11111111();
    ExtAddressHexValue(0x1111_1111);
    assert s[1..9] == "11111111";
    assert CharToNibble(s[9]) == Invalid;
  }

  /** An extended line whose payload is followed by something other than
      CR, with no CR later in the call, is reported whole as junk. */
  lemma ParseExtMissingCr(s: seq<char>)
    requires s == "T0101010121233T"
    ensures Accept([], s) == Scanned([Junk(s)], [])
  {
    ExtMissingCrStep(s);
    CrFromUnique(s, 14, 15);
    assert s[..15] == s;
    ScanOnce(s, [Junk(s)], 15);
    assert [] + s == s;
  }

  lemma ExtMissingCrStep(s: seq<char>)
    requires s == "T0101010121233T"
    ensures FrameStep(s, 8, 0x1FFF_FFFF) == JunkFrom(s, 14)
  {
    Value01010101(s[1..9]);
    assert CharToNibble(s[9]) == 2;
    var payload: seq<byte> := [0x12, 0x33];
    Hex1233(payload);
    assert s[10..] == HexStream(payload) + "T";
    DecodeHexStream(payload, "T");
  }

  /** An extended line with three bytes. */
  lemma ParseExtFrame(s: seq<char>, payload: seq<byte>)
    requires s == "T012345673284756\r" && payload == [0x28, 0x47, 0x56]
    ensures Accept([], s) == Scanned([Data(0x0123_4567, payload)], [])
  {
    var f := Frame(true, 0x0123_4567, payload);
    Line01234567(payload);
    LineRoundTrip(f);
  }

  lemma Line01234567(payload: seq<byte>)
    requires payload == [0x28, 0x47, 0x56]
    ensures FrameLine(Frame(true, 0x0123_4567, payload)) == "T012345673284756\r"
  {
    ExtDigits01234567();
    Hex284756(payload);
    LineIs('T', "01234567", payload);
    assert LengthDigit(3) == '3';
  }

  /** An extended address above 0x1FFFFFFF makes the line junk, up to its CR. */
  lemma ParseExtWrongAddress(s: seq<char>)
    requires s == "T2FFFFFFF0\r"
    ensures Accept([], s) == Scanned([Junk("T2FFFFFFF0")], [])
  {
    Value2FFFFFFF(s[1..9]);
    assert FrameStep(s, 8, 0x1FFF_FFFF) == JunkFrom(s, 1);
    CrFromUnique(s, 1, 10);
    assert s[..10] == "T2FFFFFFF0";
    JunkThenCr(s, "T2FFFFFFF0");
  }

  /** Junk before an extended line costs only the junk. */
  lemma ParseExtJunkPlusOne(s: seq<char>, payload: seq<byte>)
    requires s == "xxxxxxxxx\rT00008800157\r" && payload == [0x57]
    ensures Accept([], s) == Scanned([Junk("xxxxxxxxx"), Data(0x8800, payload)], [])
  {
    var f := Frame(true, 0x8800, payload);
    Line8800(payload);
    XsThenLine(s, "xxxxxxxxx", FrameLine(f));
    JunkThenLine(s, "xxxxxxxxx", f);
  }

  lemma XsThenLine(s: seq<char>, j: seq<char>, line: seq<char>)
    requires s == "xxxxxxxxx\rT00008800157\r" && j == "xxxxxxxxx" && line == "T00008800157\r"
    ensures s == j + ['\r'] + line && '\r' !in j && j[0] == 'x'
  {
  }

  lemma Line8800(payload: seq<byte>)
    requires payload == [0x57]
    ensures FrameLine(Frame(true, 0x8800, payload)) == "T00008800157\r"
  {
    ExtDigits00008800();
    Hex57(payload);
    LineIs('T', "00008800", payload);
    assert LengthDigit(1) == '1';
  }

  lemma ExtDigits11111111()
    ensures ExtAddressHex(0x1111_1111) == "11111111"
  {
    var a := 0x1111_1111;
    assert (a / 0x1000_0000) % 0x10 == 1 && (a / 0x100_0000) % 0x10 == 1 && (a / 0x10_0000) % 0x10 == 1;
    assert (a / 0x1_0000) % 0x10 == 1 && (a / 0x1000) % 0x10 == 1 && (a / 0x100) % 0x10 == 1;
    assert (a / 0x10) % 0x10 == 1 && a % 0x10 == 1;
    assert NibbleToChar(1) == '1';
  }

  lemma Value01010101(d: seq<char>)
    requires d == "01010101"
    ensures AddressValue(d) == 0x0101_0101
  {
    ExtDigits01010101();
    ExtAddressHexValue(0x0101_0101);
  }

  lemma ExtDigits01010101()
    ensures ExtAddressHex(0x0101_0101) == "01010101"
  {
    var a := 0x0101_0101;
    assert (a / 0x1000_0000) % 0x10 == 0 && (a / 0x100_0000) % 0x10 == 1 && (a / 0x10_0000) % 0x10 == 0;
    assert (a / 0x1_0000) % 0x10 == 1 && (a / 0x1000) % 0x10 == 0 && (a / 0x100) % 0x10 == 1;
    assert (a / 0x10) % 0x10 == 0 && a % 0x10 == 1;
    assert NibbleToChar(0) == '0' && NibbleToChar(1) == '1';
  }

  lemma ExtDigits00008800()
    ensures ExtAddressHex(0x8800) == "00008800"
  {
    var a := 0x8800;
    assert (a / 0x1000_0000) % 0x10 == 0 && (a / 0x100_0000) % 0x10 == 0 && (a / 0x10_0000) % 0x10 == 0;
    assert (a / 0x1_0000) % 0x10 == 0 && (a / 0x1000) % 0x10 == 8 && (a / 0x100) % 0x10 == 8;
    assert (a / 0x10) % 0x10 == 0 && a % 0x10 == 0;
    assert NibbleToChar(0) == '0' && NibbleToChar(8) == '8';
  }

  lemma Hex57(x: seq<byte>)
    requires x == [0x57]
    ensures HexStream(x) == "57"
  {
    assert 0x57 / 0x10 == 5 && 0x57 % 0x10 == 7;
    assert NibbleToChar(5) == '5' && NibbleToChar(7) == '7';
    assert HexStream(x) == HexByte(0x57) + HexStream([]);
  }

  lemma Value7FF(d: seq<char>)
    requires d == "7FF"
    ensures AddressValue(d) == 0x7FF
  {
    assert 0x7FF / 16 == 0x7F && 0x7FF % 16 == 15 && 0x7F / 16 == 7 && 0x7F % 16 == 15;
    assert NibbleToChar(7) == '7' && NibbleToChar(15) == 'F';
    assert HexDigits(7, 1) == "7";
    assert HexDigits(0x7F, 2) == "7F";
    assert HexDigits(0x7FF, 3) == d;
    AddressOnLine(d, 0x7FF);
  }

  lemma Value8FF(d: seq<char>)
    requires d == "8FF"
    ensures AddressValue(d) == 0x8FF
  {
    assert 0x8FF / 16 == 0x8F && 0x8FF % 16 == 15 && 0x8F / 16 == 8 && 0x8F % 16 == 15;
    assert NibbleToChar(8) == '8' && NibbleToChar(15) == 'F';
    assert HexDigits(8, 1) == "8";
    assert HexDigits(0x8F, 2) == "8F";
    assert HexDigits(0x8FF, 3) == d;
    AddressOnLine(d, 0x8FF);
  }

  lemma Value2FFFFFFF(d: seq<char>)
    requires d == "2FFFFFFF"
    ensures AddressValue(d) == 0x2FFF_FFFF
  {
    var a := 0x2FFF_FFFF;
    assert a / 16 == 0x2FF_FFFF && a % 16 == 15;
    assert a / 16 / 16 == 0x2F_FFFF && a / 16 % 16 == 15;
    assert 0x2F_FFFF / 16 == 0x2_FFFF && 0x2F_FFFF % 16 == 15;
    assert 0x2_FFFF / 16 == 0x2FFF && 0x2_FFFF % 16 == 15;
    assert 0x2FFF / 16 == 0x2FF && 0x2FFF % 16 == 15;
    assert 0x2FF / 16 == 0x2F && 0x2FF % 16 == 15;
    assert 0x2F / 16 == 2 && 0x2F % 16 == 15;
    assert NibbleToChar(2) == '2' && NibbleToChar(15) == 'F';
    assert HexDigits(2, 1) == "2";
    assert HexDigits(0x2F, 2) == "2F";
    assert HexDigits(0x2FF, 3) == "2FF";
    assert HexDigits(0x2FFF, 4) == "2FFF";
    assert HexDigits(0x2_FFFF, 5) == "2FFFF";
    assert HexDigits(0x2F_FFFF, 6) == "2FFFFF";
    assert HexDigits(0x2FF_FFFF, 7) == "2FFFFFF";
    assert HexDigits(a, 8) == d;
    AddressOnLine(d, a);
  }

  /** How text is cut into calls matters once it holds junk: with no CR in
      the call, junk ends where the call ends. The same characters give one
      junk event in one call, and junk then a frame in two. */
  lemma JunkDependsOnChunking(s: seq<char>, a: seq<char>, b: seq<char>)
    requires s == "t8FF0t0010\r" && a == "t8FF0" && b == "t0010\r"
    ensures s == a + b
    ensures Accept([], s) == Scanned([Junk("t8FF0t0010")], [])
    ensures Feed([], [a, b]) == Scanned([Junk("t8FF0"), Data(1, [])], [])
  {
    assert s == a + b;
    assert Accept([], s) == Scanned([Junk("t8FF0t0010")], []) by {
      JunkInOneCall(s);
    }
    assert Feed([], [a, b]) == Scanned([Junk("t8FF0"), Data(1, [])], []) by {
      JunkAtEndOfCall(a);
      ParseStdEmpty(b);
      FeedTwo(a, b);
      assert [Junk(a)] + [Data(1, [])] == [Junk("t8FF0"), Data(1, [])];
    }
  }

  lemma JunkInOneCall(s: seq<char>)
    requires s == "t8FF0t0010\r"
    ensures Accept([], s) == Scanned([Junk("t8FF0t0010")], [])
  {
    Value8FF(s[1..4]);
    assert FrameStep(s, 3, 0x7FF) == JunkFrom(s, 1);
    CrFromUnique(s, 1, 10);
    assert s[..10] == "t8FF0t0010";
    JunkThenCr(s, "t8FF0t0010");
  }

  lemma JunkAtEndOfCall(a: seq<char>)
    requires a == "t8FF0"
    ensures Accept([], a) == Scanned([Junk(a)], [])
  {
    Value8FF(a[1..4]);
    assert FrameStep(a, 3, 0x7FF) == JunkFrom(a, 1);
    CrFromUnique(a, 1, 5);
    assert a[..5] == a;
    ScanOnce(a, [Junk(a)], 5);
    assert [] + a == a;
  }

  /** The parser's view of a junk line `j` closed by the CR that ends `s`. */
  lemma JunkThenCr(s: seq<char>, j: seq<char>)
    requires |s| == |j| + 1 && s[|j|] == '\r' && s[..|j|] == j && |j| > 0
    requires Step(s) == Advance([Junk(j)], |j|)
    ensures Accept([], s) == Scanned([Junk(j)], [])
  {
    ScanOnce(s, [Junk(j)], |j|);
    assert s[|j|..] == ['\r'];
    ScanOnce(s[|j|..], [], 1);
    assert [] + s == s;
  }

  /** Two calls in a row. */
  lemma FeedTwo(a: seq<char>, b: seq<char>)
    ensures var r := Accept([], a); var t := Accept(r.buffer, b);
      Feed([], [a, b]) == Scanned(r.events + t.events, t.buffer)
  {
    assert [a, b][1..] == [b] && [b][1..] == [];
    var t := Accept(Accept([], a).buffer, b);
    assert Feed(t.buffer, []) == Scanned([], t.buffer);
    assert t.events + [] == t.events;
  }

  lemma StdLineText(address: uint32, payload: seq<byte>, hex: seq<char>, body: seq<char>, text: seq<char>)
    requires address <= MaxStdAddress && |payload| <= MaxFrameData
    requires AddressHex(address) == hex && HexStream(payload) == body
    requires text == ['t'] + hex + [LengthDigit(|payload|)] + body + ['\r']
    ensures FrameLine(Frame(false, address, payload)) == text
  {
    LineIs('t', hex, payload);
  }

  lemma WireThree(f0: Frame, f1: Frame, f2: Frame)
    requires ValidFrame(f0) && ValidFrame(f1) && ValidFrame(f2)
    ensures Wire([f0, f1, f2]) == FrameLine(f0) + FrameLine(f1) + FrameLine(f2)
    ensures Received([f0, f1, f2]) == [Data(f0.address, f0.payload), Data(f1.address, f1.payload), Data(f2.address, f2.payload)]
  {
    WireOne(f2);
    WireCons(f1, [f2]);
    assert [f1] + [f2] == [f1, f2];
    WireCons(f0, [f1, f2]);
    assert [f0] + [f1, f2] == [f0, f1, f2];
  }

  /** One more frame in front adds its line and its event in front. */
  lemma WireCons(f: Frame, fs: seq<Frame>)
    requires ValidFrame(f) && AllValid(fs)
    ensures AllValid([f] + fs)
    ensures Wire([f] + fs) == FrameLine(f) + Wire(fs)
    ensures Received([f] + fs) == [Data(f.address, f.payload)] + Received(fs)
  {
    assert ([f] + fs)[1..] == fs;
  }

  lemma LinesOfTwo(verb: char, addressHex: seq<char>, a: seq<byte>, b: seq<byte>)
    requires |a| <= MaxFrameData && |b| <= MaxFrameData
    ensures LinesOf(verb, addressHex, [a, b]) == Line(verb, addressHex, a) + Line(verb, addressHex, b)
  {
    assert [a, b][1..] == [b];
    LinesOfSingle(verb, addressHex, b);
  }

  // ------------------------------------------------------- payload digits

  lemma HexAABBCC(x: seq<byte>)
    requires x == [0xAA, 0xBB, 0xCC]
    ensures HexStream(x) == "AABBCC"
  {
    assert 0xAA / 0x10 == 10 && 0xAA % 0x10 == 10;
    assert 0xBB / 0x10 == 11 && 0xBB % 0x10 == 11;
    assert 0xCC / 0x10 == 12 && 0xCC % 0x10 == 12;
    assert NibbleToChar(10) == 'A' && NibbleToChar(11) == 'B' && NibbleToChar(12) == 'C';
    assert HexStream([0xCC]) == "CC";
    assert HexStream([0xBB, 0xCC]) == "BB" + "CC";
    assert HexStream(x) == "AA" + "BBCC";
  }

  lemma HexF62691(x: seq<byte>)
    requires x == [0xF6, 0x26, 0x91]
    ensures HexStream(x) == "F62691"
  {
    assert 0xF6 / 0x10 == 15 && 0xF6 % 0x10 == 6;
    assert 0x26 / 0x10 == 2 && 0x26 % 0x10 == 6;
    assert 0x91 / 0x10 == 9 && 0x91 % 0x10 == 1;
    assert NibbleToChar(15) == 'F' && NibbleToChar(6) == '6' && NibbleToChar(2) == '2';
    assert NibbleToChar(9) == '9' && NibbleToChar(1) == '1';
    assert HexStream([0x91]) == "91";
    assert HexStream([0x26, 0x91]) == "26" + "91";
    assert HexStream(x) == "F6" + "2691";
  }

  lemma Hex2456(x: seq<byte>)
    requires x == [0x24, 0x56]
    ensures HexStream(x) == "2456"
  {
    assert 0x24 / 0x10 == 2 && 0x24 % 0x10 == 4;
    assert 0x56 / 0x10 == 5 && 0x56 % 0x10 == 6;
    assert NibbleToChar(2) == '2' && NibbleToChar(4) == '4';
    assert NibbleToChar(5) == '5' && NibbleToChar(6) == '6';
    assert HexStream([0x56]) == "56";
    assert HexStream(x) == "24" + "56";
  }

  lemma HexAABBCCDDEEFF1122(data: seq<byte>)
    requires data == [0xAA, 0xBB, 0xCC, 0xDD, 0xEE, 0xFF, 0x11, 0x22]
    ensures HexStream(data) == "AABBCCDD" + "EEFF1122"
  {
    var x: seq<byte>, y: seq<byte> := [0xAA, 0xBB, 0xCC, 0xDD], [0xEE, 0xFF, 0x11, 0x22];
    assert HexStream(x) == "AABBCCDD" by { HexAABBCCDD(x); }
    assert HexStream(y) == "EEFF1122" by { HexEEFF1122(y); }
    assert HexStream(data) == HexStream(x) + HexStream(y) by {
      assert data == x + y;
      HexStreamAppend(x, y);
    }
  }

  lemma HexAABBCCDD(x: seq<byte>)
    requires x == [0xAA, 0xBB, 0xCC, 0xDD]
    ensures HexStream(x) == "AABBCCDD"
  {
    assert 0xAA / 0x10 == 10 && 0xAA % 0x10 == 10;
    assert 0xBB / 0x10 == 11 && 0xBB % 0x10 == 11;
    assert 0xCC / 0x10 == 12 && 0xCC % 0x10 == 12;
    assert 0xDD / 0x10 == 13 && 0xDD % 0x10 == 13;
    assert NibbleToChar(10) == 'A' && NibbleToChar(11) == 'B' && NibbleToChar(12) == 'C' && NibbleToChar(13) == 'D';
    assert HexStream([0xDD]) == "DD";
    assert HexStream([0xCC, 0xDD]) == "CC" + "DD";
    assert HexStream([0xBB, 0xCC, 0xDD]) == "BB" + "CCDD";
    assert HexStream(x) == "AA" + "BBCCDD";
  }

  lemma HexEEFF1122(x: seq<byte>)
    requires x == [0xEE, 0xFF, 0x11, 0x22]
    ensures HexStream(x) == "EEFF1122"
  {
    assert 0xEE / 0x10 == 14 && 0xEE % 0x10 == 14;
    assert 0xFF / 0x10 == 15 && 0xFF % 0x10 == 15;
    assert 0x11 / 0x10 == 1 && 0x11 % 0x10 == 1;
    assert 0x22 / 0x10 == 2 && 0x22 % 0x10 == 2;
    assert NibbleToChar(14) == 'E' && NibbleToChar(15) == 'F' && NibbleToChar(1) == '1' && NibbleToChar(2) == '2';
    assert HexStream([0x22]) == "22";
    assert HexStream([0x11, 0x22]) == "11" + "22";
    assert HexStream([0xFF, 0x11, 0x22]) == "FF" + "1122";
    assert HexStream(x) == "EE" + "FF1122";
  }

  lemma Hex2211FFEEDDCCBBAA(data: seq<byte>)
    requires data == [0x22, 0x11, 0xFF, 0xEE, 0xDD, 0xCC, 0xBB, 0xAA]
    ensures HexStream(data) == "2211FFEE" + "DDCCBBAA"
  {
    var x: seq<byte>, y: seq<byte> := [0x22, 0x11, 0xFF, 0xEE], [0xDD, 0xCC, 0xBB, 0xAA];
    assert HexStream(x) == "2211FFEE" by { Hex2211FFEE(x); }
    assert HexStream(y) == "DDCCBBAA" by { HexDDCCBBAA(y); }
    assert HexStream(data) == HexStream(x) + HexStream(y) by {
      assert data == x + y;
      HexStreamAppend(x, y);
    }
  }

  lemma Hex2211FFEE(x: seq<byte>)
    requires x == [0x22, 0x11, 0xFF, 0xEE]
    ensures HexStream(x) == "2211FFEE"
  {
    assert 0x22 / 0x10 == 2 && 0x22 % 0x10 == 2;
    assert 0x11 / 0x10 == 1 && 0x11 % 0x10 == 1;
    assert 0xFF / 0x10 == 15 && 0xFF % 0x10 == 15;
    assert 0xEE / 0x10 == 14 && 0xEE % 0x10 == 14;
    assert NibbleToChar(14) == 'E' && NibbleToChar(15) == 'F' && NibbleToChar(1) == '1' && NibbleToChar(2) == '2';
    assert HexStream([0xEE]) == "EE";
    assert HexStream([0xFF, 0xEE]) == "FF" + "EE";
    assert HexStream([0x11, 0xFF, 0xEE]) == "11" + "FFEE";
    assert HexStream(x) == "22" + "11FFEE";
  }

  lemma HexDDCCBBAA(x: seq<byte>)
    requires x == [0xDD, 0xCC, 0xBB, 0xAA]
    ensures HexStream(x) == "DDCCBBAA"
  {
    assert 0xAA / 0x10 == 10 && 0xAA % 0x10 == 10;
    assert 0xBB / 0x10 == 11 && 0xBB % 0x10 == 11;
    assert 0xCC / 0x10 == 12 && 0xCC % 0x10 == 12;
    assert 0xDD / 0x10 == 13 && 0xDD % 0x10 == 13;
    assert NibbleToChar(10) == 'A' && NibbleToChar(11) == 'B' && NibbleToChar(12) == 'C' && NibbleToChar(13) == 'D';
    assert HexStream([0xAA]) == "AA";
    assert HexStream([0xBB, 0xAA]) == "BB" + "AA";
    assert HexStream([0xCC, 0xBB, 0xAA]) == "CC" + "BBAA";
    assert HexStream(x) == "DD" + "CCBBAA";
  }

  lemma StdDigits001()
    ensures AddressHex(0x001) == "001"
  {
    assert (0x001 / 0x100) % 0x10 == 0 && (0x001 / 0x10) % 0x10 == 0 && 0x001 % 0x10 == 1;
    assert NibbleToChar(0) == '0' && NibbleToChar(1) == '1';
  }

  lemma StdDigits7FA()
    ensures AddressHex(0x7FA) == "7FA"
  {
    assert (0x7FA / 0x100) % 0x10 == 7 && (0x7FA / 0x10) % 0x10 == 15 && 0x7FA % 0x10 == 10;
    assert NibbleToChar(7) == '7' && NibbleToChar(10) == 'A' && NibbleToChar(15) == 'F';
  }

  lemma StdDigits111()
    ensures AddressHex(0x111) == "111"
  {
    assert (0x111 / 0x100) % 0x10 == 1 && (0x111 / 0x10) % 0x10 == 1 && 0x111 % 0x10 == 1;
    assert NibbleToChar(1) == '1';
  }

  lemma StdDigits000()
    ensures AddressHex(0x000) == "000"
  {
    assert (0x000 / 0x100) % 0x10 == 0 && (0x000 / 0x10) % 0x10 == 0 && 0x000 % 0x10 == 0;
    assert NibbleToChar(0) == '0';
  }

  lemma StdDigits777()
    ensures AddressHex(0x777) == "777"
  {
    assert (0x777 / 0x100) % 0x10 == 7 && (0x777 / 0x10) % 0x10 == 7 && 0x777 % 0x10 == 7;
    assert NibbleToChar(7) == '7';
  }

  lemma ExtDigits01234567()
    ensures ExtAddressHex(0x0123_4567) == "01234567"
  {
    var a := 0x0123_4567;
    assert (a / 0x1000_0000) % 0x10 == 0 && (a / 0x100_0000) % 0x10 == 1 && (a / 0x10_0000) % 0x10 == 2;
    assert (a / 0x1_0000) % 0x10 == 3 && (a / 0x1000) % 0x10 == 4 && (a / 0x100) % 0x10 == 5;
    assert (a / 0x10) % 0x10 == 6 && a % 0x10 == 7;
    assert NibbleToChar(0) == '0' && NibbleToChar(1) == '1' && NibbleToChar(2) == '2' && NibbleToChar(3) == '3';
    assert NibbleToChar(4) == '4' && NibbleToChar(5) == '5' && NibbleToChar(6) == '6' && NibbleToChar(7) == '7';
  }

  lemma HexAA(x: seq<byte>)
    requires x == [0xAA]
    ensures HexStream(x) == "AA"
  {
    assert 0xAA / 0x10 == 10 && 0xAA % 0x10 == 10;
    assert NibbleToChar(10) == 'A';
    assert HexStream(x) == HexByte(0xAA) + HexStream([]);
  }

  lemma HexAABB(x: seq<byte>)
    requires x == [0xAA, 0xBB]
    ensures HexStream(x) == "AABB"
  {
    assert 0xAA / 0x10 == 10 && 0xAA % 0x10 == 10;
    assert 0xBB / 0x10 == 11 && 0xBB % 0x10 == 11;
    assert NibbleToChar(10) == 'A' && NibbleToChar(11) == 'B';
    assert HexStream([0xBB]) == "BB";
    assert HexStream(x) == "AA" + "BB";
  }

  lemma Hex1234(x: seq<byte>)
    requires x == [0x12, 0x34]
    ensures HexStream(x) == "1234"
  {
    assert 0x12 / 0x10 == 1 && 0x12 % 0x10 == 2;
    assert 0x34 / 0x10 == 3 && 0x34 % 0x10 == 4;
    assert NibbleToChar(1) == '1' && NibbleToChar(2) == '2' && NibbleToChar(3) == '3' && NibbleToChar(4) == '4';
    assert HexStream([0x34]) == "34";
    assert HexStream(x) == "12" + "34";
  }

  lemma Hex1233(x: seq<byte>)
    requires x == [0x12, 0x33]
    ensures HexStream(x) == "1233"
  {
    assert 0x12 / 0x10 == 1 && 0x12 % 0x10 == 2;
    assert 0x33 / 0x10 == 3 && 0x33 % 0x10 == 3;
    assert NibbleToChar(1) == '1' && NibbleToChar(2) == '2' && NibbleToChar(3) == '3';
    assert HexStream([0x33]) == "33";
    assert HexStream(x) == "12" + "33";
  }

  lemma Hex284756(x: seq<byte>)
    requires x == [0x28, 0x47, 0x56]
    ensures HexStream(x) == "284756"
  {
    assert 0x28 / 0x10 == 2 && 0x28 % 0x10 == 8;
    assert 0x47 / 0x10 == 4 && 0x47 % 0x10 == 7;
    assert 0x56 / 0x10 == 5 && 0x56 % 0x10 == 6;
    assert NibbleToChar(2) == '2' && NibbleToChar(4) == '4' && NibbleToChar(5) == '5' && NibbleToChar(6) == '6';
    assert NibbleToChar(7) == '7' && NibbleToChar(8) == '8';
    assert HexStream([0x56]) == "56";
    assert HexStream([0x47, 0x56]) == "47" + "56";
    assert HexStream(x) == "28" + "4756";
  }

  lemma HexAABBCCDDEE(data: seq<byte>)
    requires data == [0xAA, 0xBB, 0xCC, 0xDD, 0xEE]
    ensures HexStream(data) == "AABBCCDD" + "EE"
  {
    var x: seq<byte>, y: seq<byte> := [0xAA, 0xBB, 0xCC, 0xDD], [0xEE];
    assert HexStream(x) == "AABBCCDD" by { HexAABBCCDD(x); }
    assert HexStream(y) == "EE" by {
      assert 0xEE / 0x10 == 14 && 0xEE % 0x10 == 14 && NibbleToChar(14) == 'E';
      assert HexStream(y) == HexByte(0xEE) + HexStream([]);
    }
    assert HexStream(data) == HexStream(x) + HexStream(y) by {
      assert data == x + y;
      HexStreamAppend(x, y);
    }
  }
}
