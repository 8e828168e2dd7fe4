/**
 * The transmit side of the SLCAN command set: the exact wire lines for
 * opening and closing the channel, setting the bit rate and sending data
 * frames, each line ending in CR. The encoder has no state of its own; what
 * it produces goes to a sink, modelled here as the `output` sequence that
 * every call appends to.
 */
module Encoding {
  import opened Hex

  /** The nine CAN bit rates, in declaration order. */
  datatype BaudRate =
    | Baud10k | Baud20k | Baud50k | Baud100k | Baud125k
    | Baud250k | Baud500k | Baud800k | Baud1M

  /** The rates in the order the enumeration declares them. */
  const DeclarationOrder: seq<BaudRate> :=
    [Baud10k, Baud20k, Baud50k, Baud100k, Baud125k, Baud250k, Baud500k, Baud800k, Baud1M]

  const MaxStdAddress: nat := 0x7FF
  const MaxExtAddress: nat := 0x1FFF_FFFF
  /** The most data bytes one CAN frame, and so one line, carries. */
  const MaxFrameData: nat := 8

  /** The bit-rate code: the rate's position in the declaration order, as a digit. */
  function BaudRateToChar(rate: BaudRate): (c: char)
    ensures '0' <= c <= '8'
    ensures DeclarationOrder[c as int - '0' as int] == rate
  {
    match rate
    case Baud10k => '0'
    case Baud20k => '1'
    case Baud50k => '2'
    case Baud100k => '3'
    case Baud125k => '4'
    case Baud250k => '5'
    case Baud500k => '6'
    case Baud800k => '7'
    case Baud1M => '8'
  }

  /** Distinct rates get distinct codes. */
  lemma BaudRateCodesDistinct(r1: BaudRate, r2: BaudRate)
    requires r1 != r2
    ensures BaudRateToChar(r1) != BaudRateToChar(r2)
  {
  }

  /** The length digit '0' + n of a data line. */
  function LengthDigit(n: nat): (c: char)
    requires n <= MaxFrameData
    ensures '0' <= c <= '8' && CharToNibble(c) == n
  {
    ('0' as int + n) as char
  }

  /** One data line: verb, address digits, then the tail. */
  function Line(verb: char, addressHex: seq<char>, payload: seq<byte>): (line: seq<char>)
    requires |payload| <= MaxFrameData
    ensures |line| == |addressHex| + 3 + 2 * |payload|
    ensures line[0] == verb && line[|line| - 1] == '\r'
  {
    [verb] + addressHex + Tail(payload)
  }

  /** The part of a data line after the address: length digit, payload hex, CR. */
  function Tail(payload: seq<byte>): (tail: seq<char>)
    requires |payload| <= MaxFrameData
    ensures |tail| == 2 + 2 * |payload| && tail[|tail| - 1] == '\r'
  {
    [LengthDigit(|payload|)] + HexStream(payload) + ['\r']
  }

  /** The line `encodeStdFrame` emits: 't', 3 address digits, length, data, CR. */
  function StdLine(address: uint32, payload: seq<byte>): (line: seq<char>)
    requires |payload| <= MaxFrameData
    ensures |line| == 6 + 2 * |payload|
  {
    Line('t', AddressHex(address), payload)
  }

  /** The line `encodeExtFrame` emits: 'T', 8 address digits, length, data, CR. */
  function ExtLine(address: uint32, payload: seq<byte>): (line: seq<char>)
    requires |payload| <= MaxFrameData
    ensures |line| == 11 + 2 * |payload|
  {
    Line('T', ExtAddressHex(address), payload)
  }

  /** The payload pieces `transmitData` puts on separate lines: consecutive
      8-byte pieces and then the remainder, if there is one; a payload of at
      most 8 bytes (the empty one included) is a single piece. */
  function Chunks(data: seq<byte>): (chunks: seq<seq<byte>>)
    ensures |chunks| > 0
    ensures forall k | 0 <= k < |chunks| :: |chunks[k]| <= MaxFrameData
  {
    if |data| <= 8 then [data] else [data[..8]] + Chunks(data[8..])
  }

  /** The pieces joined back together, in order. */
  function Flatten<T>(chunks: seq<seq<T>>): seq<T> {
    if chunks == [] then [] else chunks[0] + Flatten(chunks[1..])
  }

  /** Splitting loses nothing and reorders nothing. */
  lemma {:induction false} ChunksFlatten(data: seq<byte>)
    ensures Flatten(Chunks(data)) == data
  {
    if |data| > 8 {
      ChunksFlatten(data[8..]);
      assert Chunks(data)[1..] == Chunks(data[8..]);
      assert data == data[..8] + data[8..];
    }
  }

  function Min(a: int, b: int): int {
    if a < b then a else b
  }

  /** Piece k is bytes 8k up to 8k + 8 (or the end); there are size/8 full
      pieces and one more only when size % 8 != 0, so no empty piece trails. */
  lemma {:induction false} ChunksShape(data: seq<byte>)
    ensures |Chunks(data)| == if |data| == 0 then 1 else (|data| + 7) / 8
    ensures forall k | 0 <= k < |Chunks(data)| :: Chunks(data)[k] == data[8 * k..Min(8 * k + 8, |data|)]
  {
    if |data| > 8 {
      var rest := data[8..];
      ChunksShape(rest);
      var c := Chunks(data);
      assert c == [data[..8]] + Chunks(rest);
      forall k | 0 <= k < |c|
        ensures c[k] == data[8 * k..Min(8 * k + 8, |data|)]
      {
        if k > 0 {
          assert c[k] == Chunks(rest)[k - 1];
          var lo, hi := 8 * (k - 1), Min(8 * (k - 1) + 8, |rest|);
          assert 8 + lo == 8 * k && 8 + hi == Min(8 * k + 8, |data|);
          SliceOfDrop(data, 8, lo, hi);
        }
      }
    }
  }

  lemma SliceOfDrop<T>(s: seq<T>, d: nat, lo: nat, hi: nat)
    requires d <= |s| && lo <= hi <= |s| - d
    ensures s[d..][lo..hi] == s[d + lo..d + hi]
  {
  }

  /** The lines for a sequence of pieces, all with the same verb and address. */
  function LinesOf(verb: char, addressHex: seq<char>, chunks: seq<seq<byte>>): (out: seq<char>)
    requires forall k | 0 <= k < |chunks| :: |chunks[k]| <= MaxFrameData
    ensures chunks != [] ==> |out| > 0 && out[0] == verb && out[|out| - 1] == '\r'
  {
    if chunks == [] then [] else Line(verb, addressHex, chunks[0]) + LinesOf(verb, addressHex, chunks[1..])
  }

  lemma {:induction false} LinesOfSnoc(verb: char, addressHex: seq<char>, chunks: seq<seq<byte>>, last: seq<byte>)
    requires forall k | 0 <= k < |chunks| :: |chunks[k]| <= MaxFrameData
    requires |last| <= MaxFrameData
    ensures LinesOf(verb, addressHex, chunks + [last]) == LinesOf(verb, addressHex, chunks) + Line(verb, addressHex, last)
  {
    if chunks == [] {
      assert chunks + [last] == [last];
      LinesOfSingle(verb, addressHex, last);
    } else {
      var first, rest := Line(verb, addressHex, chunks[0]), chunks[1..];
      assert (chunks + [last])[0] == chunks[0] && (chunks + [last])[1..] == rest + [last];
      LinesOfSnoc(verb, addressHex, rest, last);
      assert first + (LinesOf(verb, addressHex, rest) + Line(verb, addressHex, last))
          == first + LinesOf(verb, addressHex, rest) + Line(verb, addressHex, last);
    }
  }

  /** Everything `transmitData` emits for an address it accepts: an extended
      line for each piece above 0x7FF, a standard one otherwise. */
  function DataLines(address: uint32, data: seq<byte>): (out: seq<char>)
    requires address <= MaxExtAddress
    ensures |out| > 0 && out[|out| - 1] == '\r'
    ensures out[0] == if address > MaxStdAddress then 'T' else 't'
  {
    if address > MaxStdAddress then LinesOf('T', ExtAddressHex(address), Chunks(data))
    else LinesOf('t', AddressHex(address), Chunks(data))
  }

  /** A payload of at most 8 bytes goes out as the one line the single-frame
      encoders produce. */
  lemma DataLinesShort(address: uint32, data: seq<byte>)
    requires address <= MaxExtAddress && |data| <= MaxFrameData
    ensures DataLines(address, data) == if address > MaxStdAddress then ExtLine(address, data) else StdLine(address, data)
  {
    assert Chunks(data) == [data];
    LinesOfSingle('T', ExtAddressHex(address), data);
    LinesOfSingle('t', AddressHex(address), data);
  }

  lemma LinesOfSingle(verb: char, addressHex: seq<char>, chunk: seq<byte>)
    requires |chunk| <= MaxFrameData
    ensures LinesOf(verb, addressHex, [chunk]) == Line(verb, addressHex, chunk)
  {
    assert [chunk][1..] == [];
  }

  /** The lines for k pieces are k * (width + 3) characters plus two per byte. */
  lemma {:induction false} LinesOfLength(verb: char, addressHex: seq<char>, chunks: seq<seq<byte>>)
    requires forall k | 0 <= k < |chunks| :: |chunks[k]| <= MaxFrameData
    ensures |LinesOf(verb, addressHex, chunks)| == Times(|chunks|, |addressHex| + 3) + 2 * |Flatten(chunks)|
  {
    if chunks != [] {
      var rest := chunks[1..];
      LinesOfLength(verb, addressHex, rest);
      assert LinesOf(verb, addressHex, chunks) == Line(verb, addressHex, chunks[0]) + LinesOf(verb, addressHex, rest);
      assert Flatten(chunks) == chunks[0] + Flatten(rest);
    }
  }

  /** The byte count `transmitData` allocates for a long payload: 22 (27)
      per full standard (extended) line plus 6 + 2r (11 + 2r) for a
      remainder of r bytes. */
  lemma DataLinesLength(address: uint32, data: seq<byte>)
    requires address <= MaxExtAddress && |data| > MaxFrameData
    ensures var full, r := |data| / 8, |data| % 8;
      |DataLines(address, data)| ==
        if address > MaxStdAddress then 27 * full + (if r != 0 then 11 + 2 * r else 0)
        else 22 * full + (if r != 0 then 6 + 2 * r else 0)
  {
    ChunksShape(data);
    ChunksFlatten(data);
    var n, full, r := |data|, |data| / 8, |data| % 8;
    var pieces := |Chunks(data)|;
    assert pieces == full + (if r != 0 then 1 else 0);
    var w := if address > MaxStdAddress then 11 else 6;
    if address > MaxStdAddress {
      LinesOfLength('T', ExtAddressHex(address), Chunks(data));
    } else {
      LinesOfLength('t', AddressHex(address), Chunks(data));
    }
    TimesIsProduct(pieces, w);
    assert 8 * full + r == n;
  }

  class Encoder {
    /** Everything handed to the sink so far. */
    var output: seq<char>

    constructor ()
      ensures output == []
    {
      output := [];
    }

    /** The sink: appends what it is handed. */
    method HandleEncodedData(s: seq<char>)
      modifies this
      ensures output == old(output) + s
    {
      output := output + s;
    }

    method SetBaudrate(rate: BaudRate)
      modifies this
      ensures output == old(output) + ['S', BaudRateToChar(rate), '\r']
    {
      var data := new char[3];
      data[0] := 'S';
      data[1] := BaudRateToChar(rate);
      data[2] := '\r';
      HandleEncodedData(data[..]);
    }

    method OpenCanChannel()
      modifies this
      ensures output == old(output) + "O\r"
    {
      HandleEncodedData("O\r");
    }

    method CloseCanChannel()
      modifies this
      ensures output == old(output) + "C\r"
    {
      HandleEncodedData("C\r");
    }

    method EncodeStdFrame(address: uint32, data: seq<byte>)
      requires |data| <= MaxFrameData
      modifies this
      ensures output == old(output) + StdLine(address, data)
    {
      var size := |data|;
      var msg := new char[22];
      FillStdLine(msg, address, data);
      HandleEncodedData(msg[..5 + size * 2 + 1]);
    }

    method EncodeExtFrame(address: uint32, data: seq<byte>)
      requires |data| <= MaxFrameData
      modifies this
      ensures output == old(output) + ExtLine(address, data)
    {
      var size := |data|;
      var msg := new char[27];
      FillExtLine(msg, address, data);
      HandleEncodedData(msg[..10 + size * 2 + 1]);
    }

    /** Refuses (and emits nothing) unless the payload fits one frame and the
        address is a standard one. */
    method TransmitStdFrame(address: uint32, data: seq<byte>) returns (ok: bool)
      modifies this
      ensures ok == (|data| <= MaxFrameData && address <= MaxStdAddress)
      ensures output == old(output) + (if ok then StdLine(address, data) else [])
    {
      if |data| > 8 || address > 0x7FF {
        return false;
      }
      EncodeStdFrame(address, data);
      return true;
    }

    /** Refuses (and emits nothing) unless the payload fits one frame and the
        address is at most 29 bits wide. */
    method TransmitExtFrame(address: uint32, data: seq<byte>) returns (ok: bool)
      modifies this
      ensures ok == (|data| <= MaxFrameData && address <= MaxExtAddress)
      ensures output == old(output) + (if ok then ExtLine(address, data) else [])
    {
      if |data| > 8 || address > 0x1FFF_FFFF {
        return false;
      }
      EncodeExtFrame(address, data);
      return true;
    }

    /** Picks the line type by address and splits a long payload into
        consecutive lines that share the address; refuses an address wider
        than 29 bits and then emits nothing. A long payload is handed to the
        sink in one piece. */
    method TransmitData(address: uint32, data: seq<byte>) returns (ok: bool)
      modifies this
      ensures ok == (address <= MaxExtAddress)
      ensures output == old(output) + (if ok then DataLines(address, data) else [])
    {
      var size := |data|;
      if size <= 8 {
        if address > 0x1FFF_FFFF {
          return false;
        } else if address > 0x7FF {
          EncodeExtFrame(address, data);
          DataLinesShort(address, data);
          return true;
        }
        EncodeStdFrame(address, data);
        DataLinesShort(address, data);
        return true;
      }

      var prefix: char;
      var streamSize: int;
      var fullMsgNum := size / 8;
      var lastMsgDataSize := size % 8;
      var addressSize: nat;
      var hexAddress := new char[8];
      if address > 0x1FFF_FFFF {
        return false;
      } else if address > 0x7FF {
        prefix := 'T';
        addressSize := 8;
        EncodeExtendedAddress(address, hexAddress, 0);
        streamSize := fullMsgNum * 27;
        TimesIsProduct(fullMsgNum, 27);
        if lastMsgDataSize != 0 {
          streamSize := streamSize + 11 + lastMsgDataSize * 2;
        }
        assert hexAddress[..addressSize] == ExtAddressHex(address);
      } else {
        prefix := 't';
        addressSize := 3;
        EncodeAddress(address, hexAddress, 0);
        streamSize := fullMsgNum * 22;
        TimesIsProduct(fullMsgNum, 22);
        if lastMsgDataSize != 0 {
          streamSize := streamSize + 6 + lastMsgDataSize * 2;
        }
        assert hexAddress[..addressSize] == AddressHex(address);
      }
      EmitLines(prefix, hexAddress, addressSize, streamSize, data);
      return true;
    }

    /** The tail of `transmitData` for a long payload: a buffer of the
        computed size, filled line by line, handed on whole. */
    method EmitLines(prefix: char, hexAddress: array<char>, addressSize: nat, streamSize: nat, data: seq<byte>)
      requires addressSize <= hexAddress.Length && |data| > MaxFrameData
      requires streamSize == Times(|data| / 8, addressSize + 19)
                             + (if |data| % 8 != 0 then addressSize + 3 + 2 * (|data| % 8) else 0)
      modifies this
      ensures output == old(output) + LinesOf(prefix, hexAddress[..addressSize], Chunks(data))
    {
      var msg := new char[streamSize];
      WriteLines(msg, prefix, hexAddress, addressSize, data);
      HandleEncodedData(msg[..]);
    }
  }

  /** The 22-character buffer of `encodeStdFrame`: verb, three address
      digits, length digit, payload digits and CR from the start. */
  method FillStdLine(msg: array<char>, address: uint32, data: seq<byte>)
    requires msg.Length == 22 && |data| <= MaxFrameData
    modifies msg
    ensures msg[..6 + 2 * |data|] == StdLine(address, data)
  {
    ghost var orig := msg[..];
    PutChar(msg, 0, 't');
    ghost var before := msg[..];
    EncodeAddress(address, msg, 1);
    Splice(orig, 0, ['t'], AddressHex(address), before, msg[..]);
    before := msg[..];
    PutTail(msg, 4, data);
    Splice(orig, 0, ['t'] + AddressHex(address), Tail(data), before, msg[..]);
    SpliceHead(orig, StdLine(address, data), msg[..]);
  }

  /** The 27-character buffer of `encodeExtFrame`, filled the same way with
      eight address digits. */
  method FillExtLine(msg: array<char>, address: uint32, data: seq<byte>)
    requires msg.Length == 27 && |data| <= MaxFrameData
    modifies msg
    ensures msg[..11 + 2 * |data|] == ExtLine(address, data)
  {
    ghost var orig := msg[..];
    PutChar(msg, 0, 'T');
    ghost var before := msg[..];
    EncodeExtendedAddress(address, msg, 1);
    Splice(orig, 0, ['T'], ExtAddressHex(address), before, msg[..]);
    before := msg[..];
    PutTail(msg, 9, data);
    Splice(orig, 0, ['T'] + ExtAddressHex(address), Tail(data), before, msg[..]);
    SpliceHead(orig, ExtLine(address, data), msg[..]);
  }

  /** The loop of `transmitData` for a long payload: one line per piece,
      written back to back into a buffer of exactly the size it computes. */
  method WriteLines(msg: array<char>, prefix: char, hexAddress: array<char>, addressSize: nat, data: seq<byte>)
    requires msg != hexAddress && addressSize <= hexAddress.Length
    requires |data| > MaxFrameData
    requires msg.Length == Times(|data| / 8, addressSize + 19)
                           + (if |data| % 8 != 0 then addressSize + 3 + 2 * (|data| % 8) else 0)
    modifies msg
    ensures msg[..] == LinesOf(prefix, hexAddress[..addressSize], Chunks(data))
  {
    var fullMsgNum := |data| / 8;
    var lastMsgDataSize := |data| % 8;
    ghost var chunks := Chunks(data);
    var cur, ptr := WriteFullLines(msg, prefix, hexAddress, addressSize, data);
    LastPieceAt(data, ptr);
    if lastMsgDataSize != 0 {
      PutPiece(msg, cur, prefix, hexAddress, addressSize, chunks, fullMsgNum, data[ptr..]);
      cur := cur + addressSize + 3 + lastMsgDataSize * 2;
      assert chunks[..fullMsgNum + 1] == chunks;
    } else {
      assert chunks[..fullMsgNum] == chunks;
    }
    WrittenWhole(msg, cur);
  }

  lemma WrittenWhole(msg: array<char>, cur: nat)
    requires cur == msg.Length
    ensures msg[..] == msg[..cur]
  {
  }

  /** The full 8-byte pieces, one line each; `cur` and `ptr` end after the
      last full line and the last full piece. */
  method WriteFullLines(msg: array<char>, prefix: char, hexAddress: array<char>, addressSize: nat, data: seq<byte>)
    returns (cur: nat, ptr: nat)
    requires msg != hexAddress && addressSize <= hexAddress.Length
    requires |data| > MaxFrameData
    requires msg.Length >= Times(|data| / 8, addressSize + 19)
    modifies msg
    ensures ptr == |data| / 8 * 8 && |Chunks(data)| >= |data| / 8
    ensures cur == Times(|data| / 8, addressSize + 19)
    ensures msg[..cur] == LinesOf(prefix, hexAddress[..addressSize], Chunks(data)[..|data| / 8])
  {
    var fullMsgNum := |data| / 8;
    ghost var lineLen := addressSize + 19;
    ghost var chunks := Chunks(data);
    ChunksCount(data);
    cur := 0;
    ptr := 0;
    for i := 0 to fullMsgNum
      invariant ptr == 8 * i && cur == Times(i, lineLen) && cur <= msg.Length
      invariant msg[..cur] == LinesOf(prefix, hexAddress[..addressSize], chunks[..i])
    {
      TimesMonotonic(i + 1, fullMsgNum, lineLen);
      PutFullPiece(msg, cur, prefix, hexAddress, addressSize, data, i, ptr);
      cur := cur + addressSize + 19;
      ptr := ptr + 8;
    }
  }

  /** One turn of that loop: the line for full piece i, the 8 bytes at 8i. */
  method PutFullPiece(msg: array<char>, cur: nat, prefix: char, hexAddress: array<char>, addressSize: nat,
                      data: seq<byte>, ghost i: nat, ptr: nat)
    requires msg != hexAddress && addressSize <= hexAddress.Length
    requires |data| > MaxFrameData && i < |data| / 8 && i < |Chunks(data)| && ptr == 8 * i
    requires cur <= msg.Length && msg[..cur] == LinesOf(prefix, hexAddress[..addressSize], Chunks(data)[..i])
    requires cur + addressSize + 19 <= msg.Length
    modifies msg
    ensures msg[..cur + addressSize + 19] == LinesOf(prefix, hexAddress[..addressSize], Chunks(data)[..i + 1])
  {
    FullPieceAt(data, i, ptr);
    PutPiece(msg, cur, prefix, hexAddress, addressSize, Chunks(data), i, data[ptr..ptr + 8]);
  }

  /** Piece i of a long payload, i below the count of full pieces, is the
      8 bytes at 8i. */
  lemma FullPieceAt(data: seq<byte>, i: nat, ptr: nat)
    requires |data| > MaxFrameData && i < |data| / 8 && ptr == 8 * i
    ensures i < |Chunks(data)| && ptr + 8 <= |data|
    ensures Chunks(data)[i] == data[ptr..ptr + 8]
  {
    ChunksCount(data);
    ChunkAt(data, i);
  }

  /** The pieces of a long payload: one per full 8 bytes, and one more for
      the bytes after `ptr` when they are not a multiple of 8. */
  lemma LastPieceAt(data: seq<byte>, ptr: nat)
    requires |data| > MaxFrameData && ptr == |data| / 8 * 8
    ensures |Chunks(data)| == |data| / 8 + (if |data| % 8 != 0 then 1 else 0)
    ensures ptr <= |data| && |data[ptr..]| == |data| % 8
    ensures |data| % 8 != 0 ==> Chunks(data)[|data| / 8] == data[ptr..]
  {
    ChunksCount(data);
    if |data| % 8 != 0 {
      ChunkAt(data, |data| / 8);
    }
  }

  /** Writes the line for piece i at the cursor, right after the lines for
      the pieces before it. */
  method PutPiece(msg: array<char>, cur: nat, prefix: char, hexAddress: array<char>, addressSize: nat,
                  ghost chunks: seq<seq<byte>>, ghost i: nat, piece: seq<byte>)
    requires msg != hexAddress && addressSize <= hexAddress.Length
    requires forall k | 0 <= k < |chunks| :: |chunks[k]| <= MaxFrameData
    requires i < |chunks| && piece == chunks[i]
    requires cur <= msg.Length && msg[..cur] == LinesOf(prefix, hexAddress[..addressSize], chunks[..i])
    requires cur + addressSize + 3 + 2 * |piece| <= msg.Length
    modifies msg
    ensures msg[..cur + addressSize + 3 + 2 * |piece|] == LinesOf(prefix, hexAddress[..addressSize], chunks[..i + 1])
  {
    ghost var before := msg[..];
    PutLine(msg, cur, prefix, hexAddress, addressSize, piece);
    AppendLine(before, msg[..], cur, prefix, hexAddress[..addressSize], chunks, i);
  }

  /** After writing one more line at the cursor, the written run is the lines
      so far followed by that line. */
  lemma AppendLine(before: seq<char>, after: seq<char>, cur: nat, verb: char, addressHex: seq<char>,
                   chunks: seq<seq<byte>>, i: nat)
    requires forall k | 0 <= k < |chunks| :: |chunks[k]| <= MaxFrameData
    requires i < |chunks|
    requires cur <= |before| && before[..cur] == LinesOf(verb, addressHex, chunks[..i])
    requires cur + |addressHex| + 3 + 2 * |chunks[i]| <= |before|
    requires after == before[..cur] + Line(verb, addressHex, chunks[i]) + before[cur + |addressHex| + 3 + 2 * |chunks[i]|..]
    ensures after[..cur + |addressHex| + 3 + 2 * |chunks[i]|] == LinesOf(verb, addressHex, chunks[..i + 1])
  {
    LinesOfSnoc(verb, addressHex, chunks[..i], chunks[i]);
    assert chunks[..i + 1] == chunks[..i] + [chunks[i]];
    assert after[..cur + |addressHex| + 3 + 2 * |chunks[i]|] == before[..cur] + Line(verb, addressHex, chunks[i]);
  }

  /** A long payload has size/8 full pieces and one more for a remainder. */
  lemma ChunksCount(data: seq<byte>)
    requires |data| > MaxFrameData
    ensures |Chunks(data)| == |data| / 8 + (if |data| % 8 != 0 then 1 else 0)
  {
    ChunksShape(data);
  }

  /** Piece k of a payload. */
  lemma ChunkAt(data: seq<byte>, k: nat)
    requires k < |Chunks(data)|
    ensures 8 * k <= Min(8 * k + 8, |data|) <= |data|
    ensures Chunks(data)[k] == data[8 * k..Min(8 * k + 8, |data|)]
  {
    ChunksShape(data);
  }

  /** k * c, counted out one line at a time. */
  function Times(k: nat, c: nat): nat {
    if k == 0 then 0 else c + Times(k - 1, c)
  }

  lemma {:induction false} TimesMonotonic(j: nat, k: nat, c: nat)
    requires j <= k
    ensures Times(j, c) <= Times(k, c)
    decreases k
  {
    if j < k {
      TimesMonotonic(j, k - 1, c);
    }
  }

  lemma {:induction false} TimesIsProduct(k: nat, c: nat)
    ensures Times(k, c) == k * c
  {
    if k > 0 {
      TimesIsProduct(k - 1, c);
    }
  }

  /** One line of `transmitData` written at the cursor: verb, the address
      digits copied from `hexAddress`, the length digit, the payload, CR. */
  method PutLine(msg: array<char>, cur: nat, prefix: char, hexAddress: array<char>, addressSize: nat, chunk: seq<byte>)
    requires msg != hexAddress
    requires addressSize <= hexAddress.Length && |chunk| <= MaxFrameData
    requires cur + addressSize + 3 + 2 * |chunk| <= msg.Length
    modifies msg
    ensures msg[..] == old(msg[..])[..cur] + Line(prefix, hexAddress[..addressSize], chunk)
                       + old(msg[..])[cur + addressSize + 3 + 2 * |chunk|..]
  {
    ghost var orig := msg[..];
    var at := cur;
    PutChar(msg, at, prefix);
    at := at + 1;
    ghost var before := msg[..];
    MemCopy(msg, at, hexAddress, addressSize);
    Splice(orig, cur, [prefix], hexAddress[..addressSize], before, msg[..]);
    at := at + addressSize;
    before := msg[..];
    PutTail(msg, at, chunk);
    Splice(orig, cur, [prefix] + hexAddress[..addressSize], Tail(chunk), before, msg[..]);
  }

  /** Writes the tail of a data line from `at` on: `'0' + size`, the payload
      digits, CR. */
  method PutTail(msg: array<char>, at: nat, chunk: seq<byte>)
    requires |chunk| <= MaxFrameData && at + 2 + 2 * |chunk| <= msg.Length
    modifies msg
    ensures msg[..] == old(msg[..])[..at] + Tail(chunk) + old(msg[..])[at + 2 + 2 * |chunk|..]
  {
    ghost var orig := msg[..];
    PutChar(msg, at, LengthDigit(|chunk|));
    ghost var before := msg[..];
    EncodeHexStream(chunk, msg, at + 1);
    Splice(orig, at, [LengthDigit(|chunk|)], HexStream(chunk), before, msg[..]);
    before := msg[..];
    PutChar(msg, at + 1 + |chunk| * 2, '\r');
    Splice(orig, at, [LengthDigit(|chunk|)] + HexStream(chunk), ['\r'], before, msg[..]);
  }

  /** `dest[at] = c`. */
  method PutChar(dest: array<char>, at: nat, c: char)
    requires at < dest.Length
    modifies dest
    ensures dest[..] == old(dest[..])[..at] + [c] + old(dest[..])[at + 1..]
  {
    dest[at] := c;
    SpliceFromPoints(old(dest[..]), dest[..], at, [c]);
  }

  /** `memcpy(dest + at, src, n)`. */
  method MemCopy(dest: array<char>, at: nat, src: array<char>, n: nat)
    requires dest != src && n <= src.Length && at + n <= dest.Length
    modifies dest
    ensures dest[..] == old(dest[..])[..at] + src[..n] + old(dest[..])[at + n..]
  {
    forall k | 0 <= k < n {
      dest[at + k] := src[k];
    }
    SpliceFromPoints(old(dest[..]), dest[..], at, src[..n]);
  }
}
