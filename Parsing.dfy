/**
 * The receive side of the SLCAN command set: a stream parser that is fed
 * the bytes coming back from the adapter in arbitrary pieces and reports
 * each complete data line as a data event and everything it cannot use as
 * a junk event. It stops at the first line it cannot judge yet and keeps
 * the text from there for the next call, later complete lines included.
 *
 * The specification works on the unread text `s` (the parser's buffer from
 * its cursor on): `Step(s)` says what one pass of the parser's loop does at
 * the head of `s`, `Scan(s)` runs the loop to the end, and `Accept` is one
 * call. The `Parser` class walks a cursor over its buffer the way the
 * source does and is proved to agree with `Accept`.
 */
module Parsing {
  import opened Hex

  /** The most data bytes one line carries. */
  const MaxDataSize: nat := 8
  /** What the address parser yields for a non-hex address digit. */
  const BadAddress: uint32 := 0xFFFF_FFFF

  /** What the parser hands to its owner: a frame, or a run of bytes it
      could not use. */
  datatype Event =
    | Data(address: uint32, payload: seq<byte>)
    | Junk(span: seq<char>)

  /** One pass of the loop at the head of the unread text: either the text
      is an unfinished line that must wait for more input, or the pass
      reports some events and moves the cursor `consumed` bytes on. */
  datatype StepResult =
    | Defer
    | Advance(events: seq<Event>, consumed: nat)

  /** The events of one call and the text the parser keeps afterwards. */
  datatype Scanned = Scanned(events: seq<Event>, buffer: seq<char>)

  /** The payload of a line: the bytes, or the offset of the first pair of
      characters that is not two hex digits. */
  datatype Payload = Bytes(bytes: seq<byte>) | BadPair(at: nat)

  /** The position of the first CR in `s` at or after `from`, or `|s|` when
      there is none. */
  function CrFrom(s: seq<char>, from: nat): (r: nat)
    requires from <= |s|
    ensures from <= r <= |s|
    ensures forall k | from <= k < r :: s[k] != '\r'
    ensures r < |s| ==> s[r] == '\r'
    decreases |s| - from
  {
    if from == |s| || s[from] == '\r' then from else CrFrom(s, from + 1)
  }

  /** `skipJunk`: look for the next CR from `from` on; everything from the
      start of the line up to it (not included) is one junk event. */
  function JunkFrom(s: seq<char>, from: nat): (r: StepResult)
    requires from <= |s|
    ensures r.Advance? && |r.events| == 1 && r.events[0].Junk?
    ensures from <= r.consumed <= |s| && r.events[0].span == s[..r.consumed]
    ensures r.consumed == CrFrom(s, from)
  {
    var e := CrFrom(s, from);
    Advance([Junk(s[..e])], e)
  }

  lemma Pow16Monotonic(a: nat, b: nat)
    requires a <= b
    ensures Pow16(a) <= Pow16(b)
    decreases b
  {
    if a < b {
      Pow16Monotonic(a, b - 1);
    }
  }

  /** `parseAddress`: the digits as a big-endian number, or all ones when
      one of them is not a hex digit. */
  function AddressValue(digits: seq<char>): (a: uint32)
    requires |digits| <= 8
    ensures AllHex(digits) ==> a < Pow16(|digits|) && HexDigits(a, |digits|) == digits
    ensures !AllHex(digits) ==> a == BadAddress
  {
    if AllHex(digits) then
      Pow16Monotonic(|digits|, 8);
      DigitsOfValue(digits);
      HexValue(digits)
    else BadAddress
  }

  predicate PairValid(p: seq<char>, i: nat)
    requires 2 * i + 1 < |p|
  {
    IsHexDigit(p[2 * i]) && IsHexDigit(p[2 * i + 1])
  }

  /** `(l << 4) | r` for the pair i of `p`. */
  function PairValue(p: seq<char>, i: nat): byte
    requires 2 * i + 1 < |p| && PairValid(p, i)
  {
    CharToNibble(p[2 * i]) * 16 + CharToNibble(p[2 * i + 1])
  }

  /** The first of the pairs from, ..., n - 1 of `p` that is not two hex
      digits, or `n`. */
  function FirstBadPair(p: seq<char>, n: nat, from: nat): (r: nat)
    requires 2 * n <= |p| && from <= n
    ensures from <= r <= n
    ensures forall j | from <= j < r :: PairValid(p, j)
    ensures r < n ==> !PairValid(p, r)
    decreases n - from
  {
    if from == n || !PairValid(p, from) then from else FirstBadPair(p, n, from + 1)
  }

  /** The `n` data bytes at the head of `p`, decoded pair by pair. */
  function DecodePayload(p: seq<char>, n: nat): (r: Payload)
    requires 2 * n <= |p|
    ensures r.Bytes? <==> forall j | 0 <= j < n :: PairValid(p, j)
    ensures r.Bytes? ==> |r.bytes| == n && HexStream(r.bytes) == p[..2 * n]
    ensures r.BadPair? ==> r.at % 2 == 0 && r.at < 2 * n
    ensures r.BadPair? ==> !PairValid(p, r.at / 2) && forall j | 0 <= j < r.at / 2 :: PairValid(p, j)
  {
    var k := FirstBadPair(p, n, 0);
    if k < n then BadPair(2 * k) else Bytes(PairValues(p, n))
  }

  lemma SliceAt(s: seq<char>, at: nat, k: nat)
    requires at + k < |s|
    ensures s[at..][k] == s[at + k]
  {
  }

  /** One more pair of hex digits extends the decoded values by its byte. */
  lemma NextPair(p: seq<char>, i: nat, l: int, r: int)
    requires 2 * i + 1 < |p| && forall j | 0 <= j < i :: PairValid(p, j)
    requires l == CharToNibble(p[2 * i]) && r == CharToNibble(p[2 * i + 1]) && l != Invalid && r != Invalid
    ensures forall j | 0 <= j < i + 1 :: PairValid(p, j)
    ensures 0 <= l * 16 + r < 0x100 && PairValues(p, i + 1) == PairValues(p, i) + [l * 16 + r]
  {
    assert PairValid(p, i);
  }

  /** Decoding stops at the first bad pair. */
  lemma DecodeStops(p: seq<char>, n: nat, k: nat)
    requires 2 * n <= |p| && k < n
    requires (forall j | 0 <= j < k :: PairValid(p, j)) && !PairValid(p, k)
    ensures DecodePayload(p, n) == BadPair(2 * k)
  {
  }

  /** With every pair valid, decoding gives their values. */
  lemma DecodeAll(p: seq<char>, n: nat)
    requires 2 * n <= |p| && forall j | 0 <= j < n :: PairValid(p, j)
    ensures DecodePayload(p, n) == Bytes(PairValues(p, n))
  {
  }

  /** The values of the first `n` pairs of `p`, all of them hex digits. */
  function PairValues(p: seq<char>, n: nat): (bytes: seq<byte>)
    requires 2 * n <= |p| && forall j | 0 <= j < n :: PairValid(p, j)
    ensures |bytes| == n && HexStream(bytes) == p[..2 * n]
  {
    if n == 0 then []
    else
      var head := PairValues(p, n - 1);
      PairDigits(p, n - 1, head);
      head + [PairValue(p, n - 1)]
  }

  /** The digits of one more valid pair extend the digits read so far. */
  lemma PairDigits(p: seq<char>, i: nat, head: seq<byte>)
    requires 2 * i + 1 < |p| && PairValid(p, i) && HexStream(head) == p[..2 * i]
    ensures HexStream(head + [PairValue(p, i)]) == p[..2 * i + 2]
  {
    var v := PairValue(p, i);
    HexStreamAppend(head, [v]);
    HexByteOfDigits(p[2 * i], p[2 * i + 1]);
    assert HexStream([v]) == HexByte(v) + HexStream([]);
    assert p[..2 * i + 2] == p[..2 * i] + [p[2 * i], p[2 * i + 1]];
  }

  /** The `parseFrame:` block for a line of `s` with `addrSize` address
      digits and addresses up to `maxAddress`. */
  function FrameStep(s: seq<char>, addrSize: nat, maxAddress: uint32): (r: StepResult)
    requires 0 < |s| && addrSize <= 8
    ensures r.Defer? ==> |s| < addrSize + 3 + 2 * MaxDataSize
    ensures r.Advance? ==> |r.events| == 1 && 0 < r.consumed <= |s|
    ensures r.Advance? && r.events[0].Data? && maxAddress < BadAddress ==>
      r.events[0].address <= maxAddress && LineReadsAs(s, addrSize, r.events[0], r.consumed)
  {
    if |s| < addrSize + 2 then Defer
    else
      var address := AddressValue(s[1..1 + addrSize]);
      if address > maxAddress then JunkFrom(s, 1)
      else
        var n := CharToNibble(s[1 + addrSize]);
        if n > MaxDataSize then JunkFrom(s, 1 + addrSize)
        else
          var r := BodyStep(s, addrSize, address, n);
          if address < BadAddress then BodyReadsAs(s, addrSize, address, n, r); r else r
  }

  /** A data event of the body reads the whole line it came from. */
  lemma BodyReadsAs(s: seq<char>, addrSize: nat, address: uint32, n: nat, r: StepResult)
    requires addrSize + 2 <= |s| && n <= MaxDataSize && addrSize <= 8
    requires address == AddressValue(s[1..1 + addrSize]) && address < BadAddress
    requires n == CharToNibble(s[1 + addrSize]) && r == BodyStep(s, addrSize, address, n)
    ensures r.Advance? && r.events[0].Data? ==> LineReadsAs(s, addrSize, r.events[0], r.consumed)
  {
  }

  /** The rest of the `parseFrame:` block, once the address and the length
      digit `n` have been accepted: the payload and the closing CR. */
  function BodyStep(s: seq<char>, addrSize: nat, address: uint32, n: nat): (r: StepResult)
    requires addrSize + 2 <= |s| && n <= MaxDataSize
    ensures r.Defer? <==> |s| < addrSize + 3 + 2 * n
    ensures r.Advance? ==> |r.events| == 1 && 0 < r.consumed <= |s|
    ensures r.Advance? && r.events[0].Data? ==>
      r.events[0].address == address && |r.events[0].payload| == n && r.consumed == addrSize + 3 + 2 * n
      && HexStream(r.events[0].payload) == s[addrSize + 2..addrSize + 2 + 2 * n] && s[addrSize + 2 + 2 * n] == '\r'
  {
    if |s| - (addrSize + 2) < 2 * n + 1 then Defer
    else
      var p := s[addrSize + 2..];
      assert p[..2 * n] == s[addrSize + 2..addrSize + 2 + 2 * n];
      CloseStep(s, addrSize, address, n, DecodePayload(p, n))
  }

  /** The end of the `parseFrame:` block, given how the payload decoded: a
      bad pair or a missing CR is junk from there, anything else is data. */
  function CloseStep(s: seq<char>, addrSize: nat, address: uint32, n: nat, d: Payload): (r: StepResult)
    requires addrSize + 2 + 2 * n < |s| && (d.BadPair? ==> d.at <= 2 * n)
    ensures r.Advance? && |r.events| == 1 && 0 < r.consumed <= |s|
    ensures r.events[0].Data? <==> d.Bytes? && s[addrSize + 2 + 2 * n] == '\r'
    ensures r.events[0].Data? ==> r.events[0] == Data(address, d.bytes) && r.consumed == addrSize + 3 + 2 * n
  {
    match d
    case BadPair(k) => JunkFrom(s, addrSize + 2 + k)
    case Bytes(b) =>
      if s[addrSize + 2 + 2 * n] != '\r' then JunkFrom(s, addrSize + 2 + 2 * n)
      else Advance([Data(address, b)], addrSize + 3 + 2 * n)
  }

  /** `s` starts with a well-formed data line of `addrSize` address digits,
      `len` characters long, whose fields read as the data event `e`. */
  predicate LineReadsAs(s: seq<char>, addrSize: nat, e: Event, len: nat) {
    e.Data? && |e.payload| <= MaxDataSize && len == addrSize + 3 + 2 * |e.payload| && len <= |s|
    && HexDigits(e.address, addrSize) == s[1..1 + addrSize]
    && CharToNibble(s[1 + addrSize]) == |e.payload|
    && HexStream(e.payload) == s[addrSize + 2..len - 1] && s[len - 1] == '\r'
  }

  /** One pass of the loop of `acceptData`, by the byte at the cursor. */
  function Step(s: seq<char>): (r: StepResult)
    requires |s| > 0
    ensures r.Advance? ==> 0 < r.consumed <= |s|
  {
    match s[0]
    case '\r' => Advance([], 1)
    case 'z' =>
      if |s| == 1 then Defer
      else if s[1] != '\r' then JunkFrom(s, 1)
      else Advance([], 2)
    case 't' => FrameStep(s, 3, 0x7FF)
    case 'T' => FrameStep(s, 8, 0x1FFF_FFFF)
    case _ => JunkFrom(s, 0)
  }

  /** The loop of `acceptData` over the unread text: the events in order and
      what is kept, which is nothing or a suffix of the text at which the
      loop stops to wait for more input. */
  function Scan(s: seq<char>): (r: Scanned)
    requires |s| > 0
    ensures Retained(r.buffer)
    decreases |s|
  {
    match Step(s)
    case Defer => Scanned([], s)
    case Advance(events, n) =>
      if n == |s| then Scanned(events, [])
      else
        var rest := Scan(s[n..]);
        Scanned(events + rest.events, rest.buffer)
  }

  /** What a scan keeps is the tail of its text: the loop only ever moves
      its cursor forward and keeps everything from the cursor on. */
  lemma {:induction false} ScanKeepsTail(s: seq<char>)
    requires |s| > 0
    ensures |Scan(s).buffer| <= |s| && Scan(s).buffer == s[|s| - |Scan(s).buffer|..]
    decreases |s|
  {
    var r := Step(s);
    if r.Defer? {
      ScanDefer(s);
    } else if r.consumed < |s| {
      var n := r.consumed;
      ScanOnce(s, r.events, n);
      ScanKeepsTail(s[n..]);
      TailOfTail(s, n, |Scan(s[n..]).buffer|);
    } else {
      ScanOnce(s, r.events, r.consumed);
    }
  }

  /** The last `k` characters of a suffix of `s` are the last `k` of `s`. */
  lemma TailOfTail(s: seq<char>, n: nat, k: nat)
    requires n <= |s| && k <= |s| - n
    ensures s[n..][|s| - n - k..] == s[|s| - k..]
  {
  }

  /** Every data event of a pass reads a whole data line: a 't' line with an
      address up to 0x7FF, or a 'T' line with an address up to 0x1FFFFFFF,
      whose digits, length and payload are exactly the event's. */
  lemma StepData(s: seq<char>)
    requires |s| > 0 && Step(s).Advance? && Step(s).events != [] && Step(s).events[0].Data?
    ensures var r := Step(s); var e := r.events[0];
      (s[0] == 't' && e.address <= 0x7FF && LineReadsAs(s, 3, e, r.consumed))
      || (s[0] == 'T' && e.address <= 0x1FFF_FFFF && LineReadsAs(s, 8, e, r.consumed))
  {
  }

  /** One call of `acceptData`: nothing happens for an empty piece,
      otherwise the piece is appended to what was kept and scanned. */
  function Accept(buffer: seq<char>, data: seq<char>): (r: Scanned)
    ensures |r.buffer| <= |buffer| + |data| && r.buffer == (buffer + data)[|buffer| + |data| - |r.buffer|..]
    ensures Retained(buffer) || data != [] ==> Retained(r.buffer)
    ensures data == [] ==> r == Scanned([], buffer)
  {
    if |data| == 0 then
      assert (buffer + data)[|buffer| + |data| - |buffer|..] == buffer;
      Scanned([], buffer)
    else
      ScanKeepsTail(buffer + data);
      Scan(buffer + data)
  }

  /** What the parser can keep between calls. */
  predicate Retained(buffer: seq<char>) {
    buffer == [] || Step(buffer) == Defer
  }

  /** The text the loop stops at is a lone 'z' or the start of a data line
      too short to judge: at most 21 bytes for a standard line, 26 for an
      extended one. Within that bound the kept text can still hold complete
      lines after the first, which wait with it (`Vectors.KeepsLaterLines`). */
  lemma DeferShape(s: seq<char>)
    requires |s| > 0 && Step(s) == Defer
    ensures s == ['z'] || (s[0] == 't' && |s| <= 21) || (s[0] == 'T' && |s| <= 26)
  {
    if s[0] == 't' || s[0] == 'T' {
      var addrSize := if s[0] == 't' then 3 else 8;
      if |s| >= addrSize + 2 {
        assert CharToNibble(s[1 + addrSize]) <= MaxDataSize;
      }
    }
  }

  /** Exactly when a pass waits for more input: at a lone 'z', at a 't' or
      'T' whose address and length digit are not all there yet, or when
      they are, the address is in range, the length digit is at most 8 and
      the text is shorter than the line it announces. */
  lemma DeferExactly(s: seq<char>)
    requires |s| > 0
    ensures Step(s) == Defer <==>
      s == ['z']
      || (s[0] == 't' && (|s| < 5 || (AddressValue(s[1..4]) <= 0x7FF && CharToNibble(s[4]) <= 8
                                      && |s| < 6 + 2 * CharToNibble(s[4]))))
      || (s[0] == 'T' && (|s| < 10 || (AddressValue(s[1..9]) <= 0x1FFF_FFFF && CharToNibble(s[9]) <= 8
                                       && |s| < 11 + 2 * CharToNibble(s[9]))))
  {
    if s[0] == 't' {
      assert Step(s) == FrameStep(s, 3, 0x7FF);
    } else if s[0] == 'T' {
      assert Step(s) == FrameStep(s, 8, 0x1FFF_FFFF);
    }
  }

  /** Once the address and length digit are there, an address out of range
      (a non-hex digit included) or a length digit above 8 is junk up to the
      line's CR, never a wait. */
  lemma HeaderJunk(s: seq<char>, addrSize: nat, maxAddress: uint32)
    requires |s| > 0 && ((s[0] == 't' && addrSize == 3 && maxAddress == 0x7FF)
                         || (s[0] == 'T' && addrSize == 8 && maxAddress == 0x1FFF_FFFF))
    requires addrSize + 2 <= |s|
    requires AddressValue(s[1..1 + addrSize]) > maxAddress || CharToNibble(s[1 + addrSize]) > MaxDataSize
    ensures Step(s) == Advance([Junk(s[..CrFrom(s, 0)])], CrFrom(s, 0))
  {
    assert Step(s) == FrameStep(s, addrSize, maxAddress);
    StepJunk(s);
    CrFromUnique(s, 0, Step(s).consumed);
  }

  /** "z\r" is consumed without an event. */
  lemma ZCrSilent(w: seq<char>)
    requires |w| > 0
    ensures Scan(['z', '\r'] + w) == Scan(w)
  {
    assert (['z', '\r'] + w)[2..] == w;
  }

  /** A 'z' followed by anything but CR is junk up to the CR. */
  lemma ZJunk(s: seq<char>)
    requires |s| > 1 && s[0] == 'z' && s[1] != '\r'
    ensures Step(s) == Advance([Junk(s[..CrFrom(s, 0)])], CrFrom(s, 0))
  {
    CrFromUnique(s, 0, CrFrom(s, 1));
  }

  /** A 'z' that ends the text is kept as exactly "z": after a pass that
      stops right before it, the loop reports that pass's events and waits. */
  lemma ZKept(t: seq<char>, events: seq<Event>, n: nat)
    requires 0 < n && n + 1 == |t| && t[n] == 'z' && Step(t) == Advance(events, n)
    ensures Scan(t) == Scanned(events, ['z'])
  {
    ScanOnce(t, events, n);
    assert t[n..] == ['z'];
  }

  /** The text `acceptData` keeps is always a lone 'z' or a line start of
      at most 26 bytes. */
  lemma {:induction false} AcceptRetains(buffer: seq<char>, data: seq<char>)
    requires Retained(buffer)
    ensures Retained(Accept(buffer, data).buffer)
    ensures |Accept(buffer, data).buffer| <= 26
  {
    var b := Accept(buffer, data).buffer;
    if b != [] {
      DeferShape(b);
    }
  }

  /** A junk event always runs from the start of the line it is reported for
      up to the next CR, or to the end of the text, whichever comes first:
      all the tests before the search start only ever pass over characters
      that are not CR. */
  lemma StepJunkSpan(s: seq<char>)
    requires |s| > 0 && Step(s).Advance?
    ensures forall e | e in Step(s).events && e.Junk? :: e.span == s[..CrFrom(s, 0)] && e.span != []
  {
    var r := Step(s);
    if r.events != [] && r.events[0].Junk? {
      StepJunk(s);
      CrFromUnique(s, 0, r.consumed);
    }
  }

  /** A pass that reports junk reports the whole text up to the first CR of
      `s` (or all of it) as one event. */
  predicate WholeLineJunk(s: seq<char>, r: StepResult) {
    && r.Advance? && r.consumed <= |s| && r.events == [Junk(s[..r.consumed])]
    && (forall k | 0 <= k < r.consumed :: s[k] != '\r')
    && (r.consumed < |s| ==> s[r.consumed] == '\r')
  }

  lemma StepJunk(s: seq<char>)
    requires |s| > 0 && Step(s).Advance? && Step(s).events != [] && Step(s).events[0].Junk?
    ensures WholeLineJunk(s, Step(s))
  {
    if s[0] == 't' {
      FrameJunk(s, 3, 0x7FF);
    } else if s[0] == 'T' {
      FrameJunk(s, 8, 0x1FFF_FFFF);
    }
  }

  /** The header of a frame line that was read up to its length digit holds
      no CR, so a junk search from inside the frame saw none before it. */
  lemma FrameJunk(s: seq<char>, addrSize: nat, maxAddress: uint32)
    requires 0 < |s| && s[0] != '\r' && addrSize <= 8 && maxAddress < BadAddress
    requires FrameStep(s, addrSize, maxAddress).Advance?
    requires FrameStep(s, addrSize, maxAddress).events != []
    requires FrameStep(s, addrSize, maxAddress).events[0].Junk?
    ensures WholeLineJunk(s, FrameStep(s, addrSize, maxAddress))
  {
    var address := AddressValue(s[1..1 + addrSize]);
    if address > maxAddress {
      JunkFromWhole(s, 1);
    } else {
      HeaderNoCr(s, addrSize);
      var n := CharToNibble(s[1 + addrSize]);
      if n > MaxDataSize {
        JunkFromWhole(s, 1 + addrSize);
      } else {
        BodyJunk(s, addrSize, address, n);
      }
    }
  }

  /** Address digits hold no CR. */
  lemma HeaderNoCr(s: seq<char>, addrSize: nat)
    requires 1 + addrSize <= |s| && s[0] != '\r' && AllHex(s[1..1 + addrSize])
    ensures forall k | 0 <= k < 1 + addrSize :: s[k] != '\r'
  {
    forall k | 1 <= k < 1 + addrSize
      ensures s[k] != '\r'
    {
      assert s[1..1 + addrSize][k - 1] == s[k];
    }
  }

  lemma BodyJunk(s: seq<char>, addrSize: nat, address: uint32, n: nat)
    requires addrSize + 2 <= |s| && n <= MaxDataSize
    requires forall k | 0 <= k < addrSize + 2 :: s[k] != '\r'
    requires BodyStep(s, addrSize, address, n).Advance?
    requires BodyStep(s, addrSize, address, n).events != []
    requires BodyStep(s, addrSize, address, n).events[0].Junk?
    ensures WholeLineJunk(s, BodyStep(s, addrSize, address, n))
  {
    var p := s[addrSize + 2..];
    var d := DecodePayload(p, n);
    var m := if d.BadPair? then d.at / 2 else n;
    BodyJunkFrom(s, addrSize, address, n);
    assert 2 * m == if d.BadPair? then d.at else 2 * n;
    ValidPairsNoCr(p, m);
    ShiftNoCr(s, addrSize + 2, p, 2 * m);
    JunkFromWhole(s, addrSize + 2 + 2 * m);
  }

  /** Where the junk search of a body starts: at the bad pair, or at the
      character that should have been the CR. */
  lemma BodyJunkFrom(s: seq<char>, addrSize: nat, address: uint32, n: nat)
    requires addrSize + 2 <= |s| && n <= MaxDataSize
    requires BodyStep(s, addrSize, address, n).Advance?
    requires BodyStep(s, addrSize, address, n).events[0].Junk?
    ensures var d := DecodePayload(s[addrSize + 2..], n);
      BodyStep(s, addrSize, address, n) == JunkFrom(s, addrSize + 2 + if d.BadPair? then d.at else 2 * n)
  {
  }

  /** Pairs of hex digits hold no CR. */
  lemma ValidPairsNoCr(p: seq<char>, m: nat)
    requires 2 * m <= |p| && forall j | 0 <= j < m :: PairValid(p, j)
    ensures forall k | 0 <= k < 2 * m :: p[k] != '\r'
  {
    forall k | 0 <= k < 2 * m
      ensures p[k] != '\r'
    {
      assert PairValid(p, k / 2);
    }
  }

  /** A CR-free head of the tail `p` of `s`, after a CR-free head of `s`,
      makes a longer CR-free head of `s`. */
  lemma ShiftNoCr(s: seq<char>, off: nat, p: seq<char>, len: nat)
    requires off <= |s| && p == s[off..] && len <= |p|
    requires forall k | 0 <= k < off :: s[k] != '\r'
    requires forall k | 0 <= k < len :: p[k] != '\r'
    ensures forall k | 0 <= k < off + len :: s[k] != '\r'
  {
    forall k | off <= k < off + len
      ensures s[k] != '\r'
    {
      assert p[k - off] == s[k];
    }
  }

  /** A junk search that starts past the CR-free head of `s` reports all of
      `s` up to its first CR. */
  lemma JunkFromWhole(s: seq<char>, from: nat)
    requires from <= |s| && forall k | 0 <= k < from :: s[k] != '\r'
    ensures WholeLineJunk(s, JunkFrom(s, from))
  {
  }

  lemma {:induction false} CrFromUnique(s: seq<char>, from: nat, e: nat)
    requires from <= e <= |s| && (e == |s| || s[e] == '\r')
    requires forall k | from <= k < e :: s[k] != '\r'
    ensures CrFrom(s, from) == e
    decreases e - from
  {
    if from < e {
      CrFromUnique(s, from + 1, e);
    }
  }

  /** Every junk event of a call is non-empty and holds no CR. */
  lemma {:induction false} ScanJunkClean(s: seq<char>)
    requires |s| > 0
    ensures forall e | e in Scan(s).events && e.Junk? :: e.span != [] && '\r' !in e.span
    decreases |s|
  {
    match Step(s)
    case Defer =>
    case Advance(events, n) =>
      StepJunkSpan(s);
      if n < |s| {
        ScanJunkClean(s[n..]);
      }
  }

  /** The parser: the text it keeps between calls and, standing in for the
      owner's `handleData`/`handleJunk` callbacks, the events it has
      delivered so far. */
  class Parser {
    var buffer: seq<char>
    var received: seq<Event>

    /** What the parser can be left with between calls. */
    predicate Valid()
      reads this
    {
      Retained(buffer)
    }

    constructor ()
      ensures Valid() && buffer == [] && received == []
    {
      buffer := [];
      received := [];
    }

    method HandleData(address: uint32, data: seq<byte>)
      modifies this
      ensures buffer == old(buffer) && received == old(received) + [Data(address, data)]
    {
      received := received + [Data(address, data)];
    }

    method HandleJunk(junk: seq<char>)
      modifies this
      ensures buffer == old(buffer) && received == old(received) + [Junk(junk)]
    {
      received := received + [Junk(junk)];
    }

    /** `skipJunk`: find the next CR from `from` on and report the line
        from `start` up to it as junk. */
    method SkipJunk(start: nat, from: nat) returns (next: nat)
      requires start <= from <= |buffer|
      modifies this
      ensures buffer == old(buffer)
      ensures var r := JunkFrom(buffer[start..], from - start);
        next == start + r.consumed && received == old(received) + r.events
    {
      next := from;
      while next < |buffer| && buffer[next] != '\r'
        invariant from <= next <= |buffer|
        invariant forall k | from <= k < next :: buffer[k] != '\r'
      {
        next := next + 1;
      }
      ghost var line := buffer[start..];
      forall k | from - start <= k < next - start
        ensures line[k] != '\r'
      {
        assert line[k] == buffer[start + k];
      }
      CrFromUnique(line, from - start, next - start);
      assert line[..next - start] == buffer[start..next];
      HandleJunk(buffer[start..next]);
    }

    /** `parseAddress`: `size` digits from `at`, most significant first. */
    method ParseAddress(at: nat, size: nat) returns (address: uint32)
      requires size <= 8 && at + size <= |buffer|
      ensures address == AddressValue(buffer[at..at + size])
    {
      ghost var digits := buffer[at..at + size];
      var acc: nat := 0;
      var shift: nat := size * 4;
      var it := at;
      while shift != 0
        invariant it <= at + size && shift == 4 * (at + size - it)
        invariant AllHex(digits[..it - at]) && acc == Shl(HexValue(digits[..it - at]), shift)
      {
        shift := shift - 4;
        assert buffer[it] == digits[it - at];
        var n := CharToNibble(buffer[it]);
        if n == Invalid {
          return BadAddress;
        }
        acc := acc + Shl(n, shift);
        DigitIn(digits, it - at, shift, acc);
        it := it + 1;
      }
      assert digits[..it - at] == digits;
      Pow16Monotonic(size, 8);
      address := acc;
    }

    /** The data loop of `parseFrame:`: pairs of digits from `at` into an
        8-byte array, stopping at the first pair that is not two hex digits. */
    method ReadPayload(at: nat, n: nat) returns (data: array<byte>, pairs: nat)
      requires n <= MaxDataSize && at + 2 * n <= |buffer|
      ensures data.Length == MaxDataSize && pairs <= n
      ensures DecodePayload(buffer[at..], n) == if pairs == n then Bytes(data[..n]) else BadPair(2 * pairs)
    {
      ghost var p := buffer[at..];
      data := new byte[8];
      pairs := 0;
      while pairs < n
        invariant pairs <= n
        invariant forall j | 0 <= j < pairs :: PairValid(p, j)
        invariant data[..pairs] == PairValues(p, pairs)
      {
        SliceAt(buffer, at, 2 * pairs);
        SliceAt(buffer, at, 2 * pairs + 1);
        var l := CharToNibble(buffer[at + 2 * pairs]);
        if l == Invalid {
          DecodeStops(p, n, pairs);
          return;
        }
        var r := CharToNibble(buffer[at + 2 * pairs + 1]);
        if r == Invalid {
          DecodeStops(p, n, pairs);
          return;
        }
        NextPair(p, pairs, l, r);
        data[pairs] := l * 16 + r;
        assert data[..pairs + 1] == data[..pairs] + [data[pairs]];
        pairs := pairs + 1;
      }
      DecodeAll(p, n);
    }

    /** The `parseFrame:` block for the line starting at `start`: `true`
        when the line is unfinished (the caller keeps the text from there
        on and returns),
        otherwise the position after what was consumed. */
    method ParseFrame(start: nat, addrSize: nat, maxAddress: uint32) returns (deferred: bool, next: nat)
      requires start < |buffer| && addrSize <= 8
      modifies this
      ensures buffer == old(buffer)
      ensures var r := FrameStep(buffer[start..], addrSize, maxAddress);
        if r.Defer? then deferred && received == old(received)
        else !deferred && next == start + r.consumed && received == old(received) + r.events
    {
      ghost var s := buffer[start..];
      var it := start;
      if |buffer| - it < addrSize + 2 {
        return true, start;
      }
      it := it + 1;
      var address := ParseAddress(it, addrSize);
      assert s[1..1 + addrSize] == buffer[it..it + addrSize];
      if address > maxAddress {
        next := SkipJunk(start, it);
        return false, next;
      }
      it := it + addrSize;
      var dataSize := CharToNibble(buffer[it]);
      if dataSize > 8 {
        next := SkipJunk(start, it);
        return false, next;
      }
      deferred, next := ParseBody(start, addrSize, address, dataSize);
    }

    /** The `parseFrame:` block from the first payload digit on. */
    method ParseBody(start: nat, addrSize: nat, address: uint32, dataSize: nat) returns (deferred: bool, next: nat)
      requires start + addrSize + 2 <= |buffer| && dataSize <= MaxDataSize
      modifies this
      ensures buffer == old(buffer)
      ensures var r := BodyStep(buffer[start..], addrSize, address, dataSize);
        if r.Defer? then deferred && received == old(received)
        else !deferred && next == start + r.consumed && received == old(received) + r.events
    {
      var it := start + addrSize + 2;
      if |buffer| - it < dataSize * 2 + 1 {
        return true, start;
      }
      var data, pairs := ReadPayload(it, dataSize);
      assert buffer[start..][addrSize + 2..] == buffer[it..];
      next := CloseFrame(start, addrSize, address, dataSize, data[..dataSize], pairs, buffer[start..]);
      return false, next;
    }

    /** After the payload loop: a bad pair or a missing CR is junk, and a
        complete line is handed over as data. */
    method CloseFrame(start: nat, addrSize: nat, address: uint32, dataSize: nat, data: seq<byte>, pairs: nat,
                      ghost line: seq<char>)
      returns (next: nat)
      requires start <= |buffer| && line == buffer[start..] && addrSize + 2 + 2 * dataSize < |line|
      requires pairs <= dataSize
      modifies this
      ensures buffer == old(buffer)
      ensures var r := CloseStep(line, addrSize, address, dataSize,
                                 if pairs == dataSize then Bytes(data) else BadPair(2 * pairs));
        r.Advance? && next == start + r.consumed && received == old(received) + r.events
    {
      var it := start + addrSize + 2;
      if pairs < dataSize {
        next := SkipJunk(start, it + 2 * pairs);
        return;
      }
      it := it + 2 * dataSize;
      assert buffer[it] == line[addrSize + 2 + 2 * dataSize];
      if buffer[it] != '\r' {
        next := SkipJunk(start, it);
        return;
      }
      HandleData(address, data);
      return it + 1;
    }

    /** The `switch` in the loop of `acceptData`, on the byte at `at`:
        `true` when the line there is unfinished (the caller keeps the text
        from there on and returns), otherwise the position after what was consumed. */
    method Pass(at: nat) returns (deferred: bool, next: nat)
      requires at < |buffer|
      modifies this
      ensures buffer == old(buffer)
      ensures var r := Step(buffer[at..]);
        if r.Defer? then deferred && received == old(received)
        else !deferred && next == at + r.consumed && received == old(received) + r.events
    {
      var it := at;
      match buffer[it] {
        case '\r' =>
          it := it + 1;
        case 'z' =>
          it := it + 1;
          if it == |buffer| {
            return true, at;
          }
          if buffer[it] != '\r' {
            it := SkipJunk(at, it);
          } else {
            it := it + 1;
          }
        case 't' =>
          deferred, it := ParseFrame(at, 3, 0x7FF);
          if deferred {
            return true, at;
          }
        case 'T' =>
          deferred, it := ParseFrame(at, 8, 0x1FFF_FFFF);
          if deferred {
            return true, at;
          }
        case _ =>
          it := SkipJunk(at, it);
      }
      return false, it;
    }

    /** `acceptData`: append the piece and run the loop over the buffer;
        the text from an unfinished line on is kept (for a lone 'z' this is
        the one-byte buffer the source writes out) and a buffer used up is
        cleared. */
    method AcceptData(data: seq<char>)
      requires Valid()
      modifies this
      ensures Valid() && |buffer| <= 26
      ensures received == old(received) + Accept(old(buffer), data).events
      ensures buffer == Accept(old(buffer), data).buffer
    {
      AcceptRetains(buffer, data);
      if |data| == 0 {
        return;
      }
      ghost var r := Scan(buffer + data);
      buffer := buffer + data;
      Consume(received, r.events, r.buffer);
    }

    /** The loop of `acceptData` over the whole buffer. `total` and `kept`
        stand for what the loop is to yield (the events and what is left),
        `start` for the events reported before it. */
    method Consume(ghost start: seq<Event>, ghost total: seq<Event>, ghost kept: seq<char>)
      requires buffer != [] && start == received
      requires total == Scan(buffer).events && kept == Scan(buffer).buffer
      modifies this
      ensures received == start + total && buffer == kept
    {
      ghost var s := buffer;
      assert s[0..] == s;
      var it := 0;
      while true
        invariant buffer == s && it < |s|
        invariant start + total == received + Scan(s[it..]).events
        invariant kept == Scan(s[it..]).buffer
        decreases |s| - it
      {
        var currentMsg := it;
        ghost var before := received;
        var deferred;
        deferred, it := Pass(currentMsg);
        if deferred {
          PassDefers(s, currentMsg, total, kept, start, before);
          buffer := buffer[currentMsg..];
          return;
        }
        ghost var events := received[|before|..];
        assert received == before + events;
        PassAdvances(s, currentMsg, it, events, total, kept, start, before);
        if it == |buffer| {
          buffer := [];
          return;
        }
      }
    }
  }

  /** A pass that defers keeps the whole rest of the text. */
  lemma ScanDefer(t: seq<char>)
    requires |t| > 0 && Step(t).Defer?
    ensures Scan(t) == Scanned([], t)
  {
  }

  /** The loop goes on from where one pass leaves the cursor. */
  lemma ScanOnce(t: seq<char>, events: seq<Event>, n: nat)
    requires 0 < n <= |t| && Step(t) == Advance(events, n)
    ensures n < |t| ==> Scan(t) == Scanned(events + Scan(t[n..]).events, Scan(t[n..]).buffer)
    ensures n == |t| ==> Scan(t) == Scanned(events, [])
  {
  }

  lemma ScanAdvance(s: seq<char>, at: nat, next: nat, events: seq<Event>)
    requires at < next <= |s| && Step(s[at..]) == Advance(events, next - at)
    ensures next < |s| ==> Scan(s[at..]) == Scanned(events + Scan(s[next..]).events, Scan(s[next..]).buffer)
    ensures next == |s| ==> Scan(s[at..]) == Scanned(events, [])
  {
    var t, u := s[at..], s[next..];
    ScanSuffix(t, u, events, next - at);
  }

  lemma ScanSuffix(t: seq<char>, u: seq<char>, events: seq<Event>, n: nat)
    requires 0 < n <= |t| && Step(t) == Advance(events, n) && u == t[n..]
    ensures n < |t| ==> Scan(t) == Scanned(events + Scan(u).events, Scan(u).buffer)
    ensures n == |t| ==> Scan(t) == Scanned(events, [])
  {
    ScanOnce(t, events, n);
  }

  /** The loop invariant of `acceptData` survives a pass that consumes:
      `total` and `kept` stand for what the whole loop yields, `whole` for
      what it yields from the cursor and `rest` from after the pass. */
  lemma PassKeepsScan(total: seq<Event>, kept: seq<char>, start: seq<Event>, before: seq<Event>,
                      events: seq<Event>, whole: Scanned, rest: Scanned)
    requires start + total == before + whole.events && kept == whole.buffer
    requires whole == Scanned(events + rest.events, rest.buffer)
    ensures start + total == before + events + rest.events && kept == rest.buffer
  {
    assert before + (events + rest.events) == before + events + rest.events;
  }

  /** A pass that advances leaves the rest of the loop to yield what is
      left of `total` and `kept`. */
  lemma PassAdvances(s: seq<char>, at: nat, next: nat, events: seq<Event>,
                     total: seq<Event>, kept: seq<char>, start: seq<Event>, before: seq<Event>)
    requires at < next <= |s| && Step(s[at..]) == Advance(events, next - at)
    requires start + total == before + Scan(s[at..]).events && kept == Scan(s[at..]).buffer
    ensures next < |s| ==> start + total == before + events + Scan(s[next..]).events && kept == Scan(s[next..]).buffer
    ensures next == |s| ==> start + total == before + events && kept == []
  {
    ScanAdvance(s, at, next, events);
    if next < |s| {
      PassKeepsScan(total, kept, start, before, events, Scan(s[at..]), Scan(s[next..]));
    }
  }

  /** ... and when the pass defers, the loop is done. */
  lemma PassDefers(s: seq<char>, at: nat, total: seq<Event>, kept: seq<char>, start: seq<Event>, before: seq<Event>)
    requires at < |s| && Step(s[at..]).Defer?
    requires start + total == before + Scan(s[at..]).events && kept == Scan(s[at..]).buffer
    ensures start + total == before && kept == s[at..]
  {
    ScanDefer(s[at..]);
  }

  /** `n << bits`, for a shift by whole hex digits. */
  function Shl(n: nat, bits: nat): (r: nat)
    ensures n == 0 ==> r == 0
  {
    if bits < 4 then n else 16 * Shl(n, bits - 4)
  }

  /** Or-ing digit `i` of `digits` in below the ones before it: since the
      bits it lands on are still clear, the or is an addition. */
  lemma DigitIn(digits: seq<char>, i: nat, bits: nat, acc: nat)
    requires i < |digits| && AllHex(digits[..i]) && IsHexDigit(digits[i])
    requires acc == Shl(HexValue(digits[..i]), bits + 4) + Shl(CharToNibble(digits[i]), bits)
    ensures AllHex(digits[..i + 1]) && acc == Shl(HexValue(digits[..i + 1]), bits)
  {
    var d := digits[..i + 1];
    assert d[..|d| - 1] == digits[..i];
    ShlAdd(HexValue(digits[..i]), CharToNibble(digits[i]), bits);
  }

  lemma {:induction false} ShlAdd(v: nat, n: nat, bits: nat)
    ensures Shl(v, bits + 4) + Shl(n, bits) == Shl(v * 16 + n, bits)
    decreases bits
  {
    if bits >= 4 {
      ShlAdd(v, n, bits - 4);
    }
  }
}
