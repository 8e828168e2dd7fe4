/**
 * The encoder and the parser together: every line the encoder writes for a
 * frame it accepts is read back by the parser as exactly that frame, a run
 * of such lines is read back frame by frame, and how the run is cut into
 * the pieces handed to `acceptData` makes no difference. Text that is not
 * made of whole lines does not enjoy that last property: a junk line that
 * arrives in two pieces is reported in two parts.
 */
module RoundTrip {
  import opened Hex
  import opened Encoding
  import opened Parsing

  /** A CAN data frame as the encoder sends it: standard or extended
      address, and its payload. */
  datatype Frame = Frame(extended: bool, address: uint32, payload: seq<byte>)

  /** What `transmitStdFrame` and `transmitExtFrame` accept. */
  predicate ValidFrame(f: Frame) {
    |f.payload| <= MaxFrameData && f.address <= if f.extended then MaxExtAddress else MaxStdAddress
  }

  predicate AllValid(fs: seq<Frame>) {
    forall k | 0 <= k < |fs| :: ValidFrame(fs[k])
  }

  /** The line the encoder writes for one frame. */
  function FrameLine(f: Frame): (line: seq<char>)
    requires ValidFrame(f)
    ensures |line| == (if f.extended then 11 else 6) + 2 * |f.payload|
    ensures line[0] == (if f.extended then 'T' else 't') && line[|line| - 1] == '\r'
  {
    if f.extended then ExtLine(f.address, f.payload) else StdLine(f.address, f.payload)
  }

  /** The lines for a run of frames, back to back. */
  function Wire(fs: seq<Frame>): seq<char>
    requires AllValid(fs)
  {
    if fs == [] then [] else FrameLine(fs[0]) + Wire(fs[1..])
  }

  /** The data events the parser should report for a run of frames. */
  function Received(fs: seq<Frame>): seq<Event> {
    if fs == [] then [] else [Data(fs[0].address, fs[0].payload)] + Received(fs[1..])
  }

  /** The payloads of the data events, in order; junk is skipped. */
  function Payloads(events: seq<Event>): seq<seq<byte>> {
    if events == [] then []
    else (if events[0].Data? then [events[0].payload] else []) + Payloads(events[1..])
  }

  /** Several calls of `acceptData` in a row, one per piece, starting from
      `buffer`: all their events, and the text kept at the end. */
  function Feed(buffer: seq<char>, pieces: seq<seq<char>>): (r: Scanned)
    ensures Retained(buffer) ==> Retained(r.buffer)
    decreases |pieces|
  {
    if pieces == [] then Scanned([], buffer)
    else
      var r := Accept(buffer, pieces[0]);
      var t := Feed(r.buffer, pieces[1..]);
      Scanned(r.events + t.events, t.buffer)
  }

  /** The hex digits of a payload, followed by anything, decode back to the
      payload. */
  lemma DecodeHexStream(payload: seq<byte>, tail: seq<char>)
    requires |payload| <= MaxDataSize
    ensures DecodePayload(HexStream(payload) + tail, |payload|) == Bytes(payload)
  {
    var q := HexStream(payload) + tail;
    forall j | 0 <= j < |payload|
      ensures PairValid(q, j) && PairValue(q, j) == payload[j]
    {
      PairAt(payload, tail, j);
    }
    var k := FirstBadPair(q, |payload|, 0);
    assert k == |payload|;
    PairValuesAre(q, payload, |payload|);
    assert payload[..|payload|] == payload;
  }

  /** Pair j of the digits is the two digits of byte j. */
  lemma PairAt(payload: seq<byte>, tail: seq<char>, j: nat)
    requires j < |payload|
    ensures var q := HexStream(payload) + tail; PairValid(q, j) && PairValue(q, j) == payload[j]
  {
    var h, q := HexStream(payload), HexStream(payload) + tail;
    HexStreamAt(payload, j);
    var b := HexByte(payload[j]);
    assert q[2 * j] == h[2 * j] == h[2 * j..2 * j + 2][0] == b[0];
    assert q[2 * j + 1] == h[2 * j + 1] == h[2 * j..2 * j + 2][1] == b[1];
  }

  lemma {:induction false} PairValuesAre(q: seq<char>, payload: seq<byte>, k: nat)
    requires k <= |payload| && 2 * |payload| <= |q|
    requires forall j | 0 <= j < |payload| :: PairValid(q, j) && PairValue(q, j) == payload[j]
    ensures PairValues(q, k) == payload[..k]
  {
    if k > 0 {
      PairValuesAre(q, payload, k - 1);
      assert payload[..k] == payload[..k - 1] + [payload[k - 1]];
    }
  }

  /** A data line, field by field. */
  lemma LineIs(verb: char, hex: seq<char>, payload: seq<byte>)
    requires |payload| <= MaxFrameData
    ensures Line(verb, hex, payload) == [verb] + hex + [LengthDigit(|payload|)] + HexStream(payload) + ['\r']
  {
    Regroup([verb], hex, [LengthDigit(|payload|)], HexStream(payload), ['\r']);
  }

  lemma Regroup<T>(a: seq<T>, b: seq<T>, c: seq<T>, d: seq<T>, e: seq<T>)
    ensures a + b + (c + d + e) == a + b + c + d + e
  {
  }

  /** Where the fields of a line sit, when it is followed by `rest`. */
  lemma Fields(s: seq<char>, verb: char, hex: seq<char>, digit: char, body: seq<char>, rest: seq<char>)
    requires s == [verb] + hex + [digit] + body + ['\r'] + rest
    ensures var w := |hex|;
      && s[0] == verb && s[1..1 + w] == hex && s[1 + w] == digit
      && s[w + 2..] == body + (['\r'] + rest) && s[w + 2 + |body|] == '\r'
  {
    var front, back := [verb] + hex + [digit], body + (['\r'] + rest);
    assert s == front + back;
    assert s[..|front|] == front;
  }

  /** Where the fields of the head `s` of a line sit, as far as it reaches
      past the length digit. */
  lemma HeadFields(s: seq<char>, verb: char, hex: seq<char>, digit: char, body: seq<char>, k: nat)
    requires |hex| + 2 <= k <= |hex| + |body| + 3
    requires s == ([verb] + hex + [digit] + body + ['\r'])[..k]
    ensures s[0] == verb && s[1..1 + |hex|] == hex && s[1 + |hex|] == digit
  {
    var line := [verb] + hex + [digit] + body + ['\r'];
    Fields(line, verb, hex, digit, body, []);
    assert line + [] == line;
    assert s[1..1 + |hex|] == line[1..1 + |hex|];
  }

  /** A whole data line whose address is in range, followed by anything,
      is one data event for exactly that line. */
  lemma FrameStepOnLine(s: seq<char>, verb: char, addrSize: nat, maxAddress: uint32,
                        address: uint32, payload: seq<byte>, rest: seq<char>)
    requires 0 < addrSize <= 8 && address <= maxAddress && address < Pow16(addrSize)
    requires |payload| <= MaxFrameData
    requires s == Line(verb, HexDigits(address, addrSize), payload) + rest
    ensures s[0] == verb
    ensures FrameStep(s, addrSize, maxAddress) == Advance([Data(address, payload)], addrSize + 3 + 2 * |payload|)
  {
    var hex, n := HexDigits(address, addrSize), |payload|;
    LineIs(verb, hex, payload);
    Fields(s, verb, hex, LengthDigit(n), HexStream(payload), rest);
    AddressOnLine(s[1..1 + addrSize], address);
    assert CharToNibble(s[1 + addrSize]) == n;
    BodyOnLine(s, addrSize, address, payload, rest);
  }

  /** The address digits the encoder writes parse back to the address. */
  lemma AddressOnLine(digits: seq<char>, address: uint32)
    requires |digits| <= 8 && address < Pow16(|digits|) && digits == HexDigits(address, |digits|)
    ensures AddressValue(digits) == address
  {
    ValueOfDigits(address, |digits|);
  }

  /** The payload digits and the CR the encoder writes after the length
      digit close the line as one data event. */
  lemma BodyOnLine(s: seq<char>, addrSize: nat, address: uint32, payload: seq<byte>, rest: seq<char>)
    requires |payload| <= MaxDataSize && addrSize + 2 <= |s|
    requires s[addrSize + 2..] == HexStream(payload) + (['\r'] + rest)
    requires s[addrSize + 2 + 2 * |payload|] == '\r'
    ensures BodyStep(s, addrSize, address, |payload|) == Advance([Data(address, payload)], addrSize + 3 + 2 * |payload|)
  {
    DecodeHexStream(payload, ['\r'] + rest);
  }

  /** A proper, non-empty head of a data line with an address in range is
      an unfinished line: the parser waits for more. */
  lemma FrameStepOnPrefix(s: seq<char>, verb: char, addrSize: nat, maxAddress: uint32,
                          address: uint32, payload: seq<byte>, k: nat)
    requires 0 < addrSize <= 8 && address <= maxAddress && address < Pow16(addrSize)
    requires |payload| <= MaxFrameData
    requires 0 < k < |Line(verb, HexDigits(address, addrSize), payload)|
    requires s == Line(verb, HexDigits(address, addrSize), payload)[..k]
    ensures s[0] == verb && FrameStep(s, addrSize, maxAddress) == Defer
  {
    var hex := HexDigits(address, addrSize);
    LineIs(verb, hex, payload);
    if k >= addrSize + 2 {
      HeadFields(s, verb, hex, LengthDigit(|payload|), HexStream(payload), k);
      ValueOfDigits(address, addrSize);
    }
  }

  /** The line of a valid frame, followed by anything, is read as that
      frame and nothing more. */
  lemma StepOnLine(f: Frame, rest: seq<char>)
    requires ValidFrame(f)
    ensures Step(FrameLine(f) + rest) == Advance([Data(f.address, f.payload)], |FrameLine(f)|)
  {
    if f.extended {
      StepOnExtLine(f.address, f.payload, rest);
    } else {
      StepOnStdLine(f.address, f.payload, rest);
    }
  }

  lemma StepOnStdLine(address: uint32, payload: seq<byte>, rest: seq<char>)
    requires address <= MaxStdAddress && |payload| <= MaxFrameData
    ensures Step(StdLine(address, payload) + rest) == Advance([Data(address, payload)], |StdLine(address, payload)|)
  {
    AddressHexIsDigits(address);
    assert Pow16(3) == 0x1000;
    FrameStepOnLine(StdLine(address, payload) + rest, 't', 3, 0x7FF, address, payload, rest);
  }

  lemma StepOnExtLine(address: uint32, payload: seq<byte>, rest: seq<char>)
    requires address <= MaxExtAddress && |payload| <= MaxFrameData
    ensures Step(ExtLine(address, payload) + rest) == Advance([Data(address, payload)], |ExtLine(address, payload)|)
  {
    ExtAddressHexIsDigits(address);
    FrameStepOnLine(ExtLine(address, payload) + rest, 'T', 8, 0x1FFF_FFFF, address, payload, rest);
  }

  /** A proper, non-empty head of the line of a valid frame is kept for the
      next call. */
  lemma StepOnPrefix(f: Frame, k: nat)
    requires ValidFrame(f) && 0 < k < |FrameLine(f)|
    ensures Step(FrameLine(f)[..k]) == Defer
  {
    var s := FrameLine(f)[..k];
    if f.extended {
      ExtAddressHexIsDigits(f.address);
      FrameStepOnPrefix(s, 'T', 8, 0x1FFF_FFFF, f.address, f.payload, k);
    } else {
      AddressHexIsDigits(f.address);
      assert Pow16(3) == 0x1000;
      FrameStepOnPrefix(s, 't', 3, 0x7FF, f.address, f.payload, k);
    }
  }

  /** The lines of a run of valid frames, read in one call, give those
      frames in order and leave nothing behind. */
  lemma {:induction false} ScanWire(fs: seq<Frame>)
    requires fs != [] && AllValid(fs)
    ensures Scan(Wire(fs)) == Scanned(Received(fs), [])
  {
    var line, w := FrameLine(fs[0]), Wire(fs[1..]);
    var s := Wire(fs);
    var events := [Data(fs[0].address, fs[0].payload)];
    StepOnLine(fs[0], w);
    assert s[|line|..] == w;
    ScanSuffix(s, w, events, |line|);
    if fs[1..] != [] {
      ScanWire(fs[1..]);
    }
  }

  /** One call of `acceptData` with the lines of valid frames and an empty
      buffer reports exactly those frames and keeps nothing. */
  lemma AcceptWire(fs: seq<Frame>)
    requires AllValid(fs)
    ensures Accept([], Wire(fs)) == Scanned(Received(fs), [])
  {
    if fs != [] {
      ScanWire(fs);
      assert [] + Wire(fs) == Wire(fs);
    }
  }

  /** What reading a head of the lines of `fs` (followed on the wire by
      `rest`) has done, as `r`: it reported the frames before `left`, and
      what it kept, followed by `rest`, is the lines of `left`, starting with
      a proper head of the first of them. */
  predicate HeadRead(fs: seq<Frame>, rest: seq<char>, r: Scanned, left: seq<Frame>) {
    && AllValid(left) && Received(fs) == r.events + Received(left)
    && r.buffer + rest == Wire(left)
    && (r.buffer == [] || (left != [] && |r.buffer| < |FrameLine(left[0])|))
  }

  /** A non-empty head `x` of the lines of valid frames is read as the
      frames whose lines it holds whole, and keeps the head of the next
      line, if any, for the next call; `left` are the frames still to come. */
  lemma {:induction false} ScanWirePrefix(fs: seq<Frame>, x: seq<char>, rest: seq<char>) returns (left: seq<Frame>)
    requires AllValid(fs) && |x| > 0 && x + rest == Wire(fs)
    ensures HeadRead(fs, rest, Scan(x), left)
  {
    if |x| < |FrameLine(fs[0])| {
      PrefixInLine(fs, x, rest);
      left := fs;
      ReadNone(fs, x, rest, Scan(x));
    } else {
      var tail := PrefixPastLine(fs, x, rest);
      if tail == [] {
        left := fs[1..];
        ReadOne(fs, left, x, rest, Scan(x));
      } else {
        left := ScanWirePrefix(fs[1..], tail, rest);
        ReadMore(fs, fs[1..], rest, left, Scan(x), Scan(tail));
      }
    }
  }

  lemma ReadNone(fs: seq<Frame>, x: seq<char>, rest: seq<char>, r: Scanned)
    requires AllValid(fs) && x + rest == Wire(fs) && fs != [] && |x| < |FrameLine(fs[0])|
    requires r == Scanned([], x)
    ensures HeadRead(fs, rest, r, fs)
  {
  }

  lemma ReadOne(fs: seq<Frame>, others: seq<Frame>, x: seq<char>, rest: seq<char>, r: Scanned)
    requires AllValid(fs) && fs != [] && others == fs[1..] && x == FrameLine(fs[0]) && rest == Wire(others)
    requires r == Scanned([Data(fs[0].address, fs[0].payload)], [])
    ensures HeadRead(fs, rest, r, others)
  {
  }

  lemma ReadMore(fs: seq<Frame>, others: seq<Frame>, rest: seq<char>, left: seq<Frame>, r: Scanned, t: Scanned)
    requires fs != [] && others == fs[1..] && HeadRead(others, rest, t, left)
    requires r == Scanned([Data(fs[0].address, fs[0].payload)] + t.events, t.buffer)
    ensures HeadRead(fs, rest, r, left)
  {
    ReceivedCons(fs, others, t.events, Received(left));
  }

  lemma ReceivedCons(fs: seq<Frame>, others: seq<Frame>, events: seq<Event>, later: seq<Event>)
    requires fs != [] && others == fs[1..] && Received(others) == events + later
    ensures Received(fs) == ([Data(fs[0].address, fs[0].payload)] + events) + later
  {
    var first := [Data(fs[0].address, fs[0].payload)];
    assert first + (events + later) == (first + events) + later;
  }

  /** A non-empty head that ends inside the first line is kept whole. */
  lemma PrefixInLine(fs: seq<Frame>, x: seq<char>, rest: seq<char>)
    requires AllValid(fs) && |x| > 0 && x + rest == Wire(fs)
    requires fs != [] && |x| < |FrameLine(fs[0])|
    ensures Scan(x) == Scanned([], x)
  {
    var line, w := FrameLine(fs[0]), Wire(fs[1..]);
    HeadOf(x, rest, line, w);
    StepOnPrefix(fs[0], |x|);
    ScanDefer(x);
  }

  /** A head that holds the whole first line reads that line as its frame
      and goes on with the rest of the head, `tail`. */
  lemma PrefixPastLine(fs: seq<Frame>, x: seq<char>, rest: seq<char>) returns (tail: seq<char>)
    requires AllValid(fs) && |x| > 0 && x + rest == Wire(fs)
    requires fs != [] && |x| >= |FrameLine(fs[0])|
    ensures x == FrameLine(fs[0]) + tail && tail + rest == Wire(fs[1..])
    ensures var events := [Data(fs[0].address, fs[0].payload)];
      Scan(x) == if tail == [] then Scanned(events, []) else Scanned(events + Scan(tail).events, Scan(tail).buffer)
  {
    var line, w := FrameLine(fs[0]), Wire(fs[1..]);
    var events := [Data(fs[0].address, fs[0].payload)];
    tail := x[|line|..];
    TailOf(x, rest, line, w);
    StepOnLine(fs[0], tail);
    ScanSuffix(x, tail, events, |line|);
  }

  /** Of two ways to write one sequence, the shorter head is a head of the
      longer one. */
  lemma HeadOf<T>(a: seq<T>, b: seq<T>, c: seq<T>, d: seq<T>)
    requires a + b == c + d && |a| <= |c|
    ensures a == c[..|a|]
  {
    forall i | 0 <= i < |a|
      ensures a[i] == c[i]
    {
      assert a[i] == (a + b)[i] && c[i] == (c + d)[i];
    }
  }

  /** Of two ways to write one sequence, the longer head is the shorter one
      followed by a head of the rest. */
  lemma TailOf<T>(a: seq<T>, b: seq<T>, c: seq<T>, d: seq<T>)
    requires a + b == c + d && |c| <= |a|
    ensures a == c + a[|c|..] && a[|c|..] + b == d
  {
    HeadOf(c, d, a, b);
    assert a == a[..|c|] + a[|c|..];
    forall i | 0 <= i < |d|
      ensures (a[|c|..] + b)[i] == d[i]
    {
      assert (a[|c|..] + b)[i] == (a + b)[|c| + i];
      assert d[i] == (c + d)[|c| + i];
    }
  }

  /** However the lines of valid frames are cut into pieces, calling
      `acceptData` once per piece reports exactly those frames and keeps
      nothing; `buffer` is a head of the first line left from earlier. */
  lemma {:induction false} FeedWire(fs: seq<Frame>, buffer: seq<char>, pieces: seq<seq<char>>)
    requires AllValid(fs) && buffer + Flatten(pieces) == Wire(fs)
    requires buffer == [] || (fs != [] && |buffer| < |FrameLine(fs[0])|)
    ensures Feed(buffer, pieces) == Scanned(Received(fs), [])
    decreases |pieces|
  {
    if pieces != [] {
      var piece, more := pieces[0], pieces[1..];
      FlattenCons(buffer, pieces);
      var r := Accept(buffer, piece);
      var left := FeedOne(fs, buffer, piece, Flatten(more));
      FeedWire(left, r.buffer, more);
      FeedJoin(fs, Flatten(more), left, r, Feed(r.buffer, more), Feed(buffer, pieces));
    }
  }

  lemma FlattenCons(buffer: seq<char>, pieces: seq<seq<char>>)
    requires pieces != []
    ensures buffer + pieces[0] + Flatten(pieces[1..]) == buffer + Flatten(pieces)
  {
    assert Flatten(pieces) == pieces[0] + Flatten(pieces[1..]);
  }

  lemma FeedJoin(fs: seq<Frame>, rest: seq<char>, left: seq<Frame>, r: Scanned, t: Scanned, whole: Scanned)
    requires HeadRead(fs, rest, r, left)
    requires t == Scanned(Received(left), [])
    requires whole == Scanned(r.events + t.events, t.buffer)
    ensures whole == Scanned(Received(fs), [])
  {
  }

  /** One call with the next piece: the frames whose lines are now whole
      are reported, and what is kept is again a head of the next line. */
  lemma FeedOne(fs: seq<Frame>, buffer: seq<char>, piece: seq<char>, rest: seq<char>) returns (left: seq<Frame>)
    requires AllValid(fs) && buffer + piece + rest == Wire(fs)
    requires buffer == [] || (fs != [] && |buffer| < |FrameLine(fs[0])|)
    ensures HeadRead(fs, rest, Accept(buffer, piece), left)
  {
    if piece == [] {
      left := fs;
      assert buffer + piece == buffer;
      ReadNothing(fs, buffer, rest, Accept(buffer, piece));
    } else {
      left := ScanWirePrefix(fs, buffer + piece, rest);
    }
  }

  lemma ReadNothing(fs: seq<Frame>, buffer: seq<char>, rest: seq<char>, r: Scanned)
    requires AllValid(fs) && buffer + rest == Wire(fs)
    requires buffer == [] || (fs != [] && |buffer| < |FrameLine(fs[0])|)
    requires r == Scanned([], buffer)
    ensures HeadRead(fs, rest, r, fs)
  {
  }

  /** Cutting the lines of valid frames into pieces changes nothing: the
      pieces, fed one call at a time, give what the whole does in one call. */
  lemma ChunkingInvariance(fs: seq<Frame>, pieces: seq<seq<char>>)
    requires AllValid(fs) && Flatten(pieces) == Wire(fs)
    ensures Feed([], pieces) == Accept([], Wire(fs)) == Scanned(Received(fs), [])
  {
    assert [] + Flatten(pieces) == Flatten(pieces);
    FeedWire(fs, [], pieces);
    AcceptWire(fs);
  }

  /** The text as pieces of one character each. */
  function Singles(s: seq<char>): (pieces: seq<seq<char>>)
    ensures |pieces| == |s| && forall k | 0 <= k < |s| :: pieces[k] == [s[k]]
  {
    seq(|s|, k requires 0 <= k < |s| => [s[k]])
  }

  lemma {:induction false} FlattenSingles(s: seq<char>)
    ensures Flatten(Singles(s)) == s
  {
    if s != [] {
      FlattenSingles(s[1..]);
      assert Singles(s)[1..] == Singles(s[1..]);
      assert s == [s[0]] + s[1..];
    }
  }

  /** Valid lines handed over one character per call are read back as
      their frames, with nothing kept at the end. */
  lemma ByteByByte(fs: seq<Frame>)
    requires AllValid(fs)
    ensures Feed([], Singles(Wire(fs))) == Scanned(Received(fs), [])
  {
    FlattenSingles(Wire(fs));
    ChunkingInvariance(fs, Singles(Wire(fs)));
  }

  /** The line of one valid frame, on its own, is read back as that frame. */
  lemma LineRoundTrip(f: Frame)
    requires ValidFrame(f)
    ensures Accept([], FrameLine(f)) == Scanned([Data(f.address, f.payload)], [])
  {
    AcceptWire([f]);
    WireOne(f);
  }

  /** After a junk line `j` and its CR, the parser is back in step: the
      lines of valid frames that follow are read as those frames. */
  lemma Resync(j: seq<char>, fs: seq<Frame>)
    requires |j| > 0 && '\r' !in j && AllValid(fs)
    requires var s := j + ['\r'] + Wire(fs); Step(s).Advance? && Step(s).events != [] && Step(s).events[0].Junk?
    ensures Accept([], j + ['\r'] + Wire(fs)) == Scanned([Junk(j)] + Received(fs), [])
  {
    var s := j + ['\r'] + Wire(fs);
    var u := ['\r'] + Wire(fs);
    JunkLineStep(j, Wire(fs));
    assert s[|j|..] == u;
    ScanSuffix(s, u, [Junk(j)], |j|);
    CrThenWire(fs);
    assert [] + s == s;
  }

  /** A pass that reports junk on `j` CR `w` reports exactly `j`. */
  lemma JunkLineStep(j: seq<char>, w: seq<char>)
    requires |j| > 0 && '\r' !in j
    requires var s := j + ['\r'] + w; Step(s).Advance? && Step(s).events != [] && Step(s).events[0].Junk?
    ensures Step(j + ['\r'] + w) == Advance([Junk(j)], |j|)
  {
    var s := j + ['\r'] + w;
    StepJunk(s);
    CrFromUnique(s, 0, |j|);
    assert s[..|j|] == j;
  }

  /** A CR and then the lines of valid frames read as those frames. */
  lemma CrThenWire(fs: seq<Frame>)
    requires AllValid(fs)
    ensures Scan(['\r'] + Wire(fs)) == Scanned(Received(fs), [])
  {
    var w := Wire(fs);
    var u := ['\r'] + w;
    if fs == [] {
      assert u == ['\r'];
    } else {
      assert u[1..] == w;
      ScanSuffix(u, w, [], 1);
      ScanWire(fs);
      assert [] + Received(fs) == Received(fs);
    }
  }

  /** In particular a line that starts with anything other than CR, 'z',
      't' or 'T' is junk up to its CR, and the frames after it are read. */
  lemma ResyncUnknown(j: seq<char>, fs: seq<Frame>)
    requires |j| > 0 && '\r' !in j && AllValid(fs)
    requires j[0] != 'z' && j[0] != 't' && j[0] != 'T'
    ensures Accept([], j + ['\r'] + Wire(fs)) == Scanned([Junk(j)] + Received(fs), [])
  {
    var s := j + ['\r'] + Wire(fs);
    assert s[0] == j[0];
    assert Step(s) == JunkFrom(s, 0);
    Resync(j, fs);
  }

  /** Conversely, every data event the parser reports comes from a whole
      line that is exactly the line the encoder writes for that frame. */
  lemma DataIsLine(s: seq<char>)
    requires |s| > 0 && Step(s).Advance? && Step(s).events != [] && Step(s).events[0].Data?
    ensures var r := Step(s); var e := r.events[0]; var f := Frame(s[0] == 'T', e.address, e.payload);
      ValidFrame(f) && s[..r.consumed] == FrameLine(f)
  {
    var r := Step(s);
    var e := r.events[0];
    StepData(s);
    if s[0] == 'T' {
      ExtAddressHexIsDigits(e.address);
      LineOfFields(s, 'T', ExtAddressHex(e.address), e, r.consumed);
    } else {
      AddressHexIsDigits(e.address);
      LineOfFields(s, 't', AddressHex(e.address), e, r.consumed);
    }
  }

  lemma LineOfFields(s: seq<char>, verb: char, hex: seq<char>, e: Event, len: nat)
    requires |s| > 0 && s[0] == verb && LineReadsAs(s, |hex|, e, len)
    requires HexDigits(e.address, |hex|) == hex
    ensures |e.payload| <= MaxFrameData && s[..len] == Line(verb, hex, e.payload)
  {
    var w, n := |hex|, |e.payload|;
    LengthDigitOf(s[1 + w], n);
    LineIs(verb, hex, e.payload);
    HeadIsLine(s, len, verb, hex, LengthDigit(n), HexStream(e.payload));
  }

  /** A head of `s` whose fields are the five parts of a line is that line. */
  lemma HeadIsLine(s: seq<char>, len: nat, verb: char, hex: seq<char>, digit: char, body: seq<char>)
    requires len == |hex| + |body| + 3 && len <= |s|
    requires s[0] == verb && s[1..1 + |hex|] == hex && s[1 + |hex|] == digit
    requires s[|hex| + 2..len - 1] == body && s[len - 1] == '\r'
    ensures s[..len] == [verb] + hex + [digit] + body + ['\r']
  {
    var line := [verb] + hex + [digit] + body + ['\r'];
    var w := |hex|;
    forall i | 0 <= i < len
      ensures s[i] == line[i]
    {
      if 1 <= i < 1 + w {
        assert s[i] == s[1..1 + w][i - 1];
      } else if w + 2 <= i < len - 1 {
        assert s[i] == s[w + 2..len - 1][i - w - 2];
      }
    }
  }

  /** The only digit that reads as a length n up to 8 is the encoder's length digit. */
  lemma LengthDigitOf(c: char, n: nat)
    requires n <= MaxFrameData && CharToNibble(c) == n
    ensures c == LengthDigit(n)
  {
    CharRoundTrip(c);
  }

  /** The three digits `encodeAddress` writes parse back to the low 12 bits
      of any address. */
  lemma AddressHexValue(address: uint32)
    ensures AddressValue(AddressHex(address)) == address % 0x1000
  {
    AddressHexIsDigits(address);
    LowDigits(address, 3);
    assert Pow16(3) == 0x1000;
    AddressOnLine(AddressHex(address), address % 0x1000);
  }

  /** The eight digits `encodeExtendedAddress` writes parse back to the
      address, whatever it is. */
  lemma ExtAddressHexValue(address: uint32)
    ensures AddressValue(ExtAddressHex(address)) == address
  {
    ExtAddressHexIsDigits(address);
    assert Pow16(8) == 0x1_0000_0000;
    AddressOnLine(ExtAddressHex(address), address);
  }

  /** A w-digit rendering only sees the number modulo 16^w. */
  lemma {:induction false} LowDigits(a: nat, w: nat)
    ensures HexDigits(a, w) == HexDigits(a % Pow16(w), w)
    decreases w
  {
    if w > 0 {
      var q := Pow16(w - 1);
      var m := a % (16 * q);
      assert Pow16(w) == 16 * q;
      LowDigits(a / 16, w - 1);
      LowDigits(m / 16, w - 1);
      DivMod16(a, q);
      assert HexDigits(a, w) == HexDigits(a / 16, w - 1) + [NibbleToChar(a % 16)];
      assert HexDigits(m, w) == HexDigits(m / 16, w - 1) + [NibbleToChar(m % 16)];
    }
  }

  lemma DivMod16(a: nat, q: nat)
    requires q > 0
    ensures (a % (16 * q)) % 16 == a % 16
    ensures ((a % (16 * q)) / 16) % q == (a / 16) % q
  {
    var x, m := a / (16 * q), a % (16 * q);
    var h, l := m / 16, m % 16;
    assert a == 16 * (q * x + h) + l by {
      assert a == (16 * q) * x + m;
      assert m == 16 * h + l;
      assert (16 * q) * x == 16 * (q * x);
    }
    DivModUnique(a, 16, q * x + h, l);
    assert a / 16 == q * (x + h / q) + h % q by {
      assert h == q * (h / q) + h % q;
    }
    DivModUnique(a / 16, q, x + h / q, h % q);
  }

  /** Euclidean division has one quotient and one remainder. */
  lemma DivModUnique(a: int, d: int, q: int, r: int)
    requires d > 0 && 0 <= r < d && a == d * q + r
    ensures a / d == q && a % d == r
  {
    var q', r' := a / d, a % d;
    var k := q - q';
    assert d * k == r' - r by {
      assert a == d * q' + r';
      assert d * q - d * q' == d * k;
    }
  }

  lemma WireOne(f: Frame)
    requires ValidFrame(f)
    ensures Wire([f]) == FrameLine(f) && Received([f]) == [Data(f.address, f.payload)]
  {
    assert Wire([f]) == FrameLine(f) + Wire([]);
  }

  /** The frames `transmitData` sends for the pieces of a payload. */
  function FramesOf(extended: bool, address: uint32, chunks: seq<seq<byte>>): (fs: seq<Frame>)
    ensures |fs| == |chunks|
  {
    if chunks == [] then [] else [Frame(extended, address, chunks[0])] + FramesOf(extended, address, chunks[1..])
  }

  /** `transmitData` writes the lines of one frame per piece, extended
      exactly when the address is above 0x7FF. */
  function Transmitted(address: uint32, data: seq<byte>): seq<Frame>
    requires address <= MaxExtAddress
  {
    FramesOf(address > MaxStdAddress, address, Chunks(data))
  }

  lemma {:induction false} LinesOfWire(extended: bool, address: uint32, chunks: seq<seq<byte>>)
    requires address <= if extended then MaxExtAddress else MaxStdAddress
    requires forall k | 0 <= k < |chunks| :: |chunks[k]| <= MaxFrameData
    ensures AllValid(FramesOf(extended, address, chunks))
    ensures LinesOf(if extended then 'T' else 't', if extended then ExtAddressHex(address) else AddressHex(address), chunks)
            == Wire(FramesOf(extended, address, chunks))
  {
    if chunks != [] {
      LinesOfWire(extended, address, chunks[1..]);
      var fs := FramesOf(extended, address, chunks);
      assert fs[1..] == FramesOf(extended, address, chunks[1..]);
    }
  }

  /** What `transmitData` emits is the lines of the frames it sends. */
  lemma DataLinesWire(address: uint32, data: seq<byte>)
    requires address <= MaxExtAddress
    ensures AllValid(Transmitted(address, data)) && DataLines(address, data) == Wire(Transmitted(address, data))
  {
    LinesOfWire(address > MaxStdAddress, address, Chunks(data));
  }

  /** Reading the frames of the pieces gives the pieces back. */
  lemma {:induction false} PayloadsOfFrames(extended: bool, address: uint32, chunks: seq<seq<byte>>)
    ensures Payloads(Received(FramesOf(extended, address, chunks))) == chunks
    ensures forall e | e in Received(FramesOf(extended, address, chunks)) :: e.Data? && e.address == address
  {
    if chunks != [] {
      PayloadsOfFrames(extended, address, chunks[1..]);
      var fs := FramesOf(extended, address, chunks);
      assert fs[1..] == FramesOf(extended, address, chunks[1..]);
      var events := Received(fs);
      assert events == [Data(address, chunks[0])] + Received(fs[1..]);
      assert events[1..] == Received(fs[1..]);
    }
  }

  /** Whatever `transmitData` emits for an address it accepts, a fresh
      parser reads back, in one call or cut into any pieces, as data events
      for that address whose payloads, joined, are the payload sent. */
  lemma DataRoundTrip(address: uint32, data: seq<byte>, pieces: seq<seq<char>>)
    requires address <= MaxExtAddress && Flatten(pieces) == DataLines(address, data)
    ensures var r := Accept([], DataLines(address, data));
      && Feed([], pieces) == r && r.buffer == []
      && Flatten(Payloads(r.events)) == data
      && forall e | e in r.events :: e.Data? && e.address == address
  {
    var fs := Transmitted(address, data);
    DataLinesWire(address, data);
    ChunkingInvariance(fs, pieces);
    PayloadsOfFrames(address > MaxStdAddress, address, Chunks(data));
    ChunksFlatten(data);
  }

  /** An encoder and a parser wired together: whatever payload the encoder
      accepts, the parser reports, split into frames, and keeps nothing. */
  method SendAndReceive(address: uint32, data: seq<byte>) returns (ok: bool, events: seq<Event>, kept: seq<char>)
    ensures ok == (address <= MaxExtAddress)
    ensures ok ==> kept == [] && Flatten(Payloads(events)) == data
    ensures ok ==> forall e | e in events :: e.Data? && e.address == address
    ensures !ok ==> events == [] && kept == []
  {
    var encoder := new Encoder();
    ok := encoder.TransmitData(address, data);
    var parser := new Parser();
    parser.AcceptData(encoder.output);
    events, kept := parser.received, parser.buffer;
    ReadBack(address, data, ok, encoder.output, Accept([], encoder.output), events, kept);
  }

  /** What a fresh parser makes, as `r`, of what a fresh encoder emitted for
      one `transmitData` call. */
  lemma ReadBack(address: uint32, data: seq<byte>, ok: bool, sent: seq<char>, r: Scanned,
                 events: seq<Event>, kept: seq<char>)
    requires ok == (address <= MaxExtAddress)
    requires sent == [] + (if ok then DataLines(address, data) else [])
    requires r == Accept([], sent) && events == [] + r.events && kept == r.buffer
    ensures ok ==> kept == [] && Flatten(Payloads(events)) == data
    ensures ok ==> forall e | e in events :: e.Data? && e.address == address
    ensures !ok ==> events == [] && kept == []
  {
    assert events == r.events;
    if ok {
      assert sent == DataLines(address, data);
      assert Flatten([sent]) == sent + Flatten<char>([]);
      DataRoundTrip(address, data, [sent]);
    }
  }
}
