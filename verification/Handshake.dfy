/** The handshake that identifies a client: the incremental parser run over the pieces in which the
    socket delivers the bytes, against a decoder that sees the whole stream at once. */
module Handshake {
  import opened Wire

  const HEADER_LEN := 9     // the word and the name length
  const MODE_LEN := 12      // width, height and refresh rate
  const RECV_BUF_LEN := 256

  datatype MonitorMode = MonitorMode(width: uint32, height: uint32, refreshRate: uint32)

  const NO_MODE := MonitorMode(0, 0, 0)

  function IsWelcome(word: seq<byte>): bool {
    word == CL_WELCOME_WORD || word == CL_USB_WELCOME_WORD
  }

  /** `x & ~0x01`. */
  function Even(x: uint32): uint32 { x / 2 * 2 }

  function Landscape(w: uint32, h: uint32, hz: uint32): MonitorMode {
    if w < h then MonitorMode(h, w, hz) else MonitorMode(w, h, hz)
  }

  /** Width and height are rounded down to even numbers and swapped into landscape order. */
  function ReadMode(b: seq<byte>): MonitorMode
    requires |b| == MODE_LEN
  {
    Landscape(Even(DecodeU32(b[0..4])), Even(DecodeU32(b[4..8])), DecodeU32(b[8..12]))
  }

  // ---------- the decoder that sees the whole stream ----------

  datatype Decoded =
    | Short
    | Mismatch
    | Nameless(usb: bool, rest: seq<byte>)
    | Hello(usb: bool, name: seq<byte>, mode: MonitorMode, rest: seq<byte>)

  function NameLength(s: seq<byte>): int32
    requires HEADER_LEN <= |s|
  {
    DecodeInt(s[WORD_LEN..HEADER_LEN])
  }

  function Decode(s: seq<byte>): Decoded {
    if |s| < HEADER_LEN then Short
    else if !IsWelcome(s[..WORD_LEN]) then Mismatch
    else
      var usb := s[..WORD_LEN] == CL_USB_WELCOME_WORD;
      var n := NameLength(s);
      if n <= 0 then Nameless(usb, s[HEADER_LEN..])
      else if |s| < HEADER_LEN + n + MODE_LEN then Short
      else
        var modeAt := HEADER_LEN + n;
        Hello(usb, s[HEADER_LEN..modeAt], ReadMode(s[modeAt..modeAt + MODE_LEN]), s[modeAt + MODE_LEN..])
  }

  // ---------- the incremental parser ----------

  datatype Phase = Welcome | Model | Modes | Rejected

  /** `m_netBuffer`, the locals of the loop and the fields it fills in. */
  datatype Parser = Parser(
    buf: seq<byte>, needed: int32, phase: Phase,
    usb: bool, name: seq<byte>, mode: MonitorMode, identified: bool)

  const START := Parser([], HEADER_LEN, Welcome, false, [], NO_MODE, false)

  predicate Running(p: Parser) {
    p.needed > 0 && !p.phase.Rejected?
  }

  /** `identifyClient` has returned true. */
  predicate Accepted(p: Parser) {
    p.needed <= 0 && !p.phase.Rejected?
  }

  /** The most one read may return. */
  function ReadLimit(p: Parser): int
    requires Running(p)
  {
    if p.needed < RECV_BUF_LEN then p.needed else RECV_BUF_LEN
  }

  /** The field at the front of the buffer has arrived: the `switch` of the loop. */
  function Take(p: Parser): Parser
    requires Running(p) && |p.buf| >= p.needed
  {
    match p.phase
    case Welcome =>
      if |p.buf| < HEADER_LEN || !IsWelcome(p.buf[..WORD_LEN]) then p.(phase := Rejected)
      else p.(buf := p.buf[p.needed..], usb := p.buf[..WORD_LEN] == CL_USB_WELCOME_WORD,
              needed := NameLength(p.buf), phase := Model)
    case Model =>
      p.(buf := p.buf[p.needed..], name := p.buf[..p.needed], needed := MODE_LEN, phase := Modes)
    case Modes =>
      if |p.buf| < MODE_LEN then p.(phase := Rejected)
      else p.(buf := p.buf[p.needed..], mode := ReadMode(p.buf[..MODE_LEN]), needed := 0, identified := true)
    case Rejected => p
  }

  /** One pass through the loop, for the bytes that one read returned. */
  function Feed(p: Parser, chunk: seq<byte>): Parser
    requires Running(p)
  {
    var q := p.(buf := p.buf + chunk);
    if |q.buf| < q.needed then q else Take(q)
  }

  /** The parser after a series of reads. */
  function FeedAll(chunks: seq<seq<byte>>): Parser {
    if chunks == [] then START
    else
      var p := FeedAll(chunks[..|chunks| - 1]);
      if Running(p) then Feed(p, chunks[|chunks| - 1]) else p
  }

  /** The socket may cut the stream anywhere: a read returns at least one byte and at most as
      many as were asked for, and the loop reads only while it runs. */
  predicate Segmentation(chunks: seq<seq<byte>>) {
    chunks == [] ||
    var front := chunks[..|chunks| - 1];
    && Segmentation(front)
    && Running(FeedAll(front))
    && 1 <= |chunks[|chunks| - 1]| <= ReadLimit(FeedAll(front))
  }

  function Flatten(chunks: seq<seq<byte>>): seq<byte> {
    if chunks == [] then [] else Flatten(chunks[..|chunks| - 1]) + chunks[|chunks| - 1]
  }

  lemma Snoc(chunks: seq<seq<byte>>, c: seq<byte>)
    ensures FeedAll(chunks + [c]) == if Running(FeedAll(chunks)) then Feed(FeedAll(chunks), c) else FeedAll(chunks)
    ensures Flatten(chunks + [c]) == Flatten(chunks) + c
    ensures Segmentation(chunks + [c]) <==>
      Segmentation(chunks) && Running(FeedAll(chunks)) && 1 <= |c| <= ReadLimit(FeedAll(chunks))
  {
    assert (chunks + [c])[..|chunks|] == chunks;
  }

  lemma OnlyModesIdentifies(p: Parser)
    requires Running(p) && |p.buf| >= p.needed && Take(p).phase.Rejected?
    ensures Take(p).identified == p.identified
  {
  }

  lemma StartOfRun()
    ensures Segmentation([]) && Flatten([]) == [] && FeedAll([]) == START
  {
  }

  // ---------- where the parser stands in the stream ----------

  /** The parser agrees with the whole-stream reading of the bytes `s` received so far. */
  predicate Agrees(p: Parser, s: seq<byte>) {
    match p.phase
    case Welcome => p == START.(buf := s) && |s| < HEADER_LEN
    case Rejected => Decode(s) == Mismatch && p == START.(buf := s, phase := Rejected)
    case Model =>
      && HEADER_LEN <= |s| && IsWelcome(s[..WORD_LEN])
      && p == START.(buf := s[HEADER_LEN..], phase := Model, needed := NameLength(s),
                     usb := s[..WORD_LEN] == CL_USB_WELCOME_WORD)
    case Modes =>
      && HEADER_LEN <= |s| && IsWelcome(s[..WORD_LEN])
      && p.usb == (s[..WORD_LEN] == CL_USB_WELCOME_WORD)
      && 0 < NameLength(s)
      && var at := HEADER_LEN + NameLength(s);
         && at <= |s|
         && p.name == s[HEADER_LEN..at]
         && if p.needed > 0
            then p.needed == MODE_LEN && p.buf == s[at..] && !p.identified && p.mode == NO_MODE
            else p.needed == 0 && p.identified && at + MODE_LEN <= |s|
                 && p.mode == ReadMode(s[at..at + MODE_LEN]) && p.buf == s[at + MODE_LEN..]
  }

  lemma SameHeader(s: seq<byte>, c: seq<byte>)
    requires HEADER_LEN <= |s|
    ensures (s + c)[..WORD_LEN] == s[..WORD_LEN] && NameLength(s + c) == NameLength(s)
    ensures (s + c)[HEADER_LEN..] == s[HEADER_LEN..] + c
  {
    assert (s + c)[WORD_LEN..HEADER_LEN] == s[WORD_LEN..HEADER_LEN];
  }

  lemma FeedAgrees(p: Parser, s: seq<byte>, c: seq<byte>)
    requires Agrees(p, s) && Running(p)
    ensures Agrees(Feed(p, c), s + c)
  {
    hide ReadMode, DecodeInt, IsWelcome;
    var t := s + c;
    match p.phase
    case Welcome =>
    case Model =>
      SameHeader(s, c);
      var at := HEADER_LEN + p.needed;
      if at <= |t| {
        assert t[HEADER_LEN..at] == t[HEADER_LEN..][..p.needed];
        assert t[at..] == t[HEADER_LEN..][p.needed..];
      }
    case Modes =>
      FeedModesAgrees(p, s, c);
    case Rejected =>
  }

  lemma FeedModesAgrees(p: Parser, s: seq<byte>, c: seq<byte>)
    requires Agrees(p, s) && Running(p) && p.phase == Modes
    ensures Agrees(Feed(p, c), s + c)
  {
    hide ReadMode, NameLength, IsWelcome;
    var t := s + c;
    SameHeader(s, c);
    var at := HEADER_LEN + NameLength(s);
    assert t[HEADER_LEN..at] == s[HEADER_LEN..at];
    assert t[at..] == p.buf + c;
    if at + MODE_LEN <= |t| {
      assert t[at..at + MODE_LEN] == t[at..][..MODE_LEN];
      assert t[at + MODE_LEN..] == t[at..][MODE_LEN..];
    }
  }

  lemma {:induction false} FeedAllAgrees(chunks: seq<seq<byte>>)
    requires Segmentation(chunks)
    ensures Agrees(FeedAll(chunks), Flatten(chunks))
  {
    if chunks == [] {
    } else {
      hide Feed, Agrees;
      var front := chunks[..|chunks| - 1];
      FeedAllAgrees(front);
      FeedAgrees(FeedAll(front), Flatten(front), chunks[|chunks| - 1]);
    }
  }

  /** Segmentation independence: however the bytes were cut, the parser accepts with the fields the
      whole-stream decoder finds, keeping the bytes after them; it is marked identified exactly
      when a name and a mode were read; and it rejects exactly the streams the decoder rejects. */
  lemma SegmentationIndependence(chunks: seq<seq<byte>>)
    requires Segmentation(chunks)
    ensures var p := FeedAll(chunks); var s := Flatten(chunks);
      && (Accepted(p) && p.identified ==> Decode(s) == Hello(p.usb, p.name, p.mode, p.buf))
      && (Accepted(p) && !p.identified ==> Decode(s) == Nameless(p.usb, p.buf) && p.name == [] && p.mode == NO_MODE)
      && (p.phase.Rejected? <==> Decode(s) == Mismatch)
      && (Decode(s).Nameless? ==> Accepted(p) && !p.identified)
  {
    hide FeedAll, Flatten, Segmentation, ReadMode;
    FeedAllAgrees(chunks);
  }

  /** Bytes that arrive later do not change what was decoded. */
  lemma DecodeExtends(s: seq<byte>, t: seq<byte>)
    ensures match Decode(s)
      case Hello(usb, name, mode, rest) => Decode(s + t) == Hello(usb, name, mode, rest + t)
      case Nameless(usb, rest) => Decode(s + t) == Nameless(usb, rest + t)
      case Mismatch => Decode(s + t) == Mismatch
      case Short => true
  {
    hide ReadMode, DecodeInt, IsWelcome;
    if HEADER_LEN <= |s| {
      SameHeader(s, t);
      if Decode(s).Hello? {
        var at := HEADER_LEN + NameLength(s);
        assert (s + t)[HEADER_LEN..at] == s[HEADER_LEN..at];
        assert (s + t)[at..at + MODE_LEN] == s[at..at + MODE_LEN];
        assert (s + t)[at + MODE_LEN..] == s[at + MODE_LEN..] + t;
      }
    }
  }

  /** The conclusion for a stream of which only `Flatten(chunks)` has been read. */
  lemma AcceptedMeans(chunks: seq<seq<byte>>, unread: seq<byte>)
    requires Segmentation(chunks) && Accepted(FeedAll(chunks))
    ensures var p := FeedAll(chunks); var d := Decode(Flatten(chunks) + unread);
      if p.identified then d == Hello(p.usb, p.name, p.mode, p.buf + unread)
      else d == Nameless(p.usb, p.buf + unread) && p.name == [] && p.mode == NO_MODE
  {
    hide FeedAll, Flatten, Segmentation, Decode;
    SegmentationIndependence(chunks);
    DecodeExtends(Flatten(chunks), unread);
  }

  /** The same for a rejection: nothing that follows can turn it. */
  lemma RejectedMeans(chunks: seq<seq<byte>>, unread: seq<byte>)
    requires Segmentation(chunks) && FeedAll(chunks).phase.Rejected?
    ensures Decode(Flatten(chunks) + unread) == Mismatch
  {
    hide FeedAll, Flatten, Segmentation, Decode;
    SegmentationIndependence(chunks);
    DecodeExtends(Flatten(chunks), unread);
  }

  // ---------- how far it reads ahead ----------

  function Min(a: int, b: int): int { if a < b then a else b }

  function Max(a: int, b: int): int { if a < b then b else a }

  /** The name length announced by the bytes received so far, 0 before it is known. */
  function Announced(s: seq<byte>): int32 {
    if HEADER_LEN <= |s| then NameLength(s) else 0
  }

  /** What the parser may hold, and how many reads it took, given the name length `n`. */
  predicate ReadAhead(p: Parser, taken: nat, n: int) {
    match p.phase
    case Welcome => |p.buf| <= 8 && taken <= |p.buf|
    case Rejected => true
    case Model =>
      n == p.needed && taken <= 9 + |p.buf| && (|p.buf| <= 8 || |p.buf| < n) && (taken <= 9 || |p.buf| < n)
    case Modes =>
      var most := Max(8, Min(RECV_BUF_LEN, n) - 1);
      && n > 0
      && if p.needed > 0
         then taken <= 9 + n + |p.buf| && (|p.buf| <= most || |p.buf| < 12) && (taken <= 9 + n || |p.buf| < 12)
         else taken <= 9 + n + 12 && |p.buf| <= Max(11, most)
  }

  lemma FeedReadsAhead(p: Parser, s: seq<byte>, c: seq<byte>, taken: nat)
    requires Running(p) && 1 <= |c| <= ReadLimit(p)
    requires Agrees(p, s) && Agrees(Feed(p, c), s + c)
    requires ReadAhead(p, taken, Announced(s))
    ensures ReadAhead(Feed(p, c), taken + 1, Announced(s + c))
  {
    hide ReadMode, DecodeInt, IsWelcome;
    if HEADER_LEN <= |s| {
      SameHeader(s, c);
    }
  }

  lemma {:induction false} FeedAllReadsAhead(chunks: seq<seq<byte>>)
    requires Segmentation(chunks)
    ensures ReadAhead(FeedAll(chunks), |chunks|, Announced(Flatten(chunks)))
  {
    hide Feed, Agrees, Decode, ReadMode, Announced, ReadLimit;
    if chunks == [] {
    } else {
      var front, c := chunks[..|chunks| - 1], chunks[|chunks| - 1];
      FeedAllReadsAhead(front);
      FeedAllAgrees(front);
      FeedAllAgrees(chunks);
      FeedReadsAhead(FeedAll(front), Flatten(front), c, |front|);
    }
  }

  /** Over-read: when a client is identified, the bytes received are the handshake and the leftover;
      the leftover and the number of reads are bounded for every segmentation. */
  lemma OverReadBound(chunks: seq<seq<byte>>)
    requires Segmentation(chunks)
    requires FeedAll(chunks).identified
    ensures var p := FeedAll(chunks); var n := |p.name|;
      && |Flatten(chunks)| == HEADER_LEN + n + MODE_LEN + |p.buf|
      && |p.buf| <= Max(11, Min(RECV_BUF_LEN, n) - 1)
      && |chunks| <= HEADER_LEN + n + MODE_LEN
  {
    hide FeedAll, Flatten, Segmentation, ReadMode;
    FeedAllAgrees(chunks);
    FeedAllReadsAhead(chunks);
  }

  /** No read is short. */
  predicate FullReads(chunks: seq<seq<byte>>)
    requires Segmentation(chunks)
  {
    chunks == [] ||
    var front := chunks[..|chunks| - 1];
    FullReads(front) && |chunks[|chunks| - 1]| == ReadLimit(FeedAll(front))
  }

  /** `held` bytes are whole reads of `m` bytes, less the `used` ones. */
  ghost predicate WholeReads(held: int, used: int, m: int) {
    exists k :: held + used == Times(k, m)
  }

  ghost function Times(k: int, m: int): int { k * m }

  ghost predicate InStep(p: Parser, n: int) {
    match p.phase
    case Welcome => p.buf == []
    case Rejected => true
    case Model =>
      n == p.needed && (n > 0 ==> |p.buf| < n && WholeReads(|p.buf|, 0, Min(RECV_BUF_LEN, n)))
    case Modes =>
      0 < n && |p.buf| < Min(RECV_BUF_LEN, n) && WholeReads(|p.buf|, n, Min(RECV_BUF_LEN, n))
  }

  lemma OneMoreRead(held: int, used: int, m: int)
    requires WholeReads(held, 0, m)
    ensures WholeReads(held + m - used, used, m)
  {
    var k :| held == Times(k, m);
    assert held + m == Times(k + 1, m);
  }

  lemma FeedInStep(p: Parser, s: seq<byte>, c: seq<byte>)
    requires Running(p) && |c| == ReadLimit(p)
    requires Agrees(p, s) && Agrees(Feed(p, c), s + c)
    requires InStep(p, Announced(s))
    ensures InStep(Feed(p, c), Announced(s + c))
  {
    hide ReadMode, DecodeInt, IsWelcome, WholeReads;
    if HEADER_LEN <= |s| {
      SameHeader(s, c);
    }
    match p.phase
    case Welcome => StartOfName(Min(RECV_BUF_LEN, Announced(s + c)));
    case Model =>
      var m := Min(RECV_BUF_LEN, p.needed);
      OneMoreRead(|p.buf|, if |p.buf| + m < p.needed then 0 else p.needed, m);
    case Modes =>
    case Rejected =>
  }

  lemma StartOfName(m: int)
    ensures WholeReads(0, 0, m)
  {
    assert 0 == Times(0, m);
  }

  lemma {:induction false} FullReadsInStep(chunks: seq<seq<byte>>)
    requires Segmentation(chunks) && FullReads(chunks)
    ensures InStep(FeedAll(chunks), Announced(Flatten(chunks)))
  {
    hide Feed, Agrees, Decode, ReadMode, Announced, ReadLimit, WholeReads;
    if chunks == [] {
    } else {
      var front, c := chunks[..|chunks| - 1], chunks[|chunks| - 1];
      FullReadsInStep(front);
      FeedAllAgrees(front);
      FeedAllAgrees(chunks);
      FeedInStep(FeedAll(front), Flatten(front), c);
    }
  }

  /** With full reads the leftover is what rounds the name up to whole reads: nothing at all for
      a name that fits the receive buffer. */
  lemma FullReadsLeftover(chunks: seq<seq<byte>>)
    requires Segmentation(chunks) && FullReads(chunks)
    requires FeedAll(chunks).identified
    ensures var p := FeedAll(chunks); var n := |p.name|; var m := Min(RECV_BUF_LEN, n);
      && |p.buf| < m && WholeReads(|p.buf|, n, m)
      && (n <= RECV_BUF_LEN ==> p.buf == [])
  {
    hide FeedAll, Flatten, Segmentation, ReadMode, FullReads, WholeReads, Times;
    FullReadsInStep(chunks);
    FeedAllAgrees(chunks);
    var p := FeedAll(chunks);
    var n := |p.name|;
    if n <= RECV_BUF_LEN {
      NothingOver(|p.buf|, n);
    }
  }

  lemma NothingOver(held: nat, n: int)
    requires held < n && WholeReads(held, n, n)
    ensures held == 0
  {
    var k :| held + n == Times(k, n);
    assert held == (k - 1) * n;
    Product(k - 1, n);
  }

  lemma Product(k: int, n: nat)
    ensures k >= 1 ==> k * n >= n
    ensures k <= 0 ==> k * n <= 0
  {
  }

  // ---------- a complete handshake may not be enough ----------

  /** The parser waits for more bytes although a whole handshake has been received. */
  predicate Stalled(chunks: seq<seq<byte>>) {
    Segmentation(chunks) && Decode(Flatten(chunks)).Hello? && Running(FeedAll(chunks))
  }

  /** Names of up to 12 bytes never stall: whatever the segmentation, the client is identified as
      soon as all its bytes are there. */
  lemma ShortNamesNeverStall(chunks: seq<seq<byte>>)
    requires Segmentation(chunks)
    requires Decode(Flatten(chunks)).Hello? && |Decode(Flatten(chunks)).name| <= 12
    ensures Accepted(FeedAll(chunks)) && FeedAll(chunks).identified
  {
    hide FeedAll, Flatten, Segmentation, ReadMode;
    FeedAllAgrees(chunks);
    FeedAllReadsAhead(chunks);
  }

  /** The stream cut into a header, `k` single bytes of the name, and nothing more. */
  function Drip(s: seq<byte>, k: nat): (chunks: seq<seq<byte>>)
    requires HEADER_LEN + k <= |s|
  {
    if k == 0 then [s[..HEADER_LEN]] else Drip(s, k - 1) + [[s[HEADER_LEN + k - 1]]]
  }

  /** What a read does while the name is coming in, and when it completes the name. */
  lemma WithinName(p: Parser, c: seq<byte>)
    requires Running(p) && p.phase == Model
    ensures |p.buf + c| < p.needed ==> Feed(p, c) == p.(buf := p.buf + c)
    ensures |p.buf + c| >= p.needed ==>
      var q := Feed(p, c);
      q.phase == Modes && q.needed == MODE_LEN && |q.buf| == |p.buf| + |c| - p.needed
  {
  }

  lemma {:induction false} DripFeeds(s: seq<byte>, k: nat)
    requires HEADER_LEN + k <= |s| && IsWelcome(s[..WORD_LEN]) && k < NameLength(s)
    ensures Segmentation(Drip(s, k)) && Flatten(Drip(s, k)) == s[..HEADER_LEN + k]
    ensures var p := FeedAll(Drip(s, k)); p.phase == Model && p.needed == NameLength(s) && |p.buf| == k
  {
    if k == 0 {
      HeaderFeeds(s);
    } else {
      hide FeedAll, Segmentation, Flatten, NameLength, IsWelcome, Feed;
      DripFeeds(s, k - 1);
      OneByteOn(Drip(s, k - 1), s, k - 1);
    }
  }

  lemma OneByteOn(front: seq<seq<byte>>, s: seq<byte>, k: nat)
    requires Segmentation(front) && HEADER_LEN + k < |s| && Flatten(front) == s[..HEADER_LEN + k]
    requires var p := FeedAll(front); p.phase == Model && |p.buf| == k && k + 1 < p.needed
    ensures var chunks := front + [[s[HEADER_LEN + k]]];
      && Segmentation(chunks) && Flatten(chunks) == s[..HEADER_LEN + k + 1]
      && FeedAll(chunks).phase == Model && FeedAll(chunks).needed == FeedAll(front).needed
      && |FeedAll(chunks).buf| == k + 1
  {
    hide FeedAll, Segmentation, Flatten, Feed;
    var c := [s[HEADER_LEN + k]];
    Snoc(front, c);
    WithinName(FeedAll(front), c);
    assert s[..HEADER_LEN + k + 1] == s[..HEADER_LEN + k] + c;
  }

  lemma TakesHeader(h: seq<byte>)
    requires |h| == HEADER_LEN && IsWelcome(h[..WORD_LEN])
    ensures var p := Feed(START, h); p.phase == Model && p.needed == NameLength(h) && p.buf == []
  {
    hide IsWelcome, ReadMode, DecodeInt;
    assert [] + h == h;
  }

  lemma HeaderFeeds(s: seq<byte>)
    requires HEADER_LEN <= |s| && IsWelcome(s[..WORD_LEN]) && 0 < NameLength(s)
    ensures var h := [s[..HEADER_LEN]]; var p := FeedAll(h);
      && Segmentation(h) && Flatten(h) == s[..HEADER_LEN]
      && p.phase == Model && p.needed == NameLength(s) && p.buf == []
  {
    hide IsWelcome, DecodeInt, Feed, FeedAll, Segmentation, Flatten;
    var h := s[..HEADER_LEN];
    assert h[..WORD_LEN] == s[..WORD_LEN] && h[WORD_LEN..HEADER_LEN] == s[WORD_LEN..HEADER_LEN];
    TakesHeader(h);
    StartOfRun();
    Snoc([], h);
    assert [] + [h] == [h] && [] + h == h;
  }

  /** The last piece completes the name and brings a whole mode with it, which is not looked at. */
  lemma LastPiece(front: seq<seq<byte>>, s: seq<byte>, k: nat)
    requires HEADER_LEN + k < |s| && Segmentation(front) && Flatten(front) == s[..HEADER_LEN + k]
    requires var p := FeedAll(front);
      && p.phase == Model && |p.buf| == k < p.needed && |s| == HEADER_LEN + p.needed + MODE_LEN
      && |s| - HEADER_LEN - k == ReadLimit(p) && p.needed <= k + ReadLimit(p)
    ensures var chunks := front + [s[HEADER_LEN + k..]];
      && Segmentation(chunks) && Flatten(chunks) == s && Running(FeedAll(chunks))
      && FeedAll(chunks).phase == Modes && |FeedAll(chunks).buf| == MODE_LEN
  {
    hide FeedAll, Segmentation, Flatten, Feed;
    var c := s[HEADER_LEN + k..];
    Snoc(front, c);
    WithinName(FeedAll(front), c);
    assert s == s[..HEADER_LEN + k] + s[HEADER_LEN + k..];
  }

  /** Every longer name can stall: some segmentation of exactly its handshake leaves the parser
      reading on although it already holds everything the client sent. */
  lemma LongNamesCanStall(s: seq<byte>) returns (chunks: seq<seq<byte>>)
    requires Decode(s).Hello? && Decode(s).rest == [] && 12 < |Decode(s).name|
    ensures Stalled(chunks) && Flatten(chunks) == s
    ensures FeedAll(chunks).phase == Modes && |FeedAll(chunks).buf| == MODE_LEN
  {
    var n := NameLength(s);
    assert IsWelcome(s[..WORD_LEN]) && |s| == HEADER_LEN + n + MODE_LEN && 12 < n;
    hide FeedAll, Segmentation, Flatten, NameLength, IsWelcome, Feed, Decode, Drip, ReadMode;
    var k := n + MODE_LEN - Min(RECV_BUF_LEN, n);
    DripFeeds(s, k);
    LastPiece(Drip(s, k), s, k);
    chunks := Drip(s, k) + [s[HEADER_LEN + k..]];
  }

  /** Exactly the clients whose name has more than 12 bytes depend on how the socket cuts their
      handshake. */
  lemma StallsIffNameExceedsMode(s: seq<byte>)
    requires Decode(s).Hello? && Decode(s).rest == []
    ensures (exists chunks :: Stalled(chunks) && Flatten(chunks) == s) <==> 12 < |Decode(s).name|
  {
    if 12 < |Decode(s).name| {
      var chunks := LongNamesCanStall(s);
    }
    forall chunks | Segmentation(chunks) && Flatten(chunks) == s && |Decode(s).name| <= 12
      ensures !Stalled(chunks)
    {
      ShortNamesNeverStall(chunks);
    }
  }

  // ---------- what the device sends ----------

  function Encode(usb: bool, name: seq<byte>, w: uint32, h: uint32, hz: uint32): seq<byte>
    requires |name| < 0x8000_0000
  {
    (if usb then CL_USB_WELCOME_WORD else CL_WELCOME_WORD) + EncodeInt(|name|) + name
    + EncodeU32(w) + EncodeU32(h) + EncodeU32(hz)
  }

  /** The bytes of a handshake: "CUSBW" or "CWLCM", the length of the name, the name, and the mode. */
  lemma HandshakeBytes(usb: bool, name: seq<byte>, w: uint32, h: uint32, hz: uint32)
    requires |name| < 0x8000_0000
    ensures var e := Encode(usb, name, w, h, hz); var at := 9 + |name|;
      && |e| == at + 12
      && e[..5] == (if usb then [67, 85, 83, 66, 87] else [67, 87, 76, 67, 77])
      && LittleEndian(e[5..9], |name|) && e[9..at] == name
      && LittleEndian(e[at..at + 4], w) && LittleEndian(e[at + 4..at + 8], h) && LittleEndian(e[at + 8..], hz)
  {
    var e, at := Encode(usb, name, w, h, hz), 9 + |name|;
    OnTheWire(|name|, w, []);
    OnTheWire(0, h, []);
    OnTheWire(0, hz, []);
    hide EncodeInt, EncodeU32, LittleEndian;
    assert e[5..9] == EncodeInt(|name|);
    assert e[at..at + 4] == EncodeU32(w) && e[at + 4..at + 8] == EncodeU32(h) && e[at + 8..] == EncodeU32(hz);
  }

  /** What is not a handshake: only the first five bytes are looked at, once there are nine; and a length of
      zero or less ends the handshake. */
  lemma HeaderDecides(s: seq<byte>)
    ensures Decode(s).Mismatch? <==> 9 <= |s| && s[..5] != [67, 87, 76, 67, 77] && s[..5] != [67, 85, 83, 66, 87]
    ensures Decode(s).Nameless? <==> 9 <= |s| && !Decode(s).Mismatch? && DecodeInt(s[5..9]) <= 0
    ensures Decode(s).Nameless? ==> Decode(s).rest == s[9..]
    ensures Decode(s).Nameless? || Decode(s).Hello? ==> (Decode(s).usb <==> s[..5] == [67, 85, 83, 66, 87])
  {
    hide ReadMode, DecodeInt;
  }

  lemma ReadModeEncoded(w: uint32, h: uint32, hz: uint32)
    ensures ReadMode(EncodeU32(w) + EncodeU32(h) + EncodeU32(hz)) == Landscape(Even(w), Even(h), hz)
  {
    hide EncodeU32, DecodeU32;
    DecodeEncodeU32(w);
    DecodeEncodeU32(h);
    DecodeEncodeU32(hz);
    var b := EncodeU32(w) + EncodeU32(h) + EncodeU32(hz);
    assert b[0..4] == EncodeU32(w);
    assert b[4..8] == EncodeU32(h);
    assert b[8..12] == EncodeU32(hz);
  }

  lemma DecodeEncoded(usb: bool, name: seq<byte>, w: uint32, h: uint32, hz: uint32, rest: seq<byte>)
    requires 0 < |name| < 0x8000_0000
    ensures Decode(Encode(usb, name, w, h, hz) + rest)
         == Hello(usb, name, ReadMode(EncodeU32(w) + EncodeU32(h) + EncodeU32(hz)), rest)
  {
    hide EncodeU32, DecodeU32, ReadMode, EncodeInt, DecodeInt;
    var word := if usb then CL_USB_WELCOME_WORD else CL_WELCOME_WORD;
    var mode := EncodeU32(w) + EncodeU32(h) + EncodeU32(hz);
    var s := Encode(usb, name, w, h, hz) + rest;
    assert s == word + EncodeInt(|name|) + name + mode + rest;
    DecodeEncodeInt(|name|);
    var at := HEADER_LEN + |name|;
    assert s[..WORD_LEN] == word;
    assert s[WORD_LEN..HEADER_LEN] == EncodeInt(|name|);
    assert s[HEADER_LEN..at] == name;
    assert s[at..at + MODE_LEN] == mode;
    assert s[at + MODE_LEN..] == rest;
  }

  /** Round trip: a device that sends its handshake in any pieces, and is identified, is identified
      under its own name, connection kind and mode (even sizes, landscape), and the parser keeps
      exactly the bytes it sent after the handshake. */
  lemma HandshakeRoundTrip(usb: bool, name: seq<byte>, w: uint32, h: uint32, hz: uint32,
                           rest: seq<byte>, chunks: seq<seq<byte>>)
    requires 0 < |name| < 0x8000_0000
    requires Segmentation(chunks) && Flatten(chunks) == Encode(usb, name, w, h, hz) + rest
    ensures var p := FeedAll(chunks);
      && !p.phase.Rejected?
      && (Accepted(p) ==>
            && p.identified && p.usb == usb && p.name == name && p.buf == rest
            && p.mode.refreshRate == hz
            && p.mode.width == Max(w - w % 2, h - h % 2) && p.mode.height == Min(w - w % 2, h - h % 2))
  {
    hide Encode, Decode, FeedAll, Flatten, Segmentation, ReadMode;
    DecodeEncoded(usb, name, w, h, hz, rest);
    ReadModeEncoded(w, h, hz);
    SegmentationIndependence(chunks);
  }
}
