/** The detailed timing of the preferred mode: the blanking formula, the bytes it is packed into, the
    driver's decoder, and what the refresh rate survives. */
module EdidTiming {
  import opened Wire
  import opened Bits

  const H_BLANK := 80
  const H_FRONT := 8
  const H_SYNC := 32
  const V_SYNC := 8
  const V_BACK := 6
  const MIN_V_BLANK_US := 460

  // ---------- vertical blanking ----------

  // The field rate is raised by 350 ppm, so a period has 10^12 / (1000350 * hertz) microseconds.
  const SCALE := 1_000_000_000_000
  const BLANK_PER_HERTZ := 460 * 1_000_350

  predicate Rate(hertz: int) {
    0 <= hertz <= 2173
  }

  function CeilDiv(n: nat, d: nat): nat
    requires d > 0
  {
    (n + d - 1) / d
  }

  /** The time that is left of a period after the minimum blanking, in units of the scaled field rate. */
  function ActiveTime(hertz: int): (t: nat)
    requires Rate(hertz)
    ensures t > 0
  {
    SCALE - BLANK_PER_HERTZ * hertz
  }

  function VBlank(height: nat, hertz: int): nat
    requires Rate(hertz)
  {
    var lines := CeilDiv(BLANK_PER_HERTZ * height * hertz, ActiveTime(hertz));
    if lines < 1 + V_SYNC + V_BACK then 1 + V_SYNC + V_BACK else lines
  }

  /** The estimated line period in microseconds, as `setDefaultMode` computes it. */
  ghost function LinePeriod(height: nat, hertz: int): real
    requires 0 < height && 0 < hertz <= 2173
  {
    var vFieldRate := hertz as real * (1.0 + 350.0 / 1_000_000.0);
    (1_000_000.0 / vFieldRate - MIN_V_BLANK_US as real) / height as real
  }

  /** `v` lines last at least the minimum blanking time. */
  ghost predicate Covers(v: nat, height: nat, hertz: int)
    requires Rate(hertz)
  {
    v * ActiveTime(hertz) >= BLANK_PER_HERTZ * height * hertz
  }

  lemma Rounding(x: nat, d: nat)
    requires d > 0
    ensures x - d < x / d * d <= x
  {
    assert x == x / d * d + x % d;
  }

  lemma Scaled(a: int, b: int, d: nat)
    ensures a > b ==> a * d >= b * d + d
    ensures a <= b ==> a * d <= b * d
  {
    if a > b {
      assert (a - b - 1) * d >= 0;
    } else {
      assert (b - a) * d >= 0;
    }
  }

  lemma CeilDivLeast(n: nat, d: nat, v: nat)
    requires d > 0
    ensures CeilDiv(n, d) * d >= n
    ensures v * d >= n ==> CeilDiv(n, d) <= v
  {
    Rounding(n + d - 1, d);
    Scaled(CeilDiv(n, d), v, d);
  }

  lemma LeastAbove(n: nat, d: nat, least: nat)
    requires d > 0
    ensures var v := if CeilDiv(n, d) < least then least else CeilDiv(n, d);
      v * d >= n && forall u | least <= u < v :: u * d < n
  {
    hide CeilDiv;
    var c := CeilDiv(n, d);
    CeilDivLeast(n, d, 0);
    if c < least {
      Scaled(least, c, d);
    }
    forall u: nat | least <= u < c ensures u * d < n {
      CeilDivLeast(n, d, u);
    }
  }

  /** The blanking is the least number of lines, at least 15, that lasts 460 microseconds. */
  lemma VBlankIsLeast(height: nat, hertz: int)
    requires Rate(hertz)
    ensures var v := VBlank(height, hertz); v >= 15 && Covers(v, height, hertz)
    ensures forall u | 15 <= u < VBlank(height, hertz) :: !Covers(u, height, hertz)
  {
    hide CeilDiv, ActiveTime;
    LeastAbove(BLANK_PER_HERTZ * height * hertz, ActiveTime(hertz), 15);
  }

  lemma DivideOut(x: real, y: real, f: real)
    requires f > 0.0
    ensures x >= y <==> x * f >= y * f
  {
    if x >= y {
      assert (x - y) * f >= 0.0;
    } else {
      assert (y - x) * f > 0.0;
    }
  }

  /** The integer form of the covering condition is the one on the estimated line period. */
  lemma CoversInMicroseconds(v: nat, height: nat, hertz: int)
    requires 0 < height && 0 < hertz <= 2173
    ensures Covers(v, height, hertz) <==> v as real * LinePeriod(height, hertz) >= MIN_V_BLANK_US as real
  {
    var h, f := height as real, hertz as real * (1.0 + 350.0 / 1_000_000.0);
    var active := 1_000_000.0 / f - 460.0;
    var period := active / h;
    assert period * h == active;
    assert active * f == 1_000_000.0 - 460.0 * f;
    DivideOut(v as real * period, 460.0, h);
    assert v as real * period * h == v as real * active by { RealAssociates(v as real, period, h); }
    DivideOut(v as real * active, 460.0 * h, f);
    RealAssociates(v as real, active, f);
    DivideOut(v as real * (1_000_000.0 - 460.0 * f), 460.0 * h * f, 1_000_000.0);
    RealAssociates(v as real, 1_000_000.0 - 460.0 * f, 1_000_000.0);
    assert (1_000_000.0 - 460.0 * f) * 1_000_000.0 == ActiveTime(hertz) as real;
    assert v as real * ActiveTime(hertz) as real == (v * ActiveTime(hertz)) as real;
    assert f * 1_000_000.0 == (1_000_350 * hertz) as real;
    RealAssociates(460.0 * h, f, 1_000_000.0);
    assert 460.0 * h * (1_000_350 * hertz) as real == (460 * height * (1_000_350 * hertz)) as real;
    assert 460 * height * (1_000_350 * hertz) == BLANK_PER_HERTZ * height * hertz;
  }

  lemma RealAssociates(a: real, b: real, c: real)
    ensures a * b * c == a * (b * c)
  {
  }

  lemma ProductsOrdered(a: nat, b: nat, c: nat, d: nat)
    requires a <= b && c <= d
    ensures a * c <= b * d
  {
    Scaled(a, b, c);
    Scaled(c, d, b);
  }

  /** What covers the blanking of more lines at a higher rate covers that of fewer at a lower one. */
  lemma CoversLess(v: nat, height: nat, hertz: int, height': nat, hertz': int)
    requires Rate(hertz) && Rate(hertz') && height <= height' && hertz <= hertz'
    requires Covers(v, height', hertz')
    ensures Covers(v, height, hertz)
  {
    assert ActiveTime(hertz') <= ActiveTime(hertz);
    ProductsOrdered(BLANK_PER_HERTZ * height, BLANK_PER_HERTZ * height', hertz, hertz');
    ProductsOrdered(v, v, ActiveTime(hertz'), ActiveTime(hertz));
  }

  /** More lines or a higher rate never need less blanking. */
  lemma VBlankIsMonotone(height: nat, hertz: int, height': nat, hertz': int)
    requires Rate(hertz) && Rate(hertz') && height <= height' && hertz <= hertz'
    ensures VBlank(height, hertz) <= VBlank(height', hertz')
  {
    VBlankIsLeast(height, hertz);
    VBlankIsLeast(height', hertz');
    CoversLess(VBlank(height', hertz'), height, hertz, height', hertz');
    hide VBlank, Covers;
  }

  // ---------- the packed descriptor ----------

  /** `((active & 0x0F00) >> 4) | ((blank & 0x0F00) >> 8)`: two high nibbles in one byte. */
  function HighNibbles(active: nat, blank: nat): nat {
    Or(Shr(And(active, 0x0F00), 4), Shr(And(blank, 0x0F00), 8))
  }

  function VSyncLow(offset: nat, width: nat): nat {
    Or(Shl(And(offset, 0x0F), 4), And(width, 0x0F))
  }

  function SyncHigh(hOffset: nat, hWidth: nat, vOffset: nat, vWidth: nat): nat {
    Or(Or(Or(Shr(And(hOffset, 0x300), 2), Shr(And(hWidth, 0x300), 4)), Shr(And(vOffset, 0x30), 2)),
       Shr(And(vWidth, 0x30), 4))
  }

  lemma HighNibblesMeans(active: nat, blank: nat)
    ensures HighNibbles(active, blank) == 16 * (active / 256 % 16) + blank / 256 % 16 < 256
  {
    hide And, Or, Shr;
    MiddleMasks(active);
    MiddleMasks(blank);
    Four(256 * (active / 256 % 16));
    Eight(256 * (blank / 256 % 16));
    Unions(active / 256 % 16, blank / 256 % 16);
  }

  lemma VSyncLowMeans(offset: nat, width: nat)
    ensures VSyncLow(offset, width) == 16 * (offset % 16) + width % 16 < 256
  {
    hide And, Or, Shl;
    LowMasks(offset);
    LowMasks(width);
    Four(offset % 16);
    Unions(offset % 16, width % 16);
  }

  lemma TwoBits(h: nat, v: nat)
    ensures Shr(And(h, 0x300), 2) == 64 * (h / 256 % 4) && Shr(And(h, 0x300), 4) == 16 * (h / 256 % 4)
    ensures Shr(And(v, 0x30), 2) == 4 * (v / 16 % 4) && Shr(And(v, 0x30), 4) == v / 16 % 4
  {
    hide And, Shr;
    MiddleMasks(h);
    MiddleMasks(v);
    Two(256 * (h / 256 % 4));
    Four(256 * (h / 256 % 4));
    Two(16 * (v / 16 % 4));
    Four(16 * (v / 16 % 4));
  }

  lemma FourPairs(a: nat, b: nat, c: nat, d: nat)
    requires b < 4 && c < 4 && d < 4
    ensures Or(Or(Or(64 * a, 16 * b), 4 * c), d) == 64 * a + 16 * b + 4 * c + d
  {
    hide Or;
    Unions(a, 16 * b);
    Unions(4 * a + b, 4 * c);
    Unions(16 * a + 4 * b + c, d);
  }

  lemma SyncHighMeans(hOffset: nat, hWidth: nat, vOffset: nat, vWidth: nat)
    ensures SyncHigh(hOffset, hWidth, vOffset, vWidth) ==
      64 * (hOffset / 256 % 4) + 16 * (hWidth / 256 % 4) + 4 * (vOffset / 16 % 4) + vWidth / 16 % 4 < 256
  {
    hide And, Or, Shr;
    TwoBits(hOffset, vOffset);
    TwoBits(hWidth, vWidth);
    FourPairs(hOffset / 256 % 4, hWidth / 256 % 4, vOffset / 16 % 4, vWidth / 16 % 4);
  }

  /** A detailed timing, with the meaning section 3.10.2 of the VESA E-EDID Standard Release A Rev. 2
      gives to the 18 bytes of its descriptor. */
  datatype Timing = Timing(
    clock: nat, hActive: nat, hBlank: nat, vActive: nat, vBlank: nat,
    hOffset: nat, hWidth: nat, vOffset: nat, vWidth: nat,
    hSize: nat, vSize: nat, hBorder: nat, vBorder: nat, flags: nat)

  const DESCRIPTOR_LEN := 18

  function Vesa(b: seq<byte>): Timing
    requires |b| == DESCRIPTOR_LEN
  {
    Timing(
      (b[0] as nat) + 256 * (b[1] as nat),
      (b[2] as nat) + 256 * (b[4] as nat / 16), (b[3] as nat) + 256 * (b[4] as nat % 16),
      (b[5] as nat) + 256 * (b[7] as nat / 16), (b[6] as nat) + 256 * (b[7] as nat % 16),
      (b[8] as nat) + 256 * (b[11] as nat / 64), (b[9] as nat) + 256 * (b[11] as nat / 16 % 4),
      (b[10] as nat / 16) + 16 * (b[11] as nat / 4 % 4), (b[10] as nat % 16) + 16 * (b[11] as nat % 4),
      (b[12] as nat) + 256 * (b[14] as nat / 16), (b[13] as nat) + 256 * (b[14] as nat % 16),
      b[15] as nat, b[16] as nat, b[17] as nat)
  }

  function U32(x: nat): uint32 { x % 0x1_0000_0000 }

  function U16(x: nat): (r: nat)
    ensures r < 0x1_0000
  {
    x % 0x1_0000
  }

  /** The pixel clock in units of 10 kHz: 32-bit arithmetic, truncated division, 16-bit field. */
  function PixelClock(width: nat, height: nat, vBlank: nat, hertz: nat): (clock: nat)
    ensures clock < 0x1_0000
  {
    U16(U32(U32(U32(width + H_BLANK) * U32(height + vBlank)) * hertz) / 10_000)
  }

  /** The bytes that `setDefaultMode` writes for given timings. */
  function Descriptor(clock: nat, width: nat, height: nat, vBlank: nat, vOffset: nat): (b: seq<byte>)
    requires clock < 0x1_0000
    ensures |b| == DESCRIPTOR_LEN
  {
    HighNibblesMeans(width, H_BLANK);
    HighNibblesMeans(height, vBlank);
    VSyncLowMeans(vOffset, V_SYNC);
    SyncHighMeans(H_FRONT, H_SYNC, vOffset, V_SYNC);
    LowMasks(width);
    LowMasks(height);
    [
      (clock % 256) as byte, (clock / 256) as byte,
      And(width, 0xFF) as byte, H_BLANK as byte, HighNibbles(width, H_BLANK) as byte,
      And(height, 0xFF) as byte, (vBlank % 256) as byte, HighNibbles(height, vBlank) as byte,
      H_FRONT as byte, H_SYNC as byte,
      VSyncLow(vOffset, V_SYNC) as byte, SyncHigh(H_FRONT, H_SYNC, vOffset, V_SYNC) as byte,
      0, 0, 0, 0, 0, 0x1E
    ]
  }

  lemma SizeBytes(clock: nat, width: nat, height: nat, vBlank: nat, vOffset: nat)
    requires clock < 0x1_0000
    ensures var b := Descriptor(clock, width, height, vBlank, vOffset);
      && b[0] as nat == clock % 256 && b[1] as nat == clock / 256
      && b[2] as nat == width % 256 && b[3] == 80 && b[4] as nat == 16 * (width / 256 % 16)
      && b[5] as nat == height % 256 && b[6] as nat == vBlank % 256
      && b[7] as nat == 16 * (height / 256 % 16) + vBlank / 256 % 16
  {
    hide HighNibbles, VSyncLow, SyncHigh, And;
    HighNibblesMeans(width, H_BLANK);
    HighNibblesMeans(height, vBlank);
    LowMasks(width);
    LowMasks(height);
  }

  lemma SyncBytes(clock: nat, width: nat, height: nat, vBlank: nat, vOffset: nat)
    requires clock < 0x1_0000
    ensures var b := Descriptor(clock, width, height, vBlank, vOffset);
      && b[8] == 8 && b[9] == 32
      && b[10] as nat == 16 * (vOffset % 16) + 8 && b[11] as nat == 4 * (vOffset / 16 % 4)
      && b[12] == b[13] == b[14] == b[15] == b[16] == 0 && b[17] == 0x1E
  {
    hide HighNibbles, VSyncLow, SyncHigh, And;
    VSyncLowMeans(vOffset, V_SYNC);
    SyncHighMeans(H_FRONT, H_SYNC, vOffset, V_SYNC);
  }

  /** The low twelve bits of a number are its low byte and one nibble. */
  lemma LowTwelve(x: nat)
    ensures x % 4096 == x % 256 + 256 * (x / 256 % 16)
  {
    var q := x / 256;
    assert x == 256 * q + x % 256 && q == 16 * (q / 16) + q % 16;
    LowOf(q / 16, 256 * (q % 16) + x % 256);
  }

  lemma LowOf(k: nat, r: nat)
    requires r < 4096
    ensures (4096 * k + r) % 4096 == r
  {
  }

  /** A nibble above another one in a byte. */
  lemma NibblePair(high: nat, low: nat)
    requires high < 16 && low < 16
    ensures (16 * high + low) / 16 == high && (16 * high + low) % 16 == low
  {
  }

  /** A 12-bit size in a byte and one nibble of a shared byte. */
  lemma SplitSize(x: nat, other: nat)
    requires other < 16
    ensures x % 256 + 256 * ((16 * (x / 256 % 16) + other) / 16) == x % 4096
    ensures x % 256 + 256 * ((16 * other + x / 256 % 16) % 16) == x % 4096
  {
    var nibble := x / 256 % 16;
    LowTwelve(x);
    NibblePair(nibble, other);
    NibblePair(other, nibble);
  }

  /** Packing round trip: reading the bytes by the standard gives every field back, reduced to the
      width of its bit field; so exactly the sizes below 4096 and offsets below 64 come back unchanged. */
  lemma PackingRoundTrip(clock: nat, width: nat, height: nat, vBlank: nat, vOffset: nat)
    requires clock < 0x1_0000
    ensures Vesa(Descriptor(clock, width, height, vBlank, vOffset)) ==
      Timing(clock, width % 4096, H_BLANK, height % 4096, vBlank % 4096,
             H_FRONT, H_SYNC, vOffset % 64, V_SYNC, 0, 0, 0, 0, 0x1E)
  {
    hide Descriptor;
    SizeBytes(clock, width, height, vBlank, vOffset);
    SyncBytes(clock, width, height, vBlank, vOffset);
    SplitSize(width, 0);
    SplitSize(height, vBlank / 256 % 16);
    SplitSize(vBlank, height / 256 % 16);
    SplitOffset(vOffset, vOffset % 16, vOffset / 16 % 4);
    assert clock == clock % 256 + 256 * (clock / 256);
    assert 80 % 4096 == 80 && (16 * (width / 256 % 16)) % 16 == 0;
  }

  /** The vertical offset: four bits above the sync width, two in the shared high byte. */
  lemma SplitOffset(v: nat, low: nat, high: nat)
    requires low == v % 16 && high == v / 16 % 4
    ensures (16 * low + 8) / 16 + 16 * (4 * high / 4 % 4) == v % 64
    ensures (16 * low + 8) % 16 + 16 * (4 * high % 4) == 8
    ensures 4 * high / 64 == 0 && 4 * high / 16 % 4 == 0
  {
    NibblePair(low, 8);
    LowSix(v);
    SmallQuarter(high);
  }

  lemma LowSix(v: nat)
    ensures v % 64 == v % 16 + 16 * (v / 16 % 4)
  {
    var q := v / 16;
    assert v == 16 * q + v % 16 && q == 4 * (q / 4) + q % 4;
    LowOfSix(q / 4, 16 * (q % 4) + v % 16);
  }

  lemma LowOfSix(k: nat, r: nat)
    requires r < 64
    ensures (64 * k + r) % 64 == r
  {
  }

  lemma SmallQuarter(high: nat)
    requires high < 4
    ensures 4 * high / 4 % 4 == high && 4 * high % 4 == 0 && 4 * high / 64 == 0 && 4 * high / 16 % 4 == 0
  {
  }

  lemma UnchangedIffFits(clock: nat, width: nat, height: nat, vBlank: nat, vOffset: nat)
    requires clock < 0x1_0000
    ensures var t := Vesa(Descriptor(clock, width, height, vBlank, vOffset));
      && (t.hActive == width <==> width < 4096) && (t.vActive == height <==> height < 4096)
      && (t.vBlank == vBlank <==> vBlank < 4096) && (t.vOffset == vOffset <==> vOffset < 64)
  {
    hide Descriptor, Vesa;
    PackingRoundTrip(clock, width, height, vBlank, vOffset);
  }

  // ---------- the driver's decoder ----------

  datatype Mode = Mode(width: nat, height: nat, refreshRate: nat)

  function DecodedVBlank(b: seq<byte>): nat
    requires |b| == DESCRIPTOR_LEN
  {
    Or(b[6] as nat, Shl(And(b[7] as nat, 0x0F), 8))
  }

  function DecodedWidth(b: seq<byte>): nat
    requires |b| == DESCRIPTOR_LEN
  {
    Or(b[2] as nat, Shl(And(b[4] as nat, 0xF0), 4))
  }

  function DecodedHeight(b: seq<byte>): nat
    requires |b| == DESCRIPTOR_LEN
  {
    Or(b[5] as nat, Shl(And(b[7] as nat, 0xF0), 4))
  }

  function Total(width: nat, height: nat, vBlank: nat): nat {
    (width + H_BLANK) * (height + vBlank)
  }

  /** The refresh rate, in 32-bit arithmetic. */
  function DecodedRate(clock: nat, total: nat): nat
    requires U32(total) > 0
  {
    U32(clock * 10_000) / U32(total)
  }

  function Clock(b: seq<byte>): nat
    requires |b| == DESCRIPTOR_LEN
  {
    (b[0] as nat) + 256 * (b[1] as nat)
  }

  /** The preferred mode as `MdEvtParseMonitorDescription` computes it. */
  function Preferred(b: seq<byte>): Mode
    requires |b| == DESCRIPTOR_LEN && U32(Total(DecodedWidth(b), DecodedHeight(b), DecodedVBlank(b))) > 0
  {
    var w, h := DecodedWidth(b), DecodedHeight(b);
    Mode(w, h, DecodedRate(Clock(b), Total(w, h, DecodedVBlank(b))))
  }

  /** On any descriptor the driver's masks and shifts read the sizes the standard defines. */
  lemma DriverAgrees(b: seq<byte>)
    requires |b| == DESCRIPTOR_LEN
    ensures var t := Vesa(b);
      DecodedWidth(b) == t.hActive && DecodedHeight(b) == t.vActive && DecodedVBlank(b) == t.vBlank
    ensures var t := Vesa(b); t.hActive < 4096 && t.vActive < 4096 && t.vBlank < 4096 && t.clock < 0x1_0000
  {
    hide And, Or, Shl;
    NibbleAbove(b[2] as nat, b[4] as nat);
    NibbleAbove(b[5] as nat, b[7] as nat);
    NibbleAbove(b[6] as nat, b[7] as nat);
  }

  lemma NibbleMasks(x: nat)
    requires x < 256
    ensures Shl(And(x, 0xF0), 4) == 256 * (x / 16) && Shl(And(x, 0x0F), 8) == 256 * (x % 16)
  {
    hide And, Shl;
    MiddleMasks(x);
    LowMasks(x);
    assert x / 16 % 16 == x / 16;
    Four(And(x, 0xF0));
    Eight(And(x, 0x0F));
  }

  lemma NibbleAbove(low: nat, shared: nat)
    requires low < 256 && shared < 256
    ensures Or(low, Shl(And(shared, 0xF0), 4)) == low + 256 * (shared / 16)
    ensures Or(low, Shl(And(shared, 0x0F), 8)) == low + 256 * (shared % 16)
  {
    hide And, Or, Shl;
    NibbleMasks(shared);
    AboveByte(shared / 16, low);
    AboveByte(shared % 16, low);
  }

  lemma AboveByte(x: nat, low: nat)
    requires low < 256
    ensures Or(low, 256 * x) == low + 256 * x
  {
    hide Or;
    Unions(x, low);
    OrCommutes(low, 256 * x);
  }

  // ---------- what becomes of the refresh rate ----------

  /** The clock field cannot hold more than this. */
  const CLOCK_RANGE := 0x1_0000 * 10_000

  lemma TotalFits(width: nat, height: nat, vBlank: nat)
    requires width < 4096 && height < 4096 && vBlank < 4096 && 0 < height + vBlank
    ensures 0 < Total(width, height, vBlank) < 0x1_0000_0000
  {
    Scaled(width + H_BLANK, 4175, height + vBlank);
    Scaled(width + H_BLANK, 0, height + vBlank);
  }

  lemma QuotientIs(y: nat, d: nat, q: nat)
    requires d > 0
    ensures y / d == q <==> q * d <= y < q * d + d
  {
    Rounding(y, d);
    Scaled(y / d, q, d);
    Scaled(q, y / d, d);
  }

  /** Refresh-rate recovery, exactly: the driver gets the rate back if and only if the pixel rate is a
      multiple of 10 kHz that fits the clock field. */
  lemma HertzRecovered(width: nat, height: nat, vBlank: nat, hertz: nat)
    requires width < 4096 && height < 4096 && vBlank < 4096 && 0 < height + vBlank
    ensures var total := Total(width, height, vBlank);
      && 0 < U32(total) == total
      && (DecodedRate(PixelClock(width, height, vBlank, hertz), total) == hertz
          <==> total * hertz % 10_000 == 0 && total * hertz < CLOCK_RANGE)
  {
    hide PixelClock, Total;
    TotalFits(width, height, vBlank);
    var total := Total(width, height, vBlank);
    var clock := PixelClock(width, height, vBlank, hertz);
    QuotientIs(clock * 10_000, total, hertz);
    assert hertz * total == total * hertz;
    if total * hertz < CLOCK_RANGE {
      ClockWithinRange(width, height, vBlank, hertz);
      Rounding(total * hertz, 10_000);
    }
  }

  lemma Fits(x: nat)
    ensures x < 0x1_0000_0000 ==> U32(x) == x
    ensures x < 0x1_0000 ==> U16(x) == x
  {
  }

  /** No 16- or 32-bit wrap on the way to the clock field. */
  lemma ClockWithinRange(width: nat, height: nat, vBlank: nat, hertz: nat)
    requires Total(width, height, vBlank) * hertz < CLOCK_RANGE && Total(width, height, vBlank) < 0x1_0000_0000
    requires width < 4096 && height < 4096 && vBlank < 4096
    ensures PixelClock(width, height, vBlank, hertz) == Total(width, height, vBlank) * hertz / 10_000
  {
    hide U32, U16;
    var total := Total(width, height, vBlank);
    Fits(width + H_BLANK);
    Fits(height + vBlank);
    Fits(total);
    Fits(total * hertz);
    Rounding(total * hertz, 10_000);
    Fits(total * hertz / 10_000);
  }

  lemma ModProduct(a: nat, b: nat, m: nat)
    requires 0 < m
    ensures a % m * b % m == a * b % m
  {
    var q := a / m;
    assert a == m * q + a % m;
    assert a * b == m * (q * b) + a % m * b;
    ModShift(q * b, a % m * b, m);
  }

  lemma ModShift(k: nat, r: nat, m: nat)
    requires 0 < m
    ensures (m * k + r) % m == r % m
  {
    assert r == m * (r / m) + r % m;
    assert m * k + r == m * (k + r / m) + r % m;
    Remainder(k + r / m, r % m, m);
  }

  lemma Remainder(q: nat, r: nat, m: nat)
    requires r < m
    ensures (m * q + r) % m == r
  {
    assert m * q == q * m;
    QuotientIs(m * q + r, m, q);
  }

  /** The clock field for any mode: the wraps of the 32-bit products come to one, and the field keeps 16 bits. */
  lemma ClockMeans(width: nat, height: nat, vBlank: nat, hertz: nat)
    ensures PixelClock(width, height, vBlank, hertz) ==
            (width + 80) * (height + vBlank) * hertz % 0x1_0000_0000 / 10_000 % 0x1_0000
  {
    var a, b, m := width + 80, height + vBlank, 0x1_0000_0000;
    ModProduct(a, b % m, m);
    assert a * (b % m) == b % m * a && a * b == b * a;
    ModProduct(b, a, m);
    ModProduct(a * b, hertz, m);
  }

  lemma OneLess(hertz: int, total: int)
    ensures (hertz - 1) * total == hertz * total - total
  {
  }

  /** The quotient of a pixel rate that was rounded down to whole tens of kilohertz. */
  lemma RoundedQuotient(rate: nat, total: nat, hertz: nat)
    requires rate == hertz * total && 10_000 <= total
    ensures rate / 10_000 * 10_000 / total == if rate % 10_000 == 0 then hertz else hertz - 1
  {
    Rounding(rate, 10_000);
    var y := rate / 10_000 * 10_000;
    if rate % 10_000 == 0 {
      assert y == rate;
      QuotientIs(y, total, hertz);
    } else {
      OneLess(hertz, total);
      Scaled(hertz, 0, total);
      assert y < rate && 0 < hertz;
      QuotientIs(y, total, hertz - 1);
    }
  }

  /** Otherwise, while the clock field suffices and a frame has 10000 pixels, one hertz is lost. */
  lemma HertzLost(width: nat, height: nat, vBlank: nat, hertz: nat)
    requires width < 4096 && height < 4096 && vBlank < 4096 && 0 < height + vBlank
    requires 10_000 <= Total(width, height, vBlank) && Total(width, height, vBlank) * hertz < CLOCK_RANGE
    ensures var total := Total(width, height, vBlank);
      && 0 < U32(total) == total
      && DecodedRate(PixelClock(width, height, vBlank, hertz), total)
         == if total * hertz % 10_000 == 0 then hertz else hertz - 1
  {
    hide PixelClock, Total;
    TotalFits(width, height, vBlank);
    ClockWithinRange(width, height, vBlank, hertz);
    var total := Total(width, height, vBlank);
    Fits(total);
    Rounding(total * hertz, 10_000);
    Fits(total * hertz / 10_000 * 10_000);
    RoundedQuotient(total * hertz, total, hertz);
  }
}
