/** The EDID block: the preferred timing written in place, the checksum, and the modes that the driver
    reports for the block. */
module EdidBlock {
  import opened Wire
  import opened EdidTiming

  const EDID_LEN := 128
  const TIMING_AT := 54

  function Sum(s: seq<byte>): nat {
    if s == [] then 0 else Sum(s[..|s| - 1]) + s[|s| - 1] as nat
  }

  /** It is the sum of the bytes: of one byte the byte, and of two parts the sum of both. */
  lemma {:induction false} SumAdds(a: seq<byte>, b: seq<byte>)
    ensures Sum(a + b) == Sum(a) + Sum(b) && (|a| == 1 ==> Sum(a) == a[0] as nat)
  {
    if b == [] {
      assert a + b == a;
    } else {
      assert (a + b)[..|a + b| - 1] == a + b[..|b| - 1];
      SumAdds(a, b[..|b| - 1]);
    }
  }

  /** Section 3.11 of the VESA E-EDID Standard Release A Rev. 2: the bytes add up to 0 modulo 256. */
  predicate ChecksumOk(s: seq<byte>) {
    |s| == EDID_LEN && Sum(s) % 256 == 0
  }

  /** The first data block. */
  function PreferredTiming(block: seq<byte>): (b: seq<byte>)
    requires |block| == EDID_LEN
    ensures |b| == DESCRIPTOR_LEN
  {
    block[TIMING_AT..TIMING_AT + DESCRIPTOR_LEN]
  }

  /** The block with the timing of a mode in the first data block. */
  function WithMode(block: seq<byte>, width: nat, height: nat, hertz: nat): (b: seq<byte>)
    requires |block| == EDID_LEN && Rate(hertz)
    ensures |b| == EDID_LEN
  {
    var v := VBlank(height, hertz);
    block[..TIMING_AT] + Descriptor(PixelClock(width, height, v, hertz), width, height, v, v - V_BACK - V_SYNC)
    + block[TIMING_AT + DESCRIPTOR_LEN..]
  }

  /** What the standard reads from that block: the mode, each field reduced to its width, and everything
      else as before. */
  lemma WrittenModeReads(block: seq<byte>, width: nat, height: nat, hertz: nat)
    requires |block| == EDID_LEN && Rate(hertz)
    ensures var v := VBlank(height, hertz);
      Vesa(WithMode(block, width, height, hertz)[54..72]) ==
      Timing(PixelClock(width, height, v, hertz), width % 4096, 80, height % 4096, v % 4096,
             8, 32, (v - 14) % 64, 8, 0, 0, 0, 0, 0x1E)
    ensures forall k | 0 <= k < 54 || 72 <= k < 128 :: WithMode(block, width, height, hertz)[k] == block[k]
  {
    hide Descriptor, Vesa, PixelClock, VBlank;
    var v := VBlank(height, hertz);
    assert v >= 15 by { VBlankIsLeast(height, hertz); }
    var clock := PixelClock(width, height, v, hertz);
    PackingRoundTrip(clock, width, height, v, v - V_BACK - V_SYNC);
    assert WithMode(block, width, height, hertz)[54..72] == Descriptor(clock, width, height, v, v - V_BACK - V_SYNC);
  }

  class Edid {
    const raw: array<byte>

    ghost predicate Valid()
      reads this
    {
      raw.Length == EDID_LEN
    }

    constructor (block: seq<byte>)
      requires |block| == EDID_LEN
      ensures Valid() && fresh(raw) && raw[..] == block
    {
      raw := new byte[EDID_LEN](i requires 0 <= i < |block| => block[i]);
      new;
      assert raw[..] == block;
    }

    /** Overwrites the first data block with the timing of the device's screen; nothing else changes. */
    method SetDefaultMode(width: nat, height: nat, hertz: nat)
      requires Valid() && Rate(hertz)
      modifies raw
      ensures raw[..] == WithMode(old(raw[..]), width, height, hertz)
    {
      hide Descriptor, PixelClock, CeilDiv, ActiveTime;
      var vbiLines := CeilDiv(BLANK_PER_HERTZ * height * hertz, ActiveTime(hertz));
      var rbMinVbi := 1 + V_SYNC + V_BACK;
      var vBlank := if vbiLines < rbMinVbi then rbMinVbi else vbiLines;
      var vOffset := vBlank - V_BACK - V_SYNC;
      AssignTiming(Descriptor(PixelClock(width, height, vBlank, hertz), width, height, vBlank, vOffset));
    }

    /** The assignment of the whole structure. */
    method AssignTiming(timing: seq<byte>)
      requires Valid() && |timing| == DESCRIPTOR_LEN
      modifies raw
      ensures raw[..] == old(raw[..TIMING_AT]) + timing + old(raw[TIMING_AT + DESCRIPTOR_LEN..])
    {
      forall k | 0 <= k < DESCRIPTOR_LEN {
        raw[TIMING_AT + k] := timing[k];
      }
    }

    /** Sets the last byte so that the block adds up; the other bytes stay, and the old checksum
        plays no part. */
    method Commit()
      requires Valid()
      modifies raw
      ensures raw[..EDID_LEN - 1] == old(raw[..EDID_LEN - 1])
      ensures ChecksumOk(raw[..]) && Sum(raw[..]) % 256 == 0
    {
      var sum: nat := 0;
      for i := 0 to EDID_LEN - 1
        invariant sum == Sum(raw[..i]) <= 255 * i
      {
        assert raw[..i + 1][..i] == raw[..i];
        sum := sum + raw[i] as nat;
      }
      var round := (sum + 0x100) / 0x100 * 0x100;
      raw[EDID_LEN - 1] := ((round - sum) % 256) as byte;
      assert raw[..][..EDID_LEN - 1] == old(raw[..EDID_LEN - 1]);
    }

    /** The block that `adapterConnectMonitor` gives to the kernel: the shipped one with the device's mode. */
    method Prepare(width: nat, height: nat, hertz: nat)
      requires Valid() && Rate(hertz)
      modifies raw
      ensures ChecksumOk(raw[..]) && Sum(raw[..]) % 256 == 0
      ensures raw[..127] == WithMode(old(raw[..]), width, height, hertz)[..127]
    {
      hide WithMode, ChecksumOk;
      SetDefaultMode(width, height, hertz);
      Commit();
    }
  }

  /** The checksum is determined by the other 127 bytes, so committing twice is committing once. */
  lemma ChecksumIsUnique(a: seq<byte>, b: seq<byte>)
    requires ChecksumOk(a) && ChecksumOk(b) && a[..EDID_LEN - 1] == b[..EDID_LEN - 1]
    ensures a == b
  {
    assert a[EDID_LEN - 1] == b[EDID_LEN - 1];
    assert a == a[..EDID_LEN - 1] + [a[EDID_LEN - 1]];
    assert b == b[..EDID_LEN - 1] + [b[EDID_LEN - 1]];
  }

  lemma {:induction false} SumUpdate(s: seq<byte>, i: nat, x: byte)
    requires i < |s|
    ensures Sum(s[i := x]) == Sum(s) - s[i] as nat + x as nat
  {
    var t, last := s[i := x], |s| - 1;
    if i == last {
      assert t[..last] == s[..last];
    } else {
      SumUpdate(s[..last], i, x);
      assert t[..last] == s[..last][i := x];
    }
  }

  /** Changing any one byte of a valid block breaks the sum. */
  lemma SingleByteBreaksSum(s: seq<byte>, i: nat, x: byte)
    requires ChecksumOk(s) && i < |s| && x != s[i]
    ensures !ChecksumOk(s[i := x])
  {
    SumUpdate(s, i, x);
    var d := x as int - s[i] as int;
    assert Sum(s[i := x]) == Sum(s) + d && -256 < d < 256 && d != 0;
  }

  /** From end to end, for every mode: the driver reads the sizes back from a block into which the mode was
      written, reduced to their 12 bits; it finds no lines at all, and would divide by zero, exactly if the
      lines and the blanking are both multiples of 4096; and if sizes and blanking fit their fields it reads the
      rate back exactly when the pixel rate is a multiple of 10 kHz within the clock's range. */
  lemma DriverReadsWrittenMode(block: seq<byte>, width: nat, height: nat, hertz: nat)
    requires |block| == EDID_LEN && Rate(hertz)
    ensures var b := PreferredTiming(WithMode(block, width, height, hertz));
            var v := VBlank(height, hertz);
      && DecodedWidth(b) == width % 4096 && DecodedHeight(b) == height % 4096 && DecodedVBlank(b) == v % 4096
      && (HasLines(b) <==> !(height % 4096 == 0 && v % 4096 == 0))
      && (width < 4096 && height < 4096 && v < 4096 ==>
            && HasLines(b) && Preferred(b).width == width && Preferred(b).height == height
            && (Preferred(b).refreshRate == hertz <==>
                  Total(width, height, v) * hertz % 10_000 == 0 && Total(width, height, v) * hertz < CLOCK_RANGE))
  {
    hide WithMode, Vesa, VBlank, PixelClock, Total, DecodedWidth, DecodedHeight, DecodedVBlank, DecodedRate, Clock;
    var b, v := PreferredTiming(WithMode(block, width, height, hertz)), VBlank(height, hertz);
    WrittenModeReads(block, width, height, hertz);
    DriverAgrees(b);
    ClockField(b);
    LinesDecide(width % 4096, height % 4096, v % 4096);
    if width < 4096 && height < 4096 && v < 4096 {
      VBlankIsLeast(height, hertz);
      FitsWhole(width, height, v);
      HertzRecovered(width, height, v, hertz);
    }
  }

  /** The total by which the driver divides is not 0. */
  predicate HasLines(b: seq<byte>)
    requires |b| == DESCRIPTOR_LEN
  {
    U32(Total(DecodedWidth(b), DecodedHeight(b), DecodedVBlank(b))) > 0
  }

  lemma FitsWhole(width: nat, height: nat, vBlank: nat)
    ensures width < 4096 ==> width % 4096 == width
    ensures height < 4096 ==> height % 4096 == height
    ensures vBlank < 4096 ==> vBlank % 4096 == vBlank
  {
  }

  lemma LinesDecide(width: nat, height: nat, vBlank: nat)
    requires width < 4096 && height < 4096 && vBlank < 4096
    ensures U32(Total(width, height, vBlank)) > 0 <==> 0 < height + vBlank
  {
    if 0 < height + vBlank {
      hide Total;
      TotalFits(width, height, vBlank);
      Fits(Total(width, height, vBlank));
    }
  }

  /** Such modes exist: 155648 lines at 159 Hz have 12288 lines of blanking. */
  lemma ModeWithoutLines(block: seq<byte>, width: nat)
    requires |block| == EDID_LEN
    ensures !HasLines(PreferredTiming(WithMode(block, width, 155648, 159)))
  {
    hide *;
    ManyBlankLines();
    DriverReadsWrittenMode(block, width, 155648, 159);
  }

  lemma ManyBlankLines()
    ensures Rate(159) && VBlank(155648, 159) == 12288
  {
  }

  lemma ClockField(b: seq<byte>)
    requires |b| == DESCRIPTOR_LEN
    ensures Clock(b) == Vesa(b).clock
  {
  }

  /** The block that the server ships announces 60 Hz for its own 2400x1500 mode; the driver reads 59. */
  lemma ShippedModeLosesOneHertz()
    ensures var total := Total(2400, 1500, 67);
      U32(total) > 0 && DecodedRate(PixelClock(2400, 1500, 67, 60), total) == 59
  {
    assert Total(2400, 1500, 67) == 3_886_160;
    HertzLost(2400, 1500, 67, 60);
  }

  // ---------- the driver's list of modes ----------

  datatype Size = Size(cx: nat, cy: nat)

  datatype Ratio = Ratio(numerator: nat, denominator: nat)

  datatype SignalInfo = SignalInfo(
    pixelRate: uint32, hSyncFreq: Ratio, vSyncFreq: Ratio, activeSize: Size, totalSize: Size, divider: nat)

  function MakeSignalInfo(mode: Mode, divider: nat): SignalInfo {
    SignalInfo(
      U32(U32(mode.width * mode.height) * mode.refreshRate), Ratio(U32(mode.refreshRate * mode.height), 1),
      Ratio(mode.refreshRate, 1), Size(mode.width, mode.height), Size(mode.width, mode.height), divider)
  }

  /** What a signal says, field by field: no blanking, so the rates are those of the visible pixels and lines,
      exact while they fit 32 bits. */
  ghost predicate Says(info: SignalInfo, width: nat, height: nat, hertz: nat) {
    && info.activeSize.cx == width && info.activeSize.cy == height && info.totalSize == info.activeSize
    && info.vSyncFreq.numerator == hertz && info.vSyncFreq.denominator == 1
    && info.hSyncFreq.numerator == height * hertz % 0x1_0000_0000 && info.hSyncFreq.denominator == 1
    && info.pixelRate == width * height * hertz % 0x1_0000_0000
    && info.divider == 0
  }

  lemma SignalSays(mode: Mode)
    ensures Says(MakeSignalInfo(mode, 0), mode.width, mode.height, mode.refreshRate)
  {
    ModProduct(mode.width * mode.height, mode.refreshRate, 0x1_0000_0000);
    assert mode.refreshRate * mode.height == mode.height * mode.refreshRate;
  }

  /** The mode that the descriptor announces by the standard, at the rate that the driver computes. */
  ghost predicate SaysPreferred(info: SignalInfo, b: seq<byte>)
    requires |b| == DESCRIPTOR_LEN
  {
    var t := Vesa(b);
    var total := (t.hActive + 80) * (t.vActive + t.vBlank);
    0 < total < 0x1_0000_0000 && Says(info, t.hActive, t.vActive, WholeRate(t.clock, total))
  }

  /** The pixel rate modulo 2^32, over the pixels of a frame. */
  ghost function WholeRate(clock: nat, total: nat): nat
    requires 0 < total
  {
    clock * 10_000 % 0x1_0000_0000 / total
  }

  lemma PreferredSays(b: seq<byte>)
    requires |b| == DESCRIPTOR_LEN && HasLines(b)
    ensures SaysPreferred(MakeSignalInfo(Preferred(b), 0), b)
  {
    DriverAgrees(b);
    ClockField(b);
    var t := Vesa(b);
    hide Vesa, DecodedWidth, DecodedHeight, DecodedVBlank, Clock, MakeSignalInfo, Says;
    LinesDecide(t.hActive, t.vActive, t.vBlank);
    TotalFits(t.hActive, t.vActive, t.vBlank);
    Fits(Total(t.hActive, t.vActive, t.vBlank));
    SignalSays(Preferred(b));
  }

  /** From the device to the list of modes: a mode that fits the descriptor is announced by its own sizes, and
      by its own rate exactly if its pixel rate is a multiple of 10 kHz within the clock's range. */
  lemma WrittenModeIsListed(block: seq<byte>, width: nat, height: nat, hertz: nat, info: SignalInfo)
    requires |block| == EDID_LEN && Rate(hertz) && width < 4096 && height < 4096 && VBlank(height, hertz) < 4096
    requires SaysPreferred(info, WithMode(block, width, height, hertz)[54..72])
    ensures info.activeSize.cx == width && info.activeSize.cy == height
    ensures var rate := Total(width, height, VBlank(height, hertz)) * hertz;
      info.vSyncFreq.numerator == hertz <==> rate % 10_000 == 0 && rate < 655_360_000
  {
    var b := PreferredTiming(WithMode(block, width, height, hertz));
    assert b == WithMode(block, width, height, hertz)[54..72];
    hide *;
    VBlankIsLeast(height, hertz);
    DriverReadsWrittenMode(block, width, height, hertz);
    PreferredSays(b);
    SameSignal(info, MakeSignalInfo(Preferred(b), 0), b);
    SignalFields(Preferred(b));
  }

  lemma SignalFields(mode: Mode)
    ensures var info := MakeSignalInfo(mode, 0);
      info.activeSize == Size(mode.width, mode.height) && info.vSyncFreq.numerator == mode.refreshRate
  {
  }

  lemma SameSignal(a: SignalInfo, c: SignalInfo, b: seq<byte>)
    requires |b| == DESCRIPTOR_LEN && SaysPreferred(a, b) && SaysPreferred(c, b)
    ensures a.activeSize == c.activeSize && a.vSyncFreq == c.vSyncFreq
  {
    hide Vesa;
  }

  const CUSTOM_EDID_MODES: seq<Mode> := [
    Mode(0, 0, 0), Mode(1920, 1080, 60), Mode(640, 480, 60), Mode(800, 600, 60), Mode(1024, 768, 60)]

  lemma FixedModesSay()
    ensures |CUSTOM_EDID_MODES| == 5
    ensures Says(MakeSignalInfo(CUSTOM_EDID_MODES[1], 0), 1920, 1080, 60)
    ensures Says(MakeSignalInfo(CUSTOM_EDID_MODES[2], 0), 640, 480, 60)
    ensures Says(MakeSignalInfo(CUSTOM_EDID_MODES[3], 0), 800, 600, 60)
    ensures Says(MakeSignalInfo(CUSTOM_EDID_MODES[4], 0), 1024, 768, 60)
  {
    hide MakeSignalInfo, Says;
    SignalSays(CUSTOM_EDID_MODES[1]);
    SignalSays(CUSTOM_EDID_MODES[2]);
    SignalSays(CUSTOM_EDID_MODES[3]);
    SignalSays(CUSTOM_EDID_MODES[4]);
  }

  datatype Status = Success | BufferTooSmall | DividesByZero

  /** `MdEvtParseMonitorDescription`: reports how many modes there are when the buffer is too small,
      and otherwise fills it, the preferred mode first. The count is reported only in the first case. On a
      descriptor without lines the driver divides by zero. */
  method ParseMonitorDescription(block: seq<byte>, modes: array<SignalInfo>)
    returns (status: Status, reported: int)
    requires |block| == EDID_LEN
    modifies modes
    ensures modes.Length < 5 ==>
      && modes[..] == old(modes[..]) && reported == 5
      && status == if modes.Length > 0 then BufferTooSmall else Success
    ensures modes.Length >= 5 ==> reported == -1 && (status == DividesByZero <==> !HasLines(PreferredTiming(block)))
    ensures status == DividesByZero ==> modes[..] == old(modes[..])
    ensures modes.Length >= 5 && status != DividesByZero ==>
      && status == Success
      && SaysPreferred(modes[0], block[54..72])
      && Says(modes[1], 1920, 1080, 60) && Says(modes[2], 640, 480, 60)
      && Says(modes[3], 800, 600, 60) && Says(modes[4], 1024, 768, 60)
      && modes[5..] == old(modes[5..])
  {
    var modesCount := |CUSTOM_EDID_MODES|;
    if modes.Length < modesCount {
      return if modes.Length > 0 then BufferTooSmall else Success, modesCount;
    }
    if !HasLines(PreferredTiming(block)) {
      return DividesByZero, -1;
    }
    var preferred := Preferred(PreferredTiming(block));
    PreferredSays(PreferredTiming(block));
    hide Preferred, PreferredTiming, MakeSignalInfo, Total, Says, SaysPreferred;
    for i := 0 to modesCount
      invariant i > 0 ==> modes[0] == MakeSignalInfo(preferred, 0)
      invariant forall k | 1 <= k < i :: modes[k] == MakeSignalInfo(CUSTOM_EDID_MODES[k], 0)
      invariant modes[5..] == old(modes[5..])
    {
      var mode := if i == 0 then preferred else CUSTOM_EDID_MODES[i];
      modes[i] := MakeSignalInfo(mode, 0);
    }
    FixedModesSay();
    return Success, -1;
  }
}
