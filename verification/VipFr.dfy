/** The frame reader that scans one of two frame buffers out to the screen (vip_fr.c).

    Both frames live in one memory at the addresses the program passes in, so they may coincide: the
    program itself passes the same address twice (hello_ucosii.c:343-344). */
module VipFr {
  import opened Raster
  import opened Words
  import SgDma

  // Registers of the device.
  const GO: nat := 0
  const SELECT: nat := 3
  const FRAME0_BASE: nat := 4
  const FRAME1_BASE: nat := 11

  // The size of the frames as the device knows it: words, cycles, width, height and interlacing of either frame.
  ghost predicate Programmed(regs: map<nat, int>, width: nat, height: nat) {
    && {5, 6, 8, 9, 10, 12, 13, 15, 16, 17} <= regs.Keys
    && regs[5] == regs[6] == regs[12] == regs[13] == width * height
    && regs[8] == regs[15] == width && regs[9] == regs[16] == height && regs[10] == regs[17] == 0
  }

  /** Memory, device registers and driver state, as one value. */
  datatype Screen = Screen(mem: Bytes, regs: map<nat, int>, display: int, base0: nat, base1: nat, size: nat) {
    ghost predicate Valid() {
      && base0 + size <= |mem| && base1 + size <= |mem|
      && 0 <= display <= 1
      && {GO, SELECT, FRAME0_BASE, FRAME1_BASE} <= regs.Keys
      && regs[SELECT] == display && regs[FRAME0_BASE] == base0 && regs[FRAME1_BASE] == base1
    }

    // The address the driver draws at, and the address it takes to be on display.
    function DrawBase(): nat {
      if display == 0 then base1 else base0
    }

    function DisplayBase(): nat {
      if display == 0 then base0 else base1
    }

    function FrameAt(base: nat): Bytes {
      if base + size <= |mem| then mem[base..base + size] else []
    }

    /** What is on the screen, which the device takes from its own registers. */
    ghost function Scanned(): Bytes
      requires Valid()
    {
      FrameAt(if regs[SELECT] == 0 then regs[FRAME0_BASE] else regs[FRAME1_BASE])
    }

    ghost predicate Apart() {
      Separate(base0, base1, size)
    }
  }

  datatype Step =
    | Swap                            // VIPFR_ActiveDrawFrame
    | Reserve                         // VIPFR_ReserveBackground
    | Draw(offset: nat, value: bv8)   // any store into the frame VIPFR_GetDrawFrame returns

  function Next(s: Screen): int {
    (s.display + 1) % 2
  }

  ghost function Apply(s: Screen, step: Step): (s': Screen)
    requires s.Valid()
    ensures s'.Valid() && |s'.mem| == |s.mem| && s'.base0 == s.base0 && s'.base1 == s.base1 && s'.size == s.size
  {
    match step
    case Swap => s.(display := Next(s), regs := s.regs[SELECT := Next(s)])
    case Reserve => s.(mem := Put(s.mem, s.DrawBase(), s.FrameAt(s.DisplayBase())))
    case Draw(offset, value) => if offset < s.size then s.(mem := s.mem[s.DrawBase() + offset := value]) else s
  }

  lemma ScannedIs(s: Screen)
    requires s.Valid()
    ensures s.Scanned() == s.FrameAt(s.DisplayBase())
    ensures |s.FrameAt(s.DisplayBase())| == s.size && |s.FrameAt(s.DrawBase())| == s.size
  {
  }

  lemma FramesInMemory(s: Screen)
    requires s.Valid()
    ensures s.DrawBase() + s.size <= |s.mem| && s.DisplayBase() + s.size <= |s.mem|
    ensures {s.DrawBase(), s.DisplayBase()} == {s.base0, s.base1}
    ensures s.Apart() <==> Separate(s.DrawBase(), s.DisplayBase(), s.size)
  {
  }

  // What one step does to the two frames.
  lemma SwapEffect(s: Screen)
    requires s.Valid()
    ensures var s' := Apply(s, Swap); s'.mem == s.mem && s'.display == Next(s)
  {
  }

  lemma ReserveEffect(s: Screen)
    requires s.Valid()
    ensures var s' := Apply(s, Reserve);
            && s'.regs == s.regs && s'.display == s.display
            && s'.FrameAt(s.DrawBase()) == s.FrameAt(s.DisplayBase())
            && (s.Apart() ==> s'.FrameAt(s.DisplayBase()) == s.FrameAt(s.DisplayBase()))
  {
  }

  lemma DrawEffect(s: Screen, offset: nat, value: bv8)
    requires s.Valid()
    ensures var s' := Apply(s, Draw(offset, value));
            && s'.regs == s.regs && s'.display == s.display
            && s'.FrameAt(s.DrawBase()) == Stored(s.FrameAt(s.DrawBase()), offset, value)
            && (s.Apart() ==> s'.FrameAt(s.DisplayBase()) == s.FrameAt(s.DisplayBase()))
  {
  }

  lemma StepEffect(s: Screen, step: Step)
    requires s.Valid()
    ensures var s' := Apply(s, step);
            && s'.display == (if step == Swap then Next(s) else s.display)
            && (step != Swap ==> s'.regs == s.regs)
            && (step == Swap ==> s'.mem == s.mem)
            && (step != Swap && s.Apart() ==> s'.FrameAt(s.DisplayBase()) == s.FrameAt(s.DisplayBase()))
            && (step == Reserve ==> s'.FrameAt(s.DrawBase()) == s.FrameAt(s.DisplayBase()))
            && (step.Draw? ==> s'.FrameAt(s.DrawBase()) == Stored(s.FrameAt(s.DrawBase()), step.offset, step.value))
  {
    hide Apply, Screen.FrameAt, Screen.Valid;
    match step
    case Swap => SwapEffect(s);
    case Reserve => ReserveEffect(s);
    case Draw(offset, value) => DrawEffect(s, offset, value);
  }

  function Stored(frame: Bytes, offset: nat, value: bv8): (f: Bytes)
    ensures |f| == |frame|
  {
    if offset < |frame| then frame[offset := value] else frame
  }

  ghost function Run(s: Screen, steps: seq<Step>): (s': Screen)
    requires s.Valid()
    ensures s'.Valid() && |s'.mem| == |s.mem| && s'.base0 == s.base0 && s'.base1 == s.base1 && s'.size == s.size
  {
    if steps == [] then s else Apply(Run(s, steps[..|steps| - 1]), steps[|steps| - 1])
  }

  ghost function Swaps(steps: seq<Step>): nat {
    if steps == [] then 0 else Swaps(steps[..|steps| - 1]) + if steps[|steps| - 1] == Swap then 1 else 0
  }

  /** Over every run: what the device shows is the frame the driver takes to be on display, the frame drawn
      into is the other one, and which is which is the parity of the number of swaps. */
  lemma {:induction false} RunKeepsFramesStraight(s: Screen, steps: seq<Step>)
    requires s.Valid()
    ensures var s' := Run(s, steps);
            && s'.Scanned() == s'.FrameAt(s'.DisplayBase())
            && {s'.DrawBase(), s'.DisplayBase()} == {s.base0, s.base1}
            && s'.display == (s.display + Swaps(steps)) % 2
  {
    hide Apply, Run, Screen.FrameAt, Screen.Scanned, Screen.DrawBase, Screen.DisplayBase;
    ScannedIs(Run(s, steps));
    FramesInMemory(Run(s, steps));
    RunStep(s, steps);
    if steps == [] {
    } else {
      var before := Run(s, steps[..|steps| - 1]);
      RunKeepsFramesStraight(s, steps[..|steps| - 1]);
      StepEffect(before, steps[|steps| - 1]);
      Parity(s.display + Swaps(steps[..|steps| - 1]));
    }
  }

  lemma RunStep(s: Screen, steps: seq<Step>)
    requires s.Valid()
    ensures Run(s, []) == s
    ensures steps != [] ==> Run(s, steps) == Apply(Run(s, steps[..|steps| - 1]), steps[|steps| - 1])
  {
  }

  lemma Parity(n: int)
    ensures (n + 1) % 2 == (n % 2 + 1) % 2
  {
  }

  /** No run changes any register but the one that selects the frame. */
  lemma {:induction false} RunKeepsRegisters(s: Screen, steps: seq<Step>)
    requires s.Valid()
    ensures Run(s, steps).regs == s.regs[SELECT := Run(s, steps).display]
  {
    hide Apply;
    if steps == [] {
      SelectIsDisplay(s);
    } else {
      RunKeepsRegisters(s, steps[..|steps| - 1]);
      StepRegisters(Run(s, steps[..|steps| - 1]), steps[|steps| - 1]);
    }
  }

  lemma SelectIsDisplay(s: Screen)
    requires s.Valid()
    ensures s.regs[SELECT := s.display] == s.regs
  {
  }

  lemma StepRegisters(s: Screen, step: Step)
    requires s.Valid()
    ensures Apply(s, step).regs == s.regs[SELECT := Apply(s, step).display]
  {
    hide Screen.FrameAt;
    SelectIsDisplay(s);
  }

  /** With the frames apart, nothing but a swap changes the screen. */
  lemma {:induction false} ScreenChangesOnlyOnSwap(s: Screen, steps: seq<Step>)
    requires s.Valid() && s.Apart() && Swap !in steps
    ensures Run(s, steps).Scanned() == s.Scanned() && Run(s, steps).regs == s.regs && Run(s, steps).display == s.display
  {
    hide Apply, Screen.FrameAt, Screen.Scanned;
    ScannedIs(s);
    ScannedIs(Run(s, steps));
    if steps == [] {
    } else {
      ScreenChangesOnlyOnSwap(s, steps[..|steps| - 1]);
      ScannedIs(Run(s, steps[..|steps| - 1]));
      StepEffect(Run(s, steps[..|steps| - 1]), steps[|steps| - 1]);
    }
  }

  /** Drawing is invisible for certain exactly when the frames are apart (or empty). */
  lemma DrawsAreInvisibleIffApart(s: Screen)
    requires s.Valid()
    ensures (forall offset: nat, value: bv8 :: Apply(s, Draw(offset, value)).Scanned() == s.Scanned())
       <==> s.Apart() || s.size == 0
  {
    FramesInMemory(s);
    ScannedIs(s);
    hide Screen.Valid, Screen.Apart, Screen.DrawBase, Screen.DisplayBase, Screen.Scanned;
    if s.Apart() || s.size == 0 {
      forall offset: nat, value: bv8
        ensures Apply(s, Draw(offset, value)).Scanned() == s.Scanned()
      {
        DrawOnDisplay(s, offset, value);
      }
    } else {
      var low := if s.DrawBase() < s.DisplayBase() then s.DisplayBase() else s.DrawBase();
      var offset, seen := low - s.DrawBase(), low - s.DisplayBase();
      var value := s.Scanned()[seen] ^ 1;
      DrawOnDisplay(s, offset, value);
      assert Apply(s, Draw(offset, value)).Scanned()[seen] == value != s.Scanned()[seen];
    }
  }

  // What a draw does to the screen.
  lemma DrawOnDisplay(s: Screen, offset: nat, value: bv8)
    requires s.Valid()
    ensures var s' := Apply(s, Draw(offset, value));
            && (s.Apart() || s.size == 0 ==> s'.Scanned() == s.Scanned())
            && (offset < s.size ==>
                  s'.Scanned() == s.mem[s.DrawBase() + offset := value][s.DisplayBase()..s.DisplayBase() + s.size])
  {
    hide Screen.Scanned, Screen.Apart;
    var s' := Apply(s, Draw(offset, value));
    assert s'.DisplayBase() == s.DisplayBase();
    ScannedIs(s);
    ScannedIs(s');
    DrawEffect(s, offset, value);
  }

  // The draw frame after the draws of a run.
  ghost function Drawn(frame: Bytes, steps: seq<Step>): (f: Bytes)
    ensures |f| == |frame|
  {
    if steps == [] then frame
    else
      var f, last := Drawn(frame, steps[..|steps| - 1]), steps[|steps| - 1];
      if last.Draw? then Stored(f, last.offset, last.value) else f
  }

  /** Drawing a picture behind the scenes and swapping shows exactly that picture; reserving the background
      afterwards makes both frames show it, so that drawing goes on from it. */
  lemma {:induction false} DrawSwapReserve(s: Screen, steps: seq<Step>)
    requires s.Valid() && s.Apart() && Swap !in steps && Reserve !in steps
    ensures var picture, shown := Drawn(s.FrameAt(s.DrawBase()), steps), Apply(Run(s, steps), Swap);
            && shown.Scanned() == picture
            && Apply(shown, Reserve).Scanned() == picture
            && Apply(shown, Reserve).FrameAt(Apply(shown, Reserve).DrawBase()) == picture
  {
    hide Apply, Screen.Scanned, Run, Drawn;
    DrawFrameIs(s, steps);
    var drawn := Run(s, steps);
    var shown := Apply(drawn, Swap);
    StepEffect(drawn, Swap);
    StepEffect(shown, Reserve);
    ScannedIs(shown);
    ScannedIs(Apply(shown, Reserve));
  }

  lemma {:induction false} DrawFrameIs(s: Screen, steps: seq<Step>)
    requires s.Valid() && Swap !in steps && Reserve !in steps
    ensures Run(s, steps).display == s.display
    ensures Run(s, steps).FrameAt(s.DrawBase()) == Drawn(s.FrameAt(s.DrawBase()), steps)
  {
    if steps == [] {
    } else {
      DrawFrameIs(s, steps[..|steps| - 1]);
      StepEffect(Run(s, steps[..|steps| - 1]), steps[|steps| - 1]);
    }
  }

  // ----- drawing methods as runs

  // The stores that put a picture into the draw frame.
  ghost function Writes(picture: Bytes): (steps: seq<Step>)
    ensures |steps| == |picture| && Swap !in steps && Reserve !in steps
  {
    seq(|picture|, i requires 0 <= i < |picture| => Draw(i, picture[i]))
  }

  lemma {:induction false} WritesDraw(s: Screen, picture: Bytes, n: nat)
    requires s.Valid() && n <= |picture| == s.size
    ensures Run(s, Writes(picture)[..n]) == s.(mem := Put(s.mem, s.DrawBase(), picture[..n]))
  {
    if n == 0 {
      PutPut(s.mem, s.DrawBase(), [], []);
    } else {
      WritesDraw(s, picture, n - 1);
      WriteOne(s, picture, n);
      assert Writes(picture)[..n][..n - 1] == Writes(picture)[..n - 1];
    }
  }

  lemma WriteOne(s: Screen, picture: Bytes, n: nat)
    requires s.Valid() && 0 < n <= |picture| == s.size
    ensures var s' := s.(mem := Put(s.mem, s.DrawBase(), picture[..n - 1]));
            s'.Valid() && Apply(s', Draw(n - 1, picture[n - 1])) == s.(mem := Put(s.mem, s.DrawBase(), picture[..n]))
  {
    var a, m := s.DrawBase(), Put(s.mem, s.DrawBase(), picture[..n - 1]);
    PutPut(s.mem, a, picture[..n - 1], [picture[n - 1]]);
    assert picture[..n] == picture[..n - 1] + [picture[n - 1]];
    assert m[a + n - 1 := picture[n - 1]] == Put(m, a + n - 1, [picture[n - 1]]);
  }

  ghost predicate OnlyDrawFrame(s: Screen, m: Bytes) {
    |m| == |s.mem| && forall a: nat | a < |m| && !(s.DrawBase() <= a < s.DrawBase() + s.size) :: m[a] == s.mem[a]
  }

  /** Whatever changes nothing but the draw frame is a run of draws. */
  lemma DrawingIsARun(s: Screen, m: Bytes)
    requires s.Valid() && OnlyDrawFrame(s, m)
    ensures Run(s, Writes(s.(mem := m).FrameAt(s.DrawBase()))) == s.(mem := m)
  {
    hide Apply, Run, Put;
    var picture := s.(mem := m).FrameAt(s.DrawBase());
    WritesDraw(s, picture, s.size);
    assert Writes(picture)[..s.size] == Writes(picture);
    assert picture[..s.size] == picture;
    var drawn := Put(s.mem, s.DrawBase(), picture);
    forall a: nat | a < |m|
      ensures m[a] == drawn[a]
    {
      if s.DrawBase() <= a < s.DrawBase() + s.size {
        assert drawn[a] == drawn[s.DrawBase()..s.DrawBase() + s.size][a - s.DrawBase()];
      }
    }
  }

  /** With the frames apart the screen does not show it; a swap does, and reserving the background then puts it
      into both frames. */
  lemma DrawnBehind(s: Screen, m: Bytes)
    requires s.Valid() && OnlyDrawFrame(s, m) && s.Apart()
    ensures var drawn := s.(mem := m);
            && drawn.Valid()
            && drawn.Scanned() == s.Scanned()
            && var picture, shown := drawn.FrameAt(s.DrawBase()), Apply(drawn, Swap);
            && shown.Scanned() == picture
            && Apply(shown, Reserve).Scanned() == picture
            && Apply(shown, Reserve).FrameAt(s.DisplayBase()) == picture
  {
    hide Apply, Run, OnlyDrawFrame, Drawn, Writes, Screen.Scanned, Screen.Apart, Screen.FrameAt, Screen.Valid;
    var steps := Writes(s.(mem := m).FrameAt(s.DrawBase()));
    DrawingIsARun(s, m);
    ScreenChangesOnlyOnSwap(s, steps);
    DrawSwapReserve(s, steps);
    DrawFrameIs(s, steps);
    SwapTurns(Run(s, steps));
  }

  lemma SwapTurns(s: Screen)
    requires s.Valid()
    ensures Apply(Apply(s, Swap), Reserve).DrawBase() == s.DisplayBase()
  {
  }

  // ----- drawing on the displayed frame

  ghost predicate OnlyDisplayFrame(s: Screen, m: Bytes) {
    && |m| == |s.mem|
    && forall a: nat | a < |m| && !(s.DisplayBase() <= a < s.DisplayBase() + s.size) :: m[a] == s.mem[a]
  }

  /** The displayed frame was drawn on: the screen shows it at once, the draw frame is as before, and a swap takes it
      off the screen again unless the background was reserved first. */
  ghost predicate SeenAtOnce(s: Screen, s': Screen)
    requires s.Valid()
  {
    && s' == s.(mem := s'.mem)
    && s'.Valid()
    && s'.Scanned() == s'.FrameAt(s'.DisplayBase())
    && s'.FrameAt(s.DrawBase()) == s.FrameAt(s.DrawBase())
    && Apply(s', Swap).Scanned() == s.FrameAt(s.DrawBase())
    && Apply(Apply(s', Reserve), Swap).Scanned() == s'.Scanned()
  }

  lemma DrawnOnDisplay(s: Screen, m: Bytes)
    requires s.Valid() && OnlyDisplayFrame(s, m) && s.Apart()
    ensures SeenAtOnce(s, s.(mem := m))
  {
    var s' := s.(mem := m);
    assert s'.FrameAt(s.DrawBase()) == s.FrameAt(s.DrawBase());
    hide Screen.FrameAt, Screen.Scanned, Apply, OnlyDisplayFrame;
    ScannedIs(s');
    ReserveEffect(s');
    SwapShows(s');
    SwapShows(Apply(s', Reserve));
    ReserveKeepsBases(s');
  }

  lemma SwapShows(s: Screen)
    requires s.Valid()
    ensures Apply(s, Swap).Scanned() == s.FrameAt(s.DrawBase())
  {
  }

  lemma ReserveKeepsBases(s: Screen)
    requires s.Valid()
    ensures Apply(s, Reserve).DrawBase() == s.DrawBase()
  {
  }

  // The byte `memset` fills with.
  function LowByte(color: bv32): (b: bv8)
    ensures b as bv32 == color & 0xff
  {
    (color & 0xff) as bv8
  }

  function Filled(value: bv8, n: nat): Bytes {
    seq(n, _ => value)
  }

  class FrameReader {
    const sdram: array<bv8>
    var regs: map<nat, int>
    var frame0Base: nat
    var frame1Base: nat
    var displayFrame: int
    var colorDepth: int
    var width: nat
    var height: nat
    var bytesPerPixel: nat
    var interlace: int

    ghost function State(): Screen
      reads this, sdram
    {
      Screen(sdram[..], regs, displayFrame, frame0Base, frame1Base, width * height * bytesPerPixel)
    }

    ghost predicate Valid()
      reads this, sdram
    {
      State().Valid()
    }

    constructor Init(sdram: array<bv8>, frame0Base: nat, frame1Base: nat, frameWidth: nat, frameHeight: nat)
      requires frame0Base + frameWidth * frameHeight * 4 <= sdram.Length
      requires frame1Base + frameWidth * frameHeight * 4 <= sdram.Length
      ensures this.sdram == sdram && Valid()
      ensures width == frameWidth && height == frameHeight && bytesPerPixel == 4 && colorDepth == 32
      ensures State().display == 0 && State().base0 == frame0Base && State().base1 == frame1Base
      ensures Programmed(regs, frameWidth, frameHeight)
      ensures {0, 3, 4, 11} <= regs.Keys && regs[0] == 1 && regs[3] == 0
      ensures regs[4] == frame0Base && regs[11] == frame1Base
    {
      this.sdram := sdram;
      this.frame0Base, this.frame1Base := frame0Base, frame1Base;
      displayFrame, bytesPerPixel, colorDepth, interlace := 0, 4, 32, 0;
      width, height := frameWidth, frameHeight;
      var words := frameWidth * frameHeight;
      regs := map[GO := 0,
                  FRAME0_BASE := frame0Base, 5 := words, 6 := words, 8 := frameWidth, 9 := frameHeight, 10 := 0,
                  FRAME1_BASE := frame1Base, 12 := words, 13 := words, 15 := frameWidth, 16 := frameHeight, 17 := 0]
              [SELECT := 0][GO := 1];
    }

    function GetDrawFrame(): nat
      reads this
    {
      if displayFrame == 0 then frame1Base else frame0Base
    }

    method ActiveDrawFrame()
      requires Valid()
      modifies this`displayFrame, this`regs
      ensures Valid() && State() == Apply(old(State()), Swap)
      ensures displayFrame == 1 - old(displayFrame) && regs == old(regs)[3 := displayFrame]
    {
      displayFrame := (displayFrame + 1) % 2;
      regs := regs[SELECT := displayFrame];
    }

    /** Copies the displayed frame over the draw frame, by the processor or by the DMA engine. */
    method ReserveBackground(enableDma: bool, deviceFound: bool)
      requires Valid() && SgDma.NoOverlap(frame0Base, frame1Base, width * height * bytesPerPixel)
      requires enableDma ==> width * height * bytesPerPixel > 0
      modifies sdram
      ensures Valid()
      ensures State() == if enableDma && !deviceFound then old(State()) else Apply(old(State()), Reserve)
    {
      hide Put;
      ghost var was := State();
      var nSize := width * height * bytesPerPixel;
      var pSrc, pDes := frame0Base, frame1Base;
      if displayFrame != 0 {
        pSrc, pDes := pDes, pSrc;
      }
      assert sdram[pSrc..pSrc + nSize] == was.FrameAt(was.DisplayBase());
      if enableDma {
        var _ := SgDma.MyMemcpy(sdram, pDes, pSrc, nSize, deviceFound);
      } else {
        Memcpy(sdram, pDes, sdram, pSrc, nSize);
      }
    }

    /** `memset` of the draw frame: only the low byte of the colour reaches memory. */
    method EraseScreen(color: bv32)
      requires Valid()
      modifies sdram
      ensures var size := width * height * bytesPerPixel;
              Valid() && sdram[..] == Put(old(sdram[..]), GetDrawFrame(), Filled(LowByte(color), size))
      ensures old(State().Apart()) ==> State().Scanned() == old(State().Scanned())
    {
      var base, size, value := GetDrawFrame(), width * height * bytesPerPixel, LowByte(color);
      ghost var was, fill, before := sdram[..], Filled(value, size), State();
      for i := 0 to size
        invariant sdram[base..base + i] == fill[..i]
        invariant forall k | 0 <= k < sdram.Length && !(base <= k < base + i) :: sdram[k] == was[k]
      {
        sdram[base + i] := value;
      }
      assert sdram[..] == Put(was, base, fill);
      if before.Apart() {
        DrawnBehind(before, sdram[..]);
      }
    }
  }

  /** Erasing fills every byte of the frame with the low byte of the colour. */
  lemma ErasedByte(m: Bytes, base: nat, size: nat, color: bv32, a: nat)
    requires base + size <= |m| && base <= a < base + size
    ensures Put(m, base, Filled(LowByte(color), size))[a] as bv32 == color & 0xff
  {
    var f := Filled(LowByte(color), size);
    assert Put(m, base, f)[a] == Put(m, base, f)[base..base + size][a - base];
  }

  /** Erasing gives every 32-bit pixel the colour asked for exactly when the colour's four bytes are equal. */
  lemma ErasedColour(color: bv32)
    ensures Word32(Filled(LowByte(color), 4)) == color
       <==> (color >> 8) & 0xff == color & 0xff && (color >> 16) & 0xff == color & 0xff && color >> 24 == color & 0xff
  {
  }
}
