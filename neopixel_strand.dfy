/** The colour sweep of the NeoPixel strand project: a generator of
    colours that walks round the colour wheel by a fixed integer step, and
    the two ways the strand is painted with it. Components are whole
    numbers; the brightness scaling that happens on the way to the strand
    is not part of this model. */
module NeopixelStrand {
  import opened Arith

  datatype RGB = RGB(red: int, green: int, blue: int)

  /** The only direction the generator implements. */
  const RedToBlue: bool := true
  const Limit: int := if RedToBlue then 0 else 255
  const Direction: int := if RedToBlue then 1 else -1
  const Start: RGB := RGB(255, 0, 0)

  function Abs(x: int): int {
    if x < 0 then -x else x
  }

  /** The step the generator actually uses, `direction * abs(step_size)`,
      with the multiplication by the direction written as a sign. */
  function EffectiveStep(stepSize: int): (s: int)
    ensures s >= 0 && (s == stepSize || s == -stepSize)
  {
    if Direction == 1 then Abs(stepSize) else -Abs(stepSize)
  }

  /** `int(min(max(x, 0), 255))` */
  function Clamp(x: int): (y: int)
    ensures 0 <= y <= 255
    ensures 0 <= x <= 255 ==> y == x
    ensures x < 0 ==> y == 0
    ensures x > 255 ==> y == 255
  {
    if x < 0 then 0 else if x > 255 then 255 else x
  }

  /** `int(b)` for a boolean. */
  function Flag(b: bool): int {
    if b then 1 else 0
  }

  predicate InRange(c: RGB) {
    0 <= c.red <= 255 && 0 <= c.green <= 255 && 0 <= c.blue <= 255
  }

  /** Some component is at the limit, so one of the three transitions applies. */
  predicate HasLimit(c: RGB) {
    c.blue == Limit || c.red == Limit || c.green == Limit
  }

  /** One turn of the generator loop after a colour has been yielded. */
  function Step(c: RGB, step: int): RGB {
    var next :=
      if c.blue == Limit then RGB(c.red - step, c.green + step, Flag(c.red - step <= 0))
      else if c.red == Limit then RGB(Flag(c.green - step <= 0), c.green - step, c.blue + step)
      else if c.green == Limit then RGB(c.red + step, Flag(c.blue - step <= 0), c.blue - step)
      else c;
    RGB(Clamp(next.red), Clamp(next.green), Clamp(next.blue))
  }

  /** The `k`-th colour the generator yields. */
  function Rainbow(step: int, k: nat): RGB {
    if k == 0 then Start else Step(Rainbow(step, k - 1), step)
  }

  /** The first `count` colours, in order. */
  function Rainbows(step: int, count: nat): (cs: seq<RGB>)
    ensures |cs| == count
  {
    if count == 0 then [] else Rainbows(step, count - 1) + [Rainbow(step, count - 1)]
  }

  lemma {:induction false} RainbowsAreRainbow(step: int, count: nat)
    ensures var cs := Rainbows(step, count);
            |cs| == count && forall k :: 0 <= k < count ==> cs[k] == Rainbow(step, k)
  {
    if count > 0 {
      RainbowsAreRainbow(step, count - 1);
    }
  }

  lemma RainbowNext(step: int, k: nat)
    ensures Rainbow(step, k + 1) == Step(Rainbow(step, k), step)
  {
  }

  /** The three transitions, in priority order: the falling component loses
      the step, the rising one gains it, and the third is 1 exactly when
      the falling one has reached zero; every component is then clamped. */
  lemma StepTransitions(c: RGB, step: int)
    requires InRange(c) && step >= 0
    ensures var n := Step(c, step);
            InRange(n)
            && (c.blue == 0 ==>
                  n.red == Clamp(c.red - step) && n.green == Clamp(c.green + step)
                  && (n.blue == 1 <==> c.red - step <= 0) && (n.blue == 0 <==> c.red - step > 0))
            && (c.blue != 0 && c.red == 0 ==>
                  n.green == Clamp(c.green - step) && n.blue == Clamp(c.blue + step)
                  && (n.red == 1 <==> c.green - step <= 0) && (n.red == 0 <==> c.green - step > 0))
            && (c.blue != 0 && c.red != 0 && c.green == 0 ==>
                  n.blue == Clamp(c.blue - step) && n.red == Clamp(c.red + step)
                  && (n.green == 1 <==> c.blue - step <= 0) && (n.green == 0 <==> c.blue - step > 0))
            && (!HasLimit(c) ==> n == c)
  {
  }

  /** Whatever the step, a step from a colour with a zero component yields a
      colour with a zero component that is not black. */
  lemma StepKeepsShape(c: RGB, step: int)
    requires InRange(c) && HasLimit(c) && step >= 0
    ensures var n := Step(c, step);
            InRange(n) && HasLimit(n) && n != RGB(0, 0, 0)
  {
  }

  /** Every colour the generator yields is in range, has a zero component
      (so exactly one transition fires on the next turn), and is never black;
      the first one is pure red. */
  lemma {:induction false} RainbowInvariant(step: int, k: nat)
    requires step >= 0
    ensures var c := Rainbow(step, k);
            InRange(c) && HasLimit(c) && c != RGB(0, 0, 0)
    ensures k == 0 ==> Rainbow(step, k) == RGB(255, 0, 0)
  {
    if k > 0 {
      RainbowInvariant(step, k - 1);
      StepKeepsShape(Rainbow(step, k - 1), step);
    }
  }

  /** The body of the generator loop, updating the three components in place. */
  method Advance(red: int, green: int, blue: int, stepSize: int) returns (r: int, g: int, b: int)
    ensures RGB(r, g, b) == Step(RGB(red, green, blue), stepSize)
  {
    r, g, b := red, green, blue;
    if b == Limit {
      r := r - stepSize;
      g := g + stepSize;
      b := Flag(r <= 0);
    } else if r == Limit {
      g := g - stepSize;
      b := b + stepSize;
      r := Flag(g <= 0);
    } else if g == Limit {
      r := r + stepSize;
      b := b - stepSize;
      g := Flag(b <= 0);
    }
    r := Clamp(r);
    g := Clamp(g);
    b := Clamp(b);
  }

  /** `next(rainbow_colors)` on a generator that has yielded `k` colours
      and holds `red`, `green`, `blue`: the colour it yields and the state
      it moves on to. */
  method Next(red: int, green: int, blue: int, step: int, ghost k: nat) returns (color: RGB, r: int, g: int, b: int)
    requires RGB(red, green, blue) == Rainbow(step, k)
    ensures color == Rainbow(step, k) && RGB(r, g, b) == Rainbow(step, k + 1)
    ensures Rainbows(step, k + 1) == Rainbows(step, k) + [color]
  {
    color := RGB(red, green, blue);
    RainbowNext(step, k);
    r, g, b := Advance(red, green, blue, step);
  }

  /** The first `count` colours of `iter_rainbow_colors(step_size)`. */
  method IterRainbowColors(count: nat, stepSize: int := 20) returns (colors: seq<RGB>)
    ensures |colors| == count
    ensures forall k :: 0 <= k < count ==> colors[k] == Rainbow(EffectiveStep(stepSize), k)
  {
    var step := EffectiveStep(stepSize);
    var red, green, blue := 255, 0, 0;
    colors := [];
    while |colors| < count
      invariant |colors| <= count
      invariant RGB(red, green, blue) == Rainbow(step, |colors|)
      invariant colors == Rainbows(step, |colors|)
    {
      var color;
      color, red, green, blue := Next(red, green, blue, step, |colors|);
      colors := colors + [color];
    }
    RainbowsAreRainbow(step, count);
  }

  /** `apply_rainbow(pixels)` with an integer step: the pixels, in index
      order, receive the generator's colours in the order it yields them. */
  method ApplyRainbow(pixels: array<RGB>, stepSize: int)
    modifies pixels
    ensures pixels[..] == Rainbows(EffectiveStep(stepSize), pixels.Length)
  {
    var step := EffectiveStep(stepSize);
    var red, green, blue := 255, 0, 0;
    for i := 0 to pixels.Length
      invariant RGB(red, green, blue) == Rainbow(step, i)
      invariant pixels[..i] == Rainbows(step, i)
    {
      var color;
      color, red, green, blue := Next(red, green, blue, step, i);
      Put(pixels, i, color);
    }
    assert pixels[..] == pixels[..pixels.Length];
  }

  /** `pixels[i] = color` in `apply_rainbow`: the painted prefix grows by one. */
  method Put(pixels: array<RGB>, i: nat, color: RGB)
    requires i < pixels.Length
    modifies pixels
    ensures pixels[..i + 1] == old(pixels[..i]) + [color]
  {
    pixels[i] := color;
    assert pixels[..i + 1] == pixels[..i] + [pixels[i]];
  }

  /** The index `rainbow_loop` paints in frame `f` on a strand of `n`
      pixels: it starts at 0 and after each frame goes up by one, reduced
      modulo `n`. */
  function Index(f: nat, n: nat): (i: nat)
    requires 0 < n
    ensures i < n
  {
    if f == 0 then 0
    else if Index(f - 1, n) + 1 == n then 0 else Index(f - 1, n) + 1
  }

  /** The wrapping index is the frame number modulo the strand's length. */
  lemma {:induction false} IndexIsMod(f: nat, n: nat)
    requires 0 < n
    ensures Index(f, n) == f % n
  {
    if f > 0 {
      IndexIsMod(f - 1, n);
      NextMod(f - 1, n);
      IncMod(Index(f - 1, n), n);
    }
  }

  /** During the first sweep frame `f` paints pixel `f`. */
  lemma {:induction false} IndexInFirstSweep(f: nat, n: nat)
    requires f < n
    ensures Index(f, n) == f
  {
    if f > 0 {
      IndexInFirstSweep(f - 1, n);
    }
  }

  /** The last of the first `frames` frames of `rainbow_loop` that paints pixel `j`. */
  function LastFrame(frames: nat, n: nat, j: nat): (f: nat)
    requires 0 < n && j < n && j < frames
    ensures f < frames && Index(f, n) == j
  {
    if Index(frames - 1, n) == j then frames - 1
    else
      IndexInFirstSweep(j, n);
      LastFrame(frames - 1, n, j)
  }

  /** The strand after `rainbow_loop` has shown the colours `shown`, starting
      from `initial`: frame `f` paints pixel `Index(f, n)` with `shown[f]`. */
  function Loop(initial: seq<RGB>, shown: seq<RGB>): (s: seq<RGB>)
    requires |initial| > 0
    ensures |s| == |initial|
  {
    if shown == [] then initial
    else Loop(initial, shown[..|shown| - 1])[Index(|shown| - 1, |initial|) := shown[|shown| - 1]]
  }

  lemma LoopAppend(initial: seq<RGB>, shown: seq<RGB>, c: RGB)
    requires |initial| > 0
    ensures Loop(initial, shown + [c]) == Loop(initial, shown)[Index(|shown|, |initial|) := c]
  {
    assert (shown + [c])[..|shown|] == shown;
  }

  /** Each pixel shows the colour of the latest frame that painted it, or
      its initial colour when no frame has reached it yet. */
  lemma {:induction false} LoopShowsLatest(initial: seq<RGB>, shown: seq<RGB>, j: nat)
    requires |initial| > 0 && j < |initial|
    ensures Loop(initial, shown)[j] ==
              if j < |shown| then shown[LastFrame(|shown|, |initial|, j)] else initial[j]
  {
    if shown != [] {
      var m := |shown| - 1;
      LoopShowsLatest(initial, shown[..m], j);
      if m < |initial| {
        IndexInFirstSweep(m, |initial|);
      }
    }
  }

  /** The last frame that paints a pixel is less than one sweep back. */
  lemma {:induction false} LastFrameIsRecent(frames: nat, n: nat, j: nat)
    requires 0 < n && j < n && j < frames
    ensures frames <= LastFrame(frames, n, j) + n
  {
    if Index(frames - 1, n) != j {
      IndexInFirstSweep(j, n);
      LastFrameIsRecent(frames - 1, n, j);
      var f := LastFrame(frames - 1, n, j);
      if f + n == frames - 1 {
        IndexIsMod(f, n);
        IndexIsMod(f + n, n);
        ShiftMod(f, n);
      }
    }
  }

  /** `pixels[i] = color` in frame `|shown|` of `rainbow_loop`. */
  method Paint(pixels: array<RGB>, i: nat, color: RGB, ghost initial: seq<RGB>, ghost shown: seq<RGB>)
    requires |initial| == pixels.Length > 0 && i == Index(|shown|, pixels.Length)
    requires pixels[..] == Loop(initial, shown)
    modifies pixels
    ensures pixels[..] == Loop(initial, shown + [color])
  {
    LoopAppend(initial, shown, color);
    pixels[i] := color;
  }

  /** `i += 1; i %= len(pixels)` in `rainbow_loop`. */
  method NextIndex(i: nat, n: nat, ghost f: nat) returns (j: nat)
    requires 0 < n && i == Index(f, n)
    ensures j == Index(f + 1, n)
  {
    IncMod(i, n);
    j := i + 1;
    j := j % n;
  }

  /** The first `frames` frames of `rainbow_loop(pixels, step_size)`:
      each frame paints pixel `i` with the next colour, then `i` steps on
      modulo the strand's length. Returns the index the next frame would
      paint. */
  method RainbowLoop(pixels: array<RGB>, stepSize: int, frames: nat) returns (i: nat)
    requires pixels.Length > 0
    modifies pixels
    ensures i == frames % pixels.Length
    ensures pixels[..] == Loop(old(pixels[..]), Rainbows(EffectiveStep(stepSize), frames))
  {
    var step := EffectiveStep(stepSize);
    var red, green, blue := 255, 0, 0;
    i := 0;
    for f := 0 to frames
      invariant RGB(red, green, blue) == Rainbow(step, f)
      invariant i == Index(f, pixels.Length)
      invariant pixels[..] == Loop(old(pixels[..]), Rainbows(step, f))
    {
      var color;
      color, red, green, blue := Next(red, green, blue, step, f);
      Paint(pixels, i, color, old(pixels[..]), Rainbows(step, f));
      i := NextIndex(i, pixels.Length, f);
    }
    IndexIsMod(frames, pixels.Length);
  }

  /** After one full sweep `rainbow_loop` has painted the strand exactly as
      `apply_rainbow` does: pixel `j` shows the `j`-th colour shown. */
  lemma FirstSweepIsApplyRainbow(initial: seq<RGB>, shown: seq<RGB>)
    requires |shown| == |initial| > 0
    ensures Loop(initial, shown) == shown
  {
    forall j | 0 <= j < |shown|
      ensures Loop(initial, shown)[j] == shown[j]
    {
      LoopShowsLatest(initial, shown, j);
      LastFrameIsRecent(|shown|, |shown|, j);
      IndexInFirstSweep(LastFrame(|shown|, |shown|, j), |shown|);
    }
  }
}
