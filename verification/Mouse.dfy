/** Mouse movement: the shared throttle (ya_mouse_throttle.c), sub-pixel quantisation
    (ya_mouse_filter.c:97-177) and the handlers above them (ya_server_handler.c:248-447). Fractions of a
    pixel are exact numbers here. */
module Mouse {

  datatype Vec = Vec(x: int, y: int) {
    function Plus(v: Vec): Vec { Vec(x + v.x, y + v.y) }
    predicate IsZero() { x == 0 && y == 0 }
    /** The speed estimate: Manhattan distance. */
    function Distance(): nat { Abs(x) + Abs(y) }
  }

  function Abs(i: int): nat { if i < 0 then -i else i }

  const ZERO := Vec(0, 0)

  // Nanoseconds of CLOCK_MONOTONIC.
  const LOW_SPEED_INTERVAL: nat := 4_000_000
  const HIGH_SPEED_INTERVAL: nat := 8_000_000
  const LOW_SPEED_THRESHOLD: nat := 3

  /** How long an emission of these pixels waits: four milliseconds, or eight if they are three or more. */
  predicate Waited(elapsed: int, v: Vec) {
    elapsed >= 4_000_000 && (Abs(v.x) + Abs(v.y) >= 3 ==> elapsed >= 8_000_000)
  }

  /** The comparison in the code. */
  lemma ThresholdWaits(elapsed: int, v: Vec)
    ensures Waited(elapsed, v) <==>
            elapsed >= if v.Distance() < LOW_SPEED_THRESHOLD then LOW_SPEED_INTERVAL else HIGH_SPEED_INTERVAL
  {
  }

  /** The one throttle that all clients share. */
  class Throttle {
    var lastEmit: int
    var hasLastEmit: bool
    var accum: Vec
    ghost var collected: Vec  // everything that came in
    ghost var emitted: Vec    // everything that went out

    /** What came in has gone out or is pending. */
    ghost predicate Conserves()
      reads this
    {
      collected == emitted.Plus(accum)
    }

    /** Enough time has passed for what is pending and d, or there is nothing to wait for. */
    ghost predicate Due(d: Vec, force: bool, now: int)
      reads this
    {
      force || !hasLastEmit || Waited(now - lastEmit, accum.Plus(d))
    }

    constructor ()
      ensures Conserves() && !hasLastEmit && accum == ZERO && collected == ZERO && emitted == ZERO
    {
      lastEmit, hasLastEmit, accum, collected, emitted := 0, false, ZERO, ZERO, ZERO;
    }

    /** ya_mouse_throttle_collect. Nothing is held back for longer than it has to wait. */
    method Collect(d: Vec, force: bool, now: int) returns (emit: bool, out: Vec)
      requires Conserves()
      modifies this
      ensures Conserves() && collected == old(collected).Plus(d)
      ensures emitted == if emit then old(emitted).Plus(out) else old(emitted)
      ensures emit <==> old(Due(d, force, now)) && !old(accum).Plus(d).IsZero()
      ensures emit && !force && old(hasLastEmit) ==> Waited(now - old(lastEmit), out)
      ensures !emit && accum != ZERO ==> hasLastEmit && !Waited(now - lastEmit, accum)
      ensures emit ==> accum == ZERO && out == old(accum).Plus(d)
      ensures !emit ==> accum == old(accum).Plus(d)
      ensures if old(Due(d, force, now)) then hasLastEmit && lastEmit == now
              else hasLastEmit == old(hasLastEmit) && lastEmit == old(lastEmit)
    {
      ghost var due := Due(d, force, now);
      out := ZERO;
      emit := false;
      accum := accum.Plus(d);
      collected := collected.Plus(d);
      var should := force;
      if !should {
        if !hasLastEmit {
          should := true;
        } else {
          var elapsed := now - lastEmit;
          var threshold := if accum.Distance() < LOW_SPEED_THRESHOLD then LOW_SPEED_INTERVAL else HIGH_SPEED_INTERVAL;
          ThresholdWaits(elapsed, accum);
          if elapsed >= threshold {
            should := true;
          }
        }
      }
      assert should == due;
      if !should {
        return;
      }
      if accum.IsZero() {
        lastEmit, hasLastEmit := now, true;
        return;
      }
      out, emit := accum, true;
      emitted := emitted.Plus(accum);
      accum := ZERO;
      lastEmit, hasLastEmit := now, true;
    }

    /** ya_mouse_throttle_flush. */
    method Flush(now: int) returns (emit: bool, out: Vec)
      requires Conserves()
      modifies this
      ensures Conserves() && accum == ZERO && collected == old(collected)
      ensures emit <==> !old(accum).IsZero()
      ensures out == old(accum) && emitted == old(emitted).Plus(out)
      ensures if emit then hasLastEmit && lastEmit == now else hasLastEmit == old(hasLastEmit) && lastEmit == old(lastEmit)
    {
      emit, out := false, ZERO;
      if accum.IsZero() {
        return;
      }
      emit, out := true, accum;
      emitted := emitted.Plus(accum);
      accum := ZERO;
      lastEmit, hasLastEmit := now, true;
    }

    /** ya_mouse_throttle_reset: whatever is pending is lost, so pixels are conserved exactly if nothing is. */
    method Reset()
      requires Conserves()
      modifies this
      ensures accum == ZERO && !hasLastEmit && collected == old(collected) && emitted == old(emitted)
      ensures Conserves() <==> old(accum).IsZero()
    {
      accum := ZERO;
      hasLastEmit := false;
    }
  }

  datatype Input = Input(d: Vec, now: int)
  datatype Emission = Emission(out: Vec, at: int)

  /** Consecutive emissions keep their distance in time, the longer one after a fast movement. */
  predicate Spaced(es: seq<Emission>) {
    forall i | 0 < i < |es| :: Apart(es, i)
  }

  predicate Apart(es: seq<Emission>, i: nat)
    requires 0 < i < |es|
  {
    Waited(es[i].at - es[i - 1].at, es[i].out)
  }

  lemma WaitedLonger(elapsed: int, elapsed': int, v: Vec)
    requires Waited(elapsed, v) && elapsed <= elapsed'
    ensures Waited(elapsed', v)
  {
  }

  lemma SpacedMore(es: seq<Emission>, e: Emission)
    requires Spaced(es) && (es != [] ==> Waited(e.at - es[|es| - 1].at, e.out))
    ensures Spaced(es + [e])
  {
    hide Waited;
    forall i | 0 < i < |es + [e]| ensures Apart(es + [e], i) {
      assert i < |es| ==> Apart(es, i);
    }
  }

  function Total(es: seq<Emission>): Vec {
    if es == [] then ZERO else Total(es[..|es| - 1]).Plus(es[|es| - 1].out)
  }

  function TotalIn(ins: seq<Input>): Vec {
    if ins == [] then ZERO else TotalIn(ins[..|ins| - 1]).Plus(ins[|ins| - 1].d)
  }

  lemma TotalMore(es: seq<Emission>, e: Emission)
    ensures Total(es + [e]) == Total(es).Plus(e.out)
  {
    assert (es + [e])[..|es|] == es;
  }

  lemma TotalInMore(ins: seq<Input>, n: nat)
    requires n < |ins|
    ensures TotalIn(ins[..n + 1]) == TotalIn(ins[..n]).Plus(ins[n].d)
  {
    assert ins[..n + 1][..n] == ins[..n];
  }

  predicate Monotonic(ins: seq<Input>) {
    forall i, j | 0 <= i < j < |ins| :: ins[i].now <= ins[j].now
  }

  /** n emissions span at least 4(n - 1) ms. */
  lemma {:induction false} RateBound(es: seq<Emission>)
    requires Spaced(es) && es != []
    ensures es[|es| - 1].at - es[0].at >= 4_000_000 * (|es| - 1)
    decreases |es|
  {
    var n := |es|;
    if n > 1 {
      assert Apart(es, n - 1);
      var front := es[..n - 1];
      forall i | 0 < i < |front| ensures Apart(front, i) {
        assert Apart(es, i);
      }
      RateBound(es[..n - 1]);
    }
  }

  lemma NoneSpaced()
    ensures Spaced([])
  {
  }

  lemma NothingYet()
    ensures TotalIn([]) == ZERO && Total([]) == ZERO
  {
  }

  /** A stream of movements through the throttle in any state, without flush, reset or force, on a clock that
      never goes back: pixels are conserved and emissions are spaced, the first one from the last one before
      the stream. */
  method CollectAll(throttle: Throttle, ins: seq<Input>) returns (es: seq<Emission>)
    requires throttle.Conserves() && Monotonic(ins)
    requires throttle.hasLastEmit && ins != [] ==> throttle.lastEmit <= ins[0].now
    modifies throttle
    ensures throttle.Conserves() && old(throttle.accum).Plus(TotalIn(ins)) == Total(es).Plus(throttle.accum)
    ensures Spaced(es)
    ensures old(throttle.hasLastEmit) && es != [] ==> Waited(es[0].at - old(throttle.lastEmit), es[0].out)
    ensures es != [] ==> es[|es| - 1].at - es[0].at >= 4_000_000 * (|es| - 1)
  {
    hide Total, TotalIn, Spaced, Waited, Throttle.Due;
    es := [];
    ghost var came, went := throttle.collected, throttle.emitted;
    NothingYet();
    NoneSpaced();
    TakeEnds(ins);
    for n := 0 to |ins|
      invariant throttle.Conserves()
      invariant throttle.collected == came.Plus(TotalIn(ins[..n])) && throttle.emitted == went.Plus(Total(es))
      invariant Spaced(es)
      invariant es != [] ==> throttle.hasLastEmit && es[|es| - 1].at <= throttle.lastEmit
      invariant old(throttle.hasLastEmit) ==> throttle.hasLastEmit && old(throttle.lastEmit) <= throttle.lastEmit
      invariant old(throttle.hasLastEmit) && es != [] ==> Waited(es[0].at - old(throttle.lastEmit), es[0].out)
      invariant throttle.hasLastEmit && n < |ins| ==> throttle.lastEmit <= ins[n].now
    {
      ghost var last := throttle.lastEmit;
      var emit, out := throttle.Collect(ins[n].d, false, ins[n].now);
      TotalInMore(ins, n);
      if emit {
        if es != [] {
          WaitedLonger(ins[n].now - last, ins[n].now - es[|es| - 1].at, out);
        } else if old(throttle.hasLastEmit) {
          WaitedLonger(ins[n].now - last, ins[n].now - old(throttle.lastEmit), out);
        }
        TotalMore(es, Emission(out, ins[n].now));
        SpacedMore(es, Emission(out, ins[n].now));
        es := es + [Emission(out, ins[n].now)];
      }
    }
    if es != [] {
      RateBound(es);
    }
  }

  // Sub-pixels.

  /** Whole pixels towards zero, once there is at least one. */
  function Whole(frac: real): int {
    if -1.0 < frac < 1.0 then 0
    else if frac > 0.0 then frac.Floor
    else -((-frac).Floor)
  }

  /** Rounding is towards zero, by less than a pixel. */
  lemma WholeTowardsZero(frac: real)
    ensures -1.0 < frac - Whole(frac) as real < 1.0
    ensures if frac >= 0.0 then 0.0 <= Whole(frac) as real <= frac else frac <= Whole(frac) as real <= 0.0
  {
  }

  /** A movement in hundredths of a pixel as pixels, rounded half away from zero. */
  function Pixels(raw: int): int {
    var f := raw as real / 100.0;
    if f >= 0.0 then (f + 0.5).Floor else -((-(f - 0.5)).Floor)
  }

  lemma PixelsNearest(raw: int)
    ensures raw >= 0 ==> -50 < 100 * Pixels(raw) - raw <= 50
    ensures raw <= 0 ==> -50 <= 100 * Pixels(raw) - raw < 50
  {
  }

  /** ya_mouse_filter_t, one axis. `carried` is what has been added to the fraction since the last reset and
      `emitted` the pixels taken from it. */
  class Axis {
    var frac: real
    ghost var carried: real
    ghost var emitted: int

    ghost predicate Valid()
      reads this
    {
      frac == carried - emitted as real && -1.0 < frac < 1.0
    }

    constructor ()
      ensures Valid() && carried == 0.0 && emitted == 0
    {
      frac, carried, emitted := 0.0, 0.0, 0;
    }

    /** Accumulate and quantise. */
    method Add(delta: real) returns (pixels: int)
      requires Valid()
      modifies this
      ensures Valid() && carried == old(carried) + delta && emitted == old(emitted) + pixels
      ensures pixels == Whole(old(frac) + delta)
      ensures var total := old(frac) + delta;
              if total >= 0.0 then 0.0 <= pixels as real <= total else total <= pixels as real <= 0.0
    {
      frac := frac + delta;
      carried := carried + delta;
      pixels := 0;
      WholeTowardsZero(frac);
      if frac >= 1.0 || frac <= -1.0 {
        pixels := if frac > 0.0 then frac.Floor else -((-frac).Floor);
        frac := frac - pixels as real;
        emitted := emitted + pixels;
      }
    }

    /** ya_mouse_filter_reset_state. */
    method Reset()
      requires Valid()
      modifies this
      ensures Valid() && carried == 0.0 && emitted == 0
    {
      frac, carried, emitted := 0.0, 0.0, 0;
    }
  }

  lemma TakeEnds<T>(s: seq<T>)
    ensures s[..0] == [] && s[..|s|] == s
  {
  }

  function Sum(s: seq<int>): int {
    if s == [] then 0 else Sum(s[..|s| - 1]) + s[|s| - 1]
  }

  lemma SumMore(s: seq<int>, i: int)
    ensures Sum(s + [i]) == Sum(s) + i
  {
    assert (s + [i])[..|s|] == s;
  }

  /** Less than a pixel is missing or ahead, in hundredths. */
  predicate Close(raws: seq<int>, pixels: seq<int>) {
    -100 < Sum(raws) - 100 * Sum(pixels) < 100
  }

  /** The v3 path on one axis since a reset: after every input, what has been emitted differs from what was
      asked for by less than a pixel. */
  method AddAll(axis: Axis, raws: seq<int>) returns (pixels: seq<int>)
    requires axis.Valid() && axis.carried == 0.0 && axis.emitted == 0
    modifies axis
    ensures |pixels| == |raws| && forall n | 0 <= n <= |raws| :: Close(raws[..n], pixels[..n])
  {
    hide Sum;
    pixels := [];
    NoSum();
    assert raws[..0] == [] == pixels[..0];
    for n := 0 to |raws|
      invariant axis.Valid() && |pixels| == n
      invariant axis.carried == Sum(raws[..n]) as real / 100.0 && axis.emitted == Sum(pixels)
      invariant forall m | 0 <= m <= n :: Close(raws[..m], pixels[..m])
    {
      var p := axis.Add(raws[n] as real / 100.0);
      ghost var before := pixels;
      SumMore(raws[..n], raws[n]);
      SumMore(pixels, p);
      assert raws[..n + 1] == raws[..n] + [raws[n]];
      pixels := pixels + [p];
      assert pixels[..n + 1] == pixels;
      CloseNow(axis.frac, Sum(raws[..n + 1]), Sum(pixels));
      forall m | 0 <= m <= n ensures Close(raws[..m], pixels[..m]) {
        assert pixels[..m] == before[..m];
      }
    }
  }

  lemma NoSum()
    ensures Sum([]) == 0
  {
  }

  lemma CloseNow(frac: real, raw: int, pixels: int)
    requires frac == raw as real / 100.0 - pixels as real && -1.0 < frac < 1.0
    ensures -100 < raw - 100 * pixels < 100
  {
    assert 100.0 * frac == (raw - 100 * pixels) as real;
  }

  // Handlers.

  /** Where the injected steps, at most one, take the pointer. */
  function Moved(steps: seq<Vec>): Vec
    requires |steps| <= 1
  {
    if steps == [] then ZERO else steps[0]
  }

  /** ya_mouse_filter_t. */
  class Filter {
    const x: Axis
    const y: Axis
    var pointerScale: real
    var algorithmsEnabled: bool

    ghost predicate Valid()
      reads this, x, y
    {
      x != y && x.Valid() && y.Valid()
    }

    constructor ()
      ensures Valid() && fresh(x) && fresh(y) && pointerScale == 1.0 && algorithmsEnabled
      ensures x.carried == 0.0 == y.carried && x.emitted == 0 == y.emitted
    {
      x := new Axis();
      y := new Axis();
      pointerScale, algorithmsEnabled := 1.0, true;
    }

    /** The whole pixels there are with (dx, dy) more. */
    ghost function WholePixels(dx: real, dy: real): Vec
      reads x, y
    {
      Vec(Whole(x.frac + dx), Whole(y.frac + dy))
    }

    /** Sensitivity and acceleration. */
    function Scaled(pixels: int, gain: real): real
      reads this
    {
      pixels as real * (pointerScale * gain)
    }

    /** What the filter makes of a movement, before it takes the movement in. */
    ghost function Output(d: Vec, gain: real): Vec
      reads this, x, y
    {
      if algorithmsEnabled then WholePixels(Scaled(d.x, gain), Scaled(d.y, gain)) else d
    }

    /** Since the old state, (dx, dy) has been carried and the steps have been emitted. */
    twostate predicate Conserves(dx: real, dy: real, steps: seq<Vec>)
      requires |steps| <= 1
      reads x, y
    {
      && x.carried == old(x.carried) + dx && x.emitted == old(x.emitted) + Moved(steps).x
      && y.carried == old(y.carried) + dy && y.emitted == old(y.emitted) + Moved(steps).y
    }

    lemma Unscaled(d: Vec, gain: real)
      ensures pointerScale == gain == 1.0 && x.frac == y.frac == 0.0 ==> Output(d, gain) == d
    {
    }

    /** ya_mouse_filter_process. The gain is the environment's: some number from 1 to 3. At most one step
        comes out. */
    method Process(d: Vec, gain: real) returns (steps: seq<Vec>)
      requires Valid() && 1.0 <= gain <= 3.0
      modifies x, y
      ensures Valid() && |steps| <= 1 && ZERO !in steps && Moved(steps) == old(Output(d, gain))
      ensures if algorithmsEnabled then Conserves(Scaled(d.x, gain), Scaled(d.y, gain), steps) else Conserves(0.0, 0.0, [])
      ensures pointerScale == gain == 1.0 && old(x.frac) == old(y.frac) == 0.0 ==> Moved(steps) == d
    {
      hide Filter.Scaled, Whole;
      assert pointerScale == gain == 1.0 && x.frac == y.frac == 0.0 ==> Output(d, gain) == d by {
        Unscaled(d, gain);
      }
      if !algorithmsEnabled {
        steps := if d.x == 0 && d.y == 0 then [] else [d];
        return;
      }
      var qx := x.Add(Scaled(d.x, gain));
      var qy := y.Add(Scaled(d.y, gain));
      steps := if qx == 0 && qy == 0 then [] else [Vec(qx, qy)];
    }

    method Reset()
      requires Valid()
      modifies x, y
      ensures Valid() && x.carried == 0.0 && y.carried == 0.0 && x.emitted == 0 && y.emitted == 0
    {
      x.Reset();
      y.Reset();
    }
  }

  /** How far movements want to go on the two axes, each multiplied by the sensitivity and by its gain. */
  function Wanted(ds: seq<Vec>, gains: seq<real>, s: real): (real, real)
    requires |gains| == |ds|
  {
    if ds == [] then (0.0, 0.0) else
    var n := |ds| - 1;
    var (x, y) := Wanted(ds[..n], gains[..n], s);
    (x + Weighed(ds[n].x, gains[n], s), y + Weighed(ds[n].y, gains[n], s))
  }

  function Weighed(pixels: int, gain: real, s: real): real { s * gain * (pixels as real) }

  function TotalSteps(outs: seq<Vec>): Vec {
    if outs == [] then ZERO else TotalSteps(outs[..|outs| - 1]).Plus(outs[|outs| - 1])
  }

  /** Less than a pixel off on either axis. */
  predicate Reached(wanted: (real, real), got: Vec) {
    -1.0 < wanted.0 - got.x as real < 1.0 && -1.0 < wanted.1 - got.y as real < 1.0
  }

  /** The filter since a reset, with any gains: after every movement the steps have gone where the movements
      wanted to go, but for less than a pixel. */
  method ProcessAll(f: Filter, ds: seq<Vec>, gains: seq<real>) returns (outs: seq<Vec>)
    requires f.Valid() && f.algorithmsEnabled && f.x.carried == 0.0 == f.y.carried && f.x.emitted == 0 == f.y.emitted
    requires |gains| == |ds| && forall i | 0 <= i < |gains| :: 1.0 <= gains[i] <= 3.0
    modifies f.x, f.y
    ensures |outs| == |ds|
    ensures forall n | 0 <= n <= |ds| :: Reached(Wanted(ds[..n], gains[..n], f.pointerScale), TotalSteps(outs[..n]))
  {
    hide Wanted, TotalSteps, Filter.Output;
    outs := [];
    ghost var s := f.pointerScale;
    NothingWanted(s);
    assert ds[..0] == [] && gains[..0] == [] && outs[..0] == [];
    for n := 0 to |ds|
      invariant f.Valid() && |outs| == n
      invariant (f.x.carried, f.y.carried) == Wanted(ds[..n], gains[..n], s) && Vec(f.x.emitted, f.y.emitted) == TotalSteps(outs)
      invariant forall m | 0 <= m <= n :: Reached(Wanted(ds[..m], gains[..m], s), TotalSteps(outs[..m]))
    {
      ghost var before := outs;
      var steps := f.Process(ds[n], gains[n]);
      WantedMore(f, ds, gains, n);
      StepsMore(outs, Moved(steps));
      outs := outs + [Moved(steps)];
      assert outs[..n + 1] == outs;
      forall m | 0 <= m <= n ensures Reached(Wanted(ds[..m], gains[..m], s), TotalSteps(outs[..m])) {
        assert outs[..m] == before[..m];
      }
    }
  }

  lemma NothingWanted(s: real)
    ensures Wanted([], [], s) == (0.0, 0.0) && TotalSteps([]) == ZERO
  {
  }

  lemma WantedMore(f: Filter, ds: seq<Vec>, gains: seq<real>, n: nat)
    requires n < |ds| == |gains|
    ensures var (x, y) := Wanted(ds[..n], gains[..n], f.pointerScale);
            Wanted(ds[..n + 1], gains[..n + 1], f.pointerScale) == (x + f.Scaled(ds[n].x, gains[n]), y + f.Scaled(ds[n].y, gains[n]))
  {
    hide Weighed, Filter.Scaled;
    assert ds[..n + 1][..n] == ds[..n] && gains[..n + 1][..n] == gains[..n];
    SameProduct(f, ds[n].x, gains[n]);
    SameProduct(f, ds[n].y, gains[n]);
  }

  lemma SameProduct(f: Filter, pixels: int, gain: real)
    ensures f.Scaled(pixels, gain) == Weighed(pixels, gain, f.pointerScale)
  {
  }

  lemma StepsMore(outs: seq<Vec>, out: Vec)
    ensures TotalSteps(outs + [out]) == TotalSteps(outs).Plus(out)
  {
    assert (outs + [out])[..|outs|] == outs;
  }

  /** The pixels of a raw movement on the v2 path. */
  function PixelVec(raw: Vec): Vec { Vec(Pixels(raw.x), Pixels(raw.y)) }

  /** handle_mouse_move: v3 quantises, v2 throttles in whole pixels first. */
  method HandleMove(throttle: Throttle, f: Filter, version: nat, raw: Vec, now: int, gain: real) returns (steps: seq<Vec>)
    requires throttle.Conserves() && f.Valid() && 1.0 <= gain <= 3.0
    modifies throttle, f.x, f.y
    ensures throttle.Conserves() && f.Valid() && |steps| <= 1 && ZERO !in steps
    ensures version >= 3 ==>
              && f.Conserves(raw.x as real / 100.0, raw.y as real / 100.0, steps)
              && Moved(steps) == old(f.WholePixels(raw.x as real / 100.0, raw.y as real / 100.0))
              && unchanged(throttle)
    ensures version < 3 ==> throttle.collected == old(throttle.collected).Plus(PixelVec(raw))
    ensures version < 3 ==>
              var pending := old(throttle.accum).Plus(PixelVec(raw));
              if old(throttle.Due(PixelVec(raw), false, now)) && !pending.IsZero() then
                throttle.accum == ZERO && Moved(steps) == old(f.Output(pending, gain))
              else
                throttle.accum == pending && steps == [] && unchanged(f.x, f.y)
  {
    steps := [];
    if version >= 3 {
      var dx := f.x.Add(raw.x as real / 100.0);
      var dy := f.y.Add(raw.y as real / 100.0);
      if dx != 0 || dy != 0 {
        steps := [Vec(dx, dy)];
      }
    } else {
      var emit, out := throttle.Collect(PixelVec(raw), false, now);
      if emit {
        steps := f.Process(out, gain);
      }
    }
  }

  /** handle_mouse_stop: v3 forgets its fraction; v2 sends what is pending before everything is reset, so
      that no pixel is lost in the throttle. */
  method HandleStop(throttle: Throttle, f: Filter, version: nat, now: int, gain: real) returns (steps: seq<Vec>)
    requires throttle.Conserves() && f.Valid() && 1.0 <= gain <= 3.0
    modifies throttle, f.x, f.y
    ensures throttle.Conserves() && f.Valid() && throttle.collected == old(throttle.collected)
    ensures f.x.carried == 0.0 && f.y.carried == 0.0 && f.x.emitted == 0 && f.y.emitted == 0
    ensures |steps| <= 1 && ZERO !in steps
    ensures version >= 3 ==> steps == [] && unchanged(throttle)
    ensures version < 3 ==> throttle.accum == ZERO && throttle.emitted == throttle.collected && !throttle.hasLastEmit
    ensures version < 3 ==> Moved(steps) == if old(throttle.accum).IsZero() then ZERO else old(f.Output(throttle.accum, gain))
  {
    steps := [];
    if version >= 3 {
      f.Reset();
    } else {
      var emit, out := throttle.Flush(now);
      if emit {
        steps := f.Process(out, gain);
      }
      f.Reset();
      throttle.Reset();
    }
  }

  /** What clients send: a movement or a stop, with the client's version and the gain at that moment. */
  datatype Event =
    | Move(client: nat, version: nat, raw: Vec, now: int, gain: real)
    | Stop(client: nat, version: nat, now: int, gain: real)

  /** The pixels that v2 clients have sent. */
  function Sent(es: seq<Event>): Vec {
    if es == [] then ZERO else
    var e := es[|es| - 1];
    if e.Move? && e.version < 3 then Sent(es[..|es| - 1]).Plus(PixelVec(e.raw)) else Sent(es[..|es| - 1])
  }

  /** The pixels that v2 clients have been given. */
  function Given(es: seq<Event>, outs: seq<Vec>): Vec
    requires |outs| == |es|
  {
    if es == [] then ZERO else
    var n := |es| - 1;
    if es[n].version < 3 then Given(es[..n], outs[..n]).Plus(outs[n]) else Given(es[..n], outs[..n])
  }

  lemma GivenMore(es: seq<Event>, outs: seq<Vec>, n: nat, out: Vec)
    requires |outs| == n < |es|
    ensures Given(es[..n + 1], outs + [out]) == if es[n].version < 3 then Given(es[..n], outs).Plus(out) else Given(es[..n], outs)
  {
    assert es[..n + 1][..n] == es[..n] && (outs + [out])[..n] == outs;
  }

  lemma SentMore(es: seq<Event>, n: nat)
    requires n < |es|
    ensures Sent(es[..n + 1]) == if es[n].Move? && es[n].version < 3 then Sent(es[..n]).Plus(PixelVec(es[n].raw)) else Sent(es[..n])
  {
    assert es[..n + 1][..n] == es[..n];
  }

  /** What client k has asked for since its last stop, in hundredths of a pixel. */
  function Asked(es: seq<Event>, k: nat): Vec {
    if es == [] then ZERO else
    var e, before := es[|es| - 1], Asked(es[..|es| - 1], k);
    if e.client != k then before else if e.Stop? then ZERO else before.Plus(e.raw)
  }

  /** Where client k has taken the pointer since its last stop. */
  function Gone(es: seq<Event>, outs: seq<Vec>, k: nat): Vec
    requires |outs| == |es|
  {
    if es == [] then ZERO else
    var e, before := es[|es| - 1], Gone(es[..|es| - 1], outs[..|es| - 1], k);
    if e.client != k then before else if e.Stop? then ZERO else before.Plus(outs[|es| - 1])
  }

  lemma AskedMore(es: seq<Event>, outs: seq<Vec>, n: nat, k: nat, out: Vec)
    requires |outs| == n < |es|
    ensures var e := es[n];
            && Asked(es[..n + 1], k) == (if e.client != k then Asked(es[..n], k) else if e.Stop? then ZERO else Asked(es[..n], k).Plus(e.raw))
            && Gone(es[..n + 1], outs + [out], k) ==
               if e.client != k then Gone(es[..n], outs, k) else if e.Stop? then ZERO else Gone(es[..n], outs, k).Plus(out)
  {
    assert es[..n + 1][..n] == es[..n] && (outs + [out])[..n] == outs;
  }

  /** Client k speaks version 3. */
  predicate Speaks3(es: seq<Event>, k: nat) {
    forall i | 0 <= i < |es| && es[i].client == k :: es[i].version >= 3
  }

  /** Less than a pixel is missing or ahead on either axis. */
  predicate OnTarget(asked: Vec, gone: Vec) {
    -100 < asked.x - 100 * gone.x < 100 && -100 < asked.y - 100 * gone.y < 100
  }

  /** The clients' filters have axes of their own. */
  ghost predicate Separate(filters: seq<Filter>) {
    forall i, j | 0 <= i < j < |filters| :: {filters[i].x, filters[i].y} !! {filters[j].x, filters[j].y}
  }

  ghost function Axes(filters: seq<Filter>): set<Axis> {
    (set f | f in filters :: f.x) + (set f | f in filters :: f.y)
  }

  /** The filter holds what client k asked for and has not got. */
  ghost predicate Follows(f: Filter, asked: Vec, gone: Vec)
    reads f.x, f.y
  {
    && f.x.carried == asked.x as real / 100.0 && f.x.emitted == gone.x
    && f.y.carried == asked.y as real / 100.0 && f.y.emitted == gone.y
  }

  /** One event of some client. */
  method HandleEvent(throttle: Throttle, f: Filter, e: Event) returns (out: Vec)
    requires throttle.Conserves() && f.Valid() && 1.0 <= e.gain <= 3.0
    modifies throttle, f.x, f.y
    ensures throttle.Conserves() && f.Valid()
    ensures throttle.collected ==
            if e.Move? && e.version < 3 then old(throttle.collected).Plus(PixelVec(e.raw)) else old(throttle.collected)
    ensures e.Stop? && e.version < 3 ==> throttle.accum == ZERO
    ensures e.version < 3 ==>
              var pending := if e.Move? then old(throttle.accum).Plus(PixelVec(e.raw)) else old(throttle.accum);
              if (e.Stop? || old(throttle.Due(PixelVec(e.raw), false, e.now))) && !pending.IsZero() then
                throttle.accum == ZERO && out == old(f.Output(pending, e.gain))
              else throttle.accum == pending && out == ZERO
    ensures e.version >= 3 ==> unchanged(throttle)
    ensures e.version >= 3 ==> forall asked, gone | old(Follows(f, asked, gone)) ::
              if e.Stop? then Follows(f, ZERO, ZERO) else Follows(f, asked.Plus(e.raw), gone.Plus(out))
  {
    hide PixelVec, Axis.Valid, Throttle.Due, Filter.Output, Filter.WholePixels;
    var steps;
    match e {
      case Move(client, version, raw, now, gain) =>
        steps := HandleMove(throttle, f, version, raw, now, gain);
      case Stop(client, version, now, gain) =>
        steps := HandleStop(throttle, f, version, now, gain);
    }
    out := Moved(steps);
  }

  lemma FollowsClosely(f: Filter, asked: Vec, gone: Vec)
    requires f.Valid() && Follows(f, asked, gone)
    ensures OnTarget(asked, gone)
  {
    CloseNow(f.x.frac, asked.x, gone.x);
    CloseNow(f.y.frac, asked.y, gone.y);
  }

  /** Where the v3 clients stand after the first events. */
  ghost predicate AllFollow(filters: seq<Filter>, es: seq<Event>, outs: seq<Vec>)
    requires |outs| <= |es|
    reads Axes(filters)
  {
    forall k | 0 <= k < |filters| && Speaks3(es, k) :: Follows(filters[k], Asked(es[..|outs|], k), Gone(es[..|outs|], outs, k))
  }

  /** After the first events: no pixel has been lost, and the v3 clients are served. */
  ghost predicate Serving(throttle: Throttle, filters: seq<Filter>, es: seq<Event>, outs: seq<Vec>)
    requires |outs| <= |es|
    reads throttle, filters, Axes(filters)
  {
    && throttle.Conserves() && throttle.collected == Sent(es[..|outs|])
    && (|outs| > 0 && es[|outs| - 1].Stop? && es[|outs| - 1].version < 3 ==> throttle.accum == ZERO)
    && (forall f | f in filters :: f.Valid()) && AllFollow(filters, es, outs)
    && ((forall f | f in filters :: !f.algorithmsEnabled) ==> throttle.emitted == Given(es[..|outs|], outs))
  }

  /** The next event of the run. */
  method TakeEvent(throttle: Throttle, filters: seq<Filter>, es: seq<Event>, outs: seq<Vec>) returns (out: Vec)
    requires Separate(filters) && |outs| < |es| && es[|outs|].client < |filters| && 1.0 <= es[|outs|].gain <= 3.0
    requires Serving(throttle, filters, es, outs)
    modifies throttle, Axes(filters)
    ensures Serving(throttle, filters, es, outs + [out])
  {
    hide Sent, Given, PixelVec, Asked, Gone, Axis.Valid, Follows, Throttle.Due, Filter.WholePixels;
    var n := |outs|;
    var f := filters[es[n].client];
    assert f in filters;
    SentMore(es, n);
    out := HandleEvent(throttle, f, es[n]);
    GivenMore(es, outs, n, out);
    forall k | 0 <= k < |filters| && Speaks3(es, k)
      ensures Follows(filters[k], Asked(es[..n + 1], k), Gone(es[..n + 1], outs + [out], k))
    {
      AskedMore(es, outs, n, k, out);
      assert old(Follows(filters[k], Asked(es[..n], k), Gone(es[..n], outs, k)));
    }
  }

  /** All clients on the one throttle, in any order: v2 pixels sent are pixels emitted plus pixels pending,
      nothing is pending after a v2 stop, and every v3 client is less than a pixel from where it wants to be. */
  method HandleAll(filters: seq<Filter>, es: seq<Event>) returns (throttle: Throttle, outs: seq<Vec>)
    requires Separate(filters)
    requires forall f | f in filters :: f.Valid() && Follows(f, ZERO, ZERO)
    requires forall i | 0 <= i < |es| :: es[i].client < |filters| && 1.0 <= es[i].gain <= 3.0
    modifies Axes(filters)
    ensures fresh(throttle) && Sent(es) == throttle.emitted.Plus(throttle.accum)
    ensures es != [] && es[|es| - 1].Stop? && es[|es| - 1].version < 3 ==> throttle.accum == ZERO
    ensures |outs| == |es| && forall k | 0 <= k < |filters| && Speaks3(es, k) :: OnTarget(Asked(es, k), Gone(es, outs, k))
    ensures (forall f | f in filters :: !f.algorithmsEnabled) ==> Sent(es) == Given(es, outs).Plus(throttle.accum)
  {
    hide Given, Separate, Serving, Axes, Throttle.Conserves, Filter.Valid, Follows, Sent, Asked, Gone, OnTarget;
    throttle := new Throttle();
    outs := [];
    ServingNone(throttle, filters, es);
    for n := 0 to |es|
      invariant fresh(throttle) && |outs| == n && Serving(throttle, filters, es, outs)
    {
      var out := TakeEvent(throttle, filters, es, outs);
      outs := outs + [out];
    }
    Served(throttle, filters, es, outs);
  }

  lemma ServingNone(throttle: Throttle, filters: seq<Filter>, es: seq<Event>)
    requires throttle.Conserves() && throttle.collected == ZERO == throttle.emitted
    requires forall f | f in filters :: f.Valid() && Follows(f, ZERO, ZERO)
    ensures Serving(throttle, filters, es, [])
  {
    NoneAsked(filters, es);
    assert es[..0] == [];
  }

  lemma Served(throttle: Throttle, filters: seq<Filter>, es: seq<Event>, outs: seq<Vec>)
    requires |outs| == |es| && Serving(throttle, filters, es, outs)
    ensures Sent(es) == throttle.emitted.Plus(throttle.accum)
    ensures es != [] && es[|es| - 1].Stop? && es[|es| - 1].version < 3 ==> throttle.accum == ZERO
    ensures forall k | 0 <= k < |filters| && Speaks3(es, k) :: OnTarget(Asked(es, k), Gone(es, outs, k))
    ensures (forall f | f in filters :: !f.algorithmsEnabled) ==> Sent(es) == Given(es, outs).Plus(throttle.accum)
  {
    hide Follows, Asked, Gone, Sent, Given, OnTarget, AllFollow, Filter.Valid;
    TakeEnds(es);
    FollowClosely(filters, es, outs);
  }

  lemma NoneAsked(filters: seq<Filter>, es: seq<Event>)
    requires forall f | f in filters :: Follows(f, ZERO, ZERO)
    ensures AllFollow(filters, es, [])
  {
    hide Follows;
    assert es[..0] == [];
  }

  lemma FollowClosely(filters: seq<Filter>, es: seq<Event>, outs: seq<Vec>)
    requires |outs| == |es| && AllFollow(filters, es, outs) && forall f | f in filters :: f.Valid()
    ensures forall k | 0 <= k < |filters| && Speaks3(es, k) :: OnTarget(Asked(es, k), Gone(es, outs, k))
  {
    hide Follows, Asked, Gone, OnTarget, Axis.Valid;
    TakeEnds(es);
    forall k | 0 <= k < |filters| && Speaks3(es, k) ensures OnTarget(Asked(es, k), Gone(es, outs, k)) {
      FollowsClosely(filters[k], Asked(es, k), Gone(es, outs, k));
    }
  }
}
