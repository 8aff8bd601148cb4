/**
  The bookkeeping of the fireworks hook: the list of particles that
  createFirework appends bursts to and animate advances and thins out, and
  the animationFrame and timer handles that animate, randomFirework and
  stopFireworks keep. Alpha is counted in hundredths (a new particle has
  100 and every frame takes 2); positions and speeds are reals that are
  only added. The host's scheduler is kept as the sets of handles that are
  still pending, so that cancelling and clearing have a visible effect.
 */
module Fireworks {
  import opened Wrappers

  /** The palette of createFirework. */
  const Colors: seq<string> := ["red", "blue", "yellow", "green", "purple", "orange"]
  /** Particles per burst. */
  const NumParticles: nat := 50
  /** Alpha of a new particle, and the amount one frame takes, in hundredths. */
  const FullAlpha: int := 100
  const AlphaStep: int := 2

  datatype Particle = Particle(x: real, y: real, color: string, size: real,
                               speedX: real, speedY: real, alpha: int)

  /**
    The random draws for one particle: the colour and size draws, each in
    [0, 1), and the speed components that the angle and speed draws give.
   */
  datatype Spark = Spark(colorDraw: real, sizeDraw: real, speedX: real, speedY: real)

  predicate ValidSpark(s: Spark) {
    0.0 <= s.colorDraw < 1.0 && 0.0 <= s.sizeDraw < 1.0
  }

  predicate ValidSparks(sparks: seq<Spark>) {
    forall i :: 0 <= i < |sparks| ==> ValidSpark(sparks[i])
  }

  /** Math.floor(r * colors.length): an index into the palette. */
  function ColorIndex(r: real): (k: nat)
    requires 0.0 <= r < 1.0
    ensures k < |Colors|
    ensures k as real <= r * 6.0 < (k + 1) as real
  {
    assert r * 6.0 < 6.0;
    (r * 6.0).Floor
  }

  /** The particle one iteration of createFirework pushes. */
  function Spawn(x: real, y: real, s: Spark): (p: Particle)
    requires ValidSpark(s)
    ensures p.x == x && p.y == y && p.alpha == FullAlpha && p.color in Colors
    ensures 0.0 <= p.size < 2.0 && p.speedX == s.speedX && p.speedY == s.speedY
  {
    Particle(x, y, Colors[ColorIndex(s.colorDraw)], s.sizeDraw * 2.0, s.speedX, s.speedY, FullAlpha)
  }

  /** The particles of a burst at (x, y), one per spark, in order. */
  function Burst(x: real, y: real, sparks: seq<Spark>): (b: seq<Particle>)
    requires ValidSparks(sparks)
    ensures |b| == |sparks|
    ensures forall i :: 0 <= i < |b| ==> b[i] == Spawn(x, y, sparks[i])
  {
    seq(|sparks|, i requires 0 <= i < |sparks| => Spawn(x, y, sparks[i]))
  }

  /** One frame's move of a particle: x += speedX, y += speedY, alpha -= 0.02. */
  function Advance(p: Particle): (q: Particle)
    ensures q.alpha < p.alpha && q.color == p.color && q.size == p.size
  {
    p.(x := p.x + p.speedX, y := p.y + p.speedY, alpha := p.alpha - AlphaStep)
  }

  /** What one frame leaves of a particle: the moved particle, or nothing once it has faded. */
  function Survivor(p: Particle): (r: seq<Particle>)
    ensures |r| <= 1 && (|r| == 1 <==> Advance(p).alpha > 0)
  {
    var q := Advance(p);
    if q.alpha <= 0 then [] else [q]
  }

  /** What one animate pass leaves of the list. */
  function Step(ps: seq<Particle>): seq<Particle> {
    if |ps| == 0 then [] else Survivor(ps[0]) + Step(ps[1..])
  }

  /** The list after k frames. */
  function StepN(ps: seq<Particle>, k: nat): seq<Particle>
    decreases k
  {
    if k == 0 then ps else StepN(Step(ps), k - 1)
  }

  /** A pass treats every particle on its own: it distributes over concatenation. */
  lemma {:induction false} StepAppend(a: seq<Particle>, b: seq<Particle>)
    ensures Step(a + b) == Step(a) + Step(b)
  {
    if |a| > 0 {
      assert (a + b)[0] == a[0];
      assert (a + b)[1..] == a[1..] + b;
      StepAppend(a[1..], b);
      assert Step(a + b) == Survivor(a[0]) + (Step(a[1..]) + Step(b));
    } else {
      assert a + b == b;
    }
  }

  /** Every survivor of a pass is visible and is some particle of the list, moved once. */
  lemma {:induction false} StepMembers(ps: seq<Particle>)
    ensures forall q :: q in Step(ps) ==> q.alpha > 0 && exists p :: p in ps && q == Advance(p)
  {
    if |ps| > 0 {
      StepMembers(ps[1..]);
      assert Step(ps) == Survivor(ps[0]) + Step(ps[1..]);
      forall q | q in Step(ps) ensures q.alpha > 0 && exists p :: p in ps && q == Advance(p) {
        if q in Survivor(ps[0]) {
          assert ps[0] in ps;
        } else {
          var p :| p in ps[1..] && q == Advance(p);
          assert p in ps;
        }
      }
    }
  }

  /** Indices shifted by one. */
  function Shift(s: seq<nat>): (r: seq<nat>)
    ensures |r| == |s| && forall k :: 0 <= k < |r| ==> r[k] == s[k] + 1
  {
    if |s| == 0 then [] else [s[0] + 1] + Shift(s[1..])
  }

  /** out[k] is the particle at ps[idx[k]], moved once. */
  predicate Picks(ps: seq<Particle>, idx: seq<nat>, out: seq<Particle>) {
    |idx| == |out| && forall k :: 0 <= k < |idx| ==> idx[k] < |ps| && out[k] == Advance(ps[idx[k]])
  }

  predicate Increasing(idx: seq<nat>) {
    forall k, l :: 0 <= k < l < |idx| ==> idx[k] < idx[l]
  }

  /** idx holds exactly the positions of the particles still visible after their move. */
  predicate PicksLive(ps: seq<Particle>, idx: seq<nat>) {
    forall i :: 0 <= i < |ps| ==> (i in idx <==> Advance(ps[i]).alpha > 0)
  }

  /** The positions a pass keeps of ps, given those it keeps of ps[1..]. */
  function ConsIndices(ps: seq<Particle>, rest: seq<nat>): seq<nat>
    requires |ps| > 0
  {
    (if Advance(ps[0]).alpha > 0 then [0] else []) + Shift(rest)
  }

  /**
    A pass keeps exactly the particles whose alpha stays positive, each
    moved once, in their old relative order: the k-th survivor is the moved
    particle at idx[k], the indices increase, and an index occurs in idx
    exactly when that particle's alpha is still positive after the move.
   */
  lemma {:induction false} StepIndices(ps: seq<Particle>) returns (idx: seq<nat>)
    ensures Picks(ps, idx, Step(ps)) && Increasing(idx) && PicksLive(ps, idx)
  {
    if |ps| == 0 {
      return [];
    }
    var rest := StepIndices(ps[1..]);
    idx := ConsIndices(ps, rest);
    ConsPicks(ps, rest);
    ConsIncreasing(ps, rest);
    ConsPicksLive(ps, rest);
  }

  lemma ConsPicks(ps: seq<Particle>, rest: seq<nat>)
    requires |ps| > 0 && Picks(ps[1..], rest, Step(ps[1..]))
    ensures Picks(ps, ConsIndices(ps, rest), Step(ps))
  {
    var idx := ConsIndices(ps, rest);
    var out := Step(ps);
    assert out == Survivor(ps[0]) + Step(ps[1..]);
    forall k | 0 <= k < |idx| ensures idx[k] < |ps| && out[k] == Advance(ps[idx[k]]) {
      ConsPickAt(ps, rest, k);
    }
  }

  /** The k-th survivor of ps is the first particle or a survivor of ps[1..]. */
  lemma ConsPickAt(ps: seq<Particle>, rest: seq<nat>, k: nat)
    requires |ps| > 0 && Picks(ps[1..], rest, Step(ps[1..])) && k < |ConsIndices(ps, rest)|
    ensures var idx, out := ConsIndices(ps, rest), Survivor(ps[0]) + Step(ps[1..]);
            |idx| == |out| && idx[k] < |ps| && out[k] == Advance(ps[idx[k]])
  {
    var head := Survivor(ps[0]);
    var hidx: seq<nat> := if Advance(ps[0]).alpha > 0 then [0] else [];
    var tail := Step(ps[1..]);
    if k < |hidx| {
      assert (head + tail)[k] == head[0];
    } else {
      ShiftedPick(ps, rest, k - |hidx|);
      assert (hidx + Shift(rest))[k] == Shift(rest)[k - |hidx|];
      assert (head + tail)[k] == tail[k - |head|];
    }
  }

  /** A survivor of the pass over ps[1..] is a survivor of ps, one position further. */
  lemma ShiftedPick(ps: seq<Particle>, rest: seq<nat>, m: nat)
    requires |ps| > 0 && Picks(ps[1..], rest, Step(ps[1..])) && m < |rest|
    ensures Shift(rest)[m] == rest[m] + 1 < |ps|
    ensures Step(ps[1..])[m] == Advance(ps[rest[m] + 1])
  {
    assert ps[1..][rest[m]] == ps[rest[m] + 1];
  }

  lemma ConsIncreasing(ps: seq<Particle>, rest: seq<nat>)
    requires |ps| > 0 && Increasing(rest)
    ensures Increasing(ConsIndices(ps, rest))
  {
    var shifted := Shift(rest);
    ShiftIncreasing(rest);
    if Advance(ps[0]).alpha > 0 {
      var idx := [0] + shifted;
      assert ConsIndices(ps, rest) == idx;
      forall k, l | 0 <= k < l < |idx| ensures idx[k] < idx[l] {
        assert idx[l] == shifted[l - 1];
        if k > 0 {
          assert idx[k] == shifted[k - 1];
        }
      }
    } else {
      assert ConsIndices(ps, rest) == shifted;
    }
  }

  /** Shifting keeps the indices increasing, and all of them are then positive. */
  lemma ShiftIncreasing(rest: seq<nat>)
    requires Increasing(rest)
    ensures Increasing(Shift(rest))
    ensures forall k :: 0 <= k < |Shift(rest)| ==> Shift(rest)[k] > 0
  {
  }

  lemma ConsPicksLive(ps: seq<Particle>, rest: seq<nat>)
    requires |ps| > 0 && PicksLive(ps[1..], rest)
    ensures PicksLive(ps, ConsIndices(ps, rest))
  {
    var tail := ps[1..];
    forall i | 0 <= i < |ps| ensures i in ConsIndices(ps, rest) <==> Advance(ps[i]).alpha > 0 {
      InConsShift(Advance(ps[0]).alpha > 0, rest, i);
      if i > 0 {
        assert tail[i - 1] == ps[i];
      }
    }
  }

  /** Which positions the list of kept positions of ps holds, given those of ps[1..]. */
  lemma InConsShift(keepFirst: bool, rest: seq<nat>, i: nat)
    ensures var idx := (if keepFirst then [0] else []) + Shift(rest);
            (i == 0 ==> (i in idx <==> keepFirst)) && (i > 0 ==> (i in idx <==> i - 1 in rest))
  {
    var head: seq<nat> := if keepFirst then [0] else [];
    InShift(rest, i);
    assert i in head <==> keepFirst && i == 0;
    assert i in head + Shift(rest) <==> i in head || i in Shift(rest);
  }

  lemma InShift(rest: seq<nat>, i: nat)
    ensures i in Shift(rest) <==> i > 0 && i - 1 in rest
  {
    var sh := Shift(rest);
    if i in sh {
      var k :| 0 <= k < |sh| && sh[k] == i;
      assert rest[k] == i - 1;
    }
    if i > 0 && i - 1 in rest {
      var m :| 0 <= m < |rest| && rest[m] == i - 1;
      assert sh[m] == i;
    }
  }

  /** A pass over particles that all fade in this frame leaves nothing. */
  lemma {:induction false} AllFade(ps: seq<Particle>)
    requires forall p :: p in ps ==> Advance(p).alpha <= 0
    ensures Step(ps) == []
  {
    if |ps| > 0 {
      assert ps[0] in ps;
      assert forall p :: p in ps[1..] ==> p in ps;
      AllFade(ps[1..]);
    }
  }

  /** A pass over particles that all stay visible removes none. */
  lemma {:induction false} AllSurvive(ps: seq<Particle>)
    requires forall p :: p in ps ==> Advance(p).alpha > 0
    ensures |Step(ps)| == |ps|
  {
    if |ps| > 0 {
      assert ps[0] in ps;
      assert forall p :: p in ps[1..] ==> p in ps;
      AllSurvive(ps[1..]);
    }
  }

  /** Particles whose alpha is at most 2k are all gone after k frames. */
  lemma {:induction false} FadedAfter(ps: seq<Particle>, k: nat)
    requires k > 0 && forall p :: p in ps ==> p.alpha <= AlphaStep * k
    ensures StepN(ps, k) == []
    decreases k
  {
    if k == 1 {
      AllFade(ps);
    } else {
      StepMembers(ps);
      forall q | q in Step(ps) ensures q.alpha <= AlphaStep * (k - 1) {
        var p :| p in ps && q == Advance(p);
      }
      FadedAfter(Step(ps), k - 1);
    }
  }

  /** Particles whose alpha is above 2k are all still there after k frames. */
  lemma {:induction false} LiveAfter(ps: seq<Particle>, k: nat)
    requires forall p :: p in ps ==> p.alpha > AlphaStep * k
    ensures |StepN(ps, k)| == |ps|
    decreases k
  {
    if k > 0 {
      AllSurvive(ps);
      StepMembers(ps);
      forall q | q in Step(ps) ensures q.alpha > AlphaStep * (k - 1) {
        var p :| p in ps && q == Advance(p);
      }
      LiveAfter(Step(ps), k - 1);
    }
  }

  /** A burst is visible for 49 frames and gone after FullAlpha / AlphaStep = 50. */
  lemma BurstLifetime(x: real, y: real, sparks: seq<Spark>)
    requires ValidSparks(sparks)
    ensures StepN(Burst(x, y, sparks), 50) == []
    ensures |StepN(Burst(x, y, sparks), 49)| == |sparks|
  {
    var b := Burst(x, y, sparks);
    assert forall p :: p in b ==> p.alpha == FullAlpha;
    FadedAfter(b, 50);
    LiveAfter(b, 49);
  }

  /**
    One iteration of animate's backward loop at index |pre|, where the list
    is pre + [p] + rest: moving the particle there and splicing it out when
    it has faded leaves pre + Survivor(p) + rest.
   */
  lemma AnimateIteration(pre: seq<Particle>, p: Particle, rest: seq<Particle>)
    ensures var cur := pre + [p] + rest;
            |pre| < |cur| && cur[|pre|] == p
    ensures var cur := pre + [p] + rest;
            var moved := cur[|pre| := Advance(p)];
            var next := if Advance(p).alpha <= 0 then moved[..|pre|] + moved[|pre| + 1..] else moved;
            next == pre + Survivor(p) + rest
  {
    ReplaceMiddle(pre, p, rest, Advance(p));
    if Advance(p).alpha <= 0 {
      assert pre + [] + rest == pre + rest;
    }
  }

  /** The same iteration, stated on the list animate started from and the index i. */
  lemma AnimateAt(orig: seq<Particle>, i: nat)
    requires i < |orig|
    ensures var cur := orig[..i + 1] + Step(orig[i + 1..]);
            i < |cur| && cur[i] == orig[i]
    ensures var cur := orig[..i + 1] + Step(orig[i + 1..]);
            var moved := cur[i := Advance(cur[i])];
            var next := if moved[i].alpha <= 0 then moved[..i] + moved[i + 1..] else moved;
            next == orig[..i] + Step(orig[i..])
  {
    var pre, p, rest := orig[..i], orig[i], Step(orig[i + 1..]);
    StepAt(orig, i);
    AnimateIteration(pre, p, rest);
    assert orig[..i + 1] + rest == pre + [p] + rest;
    assert pre + Survivor(p) + rest == pre + (Survivor(p) + rest);
  }

  /** Step on a suffix handles its first particle, then the rest. */
  lemma StepAt(orig: seq<Particle>, i: nat)
    requires i < |orig|
    ensures orig[..i + 1] == orig[..i] + [orig[i]]
    ensures Step(orig[i..]) == Survivor(orig[i]) + Step(orig[i + 1..])
  {
    assert orig[i..][1..] == orig[i + 1..];
  }

  /** Overwriting, then splicing out, the element between `pre` and `rest`. */
  lemma ReplaceMiddle<T>(pre: seq<T>, x: T, rest: seq<T>, y: T)
    ensures var s := pre + [x] + rest;
            |pre| < |s| && s[|pre|] == x
            && s[|pre| := y] == pre + [y] + rest
            && s[|pre| := y][..|pre|] + s[|pre| := y][|pre| + 1..] == pre + rest
  {
    var s := pre + [x] + rest;
    var t := pre + [y] + rest;
    assert s[|pre| := y] == t;
    assert t[..|pre|] == pre;
    assert t[|pre| + 1..] == rest;
  }

  /**
    The hook's state (one call of useFireworks): its particle list and its
    two handles, with the host's pending animation frames and timers.
   */
  class Engine {
    var particles: seq<Particle>
    var animationFrame: Option<nat>
    var timer: Option<nat>
    /** Frames requested and neither run nor cancelled yet. */
    var pendingFrames: set<nat>
    /** Timers set and neither run nor cleared yet. */
    var pendingTimers: set<nat>
    /** The next handle the host gives out; handles are positive. */
    var nextHandle: nat

    /**
      The only timer that can be pending is the recorded one, and every
      handle given out is positive and below nextHandle.
     */
    predicate Valid()
      reads this
    {
      && (animationFrame.Some? ==> 0 < animationFrame.value < nextHandle)
      && (timer.None? ==> pendingTimers == {})
      && (timer.Some? ==> pendingTimers <= {timer.value} && 0 < timer.value < nextHandle)
      && 0 < nextHandle
      && (forall h :: h in pendingFrames ==> 0 < h < nextHandle)
      && (forall h :: h in pendingTimers ==> 0 < h < nextHandle)
    }

    constructor()
      ensures particles == [] && animationFrame == None && timer == None
      ensures pendingFrames == {} && pendingTimers == {} && Valid()
    {
      particles := [];
      animationFrame, timer := None, None;
      pendingFrames, pendingTimers := {}, {};
      nextHandle := 1;
    }

    /** useFireworks: no handles unless there is a canvas with a 2D context. */
    static method UseFireworks(hasCanvas: bool, hasContext: bool) returns (e: Option<Engine>)
      ensures e.Some? <==> hasCanvas && hasContext
      ensures e.Some? ==> fresh(e.value) && e.value.Valid() && e.value.particles == []
                          && e.value.animationFrame == None && e.value.timer == None
    {
      if !hasCanvas {
        return None;
      }
      if !hasContext {
        return None;
      }
      var engine := new Engine();
      e := Some(engine);
    }

    /** createFirework(x, y): 50 new particles at (x, y) are pushed after the existing ones. */
    method CreateFirework(x: real, y: real, sparks: seq<Spark>)
      requires |sparks| == NumParticles && ValidSparks(sparks)
      modifies this
      ensures particles == old(particles) + Burst(x, y, sparks)
      ensures animationFrame == old(animationFrame) && timer == old(timer)
      ensures pendingFrames == old(pendingFrames) && pendingTimers == old(pendingTimers)
      ensures nextHandle == old(nextHandle)
    {
      var i := 0;
      while i < NumParticles
        invariant 0 <= i <= NumParticles
        invariant particles == old(particles) + Burst(x, y, sparks[..i])
        invariant animationFrame == old(animationFrame) && timer == old(timer)
        invariant pendingFrames == old(pendingFrames) && pendingTimers == old(pendingTimers)
        invariant nextHandle == old(nextHandle)
      {
        assert Burst(x, y, sparks[..i + 1]) == Burst(x, y, sparks[..i]) + [Spawn(x, y, sparks[i])];
        particles := particles + [Spawn(x, y, sparks[i])];
        i := i + 1;
      }
      assert sparks[..i] == sparks;
    }

    /** requestAnimationFrame: a fresh handle that is now pending. */
    method RequestAnimationFrame() returns (h: nat)
      requires Valid()
      modifies this
      ensures h == old(nextHandle) && h > 0 && h !in old(pendingFrames)
      ensures pendingFrames == old(pendingFrames) + {h} && nextHandle == h + 1
      ensures particles == old(particles) && animationFrame == old(animationFrame)
      ensures timer == old(timer) && pendingTimers == old(pendingTimers)
    {
      h := nextHandle;
      pendingFrames := pendingFrames + {h};
      nextHandle := nextHandle + 1;
    }

    /** setTimeout: a fresh handle that is now pending. */
    method SetTimeout() returns (h: nat)
      requires Valid()
      modifies this
      ensures h == old(nextHandle) && h > 0 && h !in old(pendingTimers)
      ensures pendingTimers == old(pendingTimers) + {h} && nextHandle == h + 1
      ensures particles == old(particles) && animationFrame == old(animationFrame)
      ensures timer == old(timer) && pendingFrames == old(pendingFrames)
    {
      h := nextHandle;
      pendingTimers := pendingTimers + {h};
      nextHandle := nextHandle + 1;
    }

    /**
      animate: every particle is moved once, those that have faded are
      spliced out, the rest keep their order, and the next frame is
      requested and recorded.
     */
    method Animate()
      requires Valid()
      modifies this
      ensures Valid()
      ensures particles == Step(old(particles))
      ensures animationFrame == Some(old(nextHandle)) && nextHandle == old(nextHandle) + 1
      ensures pendingFrames == old(pendingFrames) + {old(nextHandle)}
      ensures timer == old(timer) && pendingTimers == old(pendingTimers)
    {
      ghost var orig := particles;
      var i := |particles| - 1;
      while i >= 0
        invariant -1 <= i < |orig|
        invariant particles == orig[..i + 1] + Step(orig[i + 1..])
        invariant animationFrame == old(animationFrame) && timer == old(timer) && nextHandle == old(nextHandle)
        invariant pendingFrames == old(pendingFrames) && pendingTimers == old(pendingTimers)
      {
        AnimateAt(orig, i);
        particles := particles[i := Advance(particles[i])];
        if particles[i].alpha <= 0 {
          particles := particles[..i] + particles[i + 1..];
        }
        i := i - 1;
      }
      assert orig[..0] == [] && orig[0..] == orig;
      var h := RequestAnimationFrame();
      animationFrame := Some(h);
    }

    /**
      randomFirework: the recorded timer is cleared, a burst is created at
      (x, y), and the next burst is scheduled; the only pending timer is
      then the recorded one.
     */
    method RandomFirework(x: real, y: real, sparks: seq<Spark>)
      requires Valid() && |sparks| == NumParticles && ValidSparks(sparks)
      modifies this
      ensures Valid()
      ensures particles == old(particles) + Burst(x, y, sparks)
      ensures timer == Some(old(nextHandle)) && pendingTimers == {timer.value} && nextHandle == old(nextHandle) + 1
      ensures animationFrame == old(animationFrame) && pendingFrames == old(pendingFrames)
    {
      if timer.Some? {
        pendingTimers := pendingTimers - {timer.value};
      }
      CreateFirework(x, y, sparks);
      var h := SetTimeout();
      timer := Some(h);
    }

    /** launchFireworks: one animate pass, then a burst. There is no guard against a second launch. */
    method LaunchFireworks(x: real, y: real, sparks: seq<Spark>)
      requires Valid() && |sparks| == NumParticles && ValidSparks(sparks)
      modifies this
      ensures Valid()
      ensures particles == Step(old(particles)) + Burst(x, y, sparks)
      ensures animationFrame == Some(old(nextHandle)) && pendingFrames == old(pendingFrames) + {old(nextHandle)}
      ensures timer == Some(old(nextHandle) + 1) && pendingTimers == {timer.value}
    {
      Animate();
      RandomFirework(x, y, sparks);
    }

    /**
      stopFireworks: with no recorded frame nothing happens; otherwise that
      frame is cancelled and forgotten. The timer is left running.
     */
    method StopFireworks()
      requires Valid()
      modifies this
      ensures Valid()
      ensures old(animationFrame).None? ==> pendingFrames == old(pendingFrames)
      ensures old(animationFrame).Some? ==> pendingFrames == old(pendingFrames) - {old(animationFrame).value}
      ensures animationFrame == None
      ensures particles == old(particles) && timer == old(timer) && pendingTimers == old(pendingTimers)
      ensures nextHandle == old(nextHandle)
    {
      if animationFrame.None? {
        return;
      }
      pendingFrames := pendingFrames - {animationFrame.value};
      animationFrame := None;
    }

    /** The host runs pending frame h: it is no longer pending and animate runs. */
    method RunFrame(h: nat)
      requires Valid() && h in pendingFrames
      modifies this
      ensures Valid()
      ensures particles == Step(old(particles)) && animationFrame == Some(old(nextHandle))
      ensures pendingFrames == old(pendingFrames) - {h} + {old(nextHandle)}
      ensures timer == old(timer) && pendingTimers == old(pendingTimers)
    {
      pendingFrames := pendingFrames - {h};
      Animate();
    }

    /** The host runs pending timer h, the recorded one: randomFirework runs again. */
    method RunTimer(h: nat, x: real, y: real, sparks: seq<Spark>)
      requires Valid() && h in pendingTimers && |sparks| == NumParticles && ValidSparks(sparks)
      modifies this
      ensures Valid()
      ensures old(timer) == Some(h)
      ensures particles == old(particles) + Burst(x, y, sparks)
      ensures timer == Some(old(nextHandle)) && pendingTimers == {timer.value}
      ensures animationFrame == old(animationFrame) && pendingFrames == old(pendingFrames)
    {
      pendingTimers := pendingTimers - {h};
      RandomFirework(x, y, sparks);
    }

    /**
      Two launches start two frame chains, and stopFireworks cancels only
      the frame of the second: the first chain's frame is still pending, as
      is the burst timer.
     */
    method LaunchTwiceThenStop(x: real, y: real, sparks: seq<Spark>)
      requires Valid() && |sparks| == NumParticles && ValidSparks(sparks)
      modifies this
      ensures Valid()
      ensures animationFrame == None && old(nextHandle) in pendingFrames
      ensures timer.Some? && pendingTimers == {timer.value}
    {
      LaunchFireworks(x, y, sparks);
      LaunchFireworks(x, y, sparks);
      StopFireworks();
    }

    /** Stopping twice is the same as stopping once. */
    method StopTwice()
      requires Valid()
      modifies this
      ensures Valid() && animationFrame == None
      ensures old(animationFrame).None? ==> pendingFrames == old(pendingFrames)
      ensures old(animationFrame).Some? ==> pendingFrames == old(pendingFrames) - {old(animationFrame).value}
      ensures particles == old(particles) && timer == old(timer) && pendingTimers == old(pendingTimers)
    {
      StopFireworks();
      StopFireworks();
    }
  }
}
