/**
 * The simulation step of src/attractors.rs: N trajectories, each a current
 * point paired with its own ring buffer of the last L points.
 *
 * The number type of the coordinates (f32 in the source) is the type
 * parameter F and its addition is the parameter `add`. The dynamics are a
 * value of type D together with `derivatives`, which takes the dynamics'
 * state, a point and a time step and returns the new state and the
 * increment (dx, dy, dz), already scaled by the time step. The source's
 * derivatives method may change its receiver, so the state is threaded
 * through the calls in the order the trajectories are visited.
 */
module Attractors {
  import Ring
  import CB = CircularBuffer

  datatype Point3<F> = Point3(x: F, y: F, z: F)

  /**
   * One trajectory's step from point p with dynamics state d: the new state
   * and the point moved by the increment, coordinate by coordinate.
   */
  function Advance<D, F>(derivatives: (D, F, F, F, F) -> (D, (F, F, F)), add: (F, F) -> F,
                         d: D, p: Point3<F>, dt: F): (D, Point3<F>)
  {
    var (d', inc) := derivatives(d, p.x, p.y, p.z, dt);
    (d', Point3(add(p.x, inc.0), add(p.y, inc.1), add(p.z, inc.2)))
  }

  /**
   * The whole update as a value: every point of ps advanced once, in index
   * order, with the dynamics state handed from each step to the next.
   */
  function Sweep<D, F>(derivatives: (D, F, F, F, F) -> (D, (F, F, F)), add: (F, F) -> F,
                       d: D, ps: seq<Point3<F>>, dt: F): (r: (D, seq<Point3<F>>))
    ensures |r.1| == |ps|
    decreases |ps|
  {
    if ps == [] then (d, [])
    else
      var (d1, qs) := Sweep(derivatives, add, d, ps[..|ps| - 1], dt);
      var (d2, q) := Advance(derivatives, add, d1, ps[|ps| - 1], dt);
      (d2, qs + [q])
  }

  /** Extending the trajectories by one more point runs one more step, last. */
  lemma SweepSnoc<D, F>(derivatives: (D, F, F, F, F) -> (D, (F, F, F)), add: (F, F) -> F,
                        d: D, ps: seq<Point3<F>>, p: Point3<F>, dt: F)
    ensures Sweep(derivatives, add, d, ps + [p], dt)
         == var (d1, qs) := Sweep(derivatives, add, d, ps, dt);
            var (d2, q) := Advance(derivatives, add, d1, p, dt);
            (d2, qs + [q])
  {
  }

  /**
   * Trajectory i moves exactly one step, taken from its own old point with
   * the dynamics state left by trajectories 0 .. i - 1.
   */
  lemma {:induction false} SweepAt<D, F>(derivatives: (D, F, F, F, F) -> (D, (F, F, F)), add: (F, F) -> F,
                                         d: D, ps: seq<Point3<F>>, dt: F, i: nat)
    requires i < |ps|
    ensures Sweep(derivatives, add, d, ps, dt).1[i]
         == Advance(derivatives, add, Sweep(derivatives, add, d, ps[..i], dt).0, ps[i], dt).1
    decreases |ps|
  {
    var init := ps[..|ps| - 1];
    if i < |ps| - 1 {
      SweepAt(derivatives, add, d, init, dt, i);
      assert init[..i] == ps[..i];
    } else {
      assert init == ps[..i];
    }
  }

  /** Dynamics that never change their own state, as Halvorsen's derivatives do not. */
  ghost predicate Stateless<D(!new), F(!new)>(derivatives: (D, F, F, F, F) -> (D, (F, F, F)))
  {
    forall d, x, y, z, dt :: derivatives(d, x, y, z, dt).0 == d
  }

  /**
   * With stateless dynamics the update leaves the state alone and moves
   * every point by a step that depends on that point alone.
   */
  lemma {:induction false} SweepStateless<D(!new), F(!new)>(derivatives: (D, F, F, F, F) -> (D, (F, F, F)), add: (F, F) -> F,
                                                d: D, ps: seq<Point3<F>>, dt: F)
    requires Stateless(derivatives)
    ensures Sweep(derivatives, add, d, ps, dt).0 == d
    ensures forall i :: 0 <= i < |ps| ==>
              Sweep(derivatives, add, d, ps, dt).1[i] == Advance(derivatives, add, d, ps[i], dt).1
    decreases |ps|
  {
    if ps != [] {
      SweepStateless(derivatives, add, d, ps[..|ps| - 1], dt);
    }
  }

  /**
   * No coupling: with stateless dynamics, trajectory i's new point is the
   * same whatever the other trajectories' points are.
   */
  lemma Uncoupled<D(!new), F(!new)>(derivatives: (D, F, F, F, F) -> (D, (F, F, F)), add: (F, F) -> F,
                        d: D, ps: seq<Point3<F>>, qs: seq<Point3<F>>, dt: F, i: nat)
    requires Stateless(derivatives)
    requires |ps| == |qs| && i < |ps| && ps[i] == qs[i]
    ensures Sweep(derivatives, add, d, ps, dt).1[i] == Sweep(derivatives, add, d, qs, dt).1[i]
  {
    SweepStateless(derivatives, add, d, ps, dt);
    SweepStateless(derivatives, add, d, qs, dt);
  }

  /**
   * One trail per starting point, in order: trail k is a fresh buffer of
   * capacity l filled with point k, and no two trails share a buffer or a slot.
   * `made` collects the new buffers and their slot arrays.
   */
  method NewTrails<P>(initial: seq<P>, l: nat) returns (bs: seq<CB.CircularBuffer<P>>, ghost made: set<object>)
    requires l >= 1
    ensures |bs| == |initial| && fresh(made)
    ensures forall k :: 0 <= k < |bs| ==> bs[k] in made && bs[k].buffer in made
    ensures forall k :: 0 <= k < |bs| ==> bs[k].Valid()
    ensures forall k :: 0 <= k < |bs| ==> bs[k].n == l && bs[k].initial == initial[k]
    ensures forall k :: 0 <= k < |bs| ==> bs[k].contents == Ring.Filled(l, initial[k]) && bs[k].pushed == []
    ensures forall j, k :: 0 <= j < k < |bs| ==> bs[j] != bs[k] && bs[j].buffer != bs[k].buffer
  {
    bs, made := [], {};
    for i := 0 to |initial|
      invariant |bs| == i && fresh(made)
      invariant forall k :: 0 <= k < i ==> bs[k] in made && bs[k].buffer in made
      invariant forall k :: 0 <= k < i ==> bs[k].Valid()
      invariant forall k :: 0 <= k < i ==> bs[k].n == l && bs[k].initial == initial[k]
      invariant forall k :: 0 <= k < i ==> bs[k].contents == Ring.Filled(l, initial[k]) && bs[k].pushed == []
      invariant forall j, k :: 0 <= j < k < i ==> bs[j] != bs[k] && bs[j].buffer != bs[k].buffer
    {
      label Creating:
      var b := new CB.CircularBuffer(l, initial[i]);
      assert b !in made && b.buffer !in made;
      forall k | 0 <= k < i
        ensures bs[k].Valid() && bs[k].contents == Ring.Filled(l, initial[k]) && bs[k].pushed == []
      {
        bs[k].Untouched@Creating();
      }
      bs := bs + [b];
      made := made + {b, b.buffer};
    }
  }

  class Attractor<D, F> {
    /** The number of trajectories N. */
    const n: nat
    /** The trail length L, the capacity of every buffer. */
    const l: nat
    /** The current point of every trajectory. */
    const points: array<Point3<F>>
    /** The trail of every trajectory, buffers[i] belonging to points[i]. */
    const buffers: array<CB.CircularBuffer<Point3<F>>>
    /** The dynamics' state. */
    var dynamics: D
    const derivatives: (D, F, F, F, F) -> (D, (F, F, F))
    const add: (F, F) -> F

    /** The buffers and their slot arrays. */
    ghost const Repr: set<object>

    ghost predicate Valid()
      reads points, buffers, Repr
    {
      Owned() && Coherent()
    }

    /**
     * The shape of the state, fixed at construction: N points and N
     * buffers of capacity L, every buffer and its slots owned by one
     * trajectory alone.
     */
    ghost predicate Owned()
      reads buffers
    {
      points.Length == n && buffers.Length == n && l >= 1 &&
      (forall i :: 0 <= i < n ==> buffers[i] in Repr && buffers[i].buffer in Repr) && points !in Repr &&
      (forall i, j :: 0 <= i < j < n ==> buffers[i] != buffers[j] && buffers[i].buffer != buffers[j].buffer) &&
      (forall i :: 0 <= i < n ==> buffers[i].buffer != points && buffers[i].n == l)
    }

    /** Every buffer is well formed and its newest entry is its trajectory's current point. */
    ghost predicate Coherent()
      requires Owned()
      reads points, buffers, Repr
    {
      forall i :: 0 <= i < n ==> buffers[i].Valid() && buffers[i].contents[0] == points[i]
    }

    /**
     * N = |initial| trajectories starting at the given points, each with a
     * buffer of capacity l filled with its own starting point.
     */
    constructor (initial: seq<Point3<F>>, l: nat, dynamics: D,
                 derivatives: (D, F, F, F, F) -> (D, (F, F, F)), add: (F, F) -> F)
      requires l >= 1
      ensures Valid() && fresh(points) && fresh(buffers) && fresh(Repr)
      ensures n == |initial| && this.l == l && points[..] == initial
      ensures this.dynamics == dynamics && this.derivatives == derivatives && this.add == add
      ensures forall i :: 0 <= i < n ==>
                buffers[i].contents == Ring.Filled(l, initial[i]) &&
                buffers[i].initial == initial[i] && buffers[i].pushed == []
    {
      var bs;
      ghost var made;
      bs, made := NewTrails(initial, l);
      n := |initial|;
      this.l := l;
      points := new Point3<F>[|initial|](k requires 0 <= k < |initial| => initial[k]);
      buffers := new CB.CircularBuffer<Point3<F>>[|initial|](k requires 0 <= k < |initial| => bs[k]);
      this.dynamics := dynamics;
      this.derivatives := derivatives;
      this.add := add;
      Repr := made;
      new;
      assert points[..] == initial;
    }

    /**
     * One tick: every trajectory, in index order, takes one Euler step and
     * pushes its new point into its own buffer.
     */
    method Update(dt: F)
      requires Valid()
      modifies this, points, Repr
      ensures Valid()
      ensures (dynamics, points[..]) == Sweep(derivatives, add, old(dynamics), old(points[..]), dt)
      ensures forall i :: 0 <= i < n ==>
                buffers[i].contents == Ring.Shifted(old(buffers[i].contents), points[i])
    {
      ghost var ps0 := points[..];
      ghost var d, qs := dynamics, [];
      for i := 0 to n
        invariant Valid()
        invariant (d, qs) == Sweep(derivatives, add, old(dynamics), ps0[..i], dt)
        invariant dynamics == d
        invariant forall k :: 0 <= k < i ==> points[k] == qs[k]
        invariant forall k :: i <= k < n ==> points[k] == ps0[k]
        invariant forall k :: 0 <= k < i ==>
                    buffers[k].contents == Ring.Shifted(old(buffers[k].contents), points[k])
        invariant forall k :: i <= k < n ==> buffers[k].contents == old(buffers[k].contents)
      {
        Step(i, dt);
        assert ps0[..i + 1] == ps0[..i] + [ps0[i]];
        SweepSnoc(derivatives, add, old(dynamics), ps0[..i], ps0[i], dt);
        d, qs := dynamics, qs + [points[i]];
      }
      assert ps0 == ps0[..n];
      assert points[..] == qs;
    }

    /**
     * The body of the update loop for trajectory i: ask the dynamics for an
     * increment at the current point, add it, and push the new point into
     * the trajectory's buffer. No other trajectory is touched.
     */
    method Step(i: nat, dt: F)
      requires Valid() && i < n
      modifies this, points, buffers[i], buffers[i].buffer
      ensures Valid()
      ensures (dynamics, points[i]) == Advance(derivatives, add, old(dynamics), old(points[i]), dt)
      ensures forall k :: 0 <= k < n && k != i ==> points[k] == old(points[k])
      ensures forall k :: 0 <= k < n && k != i ==> buffers[k].contents == old(buffers[k].contents)
      ensures buffers[i].contents == Ring.Shifted(old(buffers[i].contents), points[i])
      ensures buffers[i].pushed == old(buffers[i].pushed) + [points[i]]
    {
      var p := points[i];
      var (d', inc) := derivatives(dynamics, p.x, p.y, p.z, dt);
      dynamics := d';
      points[i] := Point3(add(p.x, inc.0), add(p.y, inc.1), add(p.z, inc.2));
      buffers[i].Push(points[i]);
      forall k | 0 <= k < n && k != i
        ensures buffers[k].Valid() && buffers[k].contents[0] == points[k]
        ensures buffers[k].contents == old(buffers[k].contents)
      {
        assert buffers[k] != buffers[i] && buffers[k].buffer != buffers[i].buffer;
      }
    }

    /** The newest entry of trajectory i's trail is its current point. */
    lemma NewestIsCurrent(i: nat)
      requires Valid() && i < n
      ensures buffers[i].Get(0) == points[i]
    {
    }
  }
}
