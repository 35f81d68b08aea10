# Strange attractors: ring buffer and simulation step

This project models the core of a small strange-attractor viewer. Each of N
trajectories is a current point plus a fixed-capacity ring buffer that holds
the last L points of its trail. Every tick, each trajectory takes one Euler
step and pushes its new point into its buffer.

- `ring.dfy` (module `Ring`): the buffer's logical view as pure functions.
  - `Filled`, `Shifted` and `History` give the view in recency order.
  - `RankValue` describes each rank without reference to any buffer.
  - `Prev` is the head's cyclic move.
  - `Stores` says how slots hold ranks: rank r is in slot (start + r) % n.
  - The modular-arithmetic lemmas these need are here too.
- `circular_buffer.dfy` (module `CircularBuffer`): the class `CircularBuffer<T>` of
  `src/circular_buffer.rs`.
  - The real state is an `array<T>` of N slots and a `start` index.
  - The ghost state is `contents`, the view; `pushed`, every value pushed so far; and
    `initial`, the fill value.
  - `Valid()` ties `contents[r]` to slot `(start + r) % n`.
  - `Tracks()` ties `contents` to `History(n, initial, pushed)`.
- `util.dfy` (module `Util`): the identical copy of that class kept in `src/util.rs`.
  It adds `CopiesAgree`: the two copies expose the same view and answer every read
  alike.
- `attractors.dfy` (module `Attractors`): the class `Attractor<D, F>` of
  `src/attractors.rs`.
  - `points` is an array of current points, and `buffers` is an array of buffers.
  - The dynamics are abstract. `D` is the dynamics' state. `derivatives` maps the
    state, a point and `dt` to a new state and an increment.
  - `add` is the coordinate addition (`f32 +=` in the source).
  - The update loop is specified by `Sweep`, a pure left-to-right pass over the
    points that threads the dynamics' state from each step to the next.

The buffer capacity is the const generic `N` in the source. Here it is the field `n`,
fixed at construction; the constructor requires `n >= 1`, because `N - 1` in `push`
and `% N` in `get` make no sense for `N == 0`.

`get` takes any index: the code reduces `start + index` modulo N, so every index is
in bounds and reads wrap around. The model follows the code (no precondition on
`index`), even though a contract that forbids out-of-range ranks would be the
narrower reading.

The initial points of `Attractor` are a parameter, in place of the source's random
draw. The dynamics and the coordinate addition are parameters, in place of the
`Dynamics` trait and `f32`.

## Model

| member | source | states |
|---|---|---|
| Ring.Filled | src/circular_buffer.rs:8-13 | the view after `new(d)`: n ranks, every one equal to d |
| Ring.Shifted | src/circular_buffer.rs:15-18 | the view after a push of v: same length, v at rank 0, old rank r at rank r + 1, old oldest rank evicted |
| Ring.History | src/circular_buffer.rs:8-18 | the view of a capacity-n buffer after `new(d)` and a run of pushes: always exactly n ranks; HistoryAt gives each rank's value |
| Ring.HistoryAt | src/circular_buffer.rs:8-22 | after `new(d)` and pushes v1..vk, rank r holds v_{k-r} when r < k and d otherwise |
| Ring.WraparoundExample | src/circular_buffer.rs:15-22 | capacity 4: three pushes keep the default at rank 3; a fourth push evicts it |
| Ring.Prev | src/circular_buffer.rs:16 | the new head is below n and is the slot just before the old head, cyclically ((p + 1) % n == start) |
| Ring.StoresFilled | src/circular_buffer.rs:8-13 | the filled slot array, head at 0, stores the filled view |
| Ring.StoresAfterPush | src/circular_buffer.rs:15-18 | moving the head back one slot and overwriting that slot with v stores the view with v pushed |
| Ring.StoresAt | src/circular_buffer.rs:20-22 | slot (start + index) % n is in bounds and holds rank index % n of the view |
| Ring.SlotAfterPush | src/circular_buffer.rs:16-17 | helper of StoresAfterPush (modular arithmetic): after the head moves back, rank r >= 1 is found where rank r - 1 was, and never in the overwritten slot |
| Ring.ModAbsorb | src/circular_buffer.rs:21 | helper of StoresAt (modular arithmetic): (s + i) % n == (s + i % n) % n, so reducing the index first changes no slot |
| CircularBuffer.CircularBuffer.constructor | src/circular_buffer.rs:8-13 | every slot and every rank holds the default, start is 0, nothing pushed yet, and the buffer is well formed |
| CircularBuffer.CircularBuffer.Push | src/circular_buffer.rs:15-18 | start moves to Prev(start, n); exactly slot start changes, to item; the view becomes Shifted(view, item); well-formedness and the history relation are kept |
| CircularBuffer.CircularBuffer.Get | src/circular_buffer.rs:20-22 | reads rank index % n of the view, which is the value pushed index % n pushes ago or the default; it reads state only |
| CircularBuffer.CircularBuffer.ReadsDefault | src/circular_buffer.rs:8-13 | before any push, every read gives the default |
| CircularBuffer.CircularBuffer.GetWraps | src/circular_buffer.rs:20-22 | get(i) == get(i % n) for every index: reads wrap and never fail |
| Util.CircularBuffer.constructor | src/util.rs:8-13 | as for the first copy: every slot and rank holds the default, start is 0 |
| Util.CircularBuffer.Push | src/util.rs:15-18 | as for the first copy: one slot written, head moved back, view shifted |
| Util.CircularBuffer.Get | src/util.rs:20-22 | as for the first copy: rank index % n of the view, read-only |
| Util.CircularBuffer.ReadsDefault | src/util.rs:8-13 | before any push, every read gives the default |
| Util.CircularBuffer.GetWraps | src/util.rs:20-22 | get(i) == get(i % n) for every index |
| Util.CopiesAgree | src/util.rs:2-23 | a buffer of each copy with the same capacity, default and pushes has the same view and gives the same answer to every read |
| Attractors.Sweep | src/attractors.rs:38-49 | the update as a value: exactly one new point per old point, in index order |
| Attractors.SweepAt | src/attractors.rs:39-45 | trajectory i moves one step from its own old point, with the dynamics' state left by trajectories 0 .. i - 1 |
| Attractors.SweepStateless | src/attractors.rs:40-45 | with dynamics that keep no state (as Halvorsen's at src/attractors.rs:68-74), the state is unchanged and point i becomes old point i plus derivatives(old point i, dt), coordinate by coordinate |
| Attractors.Uncoupled | src/attractors.rs:40-47 | with stateless dynamics, trajectory i's new point is the same whatever the other trajectories' points are |
| Attractors.NewTrails | src/attractors.rs:29 | one fresh buffer per starting point, buffer k filled with point k, no two sharing a buffer or a slot array |
| Attractors.Attractor.constructor | src/attractors.rs:19-36 | N = number of initial points; points are the initial points; buffer i has capacity L and every rank equal to point i; the newest-entry invariant holds |
| Attractors.Attractor.Update | src/attractors.rs:38-49 | the new dynamics' state and points are Sweep of the old ones; buffer i's view is its old view with the new point i pushed; the invariant "newest entry of buffer i is point i" is kept; nothing outside the buffers, the points and the dynamics' state changes |
| Attractors.Attractor.Step | src/attractors.rs:40-47 | one loop iteration: the new dynamics' state and point i are Advance of the old ones (the dynamics' new state is the one `derivatives` returns, and each coordinate gets its own increment); the new point is pushed into buffer i; every other point and buffer is unchanged |
| Attractors.Attractor.NewestIsCurrent | src/attractors.rs:29 | in a well-formed attractor, buffer i's get(0) is point i |

## Left out

- `hsv_to_rgb` (src/util.rs): floating-point colour conversion used only for rendering.
- The Halvorsen formula and its coefficient (src/attractors.rs): `f32` arithmetic, whose rounding is not modelled. The dynamics are a parameter, and coordinate addition is an uninterpreted `add`.
- The random initial points of `Attractor::new`: randomness is not modelled. The initial points are a parameter.
- `draw`: window calls. Its `0..L-2` loop would underflow for `L < 2`; this is not modelled.
- src/main.rs: the window and event loop. `Rossler` and `reset_points_random` are called at src/main.rs:17-18 and are defined in none of src/attractors.rs, src/util.rs and src/circular_buffer.rs, so there is nothing to model them from.
- Overflow of `start + index` in `get` for huge indices: indices are unbounded `nat`.
- Attractors.Attractor.Update: does not state that each buffer's record of pushed values (`pushed`, `Tracks()`) grows by the new point. `Step` states this for one iteration, and the view itself (`contents`) is stated in full.
- The const generics N and L become fields fixed at construction. Their being compile-time constants is not modelled.
