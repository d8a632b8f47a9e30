/** An intersection: the queue of vehicles waiting to enter it, each paired
    with the one-shot promise that lets it in, the occupancy flag, the streets
    that meet there and its traffic light. Vehicles, streets and promises are
    opaque identifiers; fulfilling a promise is recorded by appending to the
    ghost logs `granted` and `fulfilled`. */
module Intersections {
  import opened TrafficLights

  type VehicleId = int
  type StreetId = int
  type PromiseId = int

  /** No element occurs twice in `s`. */
  ghost predicate Distinct<T>(s: seq<T>)
  {
    forall i, j :: 0 <= i < j < |s| ==> s[i] != s[j]
  }

  // ---------------------------------------------------------------------
  // The waiting queue as a value

  /** The two parallel vectors of the waiting queue and the logs of who was
      let in, and through which promise, in order. */
  datatype WaitingState = WaitingState(
    vehicles: seq<VehicleId>,
    promises: seq<PromiseId>,
    granted: seq<VehicleId>,
    fulfilled: seq<PromiseId>)
  {
    /** The vectors stay parallel, and no promise is ever held twice or
        fulfilled twice or both fulfilled and still waiting. */
    ghost predicate Valid()
    {
      && |vehicles| == |promises|
      && |granted| == |fulfilled|
      && Distinct(fulfilled + promises)
    }
  }

  const EmptyQueue := WaitingState([], [], [], [])

  /** Appending a vehicle and its promise at the tail. */
  function Push(s: WaitingState, v: VehicleId, p: PromiseId): (t: WaitingState)
    ensures |t.vehicles| == |s.vehicles| + 1 && t.vehicles[|s.vehicles|] == v
    ensures |t.promises| == |s.promises| + 1 && t.promises[|s.promises|] == p
    ensures t.vehicles[..|s.vehicles|] == s.vehicles && t.promises[..|s.promises|] == s.promises
    ensures t.granted == s.granted && t.fulfilled == s.fulfilled
  {
    WaitingState(s.vehicles + [v], s.promises + [p], s.granted, s.fulfilled)
  }

  /** Letting the head vehicle in: its promise is fulfilled and the first
      entry of both vectors is removed. */
  function Grant(s: WaitingState): (t: WaitingState)
    requires s.vehicles != [] && s.promises != []
    ensures t.vehicles == s.vehicles[1..] && t.promises == s.promises[1..]
    ensures |t.granted| == |s.granted| + 1 && t.granted[|s.granted|] == s.vehicles[0]
    ensures |t.fulfilled| == |s.fulfilled| + 1 && t.fulfilled[|s.fulfilled|] == s.promises[0]
    ensures t.granted[..|s.granted|] == s.granted && t.fulfilled[..|s.fulfilled|] == s.fulfilled
  {
    WaitingState(s.vehicles[1..], s.promises[1..], s.granted + [s.vehicles[0]], s.fulfilled + [s.promises[0]])
  }

  /** A push keeps the queue consistent provided the promise is new. */
  lemma PushKeepsValid(s: WaitingState, v: VehicleId, p: PromiseId)
    requires s.Valid() && p !in s.promises && p !in s.fulfilled
    ensures Push(s, v, p).Valid()
  {
    var all := s.fulfilled + s.promises;
    assert Push(s, v, p).fulfilled + Push(s, v, p).promises == all + [p];
    assert p !in all;
  }

  /** A grant keeps the queue consistent: the fulfilled promise leaves the
      queue in the same step, so it can never be fulfilled again. */
  lemma GrantKeepsValid(s: WaitingState)
    requires s.Valid() && s.vehicles != []
    ensures Grant(s).Valid()
    ensures s.promises[0] !in Grant(s).promises
  {
    var t := Grant(s);
    assert t.fulfilled + t.promises == s.fulfilled + s.promises;
    assert (s.fulfilled + s.promises)[|s.fulfilled|] == s.promises[0];
    forall k | 0 <= k < |t.promises|
      ensures t.promises[k] != s.promises[0]
    {
      assert t.promises[k] == (s.fulfilled + s.promises)[|s.fulfilled| + 1 + k];
    }
  }

  /** Pushing the vehicles `vs` with the promises `ps`, in order. */
  function PushAll(s: WaitingState, vs: seq<VehicleId>, ps: seq<PromiseId>): WaitingState
    requires |vs| == |ps|
    decreases |vs|
  {
    if vs == [] then s else PushAll(Push(s, vs[0], ps[0]), vs[1..], ps[1..])
  }

  /** `n` grants in a row. */
  function GrantN(s: WaitingState, n: nat): WaitingState
    requires n <= |s.vehicles| && n <= |s.promises|
    decreases n
  {
    if n == 0 then s else GrantN(Grant(s), n - 1)
  }

  lemma {:induction false} PushAllAppends(s: WaitingState, vs: seq<VehicleId>, ps: seq<PromiseId>)
    requires |vs| == |ps|
    ensures PushAll(s, vs, ps).vehicles == s.vehicles + vs
    ensures PushAll(s, vs, ps).promises == s.promises + ps
    ensures PushAll(s, vs, ps).granted == s.granted
    ensures PushAll(s, vs, ps).fulfilled == s.fulfilled
    decreases |vs|
  {
    if vs != [] {
      PushAllAppends(Push(s, vs[0], ps[0]), vs[1..], ps[1..]);
      assert s.vehicles + [vs[0]] + vs[1..] == s.vehicles + vs;
      assert s.promises + [ps[0]] + ps[1..] == s.promises + ps;
    }
  }

  /** `n` grants let in the first `n` waiting vehicles, in queue order, and
      leave the rest waiting in their order. */
  lemma {:induction false} GrantNTakesPrefix(s: WaitingState, n: nat)
    requires n <= |s.vehicles| && n <= |s.promises|
    ensures GrantN(s, n).granted == s.granted + s.vehicles[..n]
    ensures GrantN(s, n).fulfilled == s.fulfilled + s.promises[..n]
    ensures GrantN(s, n).vehicles == s.vehicles[n..]
    ensures GrantN(s, n).promises == s.promises[n..]
    decreases n
  {
    if n > 0 {
      var t := Grant(s);
      GrantNTakesPrefix(t, n - 1);
      assert s.vehicles[1..][..n - 1] == s.vehicles[1..n];
      assert s.granted + [s.vehicles[0]] + s.vehicles[1..n] == s.granted + s.vehicles[..n];
      assert s.promises[1..][..n - 1] == s.promises[1..n];
      assert s.fulfilled + [s.promises[0]] + s.promises[1..n] == s.fulfilled + s.promises[..n];
      assert s.vehicles[1..][n - 1..] == s.vehicles[n..];
      assert s.promises[1..][n - 1..] == s.promises[n..];
    }
  }

  /** FIFO: after N pushes onto an empty queue followed by N grants, the
      vehicles were let in exactly in the order they were pushed, each through
      its own promise, and the queue is empty again. */
  lemma Fifo(s: WaitingState, vs: seq<VehicleId>, ps: seq<PromiseId>)
    requires s.vehicles == [] && s.promises == [] && |vs| == |ps|
    ensures |PushAll(s, vs, ps).vehicles| == |vs| == |PushAll(s, vs, ps).promises|
    ensures GrantN(PushAll(s, vs, ps), |vs|).granted == s.granted + vs
    ensures GrantN(PushAll(s, vs, ps), |vs|).fulfilled == s.fulfilled + ps
    ensures GrantN(PushAll(s, vs, ps), |vs|).vehicles == []
    ensures GrantN(PushAll(s, vs, ps), |vs|).promises == []
  {
    var q := PushAll(s, vs, ps);
    PushAllAppends(s, vs, ps);
    GrantNTakesPrefix(q, |vs|);
    assert q.vehicles[..|vs|] == vs && q.promises[..|vs|] == ps;
  }

  // ---------------------------------------------------------------------
  // The occupancy state machine as a value

  /** The occupancy flag and the waiting queue of an intersection. */
  datatype IntersectionState = IntersectionState(isBlocked: bool, queue: WaitingState)

  /** One pass of the admission loop: when some vehicle waits and the
      intersection is free, block it and let the head vehicle in. */
  function AdmitStep(s: IntersectionState): (t: IntersectionState)
    requires |s.queue.vehicles| == |s.queue.promises|
    ensures |t.queue.vehicles| == |t.queue.promises|
    ensures |t.queue.granted| > |s.queue.granted| <==> s.queue.vehicles != [] && !s.isBlocked
    ensures s.queue.vehicles != [] && !s.isBlocked ==> t.isBlocked && t.queue == Grant(s.queue)
    ensures s.queue.vehicles == [] || s.isBlocked ==> t == s
  {
    if |s.queue.vehicles| > 0 && !s.isBlocked then IntersectionState(true, Grant(s.queue)) else s
  }

  /** A vehicle leaving frees the intersection; the queue is untouched. */
  function Depart(s: IntersectionState): (t: IntersectionState)
    ensures !t.isBlocked && t.queue == s.queue
  {
    IntersectionState(false, s.queue)
  }

  /** Once a pass has run, further passes change nothing until a vehicle
      leaves: no second vehicle is let in while one is inside. */
  lemma AdmitStepIdempotent(s: IntersectionState)
    requires |s.queue.vehicles| == |s.queue.promises|
    ensures AdmitStep(AdmitStep(s)) == AdmitStep(s)
  {
  }

  /** What can happen to an intersection, one atomic step at a time. */
  datatype Event =
    | Pass                                        // one pass of the admission loop
    | Arrive(vehicle: VehicleId, promise: PromiseId)  // a vehicle joins the queue
    | Leave                                       // the vehicle inside leaves

  function Apply(s: IntersectionState, e: Event): (t: IntersectionState)
    requires |s.queue.vehicles| == |s.queue.promises|
    ensures |t.queue.vehicles| == |t.queue.promises|
  {
    match e
    case Pass => AdmitStep(s)
    case Arrive(v, p) => IntersectionState(s.isBlocked, Push(s.queue, v, p))
    case Leave => Depart(s)
  }

  /** The state after the events, applied in order. */
  function Run(s: IntersectionState, events: seq<Event>): (t: IntersectionState)
    requires |s.queue.vehicles| == |s.queue.promises|
    ensures |t.queue.vehicles| == |t.queue.promises|
    decreases |events|
  {
    if events == [] then s else Run(Apply(s, events[0]), events[1..])
  }

  function Leaves(events: seq<Event>): nat
  {
    if events == [] then 0 else (if events[0].Leave? then 1 else 0) + Leaves(events[1..])
  }

  /** Vehicles let in so far, plus one if the intersection is free. */
  function Admissions(s: IntersectionState): nat
  {
    |s.queue.granted| + if s.isBlocked then 0 else 1
  }

  /** Mutual exclusion: over any sequence of events, the number of vehicles let
      in grows by at most the number of departures, plus one when the
      intersection starts free. */
  lemma {:induction false} MutualExclusion(s: IntersectionState, events: seq<Event>)
    requires |s.queue.vehicles| == |s.queue.promises|
    ensures Admissions(Run(s, events)) <= Admissions(s) + Leaves(events)
    ensures |Run(s, events).queue.granted| <= |s.queue.granted| + Leaves(events) + (if s.isBlocked then 0 else 1)
    decreases |events|
  {
    if events != [] {
      MutualExclusion(Apply(s, events[0]), events[1..]);
    }
  }

  /** The vehicle an event brings to the queue, if any. */
  function Arrived(e: Event): seq<VehicleId>
  {
    if e.Arrive? then [e.vehicle] else []
  }

  lemma SeqAssociative<T>(a: seq<T>, b: seq<T>, c: seq<T>)
    ensures a + b + c == a + (b + c)
  {
  }

  /** One event keeps the log of admissions followed by the queue equal to the
      old log and queue followed by the vehicle that arrived, if any. */
  lemma ApplyKeepsArrivalOrder(s: IntersectionState, e: Event)
    requires |s.queue.vehicles| == |s.queue.promises|
    ensures Apply(s, e).queue.granted + Apply(s, e).queue.vehicles
         == s.queue.granted + s.queue.vehicles + Arrived(e)
  {
    var t := Apply(s, e);
    match e {
      case Pass =>
        if s.queue.vehicles != [] && !s.isBlocked {
          assert t.queue.granted + t.queue.vehicles == s.queue.granted + s.queue.vehicles;
        }
      case Arrive(v, p) =>
        assert t.queue.granted + t.queue.vehicles == s.queue.granted + s.queue.vehicles + [v];
      case Leave =>
    }
  }

  /** Every vehicle let in is one that arrived, in arrival order: the log of
      admissions followed by the queue is the log followed by the arrivals. */
  lemma {:induction false} RunPreservesArrivalOrder(s: IntersectionState, events: seq<Event>)
    requires |s.queue.vehicles| == |s.queue.promises|
    ensures Run(s, events).queue.granted + Run(s, events).queue.vehicles
         == s.queue.granted + s.queue.vehicles + Arrivals(events)
    decreases |events|
  {
    if events != [] {
      var t := Apply(s, events[0]);
      RunPreservesArrivalOrder(t, events[1..]);
      ApplyKeepsArrivalOrder(s, events[0]);
      SeqAssociative(s.queue.granted + s.queue.vehicles, Arrived(events[0]), Arrivals(events[1..]));
    }
  }

  /** The vehicles that arrive during the events, in order. */
  function Arrivals(events: seq<Event>): seq<VehicleId>
  {
    if events == [] then [] else Arrived(events[0]) + Arrivals(events[1..])
  }

  // ---------------------------------------------------------------------
  // Connected streets

  /** The streets of `streets`, in order, whose identifier differs from
      `incoming`. */
  function Outgoing(streets: seq<StreetId>, incoming: StreetId): (r: seq<StreetId>)
    ensures |r| <= |streets|
    ensures forall s :: s in r <==> s in streets && s != incoming
  {
    if streets == [] then []
    else
      var init := streets[..|streets| - 1];
      var last := streets[|streets| - 1];
      assert streets == init + [last];
      Outgoing(init, incoming) + if last != incoming then [last] else []
  }

  /** The filter works piecewise, so it keeps the streets in their order. */
  lemma {:induction false} OutgoingAppend(a: seq<StreetId>, b: seq<StreetId>, incoming: StreetId)
    ensures Outgoing(a + b, incoming) == Outgoing(a, incoming) + Outgoing(b, incoming)
    decreases |b|
  {
    if b != [] {
      var init := b[..|b| - 1];
      assert (a + b)[..|a + b| - 1] == a + init;
      OutgoingAppend(a, init, incoming);
    } else {
      assert a + b == a;
    }
  }

  /** A street list that does not contain `incoming` comes back whole. */
  lemma {:induction false} OutgoingWithoutIncoming(streets: seq<StreetId>, incoming: StreetId)
    requires incoming !in streets
    ensures Outgoing(streets, incoming) == streets
  {
    if streets != [] {
      var init := streets[..|streets| - 1];
      assert streets == init + [streets[|streets| - 1]];
      OutgoingWithoutIncoming(init, incoming);
    }
  }

  // ---------------------------------------------------------------------
  // The objects

  /** The waiting queue, guarded in the source by a mutex; each method here
      is one atomic step. */
  class WaitingVehicles {
    var vehicles: seq<VehicleId>
    var promises: seq<PromiseId>
    ghost var granted: seq<VehicleId>
    ghost var fulfilled: seq<PromiseId>

    ghost function State(): WaitingState
      reads this
    {
      WaitingState(vehicles, promises, granted, fulfilled)
    }

    ghost predicate Valid()
      reads this
    {
      State().Valid()
    }

    constructor ()
      ensures Valid() && State() == EmptyQueue
    {
      vehicles, promises := [], [];
      granted, fulfilled := [], [];
    }

    /** The number of waiting vehicles. */
    method GetSize() returns (n: int)
      ensures n == |vehicles|
    {
      n := |vehicles|;
    }

    /** Appends the vehicle and its promise. The promise is a new object,
        neither waiting nor already fulfilled. */
    method PushBack(vehicle: VehicleId, promise: PromiseId)
      requires Valid() && promise !in promises && promise !in fulfilled
      modifies this
      ensures Valid()
      ensures State() == Push(old(State()), vehicle, promise)
    {
      PushKeepsValid(State(), vehicle, promise);
      vehicles := vehicles + [vehicle];
      promises := promises + [promise];
    }

    /** Fulfils the head promise and removes the head of both vectors. The
        source does not check for an empty queue. */
    method PermitEntryToFirstInQueue()
      requires Valid() && vehicles != []
      modifies this
      ensures Valid()
      ensures State() == Grant(old(State()))
    {
      GrantKeepsValid(State());
      granted := granted + [vehicles[0]];
      fulfilled := fulfilled + [promises[0]];
      vehicles := vehicles[1..];
      promises := promises[1..];
    }
  }

  /** N vehicles pushed onto an empty queue and then let in one by one are let
      in in the order they were pushed. */
  method AdmitInArrivalOrder(w: WaitingVehicles, vs: seq<VehicleId>, ps: seq<PromiseId>)
    requires w.Valid() && w.vehicles == [] && |vs| == |ps|
    requires Distinct(ps) && forall p :: p in ps ==> p !in w.fulfilled
    modifies w
    ensures w.Valid()
    ensures w.granted == old(w.granted) + vs && w.fulfilled == old(w.fulfilled) + ps
    ensures w.vehicles == [] && w.promises == []
  {
    var i := 0;
    while i < |vs|
      invariant 0 <= i <= |vs|
      invariant w.Valid()
      invariant w.vehicles == vs[..i] && w.promises == ps[..i]
      invariant w.granted == old(w.granted) && w.fulfilled == old(w.fulfilled)
    {
      assert ps[i] !in ps[..i] by {
        forall k | 0 <= k < i ensures ps[..i][k] != ps[i] { assert ps[..i][k] == ps[k]; }
      }
      w.PushBack(vs[i], ps[i]);
      assert vs[..i + 1] == vs[..i] + [vs[i]] && ps[..i + 1] == ps[..i] + [ps[i]];
      i := i + 1;
    }
    assert vs[..i] == vs && ps[..i] == ps;
    var j := 0;
    while j < |vs|
      invariant 0 <= j <= |vs|
      invariant w.Valid()
      invariant w.vehicles == vs[j..] && w.promises == ps[j..]
      invariant w.granted == old(w.granted) + vs[..j] && w.fulfilled == old(w.fulfilled) + ps[..j]
    {
      w.PermitEntryToFirstInQueue();
      assert vs[..j + 1] == vs[..j] + [vs[j]] && ps[..j + 1] == ps[..j] + [ps[j]];
      j := j + 1;
    }
    assert vs[..j] == vs && ps[..j] == ps;
  }

  class Intersection {
    var isBlocked: bool
    var streets: seq<StreetId>
    const waitingVehicles: WaitingVehicles
    const trafficLight: TrafficLight

    ghost predicate Valid()
      reads this, waitingVehicles
    {
      waitingVehicles.Valid()
    }

    ghost function State(): IntersectionState
      reads this, waitingVehicles
    {
      IntersectionState(isBlocked, waitingVehicles.State())
    }

    /** A new intersection is free, has no streets, an empty queue and a red
        light that has published nothing. */
    constructor ()
      ensures Valid()
      ensures !isBlocked && streets == []
      ensures fresh(waitingVehicles) && waitingVehicles.State() == EmptyQueue
      ensures fresh(trafficLight) && fresh(trafficLight.messages) && trafficLight.currentPhase == Red
      ensures trafficLight.messages.queue == []
    {
      isBlocked := false;
      streets := [];
      waitingVehicles := new WaitingVehicles();
      trafficLight := new TrafficLight();
    }

    method AddStreet(street: StreetId)
      modifies this
      ensures streets == old(streets) + [street]
      ensures isBlocked == old(isBlocked)
    {
      streets := streets + [street];
    }

    /** Every connected street other than `incoming`, in connection order. */
    method QueryStreets(incoming: StreetId) returns (outgoing: seq<StreetId>)
      ensures outgoing == Outgoing(streets, incoming)
      ensures incoming !in outgoing
      ensures forall s :: s in streets && s != incoming ==> s in outgoing
      ensures forall s :: s in outgoing ==> s in streets
    {
      outgoing := [];
      var i := 0;
      while i < |streets|
        invariant 0 <= i <= |streets|
        invariant outgoing == Outgoing(streets[..i], incoming)
      {
        var street := streets[i];
        assert streets[..i + 1][..i] == streets[..i];
        if incoming != street {
          outgoing := outgoing + [street];
        }
        i := i + 1;
      }
      assert streets[..i] == streets;
    }

    method SetIsBlocked(blocked: bool)
      modifies this
      ensures isBlocked == blocked
      ensures streets == old(streets)
    {
      isBlocked := blocked;
    }

    /** Frees the intersection; which vehicle leaves is not checked. */
    method VehicleHasLeft(vehicle: VehicleId)
      modifies this
      ensures State() == Depart(old(State()))
      ensures streets == old(streets)
    {
      SetIsBlocked(false);
    }

    /** One pass of the admission loop. */
    method ProcessVehicleQueueStep() returns (admitted: bool)
      requires Valid()
      modifies this, waitingVehicles
      ensures Valid()
      ensures admitted <==> old(waitingVehicles.vehicles) != [] && !old(isBlocked)
      ensures State() == AdmitStep(old(State()))
      ensures streets == old(streets)
    {
      var size := waitingVehicles.GetSize();
      admitted := size > 0 && !isBlocked;
      if admitted {
        SetIsBlocked(true);
        waitingVehicles.PermitEntryToFirstInQueue();
      }
    }

    /** `passes` passes of the admission loop with no vehicle arriving or
        leaving in between: at most one vehicle is let in. */
    method ProcessVehicleQueue(passes: nat) returns (admitted: nat)
      requires Valid()
      modifies this, waitingVehicles
      ensures Valid()
      ensures admitted <= 1
      ensures State() == if passes == 0 then old(State()) else AdmitStep(old(State()))
      ensures |waitingVehicles.granted| == |old(waitingVehicles.granted)| + admitted
      ensures streets == old(streets)
    {
      admitted := 0;
      var i := 0;
      while i < passes
        invariant 0 <= i <= passes
        invariant Valid()
        invariant admitted <= 1
        invariant State() == if i == 0 then old(State()) else AdmitStep(old(State()))
        invariant |waitingVehicles.granted| == |old(waitingVehicles.granted)| + admitted
        invariant streets == old(streets)
      {
        AdmitStepIdempotent(old(State()));
        var step := ProcessVehicleQueueStep();
        if step {
          admitted := admitted + 1;
        }
        i := i + 1;
      }
    }

    method TrafficLightIsGreen() returns (green: bool)
      ensures green <==> trafficLight.currentPhase == Green
    {
      var phase := trafficLight.GetCurrentPhase();
      green := phase == Green;
    }

    /** What a vehicle does once let in: on red it waits for the next green,
        fed with the messages its receives deliver; on green it goes on at
        once. */
    method AwaitGreenOnEntry(received: seq<Phase>) returns (released: bool, consumed: nat)
      ensures released <==> trafficLight.currentPhase == Green || Green in received
      ensures trafficLight.currentPhase == Green ==> consumed == 0
      ensures trafficLight.currentPhase == Red ==> consumed == UntilGreen(received)
    {
      var phase := trafficLight.GetCurrentPhase();
      if phase == Red {
        released, consumed := TrafficLight.WaitForGreen(received);
      } else {
        released, consumed := true, 0;
      }
    }
  }
}
