# Concurrent traffic simulation: intersection admission and traffic light

This project is a Dafny model of the sequential core of a threaded traffic
simulation. Vehicles queue at an intersection. A background admission loop
lets the head vehicle in whenever the intersection is free. A traffic light
toggles between red and green at random intervals and publishes each new
phase through a single-slot message queue. A vehicle that is let in during
red waits for a green message before it goes on.

Each operation that the source guards with a mutex is one atomic method here.
Threads, sleeping, the system clock and `rand()` are abstracted away: elapsed
time, clock readings and the values `rand()` returns are parameters. Vehicles,
streets and promises are opaque integer identifiers. Fulfilling a vehicle's
promise is recorded by appending the vehicle to a ghost `granted` log and the
promise to a ghost `fulfilled` log.

Files:

- `traffic_light.dfy`, module `TrafficLights` (models `src/TrafficLight.cpp`):
  the `Phase` datatype, `Toggle`, the cycle-duration draw, the class
  `MessageQueue<T>` over a `seq<T>`, and the class `TrafficLight` with its
  receive loop `WaitForGreen`, one pass of the cycling loop (`CycleStep`) and
  the cycling loop over a finite run of clock readings (`CycleThroughPhases`).
- `intersection.dfy`, module `Intersections` (models `src/Intersection.cpp`):
  value-level specifications of the waiting queue (`WaitingState`, `Push`,
  `Grant`) and of the occupancy state machine (`AdmitStep`, `Depart`, `Run`
  over a sequence of events), the street filter `Outgoing`, and the classes
  `WaitingVehicles` and `Intersection`, whose methods are proved against those
  specifications.

The main results are these:

- **FIFO.** `Fifo` and `AdmitInArrivalOrder` show that vehicles pushed and then let in are granted in push order.
- **Exactly once.** `GrantKeepsValid` shows that a fulfilled promise leaves the queue in the same step, so no promise is fulfilled twice.
- **Mutual exclusion.** `MutualExclusion` shows that over any interleaving of admission passes, arrivals and departures, grants grow by at most the number of departures plus one.
- **Phase alternation.** `AlternatesParity` shows the published phases alternate. `CycleDuration` shows every duration lies in [4000, 6000].
- **Single-slot queue.** `Send` leaves exactly one message.

Two behaviours of the code are worth stating outright:

- The code wakes one waiter with `notify_one`, on a queue that `send` clears. So the model makes no claim that every concurrent waiter is released on green.
- Connected streets are a vector in connection order.

## Model

| member | source | states |
|---|---|---|
| `TrafficLights.Toggle` | src/TrafficLight.cpp:91 | the toggled phase always differs from the old one (red becomes green, green becomes red) |
| `TrafficLights.ToggleTwice` | src/TrafficLight.cpp:91 | toggling twice restores the original phase |
| `TrafficLights.ToggleNParity` | src/TrafficLight.cpp:90-91 | after k toggles the light is in its starting phase when k is even and in the other phase when k is odd |
| `TrafficLights.AlternatesExtend` | src/TrafficLight.cpp:90-96 | publishing the toggle of the current phase, which is the last phase published or the start phase, keeps the published phases alternating |
| `TrafficLights.AlternatesParity` | src/TrafficLight.cpp:85-97 | a run of published phases in which each toggles the previous one has the i-th phase equal to the phase after i+1 toggles, so red and green strictly alternate |
| `TrafficLights.CycleDuration` | src/TrafficLight.cpp:88 | for every non-negative `rand()` value r, `r % (6000 - 4000 + 1) + 4000` lies in [4000, 6000] |
| `TrafficLights.CycleDurationCoversRange` | src/TrafficLight.cpp:73 | every duration in [4000, 6000] is drawn by some `rand()` value |
| `TrafficLights.UntilGreen` | src/TrafficLight.cpp:46-52 | the number of messages a stop-at-green receive loop consumes: everything before it is red, the last one is green exactly when a green exists, and all messages are consumed when none is green |
| `TrafficLights.MessageQueue.constructor` | src/TrafficLight.h:27 | a new message queue is empty |
| `TrafficLights.MessageQueue.Send` | src/TrafficLight.cpp:24-33 | after a send the queue holds exactly the sent message, whatever it held before |
| `TrafficLights.MessageQueue.Receive` | src/TrafficLight.cpp:11-22 | on a non-empty queue, returns the front message and removes only it |
| `TrafficLights.SendThenReceive` | src/TrafficLight.cpp:11-33 | a send followed by a receive returns the sent message and leaves the queue empty |
| `TrafficLights.TrafficLight.constructor` | src/TrafficLight.cpp:37-40 | a new light is red and its message queue is empty |
| `TrafficLights.TrafficLight.GetCurrentPhase` | src/TrafficLight.cpp:55-58 | returns the current phase and changes nothing |
| `TrafficLights.TrafficLight.WaitForGreen` | src/TrafficLight.cpp:42-53 | the loop is released exactly when a green message arrives. It consumes every message up to and including the first green, and it sees only red before that. Without a green it consumes everything and keeps waiting |
| `TrafficLights.TrafficLight.CycleStep` | src/TrafficLight.cpp:85-98 | the phase toggles exactly when elapsed >= cycleDuration. Then the new duration is drawn from r and the queue holds exactly the new phase. Otherwise phase, queue and duration are unchanged |
| `TrafficLights.TogglePasses` | src/TrafficLight.cpp:76-98 | reference definition of the passes at which the cycling loop toggles. A pass toggles exactly when the time since the last toggle (or the start) reaches the duration drawn for the current cycle; each toggle resets the reference time and uses the next draw. It never lists more passes than there are |
| `TrafficLights.TogglePassesFirstPass` | src/TrafficLight.cpp:85 | the first pass of a run resumed from a given reference time and draw index toggles exactly when the time since that reference time is at least the duration of that draw |
| `TrafficLights.TogglesBefore` | src/TrafficLight.cpp:76-98 | the toggles before pass j, computed forwards pass by pass as the loop does. There are at most j of them, and the last one is a pass before j |
| `TrafficLights.TogglesBeforeBelow` | src/TrafficLight.cpp:76-98 | every toggle before pass j is a pass before j |
| `TrafficLights.TogglesBeforeStep` | src/TrafficLight.cpp:85-97 | one more pass moves a toggle, if there is one, from the resumed run into the toggles before it, and the concatenation stays the same |
| `TrafficLights.TogglesBeforeSplit` | src/TrafficLight.cpp:76-98 | at any pass j, the whole run is the toggles before j followed by the run resumed at j from the last of them (or the start) with the next draw |
| `TrafficLights.TogglesBeforeWholeRun` | src/TrafficLight.cpp:76-98 | the forward definition over all passes equals the reference definition `TogglePasses` |
| `TrafficLights.TogglePassAt` | src/TrafficLight.cpp:85 | any pass j of the whole run toggles exactly when the time since the last toggle before j (or the start) has reached the duration drawn for the cycle then current |
| `TrafficLights.TogglePassesOrdered` | src/TrafficLight.cpp:76-98 | the toggle passes are passes of the run, in strictly increasing order |
| `TrafficLights.SpacedAtLeastMinCycle` | src/TrafficLight.cpp:73-88 | toggles spaced by the drawn durations are at least 4000 apart, since no draw gives less |
| `TrafficLights.TogglePassesSpaced` | src/TrafficLight.cpp:73-97 | between two toggles, or between the start and the first toggle, at least the duration drawn for that cycle elapses. That duration is at least 4000 |
| `TrafficLights.TrafficLight.CycleThroughPhases` | src/TrafficLight.cpp:68-99 | over a run of clock readings, the passes that toggled are exactly `TogglePasses` of the start time, the readings and the draws. They are increasing, and consecutive toggles are at least the drawn duration, hence 4000, apart. The final phase is the start phase toggled once per toggle, and the published phases alternate. After at least one toggle, the queue holds exactly the current phase |
| `Intersections.Push` | src/Intersection.cpp:19-24 | push appends the vehicle and its promise at the tail. Both vectors grow by one, earlier entries are unchanged, and the logs are untouched |
| `Intersections.Grant` | src/Intersection.cpp:26-40 | a grant removes index 0 from both vectors and keeps the rest in order. It appends exactly the head vehicle and the head promise to the logs |
| `Intersections.PushKeepsValid` | src/Intersection.cpp:19-24 | pushing a new promise keeps the vectors parallel and keeps every promise unique |
| `Intersections.GrantKeepsValid` | src/Intersection.cpp:26-40 | a grant keeps the vectors parallel, and the fulfilled promise is no longer in the queue, so it is fulfilled exactly once |
| `Intersections.PushAllAppends` | src/Intersection.cpp:19-24 | pushing a list of vehicles appends that list, in order, to the queue |
| `Intersections.GrantNTakesPrefix` | src/Intersection.cpp:26-40 | n grants let in the first n waiting vehicles, in queue order, and leave the rest waiting in order |
| `Intersections.Fifo` | src/Intersection.cpp:19-40 | N pushes onto an empty queue followed by N grants let the vehicles in exactly in push order, each through its own promise, and empty the queue |
| `Intersections.AdmitStep` | src/Intersection.cpp:115-120 | an admission pass grants exactly when a vehicle waits and the intersection is free. It then leaves the intersection blocked and performs one grant. Otherwise it changes nothing |
| `Intersections.Depart` | src/Intersection.cpp:92-100 | a departure clears the occupancy flag and leaves the queue untouched |
| `Intersections.AdmitStepIdempotent` | src/Intersection.cpp:109-122 | a second admission pass without a departure in between changes nothing |
| `Intersections.MutualExclusion` | src/Intersection.cpp:92-122 | under any interleaving of passes, arrivals and departures, the number of grants grows by at most the number of departures, plus one when the intersection starts free |
| `Intersections.ApplyKeepsArrivalOrder` | src/Intersection.cpp:19-40 | one pass, arrival or departure leaves the granted log followed by the queue equal to the old log and queue followed by the vehicle that arrived, if any |
| `Intersections.RunPreservesArrivalOrder` | src/Intersection.cpp:19-40 | under any interleaving of events, the granted log followed by the queue equals the initial log and queue followed by the arrivals, so vehicles are let in in arrival order |
| `Intersections.Outgoing` | src/Intersection.cpp:55-66 | a street is in the result exactly when it is connected and differs from the incoming street |
| `Intersections.OutgoingAppend` | src/Intersection.cpp:58-64 | the filter distributes over concatenation, so it keeps the connected streets in their original order |
| `Intersections.OutgoingWithoutIncoming` | src/Intersection.cpp:58-64 | when the incoming street is not connected, every street comes back, in order |
| `Intersections.WaitingVehicles.constructor` | src/Intersection.h:29-30 | a new waiting queue is empty and consistent |
| `Intersections.WaitingVehicles.GetSize` | src/Intersection.cpp:13-17 | returns the number of waiting vehicles and changes nothing |
| `Intersections.WaitingVehicles.PushBack` | src/Intersection.cpp:19-24 | the new state is `Push` of the old one, and the queue stays consistent |
| `Intersections.WaitingVehicles.PermitEntryToFirstInQueue` | src/Intersection.cpp:26-40 | on a non-empty queue, the new state is `Grant` of the old one, and the queue stays consistent |
| `Intersections.AdmitInArrivalOrder` | src/Intersection.cpp:19-40 | N `PushBack`s onto an empty queue followed by N `PermitEntryToFirstInQueue`s log the vehicles in push order and leave both vectors empty |
| `Intersections.Intersection.constructor` | src/Intersection.cpp:44-48 | a new intersection is unblocked, with no streets, an empty queue and a red light whose message queue is empty |
| `Intersections.Intersection.AddStreet` | src/Intersection.cpp:50-53 | the street is appended, earlier streets are unchanged, and the flag is untouched |
| `Intersections.Intersection.QueryStreets` | src/Intersection.cpp:55-66 | returns the connected streets other than the incoming one, in original order. The incoming street never appears in the result, and every other connected street does |
| `Intersections.Intersection.SetIsBlocked` | src/Intersection.cpp:97-100 | sets the occupancy flag to the given value and nothing else |
| `Intersections.Intersection.VehicleHasLeft` | src/Intersection.cpp:92-95 | clears the occupancy flag; the queue and the streets are unchanged |
| `Intersections.Intersection.ProcessVehicleQueueStep` | src/Intersection.cpp:113-120 | one loop pass admits exactly when a vehicle waits and the flag is clear. The new state is `AdmitStep` of the old one |
| `Intersections.Intersection.ProcessVehicleQueue` | src/Intersection.cpp:109-122 | any number of loop passes with no arrival or departure in between let in at most one vehicle |
| `Intersections.Intersection.TrafficLightIsGreen` | src/Intersection.cpp:124-127 | true exactly when the light's phase is green |
| `Intersections.Intersection.AwaitGreenOnEntry` | src/Intersection.cpp:84-87 | a vehicle that is let in on green goes on at once. On red it consumes messages up to the first green, and it is released exactly when one arrives |

## Left out

- Threads, `sleep_for`, `std::chrono` time and `simulate()`: scheduling is not modelled, and time enters only as elapsed values or clock readings.
- What `TrafficObject` provides: the thread registry, and the object type tag that the `Intersection` constructor sets (`_type = ObjectType::objectIntersection`). Neither plays a part in admission or phase cycling.
- Mutexes, condition variables and promise/future blocking: each locked operation is one atomic method. There is no claim that every waiter is released, because `notify_one` on a single-slot queue does not provide that.
- The unsynchronised reads of `_isBlocked` and `_currentPhase` across threads: the model is sequential, so it cannot show those data races.
- `rand()`: its result is a non-negative integer parameter.
- `std::cout` logging.
- `addVehicleToQueue`: its lock juggling and its wait on the future are left out. Only its post-grant rule (on red, wait until green) is modelled, as `AwaitGreenOnEntry`.
- `Street` and `Vehicle` internals and `shared_ptr`: these are integer identifiers, and streets are compared by identifier, as `getID()` is in the source.
- The width of the `int` that `getSize` returns: sizes are unbounded.
- TrafficLights.MessageQueue.Receive: the wait for a message is a precondition (non-empty queue), not blocking.
- TrafficLights.TrafficLight.WaitForGreen: it reads its messages from a supplied sequence, namely the values that successive `receive` calls deliver. How those values interleave with the sends of the cycling thread is not modelled.
- TrafficLights.TrafficLight.CycleThroughPhases: it covers only a finite run of clock readings. `lastUpdate` is reset to the reading that triggered the toggle, although the source reads the clock a second time there.
- Intersections.Intersection.ProcessVehicleQueue: it runs a given number of passes of the infinite loop, with no vehicle arriving or leaving between passes; interleavings with arrivals and departures are covered by `MutualExclusion` on the value model.
- Intersections.WaitingVehicles.PushBack: it asks that the promise be new (neither waiting nor already fulfilled). That stands in for the fact that every `std::promise` moved into the queue is a distinct object.
