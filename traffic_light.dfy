/** The traffic light of an intersection: its red/green phase, the randomly
    drawn cycle duration, the single-slot message queue through which phase
    changes are published, and the receive loop of a vehicle that waits for
    green. Threads, clocks and the random generator are left out: elapsed
    time, clock readings and the values `rand()` returns are parameters. */
module TrafficLights {

  /** The two phases of a light. */
  datatype Phase = Red | Green

  /** Bounds, in milliseconds, of a cycle duration. */
  const MinCycle: int := 4000
  const MaxCycle: int := 6000

  /** The phase a toggle moves to. */
  function Toggle(p: Phase): (q: Phase)
    ensures q != p
  {
    if p == Red then Green else Red
  }

  /** Toggling twice gives back the phase one started from. */
  lemma ToggleTwice(p: Phase)
    ensures Toggle(Toggle(p)) == p
  {
  }

  /** The phase reached from `p` after `k` toggles. */
  function ToggleN(p: Phase, k: nat): Phase
  {
    if k == 0 then p else Toggle(ToggleN(p, k - 1))
  }

  /** After an even number of toggles a light is back in its phase, after an
      odd number it is in the other one. */
  lemma {:induction false} ToggleNParity(p: Phase, k: nat)
    ensures ToggleN(p, k) == if k % 2 == 0 then p else Toggle(p)
  {
    if k > 0 {
      ToggleNParity(p, k - 1);
      ToggleTwice(p);
    }
  }

  /** `published` is the sequence of phases a light goes through when it
      starts in `from` and toggles once per element. */
  ghost predicate Alternates(from: Phase, published: seq<Phase>)
  {
    && (published != [] ==> published[0] == Toggle(from))
    && forall i :: 0 < i < |published| ==> published[i] == Toggle(published[i - 1])
  }

  /** Publishing the toggle of the current phase `cur` (the last phase
      published, or `from` when nothing was) extends an alternating run. */
  lemma AlternatesExtend(from: Phase, published: seq<Phase>, cur: Phase)
    requires Alternates(from, published)
    requires if published == [] then cur == from else published[|published| - 1] == cur
    ensures Alternates(from, published + [Toggle(cur)])
  {
    var ext := published + [Toggle(cur)];
    forall i | 0 < i < |ext|
      ensures ext[i] == Toggle(ext[i - 1])
    {
      if i < |published| {
        assert ext[i] == published[i] && ext[i - 1] == published[i - 1];
      }
    }
  }

  /** The published phases strictly alternate: the first, third, ... is the
      phase opposite to the starting one, the second, fourth, ... equals it. */
  lemma {:induction false} AlternatesParity(from: Phase, published: seq<Phase>)
    requires Alternates(from, published)
    ensures forall i :: 0 <= i < |published| ==> published[i] == ToggleN(from, i + 1)
    ensures forall i :: 0 <= i < |published| ==> published[i] == if i % 2 == 0 then Toggle(from) else from
  {
    if published != [] {
      var prefix := published[..|published| - 1];
      assert forall i :: 0 <= i < |prefix| ==> prefix[i] == published[i];
      AlternatesParity(from, prefix);
      var last := |published| - 1;
      if last > 0 {
        assert published[last] == Toggle(prefix[last - 1]);
      }
      ToggleNParity(from, last + 1);
    }
  }

  /** The cycle duration drawn from a value `r` returned by `rand()`. */
  function CycleDuration(r: nat): (d: int)
    ensures MinCycle <= d <= MaxCycle
  {
    r % (MaxCycle - MinCycle + 1) + MinCycle
  }

  /** Every duration of the range can be drawn. */
  lemma CycleDurationCoversRange(d: int)
    requires MinCycle <= d <= MaxCycle
    ensures CycleDuration(d - MinCycle) == d
  {
  }

  /** The number of messages a receive loop that stops at the first `Green`
      takes from `received`: up to and including the first `Green`, or all of
      them when there is none. */
  function UntilGreen(received: seq<Phase>): (n: nat)
    ensures n <= |received|
    ensures Green in received <==> n > 0 && received[n - 1] == Green
    ensures forall j :: 0 <= j < n - 1 ==> received[j] == Red
    ensures Green !in received ==> n == |received|
  {
    if received == [] then 0
    else if received[0] == Green then 1
    else
      var rest := UntilGreen(received[1..]);
      assert forall j :: 1 <= j < |received| ==> received[j] == received[1..][j - 1];
      rest + 1
  }

  /** A queue of messages guarded, in the source, by a mutex; each operation
      here is one atomic step. */
  class MessageQueue<T> {
    var queue: seq<T>

    constructor ()
      ensures queue == []
    {
      queue := [];
    }

    /** Replaces whatever the queue held by the one message. */
    method Send(message: T)
      modifies this
      ensures queue == [message]
    {
      queue := [];
      queue := queue + [message];
    }

    /** Takes the front message. The source waits until the queue is
        non-empty; the model asks its callers for that. */
    method Receive() returns (message: T)
      requires queue != []
      modifies this
      ensures message == old(queue[0])
      ensures queue == old(queue[1..])
    {
      message := queue[0];
      queue := queue[1..];
    }
  }

  /** Whatever a queue held, a send followed by a receive hands back the sent
      message and leaves the queue empty. */
  method SendThenReceive<T>(q: MessageQueue<T>, message: T) returns (received: T)
    modifies q
    ensures received == message
    ensures q.queue == []
  {
    q.Send(message);
    received := q.Receive();
  }

  /** The passes of the cycling loop, from pass `i` on, at which the light
      toggles when `clock[j]` is the clock reading at pass `j`, the last toggle
      (or the start) was at time `last`, and `draws[t]` is the `rand()` value
      of the current cycle, later entries being drawn one per toggle. A pass
      toggles exactly when the time since `last` reaches the current
      duration. */
  function TogglePasses(last: int, clock: seq<int>, draws: seq<nat>, i: nat, t: nat): (at: seq<nat>)
    requires t <= i <= |clock| < |draws|
    ensures |at| <= |clock| - i
    decreases |clock| - i
  {
    if i == |clock| then []
    else if clock[i] - last >= CycleDuration(draws[t]) then
      [i] + TogglePasses(clock[i], clock, draws, i + 1, t + 1)
    else
      TogglePasses(last, clock, draws, i + 1, t)
  }

  /** `at` lists passes from `lo` up to `hi`, in increasing order. */
  ghost predicate Increasing(at: seq<nat>, lo: nat, hi: nat)
  {
    && (forall k :: 0 <= k < |at| ==> lo <= at[k] < hi)
    && (forall k :: 0 < k < |at| ==> at[k - 1] < at[k])
  }

  /** Each toggle `at[k]` comes at least `gap` after the previous one (or
      after `last`, for the first). */
  ghost predicate GapsAtLeast(last: int, clock: seq<int>, at: seq<nat>, gap: int)
  {
    && (forall k :: 0 <= k < |at| ==> at[k] < |clock|)
    && (forall k :: 0 <= k < |at| ==> clock[at[k]] - (if k == 0 then last else clock[at[k - 1]]) >= gap)
  }

  /** Toggles spaced by drawn durations are at least `MinCycle` apart. */
  lemma SpacedAtLeastMinCycle(last: int, clock: seq<int>, draws: seq<nat>, t: nat, at: seq<nat>)
    requires Spaced(last, clock, draws, t, at)
    ensures GapsAtLeast(last, clock, at, MinCycle)
  {
    forall k | 0 <= k < |at|
      ensures clock[at[k]] - (if k == 0 then last else clock[at[k - 1]]) >= MinCycle
    {
      assert clock[at[k]] - (if k == 0 then last else clock[at[k - 1]]) >= CycleDuration(draws[t + k]);
    }
  }

  /** The toggle passes of a run are increasing passes of the run. */
  lemma {:induction false} TogglePassesOrdered(last: int, clock: seq<int>, draws: seq<nat>, i: nat, t: nat)
    requires t <= i <= |clock| < |draws|
    ensures Increasing(TogglePasses(last, clock, draws, i, t), i, |clock|)
    decreases |clock| - i
  {
    if i < |clock| {
      var at := TogglePasses(last, clock, draws, i, t);
      if clock[i] - last >= CycleDuration(draws[t]) {
        var rest := TogglePasses(clock[i], clock, draws, i + 1, t + 1);
        TogglePassesOrdered(clock[i], clock, draws, i + 1, t + 1);
        assert at == [i] + rest;
        forall k | 0 < k < |at|
          ensures i < at[k] < |clock| && at[k - 1] < at[k]
        {
          assert at[k] == rest[k - 1];
          if k > 1 {
            assert at[k - 1] == rest[k - 2];
          }
        }
      } else {
        TogglePassesOrdered(last, clock, draws, i + 1, t);
      }
    }
  }

  /** A pass toggles exactly when the time since the last toggle has reached
      the current duration: whether pass `i` is among the toggles of the run
      from `i` on is decided by that comparison alone. */
  lemma TogglePassesFirstPass(last: int, clock: seq<int>, draws: seq<nat>, i: nat, t: nat)
    requires t <= i < |clock| < |draws|
    ensures i in TogglePasses(last, clock, draws, i, t) <==> clock[i] - last >= CycleDuration(draws[t])
  {
    if clock[i] - last < CycleDuration(draws[t]) {
      TogglePassesOrdered(last, clock, draws, i + 1, t);
      var rest := TogglePasses(last, clock, draws, i + 1, t);
      assert forall k :: 0 <= k < |rest| ==> rest[k] != i;
    }
  }

  /** The reference time after the toggles `p`: the time of the last one,
      or `start` when there is none. */
  function LastToggle(start: int, clock: seq<int>, p: seq<nat>): int
    requires p != [] ==> p[|p| - 1] < |clock|
  {
    if p == [] then start else clock[p[|p| - 1]]
  }

  /** The toggle passes of the run from `start` that come before pass `j`,
      computed forwards, pass by pass, as the loop does. */
  function TogglesBefore(start: int, clock: seq<int>, draws: seq<nat>, j: nat): (p: seq<nat>)
    requires j <= |clock| < |draws|
    ensures |p| <= j
    ensures p != [] ==> p[|p| - 1] < j
  {
    if j == 0 then []
    else
      var p := TogglesBefore(start, clock, draws, j - 1);
      if clock[j - 1] - LastToggle(start, clock, p) >= CycleDuration(draws[|p|]) then p + [j - 1] else p
  }

  /** The toggles before pass `j` are all passes before `j`. */
  lemma {:induction false} TogglesBeforeBelow(start: int, clock: seq<int>, draws: seq<nat>, j: nat)
    requires j <= |clock| < |draws|
    ensures forall k :: 0 <= k < |TogglesBefore(start, clock, draws, j)| ==> TogglesBefore(start, clock, draws, j)[k] < j
  {
    if j > 0 {
      TogglesBeforeBelow(start, clock, draws, j - 1);
    }
  }

  /** One pass moves the split point of a run by one. */
  lemma TogglesBeforeStep(start: int, clock: seq<int>, draws: seq<nat>, j: nat)
    requires 0 < j <= |clock| < |draws|
    ensures var p := TogglesBefore(start, clock, draws, j - 1);
      var q := TogglesBefore(start, clock, draws, j);
      p + TogglePasses(LastToggle(start, clock, p), clock, draws, j - 1, |p|)
        == q + TogglePasses(LastToggle(start, clock, q), clock, draws, j, |q|)
  {
    var p := TogglesBefore(start, clock, draws, j - 1);
    var last := LastToggle(start, clock, p);
    if clock[j - 1] - last >= CycleDuration(draws[|p|]) {
      var q := p + [j - 1];
      assert TogglesBefore(start, clock, draws, j) == q;
      var rest := TogglePasses(clock[j - 1], clock, draws, j, |p| + 1);
      assert p + ([j - 1] + rest) == q + rest;
    } else {
      assert TogglesBefore(start, clock, draws, j) == p;
    }
  }

  /** The run from `start` splits at any pass `j`: the toggles before `j`,
      then the run resumed at `j` from the last of them with the next draw. */
  lemma {:induction false} TogglesBeforeSplit(start: int, clock: seq<int>, draws: seq<nat>, j: nat)
    requires j <= |clock| < |draws|
    ensures var p := TogglesBefore(start, clock, draws, j);
      p + TogglePasses(LastToggle(start, clock, p), clock, draws, j, |p|) == TogglePasses(start, clock, draws, 0, 0)
  {
    if j == 0 {
      assert [] + TogglePasses(start, clock, draws, 0, 0) == TogglePasses(start, clock, draws, 0, 0);
    } else {
      TogglesBeforeSplit(start, clock, draws, j - 1);
      TogglesBeforeStep(start, clock, draws, j);
    }
  }

  /** The forward and the backward definitions of a run agree. */
  lemma TogglesBeforeWholeRun(start: int, clock: seq<int>, draws: seq<nat>)
    requires |clock| < |draws|
    ensures TogglesBefore(start, clock, draws, |clock|) == TogglePasses(start, clock, draws, 0, 0)
  {
    TogglesBeforeSplit(start, clock, draws, |clock|);
    var p := TogglesBefore(start, clock, draws, |clock|);
    assert p + [] == p;
  }

  /** Any pass `j` of the whole run toggles exactly when the time since the
      last toggle before it (or the start) has reached the duration drawn for
      the cycle then current. */
  lemma TogglePassAt(start: int, clock: seq<int>, draws: seq<nat>, j: nat)
    requires j < |clock| < |draws|
    ensures var p := TogglesBefore(start, clock, draws, j);
      j in TogglePasses(start, clock, draws, 0, 0) <==>
      clock[j] - LastToggle(start, clock, p) >= CycleDuration(draws[|p|])
  {
    var p := TogglesBefore(start, clock, draws, j);
    TogglesBeforeSplit(start, clock, draws, j);
    TogglePassesFirstPass(LastToggle(start, clock, p), clock, draws, j, |p|);
    TogglesBeforeBelow(start, clock, draws, j);
    assert j !in p;
  }

  /** One pass of the loop advances the run by one pass. */
  lemma TogglePassesAdvance(start: int, clock: seq<int>, draws: seq<nat>, at: seq<nat>, last: int, i: nat, t: nat)
    requires t <= i < |clock| < |draws|
    requires at + TogglePasses(last, clock, draws, i, t) == TogglePasses(start, clock, draws, 0, 0)
    ensures clock[i] - last >= CycleDuration(draws[t]) ==>
      (at + [i]) + TogglePasses(clock[i], clock, draws, i + 1, t + 1) == TogglePasses(start, clock, draws, 0, 0)
    ensures clock[i] - last < CycleDuration(draws[t]) ==>
      at + TogglePasses(last, clock, draws, i + 1, t) == TogglePasses(start, clock, draws, 0, 0)
  {
    var rest := TogglePasses(clock[i], clock, draws, i + 1, t + 1);
    assert at + ([i] + rest) == (at + [i]) + rest;
  }

  /** At each toggle `at[k]`, the time since the previous toggle (or since
      `last`, for the first) has reached the duration drawn from
      `draws[t + k]`. */
  ghost predicate Spaced(last: int, clock: seq<int>, draws: seq<nat>, t: nat, at: seq<nat>)
  {
    && (forall k :: 0 <= k < |at| ==> at[k] < |clock| && t + k < |draws|)
    && (forall k :: 0 <= k < |at| ==>
          clock[at[k]] - (if k == 0 then last else clock[at[k - 1]]) >= CycleDuration(draws[t + k]))
  }

  /** The toggles of a run are spaced by the durations drawn for their
      cycles; as every duration is at least `MinCycle`, so are the gaps. */
  lemma {:induction false} TogglePassesSpaced(last: int, clock: seq<int>, draws: seq<nat>, i: nat, t: nat)
    requires t <= i <= |clock| < |draws|
    ensures Spaced(last, clock, draws, t, TogglePasses(last, clock, draws, i, t))
    decreases |clock| - i
  {
    if i < |clock| {
      var at := TogglePasses(last, clock, draws, i, t);
      if clock[i] - last >= CycleDuration(draws[t]) {
        var rest := TogglePasses(clock[i], clock, draws, i + 1, t + 1);
        TogglePassesSpaced(clock[i], clock, draws, i + 1, t + 1);
        assert at == [i] + rest;
        forall k | 0 < k < |at|
          ensures clock[at[k]] - clock[at[k - 1]] >= CycleDuration(draws[t + k])
        {
          assert at[k] == rest[k - 1];
          assert at[k - 1] == if k == 1 then i else rest[k - 2];
          assert clock[rest[k - 1]] - (if k - 1 == 0 then clock[i] else clock[rest[k - 2]])
              >= CycleDuration(draws[(t + 1) + (k - 1)]);
        }
      } else {
        TogglePassesSpaced(last, clock, draws, i + 1, t);
      }
    }
  }

  class TrafficLight {
    var currentPhase: Phase
    const messages: MessageQueue<Phase>

    /** A new light is red and has published nothing. */
    constructor ()
      ensures currentPhase == Red
      ensures fresh(messages) && messages.queue == []
    {
      currentPhase := Red;
      messages := new MessageQueue();
    }

    method GetCurrentPhase() returns (p: Phase)
      ensures p == currentPhase
    {
      p := currentPhase;
    }

    /** The receive loop of a waiting vehicle, fed with the values that its
        successive receives deliver. It is released exactly when a `Green`
        arrives, after consuming every message up to and including the first
        one; without a `Green` it consumes everything and stays waiting. */
    static method WaitForGreen(received: seq<Phase>) returns (released: bool, consumed: nat)
      ensures released <==> Green in received
      ensures consumed == UntilGreen(received)
      ensures released ==> received[consumed - 1] == Green
      ensures forall j :: 0 <= j < consumed - 1 ==> received[j] == Red
      ensures !released ==> consumed == |received|
    {
      consumed := 0;
      while consumed < |received|
        invariant consumed <= |received|
        invariant forall j :: 0 <= j < consumed ==> received[j] == Red
        invariant UntilGreen(received) == consumed + UntilGreen(received[consumed..])
      {
        var message := received[consumed];
        assert received[consumed..][1..] == received[consumed + 1..];
        consumed := consumed + 1;
        if message == Green {
          return true, consumed;
        }
      }
      released := false;
    }

    /** One pass of the cycling loop. When at least `cycleDuration` has
        elapsed, a new duration is drawn from `r`, the phase toggles and the
        new phase is sent; otherwise nothing changes. */
    method CycleStep(elapsed: int, cycleDuration: int, r: nat) returns (toggled: bool, nextDuration: int)
      modifies this, messages
      ensures toggled <==> elapsed >= cycleDuration
      ensures toggled ==> currentPhase == Toggle(old(currentPhase)) && messages.queue == [currentPhase]
      ensures toggled ==> nextDuration == CycleDuration(r)
      ensures !toggled ==> currentPhase == old(currentPhase) && messages.queue == old(messages.queue)
      ensures !toggled ==> nextDuration == cycleDuration
    {
      toggled := elapsed >= cycleDuration;
      nextDuration := cycleDuration;
      if toggled {
        nextDuration := CycleDuration(r);
        currentPhase := Toggle(currentPhase);
        messages.Send(currentPhase);
      }
    }

    /** The cycling loop run over the clock readings `clock` (one per pass)
        after starting at time `start`. `draws` supplies the values `rand()`
        returns: the first for the initial duration, then one per toggle.
        Returns how many toggles happened, the phases published and the
        passes at which the light toggled. */
    method CycleThroughPhases(start: int, clock: seq<int>, draws: seq<nat>)
      returns (toggles: nat, ghost published: seq<Phase>, ghost at: seq<nat>)
      requires |draws| > |clock|
      modifies this, messages
      ensures at == TogglePasses(start, clock, draws, 0, 0)
      ensures toggles == |published| == |at| <= |clock|
      ensures Spaced(start, clock, draws, 0, at)
      ensures Increasing(at, 0, |clock|)
      ensures GapsAtLeast(start, clock, at, MinCycle)
      ensures currentPhase == ToggleN(old(currentPhase), toggles)
      ensures Alternates(old(currentPhase), published)
      ensures toggles > 0 ==> messages.queue == [currentPhase] && published[toggles - 1] == currentPhase
      ensures toggles == 0 ==> messages.queue == old(messages.queue)
    {
      var cycleDuration := CycleDuration(draws[0]);
      var lastUpdate := start;
      toggles, published, at := 0, [], [];
      var i := 0;
      while i < |clock|
        invariant 0 <= toggles <= i <= |clock|
        invariant |published| == toggles == |at|
        invariant at + TogglePasses(lastUpdate, clock, draws, i, toggles) == TogglePasses(start, clock, draws, 0, 0)
        invariant cycleDuration == CycleDuration(draws[toggles])
        invariant currentPhase == ToggleN(old(currentPhase), toggles)
        invariant Alternates(old(currentPhase), published)
        invariant toggles > 0 ==> messages.queue == [currentPhase] && published[toggles - 1] == currentPhase
        invariant toggles == 0 ==> messages.queue == old(messages.queue)
      {
        TogglePassesAdvance(start, clock, draws, at, lastUpdate, i, toggles);
        ghost var before := currentPhase;
        var toggled;
        toggled, cycleDuration := CycleStep(clock[i] - lastUpdate, cycleDuration, draws[toggles + 1]);
        if toggled {
          AlternatesExtend(old(currentPhase), published, before);
          lastUpdate := clock[i];
          published := published + [currentPhase];
          at := at + [i];
          toggles := toggles + 1;
        }
        i := i + 1;
      }
      TogglePassesSpaced(start, clock, draws, 0, 0);
      TogglePassesOrdered(start, clock, draws, 0, 0);
      assert at + [] == at;
      SpacedAtLeastMinCycle(start, clock, draws, 0, at);
    }
  }
}
