/** src/q7.rs: a chain of amplifiers, one machine per phase setting, run
    round-robin: in each round every machine runs until it outputs (the
    output goes to the next machine's storage slot) or terminates, and the
    rounds go on until every machine has terminated. The machine itself is
    abstract: a step function that may pull input and reports Nothing, an
    Output or Terminated. */
module Amplifiers {
  import opened Wrappers

  /** What one call of the machine's `step` reports. */
  datatype Step = Nothing | Output(value: int) | Terminated

  /** One call of `step`: the machine afterwards, how many items it pulled
      from its input, and its report. */
  datatype Reply<M> = Reply(machine: M, consumed: nat, step: Step)

  datatype Fault<E> =
    | Machine(error: E)     // an error from `step`, passed on by `?`
    | IndexOutOfBounds      // the panic of an out-of-range `storage` index
    | OutOfFuel             // the step budget of this model ran out

  /** The state `compute` keeps per machine: the machine, its storage slot,
      whether it has terminated, and whether its phase setting is still
      waiting in its `once` iterator. */
  datatype Pipeline<M> = Pipeline(machines: seq<M>, storage: seq<int>, terminated: seq<bool>, pending: seq<bool>)

  predicate Shaped<M>(p: Pipeline<M>, n: nat) {
    |p.machines| == n && |p.storage| == n && |p.terminated| == n && |p.pending| == n
  }

  /** The state before the first round: new machines, storage all 0,
      nothing terminated, every phase setting pending. */
  function Start<M>(initial: M, n: nat): (p: Pipeline<M>)
    ensures Shaped(p, n)
    ensures forall i :: 0 <= i < n ==>
      p.machines[i] == initial && p.storage[i] == 0 && !p.terminated[i] && p.pending[i]
  {
    Pipeline(seq(n, _ => initial), seq(n, _ => 0), seq(n, _ => false), seq(n, _ => true))
  }

  /** The input of machine i for one round: its phase setting while still
      pending, then its storage slot as it is when the round reaches i. */
  function Input<M>(p: Pipeline<M>, settings: seq<int>, i: nat): seq<int>
    requires Shaped(p, |settings|) && i < |settings|
  {
    (if p.pending[i] then [settings[i]] else []) + [p.storage[i]]
  }

  /** How a turn ended. */
  datatype Ending = Emitted(value: int) | Finished

  datatype Turned<M> = Turned(machine: M, used: nat, ending: Ending, fuel: nat)

  /** The inner `loop`: step machine m on what is left of its input until it
      outputs or terminates; `used` counts the input items pulled so far. A
      step that pulls past the end of the input sees the end. */
  function Drive<M, E>(step: (M, seq<int>) -> Result<Reply<M>, E>, m: M, view: seq<int>, used: nat, fuel: nat)
    : (r: Result<Turned<M>, Fault<E>>)
    decreases fuel
    ensures r.Success? ==> r.value.fuel < fuel && used <= r.value.used <= used + |view|
    ensures r.Failure? ==> r.error.Machine? || r.error.OutOfFuel?
  {
    if fuel == 0 then Failure(OutOfFuel)
    else match step(m, view)
      case Failure(e) => Failure(Machine(e))
      case Success(reply) =>
        var c := if reply.consumed < |view| then reply.consumed else |view|;
        match reply.step
        case Nothing => Drive(step, reply.machine, view[c..], used + c, fuel - 1)
        case Output(o) => Success(Turned(reply.machine, used + c, Emitted(o), fuel - 1))
        case Terminated => Success(Turned(reply.machine, used + c, Finished, fuel - 1))
  }

  /** The end of machine i's turn: keep the stepped machine, drop the phase
      setting if it was pulled, and store an output into slot (i + 1) % 5
      (the literal 5 of the source) or mark the machine terminated. */
  function Finish<M, E>(p: Pipeline<M>, n: nat, i: nat, d: Result<Turned<M>, Fault<E>>)
    : (r: Result<(Pipeline<M>, nat), Fault<E>>)
    requires Shaped(p, n) && i < n
    ensures r.Success? ==> d.Success? && Shaped(r.value.0, n) && r.value.1 == d.value.fuel
    ensures r.Success? ==> Changes(p, r.value.0, i)
    ensures r.Success? ==> r.value.0.pending[i] == (p.pending[i] && d.value.used == 0)
    ensures r.Success? ==> r.value.0.machines[i] == d.value.machine
    ensures r.Success? && d.value.ending.Emitted? ==>
              && (i + 1) % 5 < n
              && r.value.0.storage[(i + 1) % 5] == d.value.ending.value
              && r.value.0.terminated == p.terminated
    ensures r.Success? && d.value.ending.Finished? ==>
              r.value.0.terminated[i] && r.value.0.storage == p.storage
    ensures d.Failure? ==> r == Failure(d.error)
    ensures r.Failure? && d.Success? ==> r.error.IndexOutOfBounds? && d.value.ending.Emitted? && (i + 1) % 5 >= n
  {
    match d
    case Failure(f) => Failure(f)
    case Success(t) =>
      var machines := p.machines[i := t.machine];
      var pending := p.pending[i := p.pending[i] && t.used == 0];
      match t.ending
      case Emitted(o) =>
        var j := (i + 1) % 5;
        if j < n then Success((Pipeline(machines, p.storage[j := o], p.terminated, pending), t.fuel))
        else Failure(IndexOutOfBounds)
      case Finished =>
        Success((Pipeline(machines, p.storage, p.terminated[i := true], pending), t.fuel))
  }

  /** q is p after machine i's turn: only machine i, its flags and storage
      slot (i + 1) % 5 may differ; a terminated flag is only ever set and a
      pending phase only ever dropped. */
  ghost predicate Changes<M>(p: Pipeline<M>, q: Pipeline<M>, i: nat) {
    && |q.machines| == |p.machines| && |q.storage| == |p.storage|
    && |q.terminated| == |p.terminated| && |q.pending| == |p.pending|
    && (forall j :: 0 <= j < |p.machines| && j != i ==> q.machines[j] == p.machines[j])
    && (forall j :: 0 <= j < |p.storage| && j != (i + 1) % 5 ==> q.storage[j] == p.storage[j])
    && (forall j :: 0 <= j < |p.terminated| && j != i ==> q.terminated[j] == p.terminated[j])
    && (forall j :: 0 <= j < |p.pending| && j != i ==> q.pending[j] == p.pending[j])
    && Progress(p, q)
  }

  /** Terminated flags are only set, pending phases only dropped. */
  predicate Progress<M>(p: Pipeline<M>, q: Pipeline<M>) {
    && |q.terminated| == |p.terminated| && |q.pending| == |p.pending|
    && (forall j :: 0 <= j < |p.terminated| && p.terminated[j] ==> q.terminated[j])
    && (forall j :: 0 <= j < |p.pending| && q.pending[j] ==> p.pending[j])
  }

  /** Machine i's turn in a round. */
  function Turn<M, E>(step: (M, seq<int>) -> Result<Reply<M>, E>, settings: seq<int>, p: Pipeline<M>, i: nat, fuel: nat)
    : (r: Result<(Pipeline<M>, nat), Fault<E>>)
    requires Shaped(p, |settings|) && i < |settings|
  {
    Finish(p, |settings|, i, Drive(step, p.machines[i], Input(p, settings, i), 0, fuel))
  }

  /** The `for i in 0..settings.len()` loop from machine i on. */
  function Round<M, E>(step: (M, seq<int>) -> Result<Reply<M>, E>, settings: seq<int>, p: Pipeline<M>, i: nat, fuel: nat)
    : (r: Result<(Pipeline<M>, nat), Fault<E>>)
    requires Shaped(p, |settings|) && i <= |settings|
    decreases |settings| - i, 1
    ensures r.Success? ==> Shaped(r.value.0, |settings|) && Progress(p, r.value.0)
    ensures r.Success? ==> r.value.1 <= fuel && (i < |settings| ==> r.value.1 < fuel)
    ensures |settings| >= 5 ==> !(r.Failure? && r.error.IndexOutOfBounds?)
  {
    if i == |settings| then Success((p, fuel))
    else Proceed(step, settings, p, Turn(step, settings, p, i, fuel), i, fuel)
  }

  /** After machine i's turn, go on with the rest of the round. */
  function Proceed<M, E>(step: (M, seq<int>) -> Result<Reply<M>, E>, settings: seq<int>, p: Pipeline<M>,
                         t: Result<(Pipeline<M>, nat), Fault<E>>, i: nat, ghost fuel: nat)
    : (r: Result<(Pipeline<M>, nat), Fault<E>>)
    requires Shaped(p, |settings|) && i < |settings|
    requires t.Success? ==> Shaped(t.value.0, |settings|) && Progress(p, t.value.0) && t.value.1 < fuel
    requires |settings| >= 5 ==> !(t.Failure? && t.error.IndexOutOfBounds?)
    decreases |settings| - i, 0
    ensures r.Success? ==> Shaped(r.value.0, |settings|) && Progress(p, r.value.0) && r.value.1 < fuel
    ensures |settings| >= 5 ==> !(r.Failure? && r.error.IndexOutOfBounds?)
  {
    match t
    case Failure(f) => Failure(f)
    case Success((q, f)) => Round(step, settings, q, i + 1, f)
  }

  predicate AllTerminated<M>(p: Pipeline<M>) {
    forall i :: 0 <= i < |p.terminated| ==> p.terminated[i]
  }

  /** The outer `loop`: rounds until a round ends with every machine
      terminated. */
  function Settle<M, E>(step: (M, seq<int>) -> Result<Reply<M>, E>, settings: seq<int>, p: Pipeline<M>, fuel: nat)
    : (r: Result<Pipeline<M>, Fault<E>>)
    requires Shaped(p, |settings|)
    decreases fuel, 1
    ensures r.Success? ==> Shaped(r.value, |settings|) && AllTerminated(r.value) && Progress(p, r.value)
    ensures |settings| >= 5 ==> !(r.Failure? && r.error.IndexOutOfBounds?)
  {
    Conclude(step, settings, p, Round(step, settings, p, 0, fuel), fuel)
  }

  /** After a round: stop if every machine has terminated, else go on. */
  function Conclude<M, E>(step: (M, seq<int>) -> Result<Reply<M>, E>, settings: seq<int>, p: Pipeline<M>,
                          r: Result<(Pipeline<M>, nat), Fault<E>>, ghost fuel: nat)
    : (s: Result<Pipeline<M>, Fault<E>>)
    requires Shaped(p, |settings|)
    requires r.Success? ==> Shaped(r.value.0, |settings|) && Progress(p, r.value.0)
    requires r.Success? ==> r.value.1 <= fuel && (|settings| > 0 ==> r.value.1 < fuel)
    requires |settings| >= 5 ==> !(r.Failure? && r.error.IndexOutOfBounds?)
    decreases fuel, 0
    ensures s.Success? ==> Shaped(s.value, |settings|) && AllTerminated(s.value) && Progress(p, s.value)
    ensures |settings| >= 5 ==> !(s.Failure? && s.error.IndexOutOfBounds?)
  {
    match r
    case Failure(f) => Failure(f)
    case Success((q, f)) =>
      if AllTerminated(q) then Success(q)
      else
        assert |q.terminated| > 0;
        Settle(step, settings, q, f)
  }

  /** `compute`: the settled pipeline's storage slot 0, which does not exist
      when there are no settings. */
  function Amplify<M, E>(step: (M, seq<int>) -> Result<Reply<M>, E>, initial: M, settings: seq<int>, fuel: nat)
    : (r: Result<int, Fault<E>>)
  {
    match Settle(step, settings, Start(initial, |settings|), fuel)
    case Failure(f) => Failure(f)
    case Success(q) => if |settings| > 0 then Success(q.storage[0]) else Failure(IndexOutOfBounds)
  }

  /** With five settings or more, every storage index is in range. */
  lemma FiveNeverPanics<M, E>(step: (M, seq<int>) -> Result<Reply<M>, E>, initial: M, settings: seq<int>, fuel: nat)
    requires |settings| >= 5
    ensures !(Amplify(step, initial, settings, fuel).Failure? && Amplify(step, initial, settings, fuel).error.IndexOutOfBounds?)
  {
  }

  /** With no settings every (zero) machine has terminated at once, and
      reading storage slot 0 panics. */
  lemma NoSettingsPanics<M, E>(step: (M, seq<int>) -> Result<Reply<M>, E>, initial: M, fuel: nat)
    ensures Amplify(step, initial, [], fuel) == Failure(IndexOutOfBounds)
  {
    var p := Start(initial, 0);
    assert Round(step, [], p, 0, fuel) == Success((p, fuel));
    assert AllTerminated(p);
    assert Settle(step, [], p, fuel) == Success(p);
  }

  /** With fewer than five settings, the last machine's first output has no
      slot to go to. */
  lemma FewerThanFivePanics<M, E>(step: (M, seq<int>) -> Result<Reply<M>, E>, settings: seq<int>, p: Pipeline<M>, fuel: nat)
    requires 0 < |settings| < 5 && Shaped(p, |settings|)
    requires var d := Drive(step, p.machines[|settings| - 1], Input(p, settings, |settings| - 1), 0, fuel);
      d.Success? && d.value.ending.Emitted?
    ensures Turn(step, settings, p, |settings| - 1, fuel) == Failure(IndexOutOfBounds)
  {
  }

  /** A successful run ends with every machine terminated, and its answer
      is the last value stored for machine 0. */
  lemma AmplifySuccess<M, E>(step: (M, seq<int>) -> Result<Reply<M>, E>, initial: M, settings: seq<int>, fuel: nat)
    requires Amplify(step, initial, settings, fuel).Success?
    ensures var s := Settle(step, settings, Start(initial, |settings|), fuel);
      && s.Success? && |settings| > 0 && AllTerminated(s.value)
      && Amplify(step, initial, settings, fuel).value == s.value.storage[0]
  {
  }

  /** The phase setting is offered to machine i only while pending, ahead of
      its storage slot: a turn that pulls any input has taken it, and once
      that turn is over the setting is no longer pending and machine i is
      offered its storage slot alone. A turn that pulls nothing leaves it
      pending. */
  lemma PhaseAtMostOnce<M, E>(step: (M, seq<int>) -> Result<Reply<M>, E>, settings: seq<int>, p: Pipeline<M>, i: nat, fuel: nat)
    requires Shaped(p, |settings|) && i < |settings|
    requires Turn(step, settings, p, i, fuel).Success?
    ensures Input(p, settings, i) == if p.pending[i] then [settings[i], p.storage[i]] else [p.storage[i]]
    ensures var d := Drive(step, p.machines[i], Input(p, settings, i), 0, fuel);
            var q := Turn(step, settings, p, i, fuel).value.0;
            && d.Success?
            && (q.pending[i] <==> p.pending[i] && d.value.used == 0)
            && (d.value.used > 0 ==> Input(q, settings, i) == [q.storage[i]])
  {
  }

  /** What a turn writes: machine i becomes the stepped machine; an output
      goes into storage slot (i + 1) % 5 and sets no flag; termination sets
      machine i's flag and leaves the storage as it was. */
  lemma TurnStores<M, E>(step: (M, seq<int>) -> Result<Reply<M>, E>, settings: seq<int>, p: Pipeline<M>, i: nat, fuel: nat)
    requires Shaped(p, |settings|) && i < |settings|
    requires Turn(step, settings, p, i, fuel).Success?
    ensures var d := Drive(step, p.machines[i], Input(p, settings, i), 0, fuel);
            var q := Turn(step, settings, p, i, fuel).value.0;
            && d.Success?
            && q.machines[i] == d.value.machine
            && (d.value.ending.Emitted? ==>
                  (i + 1) % 5 < |settings| && q.storage[(i + 1) % 5] == d.value.ending.value && q.terminated == p.terminated)
            && (d.value.ending.Finished? ==> q.terminated[i] && q.storage == p.storage)
  {
  }

  /** r is the outcome of the last machine's turn from q. */
  ghost predicate LastTurn<M, E>(step: (M, seq<int>) -> Result<Reply<M>, E>, settings: seq<int>, q: Pipeline<M>, f: nat,
                                 r: Result<(Pipeline<M>, nat), Fault<E>>) {
    |settings| > 0 && Shaped(q, |settings|) && Turn(step, settings, q, |settings| - 1, f) == r
  }

  /** The last machine has the last turn of every round: a successful round
      from machine i on ends with the turn of machine n - 1. */
  lemma {:induction false} RoundEndsWithLastTurn<M, E>(step: (M, seq<int>) -> Result<Reply<M>, E>, settings: seq<int>, p: Pipeline<M>, i: nat, fuel: nat)
    requires Shaped(p, |settings|) && i < |settings|
    requires Round(step, settings, p, i, fuel).Success?
    decreases |settings| - i
    ensures exists q: Pipeline<M>, f: nat :: LastTurn(step, settings, q, f, Round(step, settings, p, i, fuel))
  {
    var t := Turn(step, settings, p, i, fuel);
    assert t.Success?;
    var (q, f) := t.value;
    if i == |settings| - 1 {
      assert Round(step, settings, q, i + 1, f) == Success((q, f));
      assert LastTurn(step, settings, p, fuel, Round(step, settings, p, i, fuel));
    } else {
      RoundEndsWithLastTurn(step, settings, q, i + 1, f);
    }
  }

  /** The feedback loop with five machines: at the end of every successful
      round, storage slot 0 holds what machine 4 output in its turn of that
      round, or, when machine 4 terminated instead, what slot 0 held before
      that turn. */
  lemma LastMachineFeedsFirst<M, E>(step: (M, seq<int>) -> Result<Reply<M>, E>, settings: seq<int>, p: Pipeline<M>, fuel: nat)
    requires |settings| == 5 && Shaped(p, 5)
    requires Round(step, settings, p, 0, fuel).Success?
    ensures var r := Round(step, settings, p, 0, fuel).value.0;
      exists q: Pipeline<M>, f: nat ::
        && Shaped(q, 5)
        && Turn(step, settings, q, 4, f) == Round(step, settings, p, 0, fuel)
        && var d := Drive(step, q.machines[4], Input(q, settings, 4), 0, f);
           && d.Success?
           && r.storage[0] == (if d.value.ending.Emitted? then d.value.ending.value else q.storage[0])
           && r.terminated[4] == (d.value.ending.Finished? || q.terminated[4])
  {
    RoundEndsWithLastTurn(step, settings, p, 0, fuel);
    var q: Pipeline<M>, f: nat :| LastTurn(step, settings, q, f, Round(step, settings, p, 0, fuel));
    TurnStores(step, settings, q, 4, f);
  }

  /** s is the outcome of a whole round played from q. */
  ghost predicate FinalRound<M, E>(step: (M, seq<int>) -> Result<Reply<M>, E>, settings: seq<int>, q: Pipeline<M>, f: nat, s: Pipeline<M>) {
    Shaped(q, |settings|) && Round(step, settings, q, 0, f).Success? && Round(step, settings, q, 0, f).value.0 == s
  }

  /** The outer loop stops right after a round: a settled pipeline is the
      outcome of the last round played. */
  lemma {:induction false} SettleEndsWithRound<M, E>(step: (M, seq<int>) -> Result<Reply<M>, E>, settings: seq<int>, p: Pipeline<M>, fuel: nat)
    requires Shaped(p, |settings|)
    requires Settle(step, settings, p, fuel).Success?
    decreases fuel
    ensures exists q: Pipeline<M>, f: nat :: FinalRound(step, settings, q, f, Settle(step, settings, p, fuel).value)
  {
    var r := Round(step, settings, p, 0, fuel);
    assert r.Success?;
    var (q, f) := r.value;
    if AllTerminated(q) {
      assert FinalRound(step, settings, p, fuel, Settle(step, settings, p, fuel).value);
    } else {
      assert Settle(step, settings, p, fuel) == Settle(step, settings, q, f);
      SettleEndsWithRound(step, settings, q, f);
    }
  }

  /** `compute`'s answer is storage slot 0 as the final round leaves it,
      which LastMachineFeedsFirst describes with five machines. */
  lemma AnswerAfterFinalRound<M, E>(step: (M, seq<int>) -> Result<Reply<M>, E>, initial: M, settings: seq<int>, fuel: nat)
    requires Amplify(step, initial, settings, fuel).Success?
    ensures exists q: Pipeline<M>, f: nat ::
      && FinalRound(step, settings, q, f, Settle(step, settings, Start(initial, |settings|), fuel).value)
      && Amplify(step, initial, settings, fuel).value == Round(step, settings, q, 0, f).value.0.storage[0]
  {
    SettleEndsWithRound(step, settings, Start(initial, |settings|), fuel);
  }

  /** A phase setting once dropped stays dropped for the rest of `compute`:
      from then on the machine is offered its storage slot alone. */
  lemma PhaseStaysDropped<M, E>(step: (M, seq<int>) -> Result<Reply<M>, E>, settings: seq<int>, p: Pipeline<M>, fuel: nat)
    requires Shaped(p, |settings|)
    requires Settle(step, settings, p, fuel).Success?
    ensures var q := Settle(step, settings, p, fuel).value;
      forall i :: 0 <= i < |settings| && !p.pending[i] ==> !q.pending[i] && Input(q, settings, i) == [q.storage[i]]
  {
  }

  /** Within a round the same holds: a dropped phase setting is not pending
      at the end of the round. */
  lemma PhaseStaysDroppedInRound<M, E>(step: (M, seq<int>) -> Result<Reply<M>, E>, settings: seq<int>, p: Pipeline<M>, i: nat, fuel: nat)
    requires Shaped(p, |settings|) && i <= |settings|
    requires Round(step, settings, p, i, fuel).Success?
    ensures var q := Round(step, settings, p, i, fuel).value.0;
      forall j :: 0 <= j < |settings| && !p.pending[j] ==> !q.pending[j] && Input(q, settings, j) == [q.storage[j]]
  {
  }

  function Snapshot<M>(machines: array<M>, storage: array<int>, terminated: array<bool>, pending: array<bool>): Pipeline<M>
    reads machines, storage, terminated, pending
  {
    Pipeline(machines[..], storage[..], terminated[..], pending[..])
  }

  /** The inner `loop` of `compute`: steps machine m until it outputs or
      terminates. */
  method DriveMachine<M, E>(step: (M, seq<int>) -> Result<Reply<M>, E>, m: M, view: seq<int>, fuel: nat)
    returns (r: Result<Turned<M>, Fault<E>>)
    ensures r == Drive(step, m, view, 0, fuel)
  {
    var machine, rest, used, f := m, view, 0, fuel;
    while true
      invariant Drive(step, machine, rest, used, f) == Drive(step, m, view, 0, fuel)
      decreases f
    {
      if f == 0 {
        return Failure(OutOfFuel);
      }
      var res := step(machine, rest);
      if res.Failure? {
        return Failure(Machine(res.error));
      }
      var reply := res.value;
      var c := if reply.consumed < |rest| then reply.consumed else |rest|;
      match reply.step {
        case Nothing =>
          machine, rest, used, f := reply.machine, rest[c..], used + c, f - 1;
        case Output(o) =>
          return Success(Turned(reply.machine, used + c, Emitted(o), f - 1));
        case Terminated =>
          return Success(Turned(reply.machine, used + c, Finished, f - 1));
      }
    }
  }

  /** The body of the `for` loop of `compute` for machine i: drive it,
      then record its output or termination in place. */
  method TakeTurn<M, E>(step: (M, seq<int>) -> Result<Reply<M>, E>, settings: seq<int>, machines: array<M>,
                        storage: array<int>, terminated: array<bool>, pending: array<bool>, i: nat, fuel: nat)
    returns (r: Result<nat, Fault<E>>)
    requires terminated != pending && machines as object != storage && machines as object != terminated
    requires machines as object != pending
    requires Shaped(Snapshot(machines, storage, terminated, pending), |settings|) && i < |settings|
    modifies machines, storage, terminated, pending
    ensures match Turn(step, settings, old(Snapshot(machines, storage, terminated, pending)), i, fuel)
      case Failure(e) => r == Failure(e)
      case Success((q, f)) => r == Success(f) && Snapshot(machines, storage, terminated, pending) == q
  {
    var n := |settings|;
    ghost var p := Snapshot(machines, storage, terminated, pending);
    var view := (if pending[i] then [settings[i]] else []) + [storage[i]];
    assert view == Input(p, settings, i);
    var d := DriveMachine(step, machines[i], view, fuel);
    if d.Failure? {
      return Failure(d.error);
    }
    var t := d.value;
    match t.ending {
      case Emitted(o) =>
        var j := (i + 1) % 5;
        if j >= n {
          return Failure(IndexOutOfBounds);
        }
        storage[j] := o;
      case Finished =>
        terminated[i] := true;
    }
    machines[i] := t.machine;
    pending[i] := pending[i] && t.used == 0;
    r := Success(t.fuel);
    assert Turn(step, settings, p, i, fuel) == Success((Snapshot(machines, storage, terminated, pending), t.fuel));
  }

  /** One pass of the `for` loop of `compute` over every machine. */
  method PlayRound<M, E>(step: (M, seq<int>) -> Result<Reply<M>, E>, settings: seq<int>, machines: array<M>,
                         storage: array<int>, terminated: array<bool>, pending: array<bool>, fuel: nat)
    returns (r: Result<nat, Fault<E>>)
    requires terminated != pending && machines as object != storage && machines as object != terminated
    requires machines as object != pending
    requires Shaped(Snapshot(machines, storage, terminated, pending), |settings|)
    modifies machines, storage, terminated, pending
    ensures match Round(step, settings, old(Snapshot(machines, storage, terminated, pending)), 0, fuel)
      case Failure(e) => r == Failure(e)
      case Success((q, f)) => r == Success(f) && Snapshot(machines, storage, terminated, pending) == q
  {
    ghost var target := Round(step, settings, Snapshot(machines, storage, terminated, pending), 0, fuel);
    var f := fuel;
    var i := 0;
    while i < |settings|
      invariant 0 <= i <= |settings|
      invariant Shaped(Snapshot(machines, storage, terminated, pending), |settings|)
      invariant Round(step, settings, Snapshot(machines, storage, terminated, pending), i, f) == target
    {
      ghost var before := Snapshot(machines, storage, terminated, pending);
      ghost var turnFuel := f;
      var res := TakeTurn(step, settings, machines, storage, terminated, pending, i, f);
      if res.Failure? {
        return Failure(res.error);
      }
      f := res.value;
      assert Round(step, settings, before, i, turnFuel) == Round(step, settings, Snapshot(machines, storage, terminated, pending), i + 1, f);
      i := i + 1;
    }
    r := Success(f);
  }

  /** `compute`, over vectors updated in place. */
  method Compute<M, E>(step: (M, seq<int>) -> Result<Reply<M>, E>, initial: M, settings: seq<int>, fuel: nat)
    returns (r: Result<int, Fault<E>>)
    ensures r == Amplify(step, initial, settings, fuel)
  {
    var n := |settings|;
    var storage := new int[n](_ => 0);
    var terminated := new bool[n](_ => false);
    var pending := new bool[n](_ => true);
    var machines := new M[n](_ => initial);
    ghost var target := Settle(step, settings, Start(initial, n), fuel);
    assert Snapshot(machines, storage, terminated, pending) == Start(initial, n);
    var f := fuel;
    while true
      invariant fresh(machines) && fresh(storage) && fresh(terminated) && fresh(pending)
      invariant terminated != pending && machines as object != storage && machines as object != terminated
      invariant machines as object != pending
      invariant Shaped(Snapshot(machines, storage, terminated, pending), n)
      invariant Settle(step, settings, Snapshot(machines, storage, terminated, pending), f) == target
      decreases f
    {
      ghost var start := Snapshot(machines, storage, terminated, pending);
      ghost var roundFuel := f;
      var res := PlayRound(step, settings, machines, storage, terminated, pending, f);
      if res.Failure? {
        return Failure(res.error);
      }
      f := res.value;
      if AllTerminated(Snapshot(machines, storage, terminated, pending)) {
        if n == 0 {
          return Failure(IndexOutOfBounds);
        }
        return Success(storage[0]);
      }
    }
  }

  // run

  /** `unique`: the settings collected into a set lose nothing. */
  predicate Unique(settings: seq<int>) {
    |set x | x in settings| == |settings|
  }

  predicate Distinct(s: seq<int>) {
    forall i, j :: 0 <= i < j < |s| ==> s[i] != s[j]
  }

  lemma {:induction false} SetOfSeqSize(s: seq<int>)
    ensures |set x | x in s| <= |s|
    ensures |set x | x in s| == |s| <==> Distinct(s)
  {
    if s != [] {
      SetOfSeqSize(s[1..]);
      var rest := set x | x in s[1..];
      assert (set x | x in s) == rest + {s[0]};
      if s[0] in rest {
        assert (set x | x in s) == rest;
        var j :| 0 <= j < |s[1..]| && s[1..][j] == s[0];
        assert s[0] == s[j + 1];
      } else {
        assert |(set x | x in s)| == |rest| + 1;
        if Distinct(s[1..]) {
          forall i, j | 0 <= i < j < |s| ensures s[i] != s[j] {
            if i == 0 {
              assert s[j] == s[1..][j - 1];
            } else {
              assert s[i] == s[1..][i - 1] && s[j] == s[1..][j - 1];
            }
          }
        }
        if Distinct(s) {
          forall i, j | 0 <= i < j < |s[1..]| ensures s[1..][i] != s[1..][j] {
            assert s[i + 1] != s[j + 1];
          }
        }
      }
    }
  }

  /** `unique` holds exactly when no value repeats. */
  lemma UniqueIff(settings: seq<int>)
    ensures Unique(settings) <==> Distinct(settings)
  {
    SetOfSeqSize(settings);
  }

  /** [v] + t for every t in ts, in order. */
  function Prefix(v: int, ts: seq<seq<int>>): (r: seq<seq<int>>)
    ensures |r| == |ts| && forall i :: 0 <= i < |ts| ==> r[i] == [v] + ts[i]
  {
    seq(|ts|, i requires 0 <= i < |ts| => [v] + ts[i])
  }

  /** The tuples led by each value from v to hi - 1 in turn. */
  function LedBy(v: int, hi: int, rest: seq<seq<int>>): seq<seq<int>>
    decreases hi - v
  {
    if v >= hi then [] else Prefix(v, rest) + LedBy(v + 1, hi, rest)
  }

  /** `iproduct!` of k copies of lo..hi: every k-tuple, the first component
      varying slowest. */
  function Tuples(lo: int, hi: int, k: nat): seq<seq<int>> {
    if k == 0 then [[]] else LedBy(lo, hi, Tuples(lo, hi, k - 1))
  }

  predicate InRange(t: seq<int>, lo: int, hi: int) {
    forall j :: 0 <= j < |t| ==> lo <= t[j] < hi
  }

  lemma {:induction false} LedByMembers(v: int, hi: int, rest: seq<seq<int>>, t: seq<int>)
    ensures t in LedBy(v, hi, rest) <==> |t| > 0 && v <= t[0] < hi && t[1..] in rest
    decreases hi - v
  {
    if v < hi {
      LedByMembers(v + 1, hi, rest, t);
      if t in Prefix(v, rest) {
        var i :| 0 <= i < |rest| && Prefix(v, rest)[i] == t;
        assert t[1..] == rest[i];
      }
      if |t| > 0 && t[0] == v && t[1..] in rest {
        var i :| 0 <= i < |rest| && rest[i] == t[1..];
        assert Prefix(v, rest)[i] == t;
      }
    }
  }

  /** The product holds exactly the k-tuples over lo..hi. */
  lemma {:induction false} TuplesMembers(lo: int, hi: int, k: nat, t: seq<int>)
    ensures t in Tuples(lo, hi, k) <==> |t| == k && InRange(t, lo, hi)
  {
    if k > 0 {
      LedByMembers(lo, hi, Tuples(lo, hi, k - 1), t);
      if |t| > 0 {
        TuplesMembers(lo, hi, k - 1, t[1..]);
        if InRange(t, lo, hi) {
          assert forall j :: 0 <= j < |t| - 1 ==> t[1..][j] == t[j + 1];
        }
        if lo <= t[0] < hi && InRange(t[1..], lo, hi) {
          forall j | 0 <= j < |t| ensures lo <= t[j] < hi {
            if j > 0 {
              assert t[j] == t[1..][j - 1];
            }
          }
        }
      }
    }
  }

  /** `.filter(unique)`: the tuples without a repeated setting. */
  function Filter(ts: seq<seq<int>>): (r: seq<seq<int>>)
    ensures forall t :: t in r <==> t in ts && Unique(t)
  {
    if ts == [] then []
    else (if Unique(ts[0]) then [ts[0]] else []) + Filter(ts[1..])
  }

  /** The filter keeps the product order: filtering a concatenation
      filters each part and keeps them in order. */
  lemma {:induction false} FilterAppend(a: seq<seq<int>>, b: seq<seq<int>>)
    ensures Filter(a + b) == Filter(a) + Filter(b)
  {
    if a == [] {
      assert a + b == b;
    } else {
      assert (a + b)[0] == a[0];
      assert (a + b)[1..] == a[1..] + b;
      FilterAppend(a[1..], b);
    }
  }

  datatype Part = A | B

  /** The settings `run` tries: five values from 0..5 (part A) or 5..10
      (part B), no value twice, in product order. */
  function Candidates(part: Part): seq<seq<int>> {
    var lo := if part == A then 0 else 5;
    Filter(Tuples(lo, lo + 5, 5))
  }

  /** The candidates are exactly the orderings of the part's five values. */
  lemma CandidatesAre(part: Part, t: seq<int>)
    ensures var lo := if part == A then 0 else 5;
      t in Candidates(part) <==> |t| == 5 && InRange(t, lo, lo + 5) && Distinct(t)
  {
    var lo := if part == A then 0 else 5;
    TuplesMembers(lo, lo + 5, 5, t);
    UniqueIff(t);
  }

  datatype RunError<E> = Amplifier(fault: Fault<E>) | NoOutput

  /** The `for` loop of `run`: each result in turn, the first error ending
      the loop, the largest value kept. */
  function Best<E>(results: seq<Result<int, Fault<E>>>, max: Option<int>): Result<Option<int>, Fault<E>> {
    if results == [] then Success(max)
    else match results[0]
      case Failure(f) => Failure(f)
      case Success(next) =>
        Best(results[1..], Some(match max case None => next case Some(current) => if current < next then next else current))
  }

  /** The result of `compute` for each candidate, in order. */
  function Results<M, E>(step: (M, seq<int>) -> Result<Reply<M>, E>, initial: M, candidates: seq<seq<int>>, fuel: nat)
    : (rs: seq<Result<int, Fault<E>>>)
    ensures |rs| == |candidates|
    ensures forall i :: 0 <= i < |rs| ==> rs[i] == Amplify(step, initial, candidates[i], fuel)
  {
    if candidates == [] then []
    else [Amplify(step, initial, candidates[0], fuel)] + Results(step, initial, candidates[1..], fuel)
  }

  /** `run` after parsing: the largest `compute` result, or the first
      error, or "no output!" when nothing was tried. */
  function Answer<M, E>(step: (M, seq<int>) -> Result<Reply<M>, E>, initial: M, part: Part, fuel: nat)
    : Result<int, RunError<E>>
  {
    AnswerOver(step, initial, Candidates(part), fuel)
  }

  function AnswerOver<M, E>(step: (M, seq<int>) -> Result<Reply<M>, E>, initial: M, candidates: seq<seq<int>>, fuel: nat)
    : Result<int, RunError<E>>
  {
    match Best(Results(step, initial, candidates, fuel), None)
    case Failure(f) => Failure(Amplifier(f))
    case Success(None) => Failure(NoOutput)
    case Success(Some(v)) => Success(v)
  }

  /** A maximum from the fold is one of the results and at least every
      result; the fold holds nothing exactly when there were no results. */
  lemma {:induction false} BestIsMax<E>(results: seq<Result<int, Fault<E>>>, max: Option<int>)
    requires Best(results, max).Success?
    ensures forall i :: 0 <= i < |results| ==> results[i].Success?
    ensures Best(results, max).value.None? <==> results == [] && max.None?
    ensures Best(results, max).value.Some? ==>
      var v := Best(results, max).value.value;
      && (max == Some(v) || exists i :: 0 <= i < |results| && results[i] == Success(v))
      && (max.Some? ==> max.value <= v)
      && forall i :: 0 <= i < |results| ==> results[i].value <= v
  {
    if results != [] {
      var next := results[0].value;
      var m := match max case None => next case Some(current) => if current < next then next else current;
      BestIsMax(results[1..], Some(m));
      var v := Best(results, max).value.value;
      forall i | 1 <= i < |results| ensures results[i].Success? && results[i].value <= v {
        assert results[i] == results[1..][i - 1];
      }
      if m != v {
        var i :| 0 <= i < |results[1..]| && results[1..][i] == Success(v);
        assert results[i + 1] == Success(v);
      }
    }
  }

  /** An error from the fold is the error of the first failing result. */
  lemma {:induction false} BestFirstError<E>(results: seq<Result<int, Fault<E>>>, max: Option<int>)
    requires Best(results, max).Failure?
    ensures exists i :: (0 <= i < |results| && results[i] == Failure(Best(results, max).error)
      && forall j :: 0 <= j < i ==> results[j].Success?)
  {
    if results[0].Success? {
      var next := results[0].value;
      var m := match max case None => next case Some(current) => if current < next then next else current;
      BestFirstError(results[1..], Some(m));
      var i :| 0 <= i < |results[1..]| && results[1..][i] == Failure(Best(results, max).error)
        && forall j :: 0 <= j < i ==> results[1..][j].Success?;
      assert results[i + 1] == Failure(Best(results, max).error);
      forall j | 0 <= j < i + 1 ensures results[j].Success? {
        if j > 0 {
          assert results[j] == results[1..][j - 1];
        }
      }
    }
  }

  /** "no output!" is never the answer: there is a candidate, so a fold
      that succeeds holds a maximum. */
  lemma NeverNoOutput<M, E>(step: (M, seq<int>) -> Result<Reply<M>, E>, initial: M, part: Part, fuel: nat)
    ensures Answer(step, initial, part, fuel) != Failure(NoOutput)
  {
    CandidatesNonEmpty(part);
    SomeCandidateSomeAnswer(step, initial, Candidates(part), fuel);
  }

  /** Over at least one candidate the fold holds a maximum when it succeeds. */
  lemma SomeCandidateSomeAnswer<M, E>(step: (M, seq<int>) -> Result<Reply<M>, E>, initial: M,
                                      candidates: seq<seq<int>>, fuel: nat)
    requires |candidates| > 0
    ensures AnswerOver(step, initial, candidates, fuel) != Failure(NoOutput)
  {
    BestOfSome(Results(step, initial, candidates, fuel));
  }

  /** The values of the part in increasing order are a candidate. */
  lemma CandidatesNonEmpty(part: Part)
    ensures |Candidates(part)| > 0
  {
    var lo := if part == A then 0 else 5;
    var t := [lo, lo + 1, lo + 2, lo + 3, lo + 4];
    assert InRange(t, lo, lo + 5);
    assert Distinct(t) by {
      forall i, j | 0 <= i < j < |t| ensures t[i] != t[j] {
        assert t[i] == lo + i && t[j] == lo + j;
      }
    }
    CandidatesAre(part, t);
    assert t in Candidates(part);
  }

  /** A fold over at least one result holds a maximum when it succeeds. */
  lemma BestOfSome<E>(results: seq<Result<int, Fault<E>>>)
    requires |results| > 0
    ensures Best(results, None).Success? ==> Best(results, None).value.Some?
  {
    if Best(results, None).Success? {
      BestIsMax(results, None);
    }
  }

  /** The loop of `run`: the running maximum of `compute` over the
      candidates. */
  method MaxOver<M, E>(step: (M, seq<int>) -> Result<Reply<M>, E>, initial: M, candidates: seq<seq<int>>, fuel: nat)
    returns (r: Result<Option<int>, Fault<E>>)
    ensures r == Best(Results(step, initial, candidates, fuel), None)
  {
    var max: Option<int> := None;
    var k := 0;
    while k < |candidates|
      invariant 0 <= k <= |candidates|
      invariant Best(Results(step, initial, candidates[k..], fuel), max) == Best(Results(step, initial, candidates, fuel), None)
    {
      assert candidates[k..][1..] == candidates[k + 1..];
      var next := Compute(step, initial, candidates[k], fuel);
      if next.Failure? {
        return Failure(next.error);
      }
      max := Some(match max case None => next.value case Some(current) => if current < next.value then next.value else current);
      k := k + 1;
    }
    assert candidates[k..] == [];
    r := Success(max);
  }

  /** `run`, after parsing the program. */
  method Run<M, E>(step: (M, seq<int>) -> Result<Reply<M>, E>, initial: M, part: Part, fuel: nat)
    returns (r: Result<int, RunError<E>>)
    ensures r == Answer(step, initial, part, fuel)
  {
    var best := MaxOver(step, initial, Candidates(part), fuel);
    match best {
      case Failure(f) => r := Failure(Amplifier(f));
      case Success(None) => r := Failure(NoOutput);
      case Success(Some(v)) => r := Success(v);
    }
  }
}
