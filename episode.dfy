/**
 * One evaluation episode, `eval_net` (neat_gym/__init__.py): reset the
 * environment, then repeatedly activate the network on the current
 * observation, decode an action, step the environment, log the step and
 * add up the reward, until the environment reports `terminated` or
 * `truncated` or the step counter reaches `max_episode_steps`.
 */
module Episode {
  import opened Options
  import opened Actions

  /** What `env.step` returns (the info dictionary is not used). */
  datatype StepResult = StepResult(observation: seq<real>, reward: real, terminated: bool, truncated: bool)

  /** The environment has ended the episode. */
  predicate Done(r: StepResult)
  {
    r.terminated || r.truncated
  }

  /**
   * An environment whose successive `step` results are scripted in advance.
   * It records the actions it receives, how many steps it was asked for and
   * whether it was closed.
   */
  class Environment {
    const initial: seq<real>
    const script: seq<StepResult>
    const isDiscrete: bool
    const actionHigh: seq<real>
    var calls: nat
    var received: seq<Action>
    var isClosed: bool

    constructor (initial: seq<real>, script: seq<StepResult>, isDiscrete: bool, actionHigh: seq<real>)
      ensures this.initial == initial && this.script == script
      ensures this.isDiscrete == isDiscrete && this.actionHigh == actionHigh
      ensures calls == 0 && received == [] && !isClosed
    {
      this.initial := initial;
      this.script := script;
      this.isDiscrete := isDiscrete;
      this.actionHigh := actionHigh;
      calls, received, isClosed := 0, [], false;
    }

    /** `env.reset()`: starts the script over and returns the initial observation. */
    method Reset() returns (observation: seq<real>)
      modifies this`calls, this`received
      ensures observation == initial
      ensures calls == 0 && received == []
    {
      calls, received := 0, [];
      observation := initial;
    }

    /** `env.step(action)`: the next scripted result. */
    method Step(action: Action) returns (r: StepResult)
      requires calls < |script|
      modifies this`calls, this`received
      ensures r == script[old(calls)]
      ensures calls == old(calls) + 1 && received == old(received) + [action]
    {
      r := script[calls];
      calls, received := calls + 1, received + [action];
    }

    /** `env.close()`. */
    method Close()
      modifies this`isClosed
      ensures isClosed
    {
      isClosed := true;
    }
  }

  /** A field of a trajectory record: `%d` for a discrete action, `%f` otherwise. */
  datatype Field = IntField(n: int) | RealField(x: real)

  function RealFields(xs: seq<real>): (fields: seq<Field>)
    ensures |fields| == |xs|
    ensures forall i :: 0 <= i < |xs| ==> fields[i] == RealField(xs[i])
  {
    seq(|xs|, i requires 0 <= i < |xs| => RealField(xs[i]))
  }

  /** The fields an action contributes to its record. */
  function ActionFields(a: Action): seq<Field>
  {
    match a
    case Discrete(k) => [IntField(k)]
    case Continuous(v) => RealFields(v)
  }

  /**
   * One trajectory record: the action's fields first (one for a discrete
   * action, one per entry for a continuous one), then one per entry of the
   * observation that step returned.
   */
  function Row(a: Action, observation: seq<real>): (row: seq<Field>)
    ensures var w := if a.Discrete? then 1 else |a.values|;
      |row| == w + |observation| &&
      (a.Discrete? ==> row[0] == IntField(a.index)) &&
      (a.Continuous? ==> forall i :: 0 <= i < w ==> row[i] == RealField(a.values[i])) &&
      (forall i :: 0 <= i < |observation| ==> row[w + i] == RealField(observation[i]))
  {
    var head := ActionFields(a);
    var tail := RealFields(observation);
    assert forall i :: 0 <= i < |tail| ==> (head + tail)[|head| + i] == tail[i];
    head + tail
  }

  /** The records of a trajectory: one per step, pairing its action with the observation it produced. */
  function Rows(actions: seq<Action>, results: seq<StepResult>): (rows: seq<seq<Field>>)
    requires |actions| == |results|
    ensures |rows| == |results|
  {
    seq(|results|, i requires 0 <= i < |results| => Row(actions[i], results[i].observation))
  }

  /** The CSV file `eval_net` writes when given a file name. */
  class TrajectoryLog {
    const fileName: string
    var rows: seq<seq<Field>>
    var isClosed: bool

    /** `open(fileName, 'w')`: the file starts empty. */
    constructor Open(fileName: string)
      ensures this.fileName == fileName && rows == [] && !isClosed
    {
      this.fileName := fileName;
      rows, isClosed := [], false;
    }

    method Write(row: seq<Field>)
      requires !isClosed
      modifies this`rows
      ensures rows == old(rows) + [row]
    {
      rows := rows + [row];
    }

    method Close()
      modifies this`isClosed
      ensures isClosed
    {
      isClosed := true;
    }
  }

  /** The network's memory after `times` activations on the same input. */
  function MemoryAfter<M>(net: (M, seq<real>) -> (M, seq<real>), memory: M, input: seq<real>, times: nat): M
  {
    if times == 0 then memory else net(MemoryAfter(net, memory, input, times - 1), input).0
  }

  /** The output of one activation. */
  function Output<M>(net: (M, seq<real>) -> (M, seq<real>), memory: M, input: seq<real>): seq<real>
  {
    net(memory, input).1
  }

  /** The output of the last of `times` activations on the same input. */
  function LastOutput<M>(net: (M, seq<real>) -> (M, seq<real>), memory: M, input: seq<real>, times: nat): seq<real>
    requires times >= 1
  {
    Output(net, MemoryAfter(net, memory, input, times - 1), input)
  }

  /**
   * The activation loop of `eval_net`: the network is activated `times`
   * times on the same, unchanged input, and only the last output is kept.
   */
  method Activate<M>(net: (M, seq<real>) -> (M, seq<real>), memory: M, input: seq<real>, times: int)
    returns (memory': M, output: seq<real>)
    requires times >= 1
    ensures memory' == MemoryAfter(net, memory, input, times)
    ensures output == LastOutput(net, memory, input, times)
  {
    memory' := memory;
    output := [];
    for k := 0 to times
      invariant memory' == MemoryAfter(net, memory, input, k)
      invariant k >= 1 ==> output == LastOutput(net, memory, input, k)
    {
      var r := net(memory', input);
      memory', output := r.0, r.1;
    }
  }

  /**
   * For a network without memory (a feed-forward network), repeating the
   * activation changes nothing: the output is that of a single activation.
   */
  lemma {:induction false} StatelessRepetition<M>(net: (M, seq<real>) -> (M, seq<real>), memory: M,
                                                  input: seq<real>, times: nat)
    requires forall m, x :: net(m, x).0 == m
    ensures MemoryAfter(net, memory, input, times) == memory
    ensures times >= 1 ==> LastOutput(net, memory, input, times) == net(memory, input).1
  {
    if times > 0 {
      StatelessRepetition(net, memory, input, times - 1);
    }
  }

  /** Every output the network can produce can be decoded for this action space. */
  ghost predicate DecodesAll<M(!new)>(net: (M, seq<real>) -> (M, seq<real>), isDiscrete: bool, high: seq<real>)
  {
    forall m, x :: Decodable(Output(net, m, x), isDiscrete, high)
  }

  /** The observation the network is given before step `i` (from 0): the reset observation, then each step's. */
  function InputAt(initial: seq<real>, script: seq<StepResult>, i: nat): seq<real>
    requires i <= |script|
  {
    if i == 0 then initial else script[i - 1].observation
  }

  /**
   * The network's memory and the actions it chooses over the first `n`
   * steps: at each step it is activated `activations` times on that step's
   * observation and the last output is decoded.
   */
  ghost function Drive<M(!new)>(net: (M, seq<real>) -> (M, seq<real>), memory: M, activations: int,
                                initial: seq<real>, script: seq<StepResult>, n: nat,
                                isDiscrete: bool, high: seq<real>): (r: (M, seq<Action>))
    requires n <= |script|
    requires activations >= 1 || n == 0
    requires DecodesAll(net, isDiscrete, high)
    ensures |r.1| == n
  {
    if n == 0 then (memory, [])
    else
      var before := Drive(net, memory, activations, initial, script, n - 1, isDiscrete, high);
      var x := InputAt(initial, script, n - 1);
      var action := Decode(LastOutput(net, before.0, x, activations), isDiscrete, high);
      (MemoryAfter(net, before.0, x, activations), before.1 + [action])
  }

  /** The index of the first step result that ends the episode, or `|script|` if none does. */
  function FirstDone(script: seq<StepResult>): (k: nat)
    ensures k <= |script|
    ensures k < |script| ==> Done(script[k])
    ensures forall j :: 0 <= j < k ==> !Done(script[j])
  {
    if script == [] then 0
    else if Done(script[0]) then 0
    else 1 + FirstDone(script[1..])
  }

  /**
   * How many times `eval_net` calls `env.step`: up to and including the first
   * step that ends the episode, but never more than `max_episode_steps`.
   */
  function StepCalls(script: seq<StepResult>, maxEpisodeSteps: Option<int>): nat
  {
    var untilDone := FirstDone(script) + 1;
    match maxEpisodeSteps
    case None => untilDone
    case Some(m) => if m <= 0 then 0 else if m < untilDone then m else untilDone
  }

  /** The environment has a result for every step `eval_net` asks for, so the episode ends. */
  predicate EnvAnswers(script: seq<StepResult>, maxEpisodeSteps: Option<int>)
  {
    StepCalls(script, maxEpisodeSteps) <= |script|
  }

  /** The step count `eval_net` returns: the step that ends the episode is not counted. */
  function CountedSteps(script: seq<StepResult>, maxEpisodeSteps: Option<int>): nat
    requires EnvAnswers(script, maxEpisodeSteps)
  {
    var n := StepCalls(script, maxEpisodeSteps);
    if n > 0 && Done(script[n - 1]) then n - 1 else n
  }

  /** The rewards of `results`, added in order. */
  function TotalReward(results: seq<StepResult>): real
  {
    if results == [] then 0.0
    else TotalReward(results[..|results| - 1]) + results[|results| - 1].reward
  }

  /** Rewards add up in order: the total of `a + b` is the total of `a` plus that of `b`. */
  lemma {:induction false} TotalRewardAppend(a: seq<StepResult>, b: seq<StepResult>)
    ensures TotalReward(a + b) == TotalReward(a) + TotalReward(b)
    decreases |b|
  {
    if b == [] {
      assert a + b == a;
    } else {
      var c := b[..|b| - 1];
      assert (a + b)[..|a + b| - 1] == a + c;
      TotalRewardAppend(a, c);
    }
  }

  /**
   * With `max_episode_steps = n` and an environment that never ends the
   * episode, `env.step` is called exactly `n` times and every call is
   * counted; with `n = 0` nothing is stepped and the reward is 0.
   */
  lemma NeverEndingRunsToMax(script: seq<StepResult>, n: int)
    requires forall j :: 0 <= j < |script| ==> !Done(script[j])
    requires 0 <= n <= |script|
    ensures EnvAnswers(script, Some(n))
    ensures StepCalls(script, Some(n)) == n && CountedSteps(script, Some(n)) == n
    ensures n == 0 ==> TotalReward(script[..StepCalls(script, Some(n))]) == 0.0
  {
  }

  /** The returned step count never exceeds `max_episode_steps` (or 0 when that is negative). */
  lemma StepsWithinMax(script: seq<StepResult>, m: int)
    requires EnvAnswers(script, Some(m))
    ensures CountedSteps(script, Some(m)) <= StepCalls(script, Some(m))
    ensures StepCalls(script, Some(m)) <= if m < 0 then 0 else m
  {
  }

  /**
   * If the environment first ends the episode on its `k`-th step (from 1)
   * and `max_episode_steps` does not stop the loop earlier, there are `k`
   * calls, `k - 1` counted steps, and the `k`-th reward is in the total.
   */
  lemma EndsOnFirstDone(script: seq<StepResult>, maxEpisodeSteps: Option<int>, k: nat)
    requires 1 <= k <= |script| && Done(script[k - 1])
    requires forall j :: 0 <= j < k - 1 ==> !Done(script[j])
    requires maxEpisodeSteps.None? || k <= maxEpisodeSteps.value
    ensures EnvAnswers(script, maxEpisodeSteps)
    ensures StepCalls(script, maxEpisodeSteps) == k && CountedSteps(script, maxEpisodeSteps) == k - 1
    ensures TotalReward(script[..StepCalls(script, maxEpisodeSteps)]) ==
      TotalReward(script[..k - 1]) + script[k - 1].reward
  {
    assert FirstDone(script) == k - 1;
    assert script[..k][..k - 1] == script[..k - 1];
  }

  /** A step result that ends the episode after `n` that did not is the last call. */
  lemma EndsAt(script: seq<StepResult>, maxEpisodeSteps: Option<int>, n: nat)
    requires n < |script| && n <= FirstDone(script) && Done(script[n])
    requires maxEpisodeSteps.None? || n < maxEpisodeSteps.value
    ensures EnvAnswers(script, maxEpisodeSteps)
    ensures StepCalls(script, maxEpisodeSteps) == n + 1
    ensures CountedSteps(script, maxEpisodeSteps) == n
  {
  }

  /** The loop stops at `max_episode_steps` with every call counted. */
  lemma StopsAtMax(script: seq<StepResult>, m: int, n: nat)
    requires n <= FirstDone(script) && n <= StepCalls(script, Some(m)) && m <= n
    requires EnvAnswers(script, Some(m))
    ensures StepCalls(script, Some(m)) == n
    ensures CountedSteps(script, Some(m)) == n
  {
  }

  /**
   * One turn of the `eval_net` loop up to the reward: activate, decode,
   * `env.step`, and write the trajectory record.
   */
  method TakeStep<M(!new)>(net: (M, seq<real>) -> (M, seq<real>), memory: M, env: Environment,
                           activations: int, log: TrajectoryLog?, steps: nat, mem: M, state: seq<real>)
    returns (mem': M, result: StepResult)
    requires env.calls == steps == |env.received| && steps < |env.script|
    requires activations >= 1
    requires DecodesAll(net, env.isDiscrete, env.actionHigh)
    requires state == InputAt(env.initial, env.script, steps)
    requires mem == Drive(net, memory, activations, env.initial, env.script, steps, env.isDiscrete, env.actionHigh).0
    requires env.received ==
      Drive(net, memory, activations, env.initial, env.script, steps, env.isDiscrete, env.actionHigh).1
    requires log != null ==> !log.isClosed && log.rows == Rows(env.received, env.script[..steps])
    modifies env`calls, env`received, log
    ensures env.calls == steps + 1 == |env.received| && result == env.script[steps]
    ensures mem' == Drive(net, memory, activations, env.initial, env.script, steps + 1, env.isDiscrete, env.actionHigh).0
    ensures env.received ==
      Drive(net, memory, activations, env.initial, env.script, steps + 1, env.isDiscrete, env.actionHigh).1
    ensures log != null ==> !log.isClosed && log.rows == Rows(env.received, env.script[..steps + 1])
  {
    var output;
    mem', output := Activate(net, mem, state, activations);
    var action := Decode(output, env.isDiscrete, env.actionHigh);
    result := env.Step(action);
    assert env.script[..steps + 1] == env.script[..steps] + [result];
    if log != null {
      log.Write(Row(action, result.observation));
      assert log.rows == Rows(env.received, env.script[..steps + 1]);
    }
  }

  /**
   * The step loop of `eval_net`, from just after `env.reset()` to just
   * before the files are closed.
   */
  method StepLoop<M(!new)>(net: (M, seq<real>) -> (M, seq<real>), memory: M, env: Environment,
                           activations: int, maxEpisodeSteps: Option<int>, log: TrajectoryLog?)
    returns (totalReward: real, steps: nat)
    requires env.calls == 0 && env.received == []
    requires EnvAnswers(env.script, maxEpisodeSteps)
    requires activations >= 1 || StepCalls(env.script, maxEpisodeSteps) == 0
    requires DecodesAll(net, env.isDiscrete, env.actionHigh)
    requires log != null ==> log.rows == [] && !log.isClosed
    modifies env`calls, env`received, log
    ensures env.calls == StepCalls(env.script, maxEpisodeSteps) && |env.received| == env.calls
    ensures steps == CountedSteps(env.script, maxEpisodeSteps)
    ensures totalReward == TotalReward(env.script[..env.calls])
    ensures env.received ==
      Drive(net, memory, activations, env.initial, env.script, env.calls, env.isDiscrete, env.actionHigh).1
    ensures log != null ==> log.rows == Rows(env.received, env.script[..env.calls])
  {
    var state := env.initial;
    totalReward := 0.0;
    steps := 0;
    var mem := memory;
    while maxEpisodeSteps.None? || steps < maxEpisodeSteps.value
      invariant env.calls == steps == |env.received|
      invariant steps <= FirstDone(env.script) && steps <= StepCalls(env.script, maxEpisodeSteps)
      invariant state == InputAt(env.initial, env.script, steps)
      invariant mem == Drive(net, memory, activations, env.initial, env.script, steps, env.isDiscrete, env.actionHigh).0
      invariant env.received ==
        Drive(net, memory, activations, env.initial, env.script, steps, env.isDiscrete, env.actionHigh).1
      invariant totalReward == TotalReward(env.script[..steps])
      invariant log != null ==> !log.isClosed && log.rows == Rows(env.received, env.script[..steps])
      decreases |env.script| - steps
    {
      var result;
      mem, result := TakeStep(net, memory, env, activations, log, steps, mem, state);
      state := result.observation;
      totalReward := totalReward + result.reward;
      assert totalReward == TotalReward(env.script[..steps + 1]) by {
        assert env.script[..steps + 1][..steps] == env.script[..steps];
      }
      if result.terminated || result.truncated {
        EndsAt(env.script, maxEpisodeSteps, steps);
        break;
      }
      steps := steps + 1;
    }
    if maxEpisodeSteps.Some? && steps >= maxEpisodeSteps.value && env.calls == steps {
      StopsAtMax(env.script, maxEpisodeSteps.value, steps);
    }
  }

  /**
   * `eval_net`. `net` stands for `net.activate` on a network with memory
   * `memory`; `csvFileName` is the optional trajectory file.
   */
  method EvalNet<M(!new)>(net: (M, seq<real>) -> (M, seq<real>), memory: M, env: Environment,
                          activations: int, maxEpisodeSteps: Option<int>, csvFileName: Option<string>)
    returns (totalReward: real, steps: nat, log: TrajectoryLog?)
    requires EnvAnswers(env.script, maxEpisodeSteps)
    requires activations >= 1 || StepCalls(env.script, maxEpisodeSteps) == 0
    requires DecodesAll(net, env.isDiscrete, env.actionHigh)
    modifies env
    ensures env.calls == StepCalls(env.script, maxEpisodeSteps) && |env.received| == env.calls
    ensures steps == CountedSteps(env.script, maxEpisodeSteps)
    ensures totalReward == TotalReward(env.script[..env.calls])
    ensures env.received ==
      Drive(net, memory, activations, env.initial, env.script, env.calls, env.isDiscrete, env.actionHigh).1
    ensures env.isClosed
    ensures (log != null) == csvFileName.Some?
    ensures log != null ==>
      fresh(log) && log.fileName == csvFileName.value && log.isClosed &&
      log.rows == Rows(env.received, env.script[..env.calls])
  {
    var state := env.Reset();
    log := null;
    if csvFileName.Some? {
      log := new TrajectoryLog.Open(csvFileName.value);
    }
    totalReward, steps := StepLoop(net, memory, env, activations, maxEpisodeSteps, log);
    if log != null {
      log.Close();
    }
    env.Close();
  }
}
