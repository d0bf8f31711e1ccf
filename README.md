# neat-gymnasium core, modelled in Dafny

This project models the evaluation core of the neat-gymnasium scripts, which
evolve NEAT neural-network controllers for Gymnasium environments. It covers
three pieces:

- **`eval_net`** runs one episode of a network against an environment. It
  resets the environment, then loops: activate the network `activations` times
  on the current observation, decode an action (argmax for a discrete action
  space, output times `action_space.high` for a continuous one), call
  `env.step`, optionally write a CSV trajectory record, and add the reward.
  The loop stops when the environment reports `terminated` or `truncated`, or
  when `steps` reaches `max_episode_steps`. The step that ends the episode adds
  its reward but is not counted in `steps`.
- **`_gym_make`** makes an environment and wraps it. Each wrapper path
  `"pkg.mod.Class"` is split into a module path and a class name. The wrappers
  are applied in list order, and any failure exits with status 1.
- **`_SaveReporter`** is the checkpoint observer of `neat-evolve.py`. After
  each generation it saves the champion when checkpointing is on and the
  champion strictly beats the best fitness saved so far.

Modules:

- `Options` (options.dfy): Python's `None` as `Option`.
- `GymMake` (gym_make.dfy): `str.split`, `".".join`, the module-path loop, the
  wrapper chain and `MakeEnv`.
- `Actions` (actions.dfy): numpy `argmax`, element-wise scaling and `Decode`.
- `Episode` (episode.dfy): a scripted `Environment` class, the `TrajectoryLog`
  CSV file class, the activation loop, the episode loop (`EvalNet`, with
  `StepLoop` and `TakeStep`), and specification functions with lemmas about them.
- `NeatEvolve` (neat_evolve.dfy): the `SaveReporter` class, a `Config` that
  records `save_genome` calls, and lemmas about whole runs.

How foreign parts are represented:

- The network is a function `net(memory, observation) -> (memory', output)`.
  A recurrent network keeps state between activations. A feed-forward
  network is the case where the memory never changes (`StatelessRepetition`).
- The environment is a script of step results
  `(observation, reward, terminated, truncated)`, an initial observation, an
  `isDiscrete` flag and the `actionHigh` vector.
- `gym.make` is a parameter `make`. Importing the wrapper module, looking up
  the class and constructing the wrapper are one parameter, `load`. Each
  returns None where the Python call would raise.
- Rewards and network outputs are mathematical reals.

Two details of the loop that matter for its results:

- Repeated activation reuses the same, unchanged observation; outputs are not
  fed back in (neat_gym/__init__.py:146-147).
- The step that ends the episode is not counted, because the loop breaks
  before `steps += 1` (neat_gym/__init__.py:174-177).

## Model

| member | source | states |
|---|---|---|
| `GymMake.Split` | neat_gym/__init__.py:29 | `wrapper.split(".")` returns at least one piece; no piece contains a dot; joining the pieces with "." gives the input back; the first piece is empty exactly when the input is empty or starts with "." |
| `GymMake.SplitJoin` | neat_gym/__init__.py:29 | splitting undoes joining for any non-empty list of dot-free words, so the pieces of a path are determined by it |
| `GymMake.DropLeadingEmptySuffix` | neat_gym/__init__.py:32-37 | the module-path loop ignores a prefix made only of empty words and keeps the rest of the list unchanged |
| `GymMake.BaseModule` | neat_gym/__init__.py:32-37 | the loop that builds `baseModule` computes `".".join` of the words after the leading empty ones are dropped; it equals `".".join(words)` when the first word is non-empty |
| `GymMake.SplitWrapperPath` | neat_gym/__init__.py:29-37 | the class name is the dot-free text after the last "."; the module path never starts with "."; the module path is empty when there is no dot; for a path that does not start with "." the module path is the text before the last "." |
| `GymMake.ChainAppend` | neat_gym/__init__.py:28-41 | applying wrappers `a + b` means applying `a` and then `b` around the result; a failure inside `a` is final |
| `GymMake.ChainSnoc` | neat_gym/__init__.py:28-41 | each wrapper wraps the environment that the wrappers before it produced |
| `GymMake.ChainFailureIsFinal` | neat_gym/__init__.py:26-46 | once one wrapper fails, the whole construction fails |
| `GymMake.MakeEnv` | neat_gym/__init__.py:22-48 | the result is the environment made by `gym.make` with every wrapper applied in list order; if `gym.make`, an import (including the empty module name of a path without a dot), the class lookup or a constructor fails, the result is exit status 1 and never a partly wrapped environment |
| `Actions.Argmax` | neat_gym/__init__.py:150 | `np.argmax` returns an index of the output that is at least every entry and strictly above every earlier entry, so it is the first maximal index |
| `Actions.Decode` | neat_gym/__init__.py:150-151 | a discrete space gets the first index of a largest output; a continuous space gets one value per output, equal to that output times `action_space.high` at the same position |
| `Actions.ProductBound` | neat_gym/__init__.py:151 | one output in [-1, 1] times a non-negative bound lies between minus that bound and the bound |
| `Actions.ScaledWithinBounds` | neat_gym/__init__.py:151 | outputs in [-1, 1] with non-negative bounds give actions in [-high, high] |
| `Actions.DecodeExamples` | neat_gym/__init__.py:150-151 | [0.1, 0.9, 0.2] decodes to discrete action 1; [0.5, -0.5] with bounds [2, 2] decodes to [1, -1] |
| `Episode.Environment.Step` | neat_gym/__init__.py:153 | `env.step` returns the next scripted result and records the action it was given |
| `Episode.Environment.Reset` | neat_gym/__init__.py:130 | `env.reset` returns the initial observation and starts the script over |
| `Episode.Environment.Close` | neat_gym/__init__.py:182 | `env.close` marks the environment closed |
| `Episode.TrajectoryLog.Open` | neat_gym/__init__.py:139-141 | opening the CSV file for writing leaves it empty |
| `Episode.TrajectoryLog.Write` | neat_gym/__init__.py:156-166 | each write appends exactly one record |
| `Episode.TrajectoryLog.Close` | neat_gym/__init__.py:179-180 | closing the file marks it closed |
| `Episode.Row` | neat_gym/__init__.py:156-166 | a record holds the action fields first (one integer field for a discrete action, one real field per entry for a continuous one), then one real field per entry of the post-step observation |
| `Episode.Rows` | neat_gym/__init__.py:156-166 | a trajectory has one record per `env.step` call |
| `Episode.Activate` | neat_gym/__init__.py:146-147 | the network is activated `activations` times on the same observation; the memory is threaded through the activations and only the last output is kept |
| `Episode.StatelessRepetition` | neat_gym/__init__.py:146-147 | for a network without memory, repeating the activation gives the output of a single activation |
| `Episode.FirstDone` | neat_gym/__init__.py:174-175 | finds the first step result with `terminated` or `truncated`; no earlier result has either flag |
| `Episode.TakeStep` | neat_gym/__init__.py:145-166 | one turn of the loop: activate, decode, step once, and write one record for that step |
| `Episode.StepLoop` | neat_gym/__init__.py:143-177 | the loop makes `StepCalls` step calls and returns `CountedSteps`; the reward is the sum of every step's reward in order; the actions are those the network chose; there is one record per call |
| `Episode.EvalNet` | neat_gym/__init__.py:99-187 | returns `(total_reward, steps)` as `StepLoop` states; always closes the environment; when a file name is given, returns a fresh closed CSV file with one record per `env.step` call, including the final step |
| `Episode.TotalRewardAppend` | neat_gym/__init__.py:172 | the accumulated reward of a sequence of steps is the sum over its parts, in order |
| `Episode.NeverEndingRunsToMax` | neat_gym/__init__.py:132-133 | with `max_episode_steps = N` and an environment that never ends the episode, there are exactly N step calls and `steps = N`; N = 0 returns `(0, 0)` |
| `Episode.StepsWithinMax` | neat_gym/__init__.py:143-177 | the returned `steps` is at most the number of step calls, which is at most `max_episode_steps` (0 when that is negative) |
| `Episode.EndsOnFirstDone` | neat_gym/__init__.py:172-177 | if the environment first ends the episode on step k, there are k step calls and `steps = k - 1`, and step k's reward is in the total |
| `NeatEvolve.SaveReporter.constructor` | neat-evolve.py:25-31 | a new reporter has no best fitness and keeps its environment name and checkpoint flag |
| `NeatEvolve.SaveReporter.PostEvaluate` | neat-evolve.py:33-38 | saves the champion exactly when checkpointing is on and there is no best yet or the fitness is strictly greater; then `best` becomes that fitness; only `best` and the saved genomes change; with checkpointing off nothing changes; `best` never decreases |
| `NeatEvolve.Run` | neat-evolve.py:24-38 | a fresh reporter told each generation's champion in turn ends with `best` equal to the fold `BestAfter` and has saved genomes whose fitnesses are the fold `SavedFitnesses`, so the whole-run lemmas hold of repeated `post_evaluate` calls |
| `NeatEvolve.Config.SaveGenome` | neat-evolve.py:38 | `save_genome` is recorded as one more saved genome |
| `NeatEvolve.NoCheckpointNoSaves` | neat-evolve.py:29-35 | with checkpointing off, no run ever saves and `best` stays None |
| `NeatEvolve.FirstChampionSaved` | neat-evolve.py:35-38 | with checkpointing on, the first champion is always saved and becomes `best` |
| `NeatEvolve.SavesStrictlyIncrease` | neat-evolve.py:35-36 | over any run the saved fitnesses strictly increase, and `best` is the last one saved (None before the first save) |
| `NeatEvolve.BestIsMaximum` | neat-evolve.py:35-36 | with checkpointing on, `best` is the largest champion fitness seen so far |
| `NeatEvolve.BestNeverDecreases` | neat-evolve.py:35-36 | once `best` is set, later generations never lower it |
| `NeatEvolve.SavedIffStrictlyBetter` | neat-evolve.py:35-36 | once there is a `best`, a champion is saved and becomes `best` exactly when its fitness is strictly greater; an equal or lower fitness changes nothing |

## Left out

- `read_file` (neat_gym/__init__.py:58-96): argument parsing and unpickling a file, which is I/O only.
- `_is_discrete` (neat_gym/__init__.py:51-52): it inspects the Python type name of a library object. It is replaced by the environment's `isDiscrete` flag.
- `gym.make`, `importlib.import_module`, `getattr` and the wrapper constructors are foreign calls. They are the opaque parameters `make` and `load`. The text of the diagnostic printed before `exit(1)` is not modelled.
- Video recording through `wrappers.Monitor`, `env.render()`, the 20 ms sleep and the final report `print` (neat_gym/__init__.py:126-127, 168-170, 184-185) do not affect the returned values.
- The `seed` parameter of `eval_net` is never used, because its seeding call is commented out.
- `rendType` (neat_gym/__init__.py:122-124) is assigned for rendering and never read afterwards, so it does not affect any result.
- `state.flatten()`: observations are modelled as flat vectors already.
- `%d`/`%f` text formatting of CSV records: a record is a sequence of integer and real fields in file order, not text.
- Floating-point arithmetic in rewards and scaling: rewards and outputs are reals, so rounding, NaN and infinities are not modelled.
- Exceptions raised by the network or by `env.step` are not modelled.
- `EvalNet`: requires that the environment answers every step the loop asks for (`EnvAnswers`). With no `max_episode_steps` and an environment that never ends the episode, the source loops forever, which a terminating model cannot express.
- `EvalNet`: requires `activations >= 1` whenever at least one step is taken. Otherwise `action` is never bound and Python raises.
- `EvalNet`: requires every network output to be decodable (`DecodesAll`): non-empty for a discrete space, and as long as `action_space.high` for a continuous one. numpy raises on an empty argmax, and the model does not cover numpy's broadcasting of a length-1 vector.
- `main` in neat-evolve.py (lines 41-89): argument parsing, seeding, directories, the NEAT population, the reporters and the multiprocessing evaluator are library plumbing and concurrency. The generation loop that calls `post_evaluate` belongs to the NEAT library. It is modelled by the method `Run`, which calls `PostEvaluate` once per champion and is proved equal to the folds `BestAfter`/`SavedFitnesses`.
- The `print` in `post_evaluate` and the file written by `save_genome`: `save_genome` and the configuration classes `_GymConfig`, `_GymHyperConfig` and `_GymEsHyperConfig` are not part of this model. Each save is only recorded as a call.
- Per-genome fitness averaging over repetitions (`eval_genome`) is not part of this model. Its definition is not among the modelled files.
