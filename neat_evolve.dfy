/**
 * The checkpoint reporter `_SaveReporter` (neat-evolve.py): after each
 * generation is evaluated it is told that generation's best genome; when
 * checkpointing is on it saves that genome whenever no fitness has been
 * saved yet or the fitness strictly beats the best one so far, and then
 * remembers it as the new best.
 */
module NeatEvolve {
  import opened Options

  /** A genome as the reporter sees it: only its fitness is read. */
  datatype Genome = Genome(key: nat, fitness: real)

  /** The run configuration, reduced to the genomes `save_genome` was called with. */
  class Config {
    var saved: seq<Genome>

    constructor ()
      ensures saved == []
    {
      saved := [];
    }

    /** `config.save_genome(genome)`: the file written is not modelled, only the call. */
    method SaveGenome(genome: Genome)
      modifies this`saved
      ensures saved == old(saved) + [genome]
    {
      saved := saved + [genome];
    }
  }

  /** Whether `post_evaluate` saves a champion of fitness `fitness`. */
  predicate Saves(checkpoint: bool, best: Option<real>, fitness: real)
  {
    checkpoint && (best.None? || fitness > best.value)
  }

  /** `best` after `post_evaluate` has seen a champion of fitness `fitness`. */
  function NextBest(checkpoint: bool, best: Option<real>, fitness: real): Option<real>
  {
    if Saves(checkpoint, best, fitness) then Some(fitness) else best
  }

  class SaveReporter {
    var best: Option<real>
    var envName: string
    var checkpoint: bool

    /** `_SaveReporter(env_name, checkpoint)`: no best fitness yet. */
    constructor (envName: string, checkpoint: bool)
      ensures best == None && this.envName == envName && this.checkpoint == checkpoint
    {
      best := None;
      this.envName := envName;
      this.checkpoint := checkpoint;
    }

    /**
     * `post_evaluate`: only `best` and the saved genomes change; the
     * configuration is used only to save, and the population and species
     * are not looked at.
     */
    method PostEvaluate<P, S>(config: Config, population: P, species: S, bestGenome: Genome)
      modifies this`best, config`saved
      ensures best == NextBest(checkpoint, old(best), bestGenome.fitness)
      ensures config.saved ==
        old(config.saved) + if Saves(checkpoint, old(best), bestGenome.fitness) then [bestGenome] else []
      ensures !checkpoint ==> best == old(best) && config.saved == old(config.saved)
      ensures checkpoint && old(best).None? ==> best == Some(bestGenome.fitness)
      ensures old(best).Some? ==> best.Some? && old(best).value <= best.value
    {
      if checkpoint && (best.None? || bestGenome.fitness > best.value) {
        best := Some(bestGenome.fitness);
        config.SaveGenome(bestGenome);
      }
    }
  }

  /** `best` after the reporter has seen the champions' fitnesses `fitnesses`, in order. */
  function BestAfter(checkpoint: bool, fitnesses: seq<real>): Option<real>
  {
    if fitnesses == [] then None
    else NextBest(checkpoint, BestAfter(checkpoint, fitnesses[..|fitnesses| - 1]), fitnesses[|fitnesses| - 1])
  }

  /** The fitnesses saved while the reporter sees `fitnesses`, in order. */
  function SavedFitnesses(checkpoint: bool, fitnesses: seq<real>): seq<real>
  {
    if fitnesses == [] then []
    else
      var before := fitnesses[..|fitnesses| - 1];
      var f := fitnesses[|fitnesses| - 1];
      SavedFitnesses(checkpoint, before) + if Saves(checkpoint, BestAfter(checkpoint, before), f) then [f] else []
  }

  /** The fitnesses of `genomes`, in order. */
  function Fitnesses(genomes: seq<Genome>): (fs: seq<real>)
    ensures |fs| == |genomes| && forall i :: 0 <= i < |genomes| ==> fs[i] == genomes[i].fitness
  {
    if genomes == [] then [] else Fitnesses(genomes[..|genomes| - 1]) + [genomes[|genomes| - 1].fitness]
  }

  /**
   * A run of generations: a fresh reporter is told each generation's
   * champion in turn. Its `best` and the genomes it saved are exactly the
   * folds `BestAfter` and `SavedFitnesses` over the champions' fitnesses,
   * so the whole-run lemmas below are about this loop. The population and
   * species are not read by the reporter and are passed as unit values.
   */
  method Run(envName: string, checkpoint: bool, champions: seq<Genome>)
    returns (reporter: SaveReporter, config: Config)
    ensures fresh(reporter) && fresh(config)
    ensures reporter.checkpoint == checkpoint && reporter.envName == envName
    ensures reporter.best == BestAfter(checkpoint, Fitnesses(champions))
    ensures Fitnesses(config.saved) == SavedFitnesses(checkpoint, Fitnesses(champions))
  {
    reporter := new SaveReporter(envName, checkpoint);
    config := new Config();
    for i := 0 to |champions|
      invariant reporter.checkpoint == checkpoint && reporter.envName == envName
      invariant reporter.best == BestAfter(checkpoint, Fitnesses(champions[..i]))
      invariant Fitnesses(config.saved) == SavedFitnesses(checkpoint, Fitnesses(champions[..i]))
    {
      ghost var before := Fitnesses(champions[..i]);
      ghost var savedBefore := config.saved;
      reporter.PostEvaluate(config, (), (), champions[i]);
      assert champions[..i + 1][..i] == champions[..i];
      assert Fitnesses(champions[..i + 1]) == before + [champions[i].fitness];
      assert (before + [champions[i].fitness])[..|before|] == before;
      FitnessesAppend(savedBefore, if Saves(checkpoint, BestAfter(checkpoint, before), champions[i].fitness) then [champions[i]] else []);
    }
    assert champions[..|champions|] == champions;
  }

  /** `Fitnesses` distributes over concatenation. */
  lemma {:induction false} FitnessesAppend(a: seq<Genome>, b: seq<Genome>)
    ensures Fitnesses(a + b) == Fitnesses(a) + Fitnesses(b)
  {
    assert |Fitnesses(a + b)| == |Fitnesses(a) + Fitnesses(b)|;
    forall i | 0 <= i < |a + b|
      ensures Fitnesses(a + b)[i] == (Fitnesses(a) + Fitnesses(b))[i]
    {
    }
  }

  /** Without checkpointing nothing is ever saved and `best` stays None. */
  lemma {:induction false} NoCheckpointNoSaves(fitnesses: seq<real>)
    ensures BestAfter(false, fitnesses) == None
    ensures SavedFitnesses(false, fitnesses) == []
  {
    if fitnesses != [] {
      NoCheckpointNoSaves(fitnesses[..|fitnesses| - 1]);
    }
  }

  /** With checkpointing the first champion is always saved. */
  lemma FirstChampionSaved(f: real)
    ensures SavedFitnesses(true, [f]) == [f] && BestAfter(true, [f]) == Some(f)
  {
  }

  /**
   * With checkpointing the saved fitnesses strictly increase, and `best` is
   * the last of them (None before any save).
   */
  lemma {:induction false} SavesStrictlyIncrease(fitnesses: seq<real>)
    ensures var saved := SavedFitnesses(true, fitnesses);
      (forall i, j :: 0 <= i < j < |saved| ==> saved[i] < saved[j]) &&
      BestAfter(true, fitnesses) == if saved == [] then None else Some(saved[|saved| - 1])
  {
    if fitnesses != [] {
      SavesStrictlyIncrease(fitnesses[..|fitnesses| - 1]);
    }
  }

  /**
   * With checkpointing and at least one champion, `best` is the largest
   * fitness seen so far.
   */
  lemma {:induction false} BestIsMaximum(fitnesses: seq<real>)
    requires |fitnesses| >= 1
    ensures BestAfter(true, fitnesses).Some?
    ensures forall i :: 0 <= i < |fitnesses| ==> fitnesses[i] <= BestAfter(true, fitnesses).value
    ensures exists i :: 0 <= i < |fitnesses| && fitnesses[i] == BestAfter(true, fitnesses).value
  {
    var n := |fitnesses|;
    if n > 1 {
      var before := fitnesses[..n - 1];
      BestIsMaximum(before);
      var i :| 0 <= i < n - 1 && before[i] == BestAfter(true, before).value;
      if fitnesses[n - 1] > BestAfter(true, before).value {
        assert fitnesses[n - 1] == BestAfter(true, fitnesses).value;
      } else {
        assert fitnesses[i] == BestAfter(true, fitnesses).value;
      }
    }
  }

  /** `best` never decreases: over a longer run it is at least what it was over a prefix. */
  lemma {:induction false} BestNeverDecreases(checkpoint: bool, fitnesses: seq<real>, k: nat)
    requires k <= |fitnesses| && BestAfter(checkpoint, fitnesses[..k]).Some?
    ensures BestAfter(checkpoint, fitnesses).Some?
    ensures BestAfter(checkpoint, fitnesses[..k]).value <= BestAfter(checkpoint, fitnesses).value
    decreases |fitnesses|
  {
    if k < |fitnesses| {
      var before := fitnesses[..|fitnesses| - 1];
      assert before[..k] == fitnesses[..k];
      BestNeverDecreases(checkpoint, before, k);
    } else {
      assert fitnesses[..k] == fitnesses;
    }
  }

  /** A champion after the first is saved exactly when it strictly beats `best`. */
  lemma SavedIffStrictlyBetter(fitnesses: seq<real>, f: real)
    requires BestAfter(true, fitnesses).Some?
    ensures SavedFitnesses(true, fitnesses + [f]) ==
      SavedFitnesses(true, fitnesses) + if f > BestAfter(true, fitnesses).value then [f] else []
    ensures BestAfter(true, fitnesses + [f]) ==
      if f > BestAfter(true, fitnesses).value then Some(f) else BestAfter(true, fitnesses)
  {
  }
}
