/**
 * Pipeline (90file.js:1312-1316): `use` appends a stage, `run` threads a value
 * through the stages in the order they were added (`Array.prototype.reduce`).
 * Stages are modelled as total functions on one value type.
 */
module Pipeline {

  /** `fns.reduce((v, fn) => fn(v), value)`: a left fold applying the stages first to last. */
  function RunStages<T>(fns: seq<T -> T>, value: T): T
    decreases |fns|
  {
    if fns == [] then value else RunStages(fns[1..], fns[0](value))
  }

  /** Running two pipelines back to back is running their concatenation. */
  lemma {:induction false} RunStagesAppend<T>(f: seq<T -> T>, g: seq<T -> T>, value: T)
    ensures RunStages(f + g, value) == RunStages(g, RunStages(f, value))
    decreases |f|
  {
    if f == [] {
      assert f + g == g;
    } else {
      assert (f + g)[0] == f[0] && (f + g)[1..] == f[1..] + g;
      RunStagesAppend(f[1..], g, f[0](value));
    }
  }

  /** A stage added with `use` runs last, on what the earlier stages produced. */
  lemma UseRunsLast<T>(fns: seq<T -> T>, fn: T -> T, value: T)
    ensures RunStages(fns + [fn], value) == fn(RunStages(fns, value))
  {
    RunStagesAppend(fns, [fn], value);
    assert [fn][1..] == [];
  }

  /** An empty pipeline hands the value back unchanged. */
  lemma EmptyRun<T>(value: T)
    ensures RunStages([], value) == value
  {
  }

  class PipelineObj<T> {
    var fns: seq<T -> T>

    constructor ()
      ensures fns == []
    {
      fns := [];
    }

    /** `use(fn)`; the source returns `this` for chaining, which adds nothing here. */
    method Use(fn: T -> T)
      modifies this
      ensures fns == old(fns) + [fn]
    {
      fns := fns + [fn];
    }

    function Run(value: T): T
      reads this
    {
      RunStages(fns, value)
    }
  }
}
