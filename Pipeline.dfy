/**
 * Pipeline composition: the steps of a connection pipeline (and the
 * middlewares of the HTTP pipeline) are folded right to left into one entry
 * point, so that each step receives the composition of the steps after it as
 * its `next`. A step is modelled by what it does with that continuation: a
 * Pass step runs and calls it once, a Stop step runs and does not call it.
 */
module Pipeline {
  import opened NetworkContext

  /** A pipeline step (IPipelineStep, IPluginStep, IHttpMiddleware), by its identity and its use of `next`. */
  datatype Stage = Pass(id: nat) | Stop(id: nat)

  /** A composed entry point: the terminal no-op `_ => Task.CompletedTask`, or a step given the rest as `next`. */
  datatype App = Done | Step(stage: Stage, next: App)

  /** The identities of the steps an entry point runs on one context, in the order they run. */
  function Run(app: App): seq<nat>
  {
    match app
    case Done => []
    case Step(Pass(id), next) => [id] + Run(next)
    case Step(Stop(id), _) => [id]
  }

  function Ids(stages: seq<Stage>): seq<nat>
  {
    if stages == [] then [] else [stages[0].id] + Ids(stages[1..])
  }

  /** The steps a run over `stages` reaches: every step up to and including the first Stop. */
  function Reached(stages: seq<Stage>): (r: seq<Stage>)
    ensures |r| <= |stages| && r == stages[..|r|]
    ensures forall i :: 0 <= i < |r| - 1 ==> r[i].Pass?
    ensures |r| < |stages| ==> |r| >= 1 && r[|r| - 1].Stop?
    ensures stages != [] ==> |r| >= 1
  {
    if stages == [] then []
    else if stages[0].Stop? then [stages[0]]
    else [stages[0]] + Reached(stages[1..])
  }

  /** The reference composition: each step wrapped around the composition of the later ones, ending in `last`. */
  function ChainOnto(stages: seq<Stage>, last: App): App
  {
    if stages == [] then last else Step(stages[0], ChainOnto(stages[1..], last))
  }

  function Chain(stages: seq<Stage>): App
  {
    ChainOnto(stages, Done)
  }

  /** `Enumerable.Aggregate(seed, (current, component) => component(current))`. */
  function Aggregate(seed: App, components: seq<Stage>): App
    decreases |components|
  {
    if components == [] then seed else Aggregate(Step(components[0], seed), components[1..])
  }

  /** `Enumerable.Reverse`. */
  function Reverse(s: seq<Stage>): (r: seq<Stage>)
    ensures |r| == |s| && forall i :: 0 <= i < |s| ==> r[i] == s[|s| - 1 - i]
  {
    if s == [] then [] else [s[|s| - 1]] + Reverse(s[..|s| - 1])
  }

  /** `steps.Select(...).Reverse().Aggregate(_ => Task.CompletedTask, ...)`. */
  function Compose(stages: seq<Stage>): App
  {
    Aggregate(Done, Reverse(stages))
  }

  // ---------------------------------------------------------------------
  // What a composed pipeline does
  // ---------------------------------------------------------------------

  /**
   * A composed pipeline runs its steps in registration order, each once,
   * up to and including the first step that does not call `next`; an empty
   * pipeline runs nothing.
   */
  lemma {:induction false} RunChain(stages: seq<Stage>)
    ensures Run(Chain(stages)) == Ids(Reached(stages))
  {
    if stages != [] && stages[0].Pass? {
      RunChain(stages[1..]);
    }
  }

  /** Nothing registered after a step that does not call `next` ever runs. */
  lemma {:induction false} StopHidesLater(before: seq<Stage>, stop: Stage, later: seq<Stage>)
    requires stop.Stop?
    ensures Run(Chain(before + [stop] + later)) == Run(Chain(before + [stop]))
  {
    if before == [] {
      assert (before + [stop] + later)[0] == stop == (before + [stop])[0];
    } else {
      assert (before + [stop] + later)[1..] == before[1..] + [stop] + later;
      assert (before + [stop])[1..] == before[1..] + [stop];
      StopHidesLater(before[1..], stop, later);
    }
  }

  lemma {:induction false} ChainOntoSnoc(stages: seq<Stage>, x: Stage, last: App)
    ensures ChainOnto(stages + [x], last) == ChainOnto(stages, Step(x, last))
  {
    if stages != [] {
      assert (stages + [x])[1..] == stages[1..] + [x];
      ChainOntoSnoc(stages[1..], x, last);
    }
  }

  /** Folding the reversed components from the no-op builds the same entry point as the reference composition. */
  lemma {:induction false} AggregateReverse(stages: seq<Stage>, seed: App)
    ensures Aggregate(seed, Reverse(stages)) == ChainOnto(stages, seed)
  {
    if stages != [] {
      var n := |stages| - 1;
      assert Reverse(stages)[1..] == Reverse(stages[..n]);
      AggregateReverse(stages[..n], Step(stages[n], seed));
      ChainOntoSnoc(stages[..n], stages[n], seed);
      assert stages[..n] + [stages[n]] == stages;
    }
  }

  lemma ComposeIsChain(stages: seq<Stage>)
    ensures Compose(stages) == Chain(stages)
  {
    AggregateReverse(stages, Done);
  }

  // ---------------------------------------------------------------------
  // PipelineBuilder
  // ---------------------------------------------------------------------

  class PipelineBuilder {
    /** `_components`: one component per registered step, in registration order. */
    var components: seq<Stage>

    constructor ()
      ensures components == []
    {
      components := [];
    }

    /** Use: appends one component and returns the same builder. */
    method Use(step: Stage) returns (self: PipelineBuilder)
      modifies this
      ensures components == old(components) + [step] && self == this
    {
      components := components + [step];
      self := this;
    }

    /**
     * Build: starting from the no-op, wraps the components from the last to
     * the first; the registered list is left as it was, so a second Build
     * gives the same entry point.
     */
    method Build() returns (app: App)
      ensures app == Chain(components)
      ensures Run(app) == Ids(Reached(components))
    {
      app := Done;
      var i := |components|;
      while i > 0
        invariant 0 <= i <= |components|
        invariant app == Chain(components[i..])
      {
        i := i - 1;
        assert components[i..][1..] == components[i + 1..];
        app := Step(components[i], app);
      }
      RunChain(components);
    }
  }

  // ---------------------------------------------------------------------
  // PluginHost
  // ---------------------------------------------------------------------

  /** IPlugin: its name and the steps its RegesterSteps hands back to the host, in order. */
  datatype Plugin = Plugin(name: string, steps: seq<Stage>)

  function Flatten(plugins: seq<Plugin>): seq<Stage>
  {
    if plugins == [] then [] else plugins[0].steps + Flatten(plugins[1..])
  }

  class PluginHost {
    /** `_steps`. */
    var steps: seq<Stage>

    constructor ()
      ensures steps == []
    {
      steps := [];
    }

    /** RegesterStep: each factory is invoked once and the steps it makes are appended in list order. */
    method RegisterStep(factories: seq<Stage>)
      modifies this
      ensures steps == old(steps) + factories
    {
      for i := 0 to |factories|
        invariant steps == old(steps) + factories[..i]
      {
        assert factories[..i + 1] == factories[..i] + [factories[i]];
        steps := steps + [factories[i]];
      }
      assert factories[..|factories|] == factories;
    }

    /** RegesterPlugin: plugins register in list order, so steps come in plugin order, then in-plugin order. */
    method RegisterPlugin(plugins: seq<Plugin>)
      modifies this
      ensures steps == old(steps) + Flatten(plugins)
    {
      for i := 0 to |plugins|
        invariant steps == old(steps) + Flatten(plugins[..i])
      {
        FlattenSnoc(plugins[..i], plugins[i]);
        assert plugins[..i + 1] == plugins[..i] + [plugins[i]];
        RegisterStep(plugins[i].steps);
      }
      assert plugins[..|plugins|] == plugins;
    }

    /** Build: the registered steps composed in registration order. */
    function Build(): (app: App)
      reads this
      ensures app == Chain(steps)
      ensures Run(app) == Ids(Reached(steps))
    {
      ComposeIsChain(steps);
      RunChain(steps);
      Compose(steps)
    }
  }

  lemma {:induction false} FlattenSnoc(plugins: seq<Plugin>, p: Plugin)
    ensures Flatten(plugins + [p]) == Flatten(plugins) + p.steps
  {
    if plugins != [] {
      assert (plugins + [p])[1..] == plugins[1..] + [p];
      FlattenSnoc(plugins[1..], p);
    }
  }

  // ---------------------------------------------------------------------
  // HttpPiplineStep
  // ---------------------------------------------------------------------

  /**
   * `Items.TryGetValue(HttpContext, out var o) && o is HttpContext`: the
   * abstract HttpContext of WRM/WRM.Core has one subclass, Http1Context,
   * whose instances the HTTP/1 step stores under that key.
   */
  predicate HoldsHttpContext(items: Items)
  {
    HttpContextKey in items && items[HttpContextKey].Http1ContextItem?
  }

  /**
   * The context the HTTP/1 step stores runs the middlewares: whatever else
   * the items hold, after `Items[HttpContext] = context` the step's test
   * passes, and any other item under that key fails it.
   */
  lemma StoredContextRuns(items: Items, item: Item)
    ensures HoldsHttpContext(items[HttpContextKey := item]) <==> item.Http1ContextItem?
  {
  }

  class HttpPipelineStep {
    /** The middlewares the factories made at construction, in list order. */
    ghost const middlewares: seq<Stage>
    /** `_middleware`: their composition. */
    const middleware: App

    /** The constructor invokes each factory once and composes the middlewares. */
    constructor (factories: seq<Stage>)
      ensures middlewares == factories && middleware == Chain(factories)
    {
      middlewares := factories;
      middleware := Compose(factories);
      ComposeIsChain(factories);
    }

    /**
     * InvokeAsync: the middleware chain runs only when an HttpContext is
     * stored under the HttpContext key, and the outer `next` is called once in every case,
     * even when a middleware does not call its own continuation.
     */
    method InvokeAsync(items: Items) returns (ran: seq<nat>, nexts: nat)
      requires middleware == Chain(middlewares)
      ensures nexts == 1
      ensures HoldsHttpContext(items) ==> ran == Ids(Reached(middlewares))
      ensures !HoldsHttpContext(items) ==> ran == []
    {
      ran := [];
      if HoldsHttpContext(items) {
        RunChain(middlewares);
        ran := Run(middleware);
      }
      nexts := 1;
    }
  }
}
