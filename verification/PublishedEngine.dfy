/**
 The engine's own compilation and evaluation put into the publication protocol (`src/engine.rs`): what holds of every
 answer that any run gives.
 */
module PublishedEngine {
  import opened Prelude
  import opened Cedar
  import opened PolicyStore
  import opened Partition
  import opened Evaluation
  import opened Publication

  /** Cedar's parser and validator, the values of conditions, and evaluation against a schema. */
  datatype Library = Library(
    parse: (string, Option<Schema>) -> Option<PolicySet>,
    conditions: Conditions,
    withSchema: (EngineState, Schema, Request) -> Answer)

  ghost predicate ValidLibrary(lib: Library) {
    forall text, schema :: lib.parse(text, schema).Some? ==> KeyedById(lib.parse(text, schema).value)
  }

  /** Exactly when BuildSnapshot succeeds, for a source that parses. */
  ghost predicate Compiles(lib: Library, text: string, schema: Option<Schema>, layout: Option<Layout>) {
    && lib.parse(text, schema).Some?
    && Serializable(lib.parse(text, schema).value)
    && (layout.Some? ==> Partitionable(layout.value, lib.parse(text, schema).value))
  }

  /** What BuildSnapshot returns then; the revision (hash and time) is free. */
  ghost predicate CompilesTo(lib: Library, policy: PolicySnapshot,
                             text: string, schema: Option<Schema>, layout: Option<Layout>)
  {
    && lib.parse(text, schema).Some?
    && SnapshotOf(policy, lib.parse(text, schema).value)
    && LayoutOf(policy.sets) == layout
  }

  ghost function AnswerWith(lib: Library, state: EngineState, schema: Option<Schema>, r: Request): Answer {
    match schema
    case None => EvaluateState(state, r, lib.conditions)
    case Some(s) => lib.withSchema(state, s, r)
  }

  ghost function EngineWorld(lib: Library): World {
    World(
      (text, schema, layout) => Compiles(lib, text, schema, layout),
      (policy, text, schema, layout) => CompilesTo(lib, policy, text, schema, layout),
      (state, schema, r) => AnswerWith(lib, state, schema, r))
  }

  /** The protocol's assumption holds of the engine: what compiles has a snapshot. */
  lemma EngineWorldIsValid(lib: Library)
    requires ValidLibrary(lib)
    ensures ValidWorld(EngineWorld(lib))
  {
    var w := EngineWorld(lib);
    forall text, schema, layout, other, otherText, otherSchema
      | w.compiles(text, schema, layout) && w.compiled(other, otherText, otherSchema, layout)
      ensures exists policy :: IsPolicyFor(w, policy, text, schema, layout)
    {
      var policy := SnapshotExists(lib, text, schema, layout);
      assert IsPolicyFor(w, policy, text, schema, layout);
    }
  }

  lemma SnapshotExists(lib: Library, text: string, schema: Option<Schema>, layout: Option<Layout>)
    returns (policy: PolicySnapshot)
    requires ValidLibrary(lib) && Compiles(lib, text, schema, layout)
    requires layout.Some? ==> ValidLayout(layout.value)
    ensures CompilesTo(lib, policy, text, schema, layout)
  {
    var source := lib.parse(text, schema).value;
    var permits := map id | id in source && source[id].effect == Permit :: PermitMetadata(source[id]);
    var forbids := map id | id in source && source[id].effect == Forbid :: ForbidId(source[id]);
    var sets := Monolithic(source);
    if layout.Some? {
      var l := layout.value;
      var stores := seq(|l.stores|, (i: nat) => map id | id in source && InstalledIn(l, source[id], i) :: source[id]);
      sets := Scoped(l, stores);
    }
    policy := PolicySnapshot(sets, "", permits, forbids);
  }

  /** A published state of a schema-free engine answers with evidence complete and its own version. */
  lemma PublishedStateAnswers(lib: Library, history: seq<State>, entries: seq<Entry>, k: nat, r: Request)
    requires ValidLibrary(lib) && IsLog(EngineWorld(lib), history, entries) && k < |history|
    requires history[0].snapshot.schema == None
    ensures var answer := AnswerOf(EngineWorld(lib), history[k], r);
      && answer == EvaluateState(history[k].Engine(), r, lib.conditions)
      && (answer.Ok? ==> answer.value.decision.version == Version(history[k].Engine()))
      && (answer.Err? ==> answer.error.Routing? || answer.error == DuplicateEntity)
  {
    var w, snapshot := EngineWorld(lib), history[k].snapshot;
    LayoutAndModeNeverChange(w, history, entries, k);
    PublishedStatesAreCompiled(w, history, entries, k);
    assert CompilesTo(lib, snapshot.policy, snapshot.text, snapshot.schema, history[k].StoreLayout());
    EvaluationNeverLosesEvidence(history[k].Engine(), lib.parse(snapshot.text, None).value, r, lib.conditions);
  }

  /**
   In every run of a schema-free engine each evaluation decides by one state, published and current at some moment of
   the call; it reports that state's version, whose generation is the state's place in the log, and lacks no evidence.
   */
  lemma EvaluationsReportTheirState(lib: Library, run: seq<System>, i: nat, n: nat)
    requires ValidLibrary(lib) && IsRun(EngineWorld(lib), run) && i < |run| && n < |run[i].observations|
    requires run[i].history != [] && run[i].history[0].snapshot.schema == None
    ensures var s, o := run[i], run[i].observations[n];
      && o.since <= o.seen <= o.end < |s.history|
      && var published := s.history[o.seen];
         var state := EngineState(published.snapshot.policy, published.labels, published.generation);
         && o.answer == EvaluateState(state, o.request, lib.conditions)
         && state.generation == (if o.seen + 1 < MAX_GENERATION then o.seen + 1 else MAX_GENERATION)
         && (o.answer.Ok? ==> o.answer.value.decision.version == Version(state))
         && (o.answer.Err? ==> o.answer.error.Routing? || o.answer.error == DuplicateEntity)
  {
    var w, s, o := EngineWorld(lib), run[i], run[i].observations[n];
    RunKeepsInvariant(w, run, i);
    EvaluationsAreCoherent(w, run, i, n);
    GenerationsCountStates(w, s.history, s.entries, o.seen);
    PublishedStateAnswers(lib, s.history, s.entries, o.seen, o.request);
  }

  /**
   What every evaluation of every run answers, in terms of which policies apply: those of the set chosen from one
   published state, on the graph of the resource as that state's labels make it.
   */
  lemma PublishedEvaluationsAnswer(lib: Library, run: seq<System>, i: nat, n: nat,
                                   labelled: Resource, graph: Entities, chosen: PolicySet)
    requires ValidLibrary(lib) && IsRun(EngineWorld(lib), run) && i < |run| && n < |run[i].observations|
    requires run[i].history != [] && run[i].history[0].snapshot.schema == None
    requires var o := run[i].observations[n];
      && o.seen < |run[i].history|
      && var published := run[i].history[o.seen];
         var state := EngineState(published.snapshot.policy, published.labels, published.generation);
         && IsPrepared(state, o.request.resource, labelled) && IsChosen(state.policy.sets, o.request, chosen)
         && RolesDistinct(o.request.principal, o.request.resource.uid)
         && IsEntityGraph(graph, o.request.principal, labelled)
    ensures var o := run[i].observations[n];
      var published := run[i].history[o.seen];
      var state := EngineState(published.snapshot.policy, published.labels, published.generation);
      o.answer.Ok? && IsAnswer(o.answer.value, state, chosen, o.request, graph, lib.conditions)
  {
    var w, s, o := EngineWorld(lib), run[i], run[i].observations[n];
    EvaluationsReportTheirState(lib, run, i, n);
    RunKeepsInvariant(w, run, i);
    LayoutAndModeNeverChange(w, s.history, s.entries, o.seen);
    PublishedStatesAreCompiled(w, s.history, s.entries, o.seen);
    var published := s.history[o.seen];
    var state := EngineState(published.snapshot.policy, published.labels, published.generation);
    var source := lib.parse(published.snapshot.text, published.snapshot.schema).value;
    EvaluationAnswers(state, source, o.request, labelled, graph, chosen, lib.conditions);
  }

  /** No call of the engine is ever stuck, at any moment of any run. */
  lemma EngineCallsCanProceed(lib: Library, run: seq<System>, i: nat, t: ThreadId) returns (a: Action)
    requires ValidLibrary(lib) && IsRun(EngineWorld(lib), run) && i < |run| && t in run[i].threads
    ensures Actor(a) == Some(t) && Enabled(EngineWorld(lib), run[i], a)
  {
    EngineWorldIsValid(lib);
    RunKeepsInvariant(EngineWorld(lib), run, i);
    a := CallsCanProceed(EngineWorld(lib), run[i], t);
  }
}
