/**
 How new engine states are published while others read them (`src/engine.rs`): one atomically replaced cell,
 two read-copy-update writers (label registries; policies together with a schema), one writer that compiles first
 and then compares and swaps, and readers that load the cell once. Every atomic action of a thread is one step.

 An `id` stands for the address of an allocation, which is all that `Arc::ptr_eq` and the cell compare.
 `history`, `entries` and the records beside them only remember what happened; no step decides by them.
 */
module Publication {
  import opened Prelude
  import opened Cedar
  import opened PolicyStore
  import opened Evaluation
  import Labels

  type ThreadId = nat
  type SessionId = nat
  type Answer = Result<DecisionDiagnostics, EvaluationError>

  const MAX_GENERATION: nat := 0xFFFF_FFFF_FFFF_FFFF

  datatype Schema = Schema(text: string)

  datatype Snapshot = Snapshot(id: nat, text: string, schema: Option<Schema>, policy: PolicySnapshot)

  datatype State = State(id: nat, snapshot: Snapshot, labels: Option<Labels.LabelRegistry>, generation: nat) {
    function Engine(): EngineState {
      EngineState(snapshot.policy, labels, generation)
    }

    function StoreLayout(): Option<Layout> {
      LayoutOf(snapshot.policy.sets)
    }
  }

  function LayoutOf(sets: PolicySets): Option<Layout> {
    match sets
    case Monolithic(_) => None
    case Scoped(layout, _) => Some(layout)
  }

  /**
   What the protocol does not look into: when a text compiles against a schema for a layout, which policies it may
   compile to, and what a state answers. `PublishedEngine` fills it with the engine.
   */
  datatype World = World(
    compiles: (string, Option<Schema>, Option<Layout>) -> bool,
    compiled: (PolicySnapshot, string, Option<Schema>, Option<Layout>) -> bool,
    answer: (EngineState, Option<Schema>, Request) -> Answer)

  /** A text that compiles for a layout that some snapshot has been compiled for compiles to something. */
  ghost predicate ValidWorld(w: World) {
    forall text, schema, layout, other, otherText, otherSchema ::
      w.compiles(text, schema, layout) && w.compiled(other, otherText, otherSchema, layout)
      ==> exists policy :: IsPolicyFor(w, policy, text, schema, layout)
  }

  // ---------- Compiling and answering ----------

  ghost predicate IsPolicyFor(w: World, policy: PolicySnapshot,
                              text: string, schema: Option<Schema>, layout: Option<Layout>)
  {
    LayoutOf(policy.sets) == layout && w.compiled(policy, text, schema, layout)
  }

  /** A snapshot compiled from a text against a schema, for a layout. */
  ghost predicate IsCompiled(w: World, s: Snapshot, text: string, schema: Option<Schema>, layout: Option<Layout>) {
    s.text == text && s.schema == schema && IsPolicyFor(w, s.policy, text, schema, layout)
  }

  ghost function AnswerOf(w: World, state: State, r: Request): Answer {
    w.answer(state.Engine(), state.snapshot.schema, r)
  }

  // ---------- Threads ----------

  datatype Change =
    | PutLabels(registry: Labels.LabelRegistry)
    | Reload(text: string)
    | ReloadWithSchema(text: string, schema: Schema)

  datatype Call = Evaluate(request: Request) | Publish(change: Change)

  datatype Stage =
    | Start
    | Loaded(source: State)
    | Compiled(snapshot: Snapshot)
    | Swapping(policy: Option<Snapshot>, expected: State)

  /** A call under way; `since` and `seen` index the states current when it began and when it last looked. */
  datatype Activity = Activity(
    call: Call, stage: Stage, since: nat, seen: nat, failures: nat, compiles: nat, steps: nat)

  datatype Entry = Entry(who: ThreadId, change: Change)

  datatype Observation = Observation(who: ThreadId, request: Request, since: nat, seen: nat, end: nat, answer: Answer)

  datatype Session = Session(state: State, index: nat)

  datatype SessionAnswer = SessionAnswer(id: SessionId, request: Request, version: PolicyVersion, answer: Answer)

  datatype Report = Report(who: ThreadId, change: Change, since: nat, end: nat, published: bool,
                           failures: nat, compiles: nat, steps: nat)

  datatype System = System(
    cell: State,
    nextId: nat,
    threads: map<ThreadId, Activity>,
    sessions: map<SessionId, Session>,
    history: seq<State>,
    entries: seq<Entry>,
    observations: seq<Observation>,
    sessionAnswers: seq<SessionAnswer>,
    reports: seq<Report>)

  // ---------- Steps ----------

  function NextGeneration(n: nat): nat {
    if n < MAX_GENERATION then n + 1 else n
  }

  /** The schema a reload compiles against: its own, or the one it found. */
  function SchemaFor(change: Change, source: State): Option<Schema> {
    match change
    case ReloadWithSchema(_, schema) => Some(schema)
    case _ => source.snapshot.schema
  }

  /** The state a writer offers in place of the one it expects. */
  function Replacement(id: nat, change: Change, policy: Option<Snapshot>, expected: State): State {
    State(
      id,
      if policy.Some? then policy.value else expected.snapshot,
      match change { case PutLabels(registry) => Some(registry) case _ => expected.labels },
      NextGeneration(expected.generation))
  }

  datatype Action =
    | Begin(who: ThreadId, call: Call)
    | Load(who: ThreadId)
    | Compile(who: ThreadId, compiled: Snapshot)
    | CompileFails(who: ThreadId)
    | LoadAgain(who: ThreadId)
    | Swap(who: ThreadId)
    | Finish(who: ThreadId)
    | OpenSession(id: SessionId)
    | Ask(id: SessionId, request: Request)

  /** The state a constructor leaves. */
  ghost predicate IsFirst(w: World, first: State) {
    && first.generation == 1 && first.labels == None
    && IsCompiled(w, first.snapshot, first.snapshot.text, first.snapshot.schema, first.StoreLayout())
  }

  ghost predicate Initial(w: World, s: System) {
    && s.history == [s.cell] && s.entries == []
    && IsFirst(w, s.cell)
    && s.cell.id < s.nextId && s.cell.snapshot.id < s.nextId
    && s.threads == map[] && s.sessions == map[]
    && s.observations == [] && s.sessionAnswers == [] && s.reports == []
  }

  ghost predicate CanBegin(s: System, t: ThreadId, call: Call) {
    && t !in s.threads && s.history != []
    && (call.Publish? && call.change.ReloadWithSchema? ==> s.history[0].snapshot.schema.Some?)
  }

  function AfterBegin(s: System, t: ThreadId, call: Call): System {
    s.(threads := s.threads[t := Activity(call, Start, |s.entries|, |s.entries|, 0, 0, 0)])
  }

  predicate IsPutLabels(call: Call) {
    call.Publish? && call.change.PutLabels?
  }

  predicate CanLoad(s: System, t: ThreadId) {
    t in s.threads && s.threads[t].stage.Start?
  }

  function AfterLoad(s: System, t: ThreadId): System
    requires CanLoad(s, t)
  {
    var a := s.threads[t];
    var stage := if IsPutLabels(a.call) then Swapping(None, s.cell) else Loaded(s.cell);
    s.(threads := s.threads[t := a.(stage := stage, seen := |s.entries|, steps := a.steps + 1)])
  }

  predicate IsCompiling(s: System, t: ThreadId) {
    t in s.threads && s.threads[t].stage.Loaded? && s.threads[t].call.Publish? && !s.threads[t].call.change.PutLabels?
  }

  ghost predicate CanCompile(w: World, s: System, t: ThreadId, compiled: Snapshot) {
    && IsCompiling(s, t) && compiled.id == s.nextId
    && var change, source := s.threads[t].call.change, s.threads[t].stage.source;
       IsCompiled(w, compiled, change.text, SchemaFor(change, source), source.StoreLayout())
  }

  function AfterCompile(s: System, t: ThreadId, compiled: Snapshot): System
    requires IsCompiling(s, t)
  {
    var a := s.threads[t];
    var stage := if a.call.change.Reload? then Swapping(Some(compiled), a.stage.source) else Compiled(compiled);
    s.(nextId := s.nextId + 1,
       threads := s.threads[t := a.(stage := stage, compiles := a.compiles + 1, steps := a.steps + 1)])
  }

  ghost predicate CanFailToCompile(w: World, s: System, t: ThreadId) {
    && IsCompiling(s, t)
    && var change, source := s.threads[t].call.change, s.threads[t].stage.source;
       !w.compiles(change.text, SchemaFor(change, source), source.StoreLayout())
  }

  function AfterFailure(s: System, t: ThreadId): System
    requires IsCompiling(s, t)
  {
    var a := s.threads[t];
    var r := Report(t, a.call.change, a.since, |s.entries|, false, a.failures, a.compiles + 1, a.steps + 1);
    s.(threads := s.threads - {t}, reports := s.reports + [r])
  }

  predicate CanLoadAgain(s: System, t: ThreadId) {
    t in s.threads && s.threads[t].stage.Compiled?
  }

  function AfterLoadAgain(s: System, t: ThreadId): System
    requires CanLoadAgain(s, t)
  {
    var a := s.threads[t];
    var stage := Swapping(Some(a.stage.snapshot), s.cell);
    s.(threads := s.threads[t := a.(stage := stage, seen := |s.entries|, steps := a.steps + 1)])
  }

  predicate CanSwap(s: System, t: ThreadId) {
    t in s.threads && s.threads[t].stage.Swapping? && s.threads[t].call.Publish?
  }

  /** The cell still holds what the writer expects. */
  predicate WinsSwap(s: System, t: ThreadId) {
    CanSwap(s, t) && s.cell.id == s.threads[t].stage.expected.id
  }

  /** Where a writer goes after losing a swap: only a plain reload whose policies were replaced starts over. */
  function Retry(a: Activity, current: State): Stage
    requires a.stage.Swapping? && a.call.Publish?
  {
    if a.call.change.Reload? && a.stage.expected.snapshot.id != current.snapshot.id then Start
    else Swapping(a.stage.policy, current)
  }

  function AfterSwap(s: System, t: ThreadId): System
    requires CanSwap(s, t)
  {
    var a := s.threads[t];
    if WinsSwap(s, t) then
      var state := Replacement(s.nextId, a.call.change, a.stage.policy, a.stage.expected);
      var r := Report(t, a.call.change, a.since, |s.entries| + 1, true, a.failures, a.compiles, a.steps + 1);
      s.(cell := state, nextId := s.nextId + 1, threads := s.threads - {t},
         history := s.history + [state], entries := s.entries + [Entry(t, a.call.change)],
         reports := s.reports + [r])
    else
      var again := a.(stage := Retry(a, s.cell), seen := |s.entries|, failures := a.failures + 1, steps := a.steps + 1);
      s.(nextId := s.nextId + 1, threads := s.threads[t := again])
  }

  predicate CanFinish(s: System, t: ThreadId) {
    t in s.threads && s.threads[t].stage.Loaded? && s.threads[t].call.Evaluate?
  }

  ghost function AfterFinish(w: World, s: System, t: ThreadId): System
    requires CanFinish(s, t)
  {
    var a := s.threads[t];
    var answer := AnswerOf(w, a.stage.source, a.call.request);
    var o := Observation(t, a.call.request, a.since, a.seen, |s.entries|, answer);
    s.(threads := s.threads - {t}, observations := s.observations + [o])
  }

  function AfterOpen(s: System, id: SessionId): System {
    s.(sessions := s.sessions[id := Session(s.cell, |s.entries|)])
  }

  ghost function AfterAsk(w: World, s: System, id: SessionId, r: Request): System
    requires id in s.sessions
  {
    var state := s.sessions[id].state;
    var answer := SessionAnswer(id, r, Version(state.Engine()), AnswerOf(w, state, r));
    s.(sessionAnswers := s.sessionAnswers + [answer])
  }

  ghost predicate Enabled(w: World, s: System, a: Action) {
    match a
    case Begin(t, call) => CanBegin(s, t, call)
    case Load(t) => CanLoad(s, t)
    case Compile(t, compiled) => CanCompile(w, s, t, compiled)
    case CompileFails(t) => CanFailToCompile(w, s, t)
    case LoadAgain(t) => CanLoadAgain(s, t)
    case Swap(t) => CanSwap(s, t)
    case Finish(t) => CanFinish(s, t)
    case OpenSession(id) => id !in s.sessions
    case Ask(id, _) => id in s.sessions
  }

  ghost function After(w: World, s: System, a: Action): System
    requires Enabled(w, s, a)
  {
    match a
    case Begin(t, call) => AfterBegin(s, t, call)
    case Load(t) => AfterLoad(s, t)
    case Compile(t, compiled) => AfterCompile(s, t, compiled)
    case CompileFails(t) => AfterFailure(s, t)
    case LoadAgain(t) => AfterLoadAgain(s, t)
    case Swap(t) => AfterSwap(s, t)
    case Finish(t) => AfterFinish(w, s, t)
    case OpenSession(id) => AfterOpen(s, id)
    case Ask(id, r) => AfterAsk(w, s, id, r)
  }

  ghost predicate Next(w: World, s: System, s': System) {
    exists a :: Enabled(w, s, a) && s' == After(w, s, a)
  }

  // ---------- The sequential meaning of a change ----------

  /** What each change does to the state before it, as if it ran alone. */
  ghost predicate Follows(w: World, change: Change, before: State, after: State) {
    && after.generation == NextGeneration(before.generation)
    && match change
       case PutLabels(registry) =>
         after.labels == Some(registry) && after.snapshot == before.snapshot
       case Reload(text) =>
         && after.labels == before.labels
         && IsCompiled(w, after.snapshot, text, before.snapshot.schema, before.StoreLayout())
       case ReloadWithSchema(text, schema) =>
         && after.labels == before.labels && before.snapshot.schema.Some?
         && IsCompiled(w, after.snapshot, text, Some(schema), before.StoreLayout())
  }

  /** A sequential log: every state results from its immediate predecessor by one change. */
  ghost predicate IsLog(w: World, history: seq<State>, entries: seq<Entry>) {
    && |history| == |entries| + 1
    && IsFirst(w, history[0])
    && forall k | 0 <= k < |entries| :: Follows(w, entries[k].change, history[k], history[k + 1])
  }

  // ---------- Invariants ----------

  /** An address identifies its state, and a snapshot's address its snapshot. */
  ghost predicate Addressed(history: seq<State>, nextId: nat) {
    && (forall i | 0 <= i < |history| :: history[i].id < nextId && history[i].snapshot.id < nextId)
    && (forall i, j | 0 <= i < j < |history| :: history[i].id != history[j].id)
    && (forall i, j | 0 <= i < j < |history| ::
          history[i].snapshot.id == history[j].snapshot.id ==> history[i].snapshot == history[j].snapshot)
  }

  /** A change of policies brings a snapshot that no earlier state holds. */
  ghost predicate FreshSnapshots(history: seq<State>, entries: seq<Entry>) {
    |history| == |entries| + 1 &&
    forall i, k | 0 <= i <= k < |entries| && !entries[k].change.PutLabels? ::
      history[i].snapshot.id != history[k + 1].snapshot.id
  }

  /** Published changes of policies among those leading from state `from` to state `to`. */
  ghost function PolicyChanges(entries: seq<Entry>, from: nat, last: nat): nat
    requires last <= |entries|
  {
    if last <= from then 0
    else PolicyChanges(entries, from, last - 1) + if entries[last - 1].change.PutLabels? then 0 else 1
  }

  function Offset(a: Activity): nat {
    match a.stage
    case Start => 0
    case Loaded(_) => 1
    case Compiled(_) => 2
    case Swapping(_, _) => if a.call.Publish? && a.call.change.ReloadWithSchema? then 3 else 2
  }

  /** What a thread holds was published, and its counters are paid for by what others published meanwhile. */
  ghost predicate Sound(w: World, history: seq<State>, entries: seq<Entry>, t: ThreadId, a: Activity) {
    && |history| == |entries| + 1
    && a.since <= a.seen < |history|
    && (forall k | a.since <= k < |entries| :: entries[k].who != t)
    && a.failures <= a.seen - a.since
    && a.compiles <= PolicyChanges(entries, a.since, a.seen) + (if a.stage.Start? || a.stage.Loaded? then 0 else 1)
    && a.steps <= 3 * a.failures + Offset(a)
    && (a.call.Publish? && a.call.change.ReloadWithSchema? ==> history[0].snapshot.schema.Some?)
    && Holds(w, history, a)
  }

  ghost predicate Holds(w: World, history: seq<State>, a: Activity)
    requires a.seen < |history|
  {
    match a.stage
    case Start => true
    case Loaded(source) => source == history[a.seen] && (a.call.Publish? ==> !a.call.change.PutLabels?)
    case Compiled(snapshot) =>
      && a.call.Publish? && a.call.change.ReloadWithSchema?
      && IsCompiled(w, snapshot, a.call.change.text, Some(a.call.change.schema), history[0].StoreLayout())
    case Swapping(policy, expected) =>
      && a.call.Publish? && expected == history[a.seen]
      && (policy.None? <==> a.call.change.PutLabels?)
      && (policy.Some? ==>
            IsCompiled(w, policy.value, a.call.change.text, SchemaFor(a.call.change, expected), expected.StoreLayout()))
  }

  /** A compiled snapshot that has not been published. */
  function Unpublished(a: Activity): Option<Snapshot> {
    match a.stage
    case Compiled(snapshot) => Some(snapshot)
    case Swapping(policy, _) => policy
    case _ => None
  }

  ghost predicate Unshared(s: System) {
    && (forall t | t in s.threads && Unpublished(s.threads[t]).Some? ::
          && Unpublished(s.threads[t]).value.id < s.nextId
          && forall k | 0 <= k < |s.history| :: s.history[k].snapshot.id != Unpublished(s.threads[t]).value.id)
    && (forall t, u | t in s.threads && u in s.threads && t != u
          && Unpublished(s.threads[t]).Some? && Unpublished(s.threads[u]).Some? ::
          Unpublished(s.threads[t]).value.id != Unpublished(s.threads[u]).value.id)
  }

  /** An evaluation answered from one published state, current at some moment of the call. */
  ghost predicate Coherent(w: World, history: seq<State>, o: Observation) {
    o.since <= o.seen <= o.end < |history| && o.answer == AnswerOf(w, history[o.seen], o.request)
  }

  ghost predicate Frozen(w: World, sessions: map<SessionId, Session>, o: SessionAnswer) {
    && o.id in sessions
    && o.version == Version(sessions[o.id].state.Engine())
    && o.answer == AnswerOf(w, sessions[o.id].state, o.request)
  }

  /**
   A finished writer published exactly one entry, its own, or none when compilation failed; lost swaps, compilations
   and steps are bounded by what others published while it ran.
   */
  ghost predicate Accounted(entries: seq<Entry>, r: Report) {
    && r.since <= r.end <= |entries|
    && (if r.published then
          && r.since < r.end && entries[r.end - 1] == Entry(r.who, r.change)
          && (forall k | r.since <= k < r.end - 1 :: entries[k].who != r.who)
          && r.failures <= r.end - 1 - r.since
          && r.compiles <= 1 + PolicyChanges(entries, r.since, r.end - 1)
        else
          && (forall k | r.since <= k < r.end :: entries[k].who != r.who)
          && r.failures <= r.end - r.since
          && r.compiles <= 1 + PolicyChanges(entries, r.since, r.end))
    && r.steps <= 3 * r.failures + 4
  }

  ghost predicate Recorded(w: World, s: System) {
    && (forall i | 0 <= i < |s.observations| :: Coherent(w, s.history, s.observations[i]))
    && (forall id | id in s.sessions ::
          s.sessions[id].index < |s.history| && s.sessions[id].state == s.history[s.sessions[id].index])
    && (forall i | 0 <= i < |s.sessionAnswers| :: Frozen(w, s.sessions, s.sessionAnswers[i]))
    && (forall i | 0 <= i < |s.reports| :: Accounted(s.entries, s.reports[i]))
  }

  ghost predicate Inv(w: World, s: System) {
    && IsLog(w, s.history, s.entries)
    && s.cell == s.history[|s.history| - 1]
    && Addressed(s.history, s.nextId) && FreshSnapshots(s.history, s.entries)
    && (forall t | t in s.threads :: Sound(w, s.history, s.entries, t, s.threads[t]))
    && Unshared(s)
    && Recorded(w, s)
  }

  // ---------- Reading the log ----------

  lemma {:induction false} PolicyChangesGrow(entries: seq<Entry>, e: Entry, from: nat, last: nat)
    requires last <= |entries|
    ensures PolicyChanges(entries + [e], from, last) == PolicyChanges(entries, from, last)
    decreases last
  {
    if last <= from {
    } else {
      PolicyChangesGrow(entries, e, from, last - 1);
    }
  }

  lemma {:induction false} PolicyChangesAccumulate(entries: seq<Entry>, from: nat, mid: nat, last: nat)
    requires mid <= last <= |entries|
    ensures PolicyChanges(entries, from, mid) <= PolicyChanges(entries, from, last)
    decreases last
  {
    if mid == last {
    } else {
      PolicyChangesAccumulate(entries, from, mid, last - 1);
    }
  }

  /** Only a published change of policies makes a later state hold another snapshot. */
  lemma {:induction false} NewSnapshotMeansPolicyChange(w: World, history: seq<State>, entries: seq<Entry>,
                                                        from: nat, i: nat, j: nat)
    requires IsLog(w, history, entries) && from <= i <= j < |history|
    requires history[i].snapshot != history[j].snapshot
    ensures PolicyChanges(entries, from, i) < PolicyChanges(entries, from, j)
    decreases j
  {
    assert i < j;
    assert Follows(w, entries[j - 1].change, history[j - 1], history[j]);
    if history[i].snapshot == history[j - 1].snapshot {
      PolicyChangesAccumulate(entries, from, i, j - 1);
    } else {
      NewSnapshotMeansPolicyChange(w, history, entries, from, i, j - 1);
    }
  }

  /** And every change of policies shows in the address. */
  lemma {:induction false} SameAddressMeansNoPolicyChange(w: World, history: seq<State>, entries: seq<Entry>,
                                                          from: nat, i: nat, j: nat)
    requires IsLog(w, history, entries) && FreshSnapshots(history, entries) && i <= j < |history|
    requires history[i].snapshot.id == history[j].snapshot.id
    ensures PolicyChanges(entries, from, i) == PolicyChanges(entries, from, j)
    decreases j
  {
    if i == j {
    } else {
      assert Follows(w, entries[j - 1].change, history[j - 1], history[j]);
      assert entries[j - 1].change.PutLabels?;
      SameAddressMeansNoPolicyChange(w, history, entries, from, i, j - 1);
      assert from >= j ==> PolicyChanges(entries, from, j) == 0 == PolicyChanges(entries, from, j - 1);
    }
  }

  /** No run changes the store layout, nor whether there is a schema. */
  lemma {:induction false} LayoutAndModeNeverChange(w: World, history: seq<State>, entries: seq<Entry>, k: nat)
    requires IsLog(w, history, entries) && k < |history|
    ensures history[k].StoreLayout() == history[0].StoreLayout()
    ensures history[k].snapshot.schema.Some? <==> history[0].snapshot.schema.Some?
    decreases k
  {
    if k == 0 {
    } else {
      LayoutAndModeNeverChange(w, history, entries, k - 1);
      assert Follows(w, entries[k - 1].change, history[k - 1], history[k]);
    }
  }

  // ---------- Every step keeps the invariant ----------

  lemma InitialIsInvariant(w: World, s: System)
    requires Initial(w, s)
    ensures Inv(w, s)
  {
  }

  lemma LoadKeepsSound(w: World, s: System, t: ThreadId)
    requires Inv(w, s) && CanLoad(s, t)
    ensures Sound(w, s.history, s.entries, t, AfterLoad(s, t).threads[t])
  {
    var a := s.threads[t];
    PolicyChangesAccumulate(s.entries, a.since, a.seen, |s.entries|);
  }

  lemma CompileKeepsSound(w: World, s: System, t: ThreadId, compiled: Snapshot)
    requires Inv(w, s) && CanCompile(w, s, t, compiled)
    ensures Sound(w, s.history, s.entries, t, AfterCompile(s, t, compiled).threads[t])
  {
    LayoutAndModeNeverChange(w, s.history, s.entries, s.threads[t].seen);
  }

  lemma LoadAgainKeepsSound(w: World, s: System, t: ThreadId)
    requires Inv(w, s) && CanLoadAgain(s, t)
    ensures Sound(w, s.history, s.entries, t, AfterLoadAgain(s, t).threads[t])
  {
    var a := s.threads[t];
    PolicyChangesAccumulate(s.entries, a.since, a.seen, |s.entries|);
    LayoutAndModeNeverChange(w, s.history, s.entries, |s.entries|);
  }

  /** A lost swap is paid for by a publish the thread had not seen; starting over, by a change of policies. */
  lemma LostSwapKeepsSound(w: World, s: System, t: ThreadId)
    requires Inv(w, s) && CanSwap(s, t) && !WinsSwap(s, t)
    ensures Sound(w, s.history, s.entries, t, AfterSwap(s, t).threads[t])
  {
    var a := s.threads[t];
    assert a.stage.expected == s.history[a.seen];
    assert a.seen < |s.entries|;
    PolicyChangesAccumulate(s.entries, a.since, a.seen, |s.entries|);
    LayoutAndModeNeverChange(w, s.history, s.entries, a.seen);
    LayoutAndModeNeverChange(w, s.history, s.entries, |s.entries|);
    if a.stage.expected.snapshot.id != s.cell.snapshot.id {
      NewSnapshotMeansPolicyChange(w, s.history, s.entries, a.since, a.seen, |s.entries|);
    }
  }

  /** A swap that succeeds does to the state it replaces what its change does alone. */
  lemma WonSwapFollows(w: World, s: System, t: ThreadId)
    requires Inv(w, s) && WinsSwap(s, t)
    ensures s.threads[t].stage.expected == s.cell
    ensures Follows(w, s.threads[t].call.change, s.cell, AfterSwap(s, t).cell)
  {
    var a := s.threads[t];
    assert a.stage.expected == s.history[a.seen];
    assert a.seen == |s.entries|;
    LayoutAndModeNeverChange(w, s.history, s.entries, |s.entries|);
  }

  lemma LogGrows(w: World, s: System, t: ThreadId)
    requires Inv(w, s) && WinsSwap(s, t)
    ensures IsLog(w, AfterSwap(s, t).history, AfterSwap(s, t).entries)
  {
    WonSwapFollows(w, s, t);
    var s' := AfterSwap(s, t);
    forall k | 0 <= k < |s'.entries|
      ensures Follows(w, s'.entries[k].change, s'.history[k], s'.history[k + 1])
    {
      if k < |s.entries| {
        assert Follows(w, s.entries[k].change, s.history[k], s.history[k + 1]);
      }
    }
  }

  lemma AddressesGrow(w: World, s: System, t: ThreadId)
    requires Inv(w, s) && WinsSwap(s, t)
    ensures Addressed(AfterSwap(s, t).history, AfterSwap(s, t).nextId)
  {
    WonSwapFollows(w, s, t);
    var s', n := AfterSwap(s, t), |s.history|;
    forall i | 0 <= i < n && s'.history[i].snapshot.id == s'.cell.snapshot.id
      ensures s'.history[i].snapshot == s'.cell.snapshot
    {
      if i < n - 1 {
        assert s.history[i].snapshot.id == s.history[n - 1].snapshot.id ==>
            s.history[i].snapshot == s.history[n - 1].snapshot;
      }
    }
  }

  lemma SnapshotsStayFresh(w: World, s: System, t: ThreadId)
    requires Inv(w, s) && WinsSwap(s, t)
    ensures FreshSnapshots(AfterSwap(s, t).history, AfterSwap(s, t).entries)
  {
    var a, s' := s.threads[t], AfterSwap(s, t);
    assert Holds(w, s.history, a);
    forall i, k | 0 <= i <= k < |s'.entries| && !s'.entries[k].change.PutLabels?
      ensures s'.history[i].snapshot.id != s'.history[k + 1].snapshot.id
    {
      if k == |s.entries| {
        assert s'.history[k + 1].snapshot == Unpublished(a).value;
      }
    }
  }

  lemma SoundGrows(w: World, history: seq<State>, entries: seq<Entry>, state: State, e: Entry, t: ThreadId, a: Activity)
    requires Sound(w, history, entries, t, a) && e.who != t
    ensures Sound(w, history + [state], entries + [e], t, a)
  {
    PolicyChangesGrow(entries, e, a.since, a.seen);
  }

  lemma AccountedGrows(entries: seq<Entry>, e: Entry, r: Report)
    requires Accounted(entries, r)
    ensures Accounted(entries + [e], r)
  {
    PolicyChangesGrow(entries, e, r.since, r.end);
    if r.published {
      PolicyChangesGrow(entries, e, r.since, r.end - 1);
    }
  }

  lemma ReportsGrow(w: World, s: System, t: ThreadId)
    requires Inv(w, s) && WinsSwap(s, t)
    ensures var s' := AfterSwap(s, t); forall i | 0 <= i < |s'.reports| :: Accounted(s'.entries, s'.reports[i])
  {
    NewReportIsAccounted(w, s, t);
    var s' := AfterSwap(s, t);
    forall i | 0 <= i < |s'.reports| ensures Accounted(s'.entries, s'.reports[i]) {
      if i < |s.reports| {
        AccountedGrows(s.entries, Entry(t, s.threads[t].call.change), s.reports[i]);
      }
    }
  }

  lemma NewReportIsAccounted(w: World, s: System, t: ThreadId)
    requires Inv(w, s) && WinsSwap(s, t)
    ensures Accounted(AfterSwap(s, t).entries, AfterSwap(s, t).reports[|s.reports|])
  {
    var a := s.threads[t];
    assert Sound(w, s.history, s.entries, t, a);
    assert a.stage.expected == s.history[a.seen];
    PolicyChangesGrow(s.entries, Entry(t, a.call.change), a.since, |s.entries|);
  }

  lemma RecordsGrow(w: World, s: System, t: ThreadId)
    requires Inv(w, s) && WinsSwap(s, t)
    ensures Recorded(w, AfterSwap(s, t))
  {
    ReportsGrow(w, s, t);
    var s' := AfterSwap(s, t);
    forall i | 0 <= i < |s.observations| ensures Coherent(w, s'.history, s'.observations[i]) {
      assert Coherent(w, s.history, s.observations[i]);
    }
    forall i | 0 <= i < |s.sessionAnswers| ensures Frozen(w, s'.sessions, s'.sessionAnswers[i]) {
      assert Frozen(w, s.sessions, s.sessionAnswers[i]);
    }
  }

  lemma OthersStaySoundAcrossSwap(w: World, s: System, t: ThreadId)
    requires Inv(w, s) && WinsSwap(s, t)
    ensures var s' := AfterSwap(s, t); forall u | u in s'.threads :: Sound(w, s'.history, s'.entries, u, s'.threads[u])
  {
    var s' := AfterSwap(s, t);
    forall u | u in s'.threads ensures Sound(w, s'.history, s'.entries, u, s'.threads[u]) {
      SoundGrows(w, s.history, s.entries, s'.cell, Entry(t, s.threads[t].call.change), u, s.threads[u]);
    }
  }

  lemma WonSwapKeepsUnshared(w: World, s: System, t: ThreadId)
    requires Inv(w, s) && WinsSwap(s, t)
    ensures Unshared(AfterSwap(s, t))
  {
    assert s.threads[t].stage.expected == s.history[s.threads[t].seen];
  }

  lemma WonSwapKeepsInvariant(w: World, s: System, t: ThreadId)
    requires Inv(w, s) && WinsSwap(s, t)
    ensures Inv(w, AfterSwap(s, t))
  {
    LogGrows(w, s, t);
    AddressesGrow(w, s, t);
    SnapshotsStayFresh(w, s, t);
    RecordsGrow(w, s, t);
    OthersStaySoundAcrossSwap(w, s, t);
    WonSwapKeepsUnshared(w, s, t);
  }

  /** Steps of a thread that publish nothing leave every other thread, and all records, as they were. */
  lemma OthersStaySound(w: World, s: System, t: ThreadId, a: Activity, allocations: nat)
    requires Inv(w, s) && Sound(w, s.history, s.entries, t, a)
    requires
      || (t in s.threads && Unpublished(a) == Unpublished(s.threads[t]))
      || Unpublished(a) == None
      || (Unpublished(a).value.id == s.nextId && allocations > 0)
    ensures Inv(w, s.(nextId := s.nextId + allocations, threads := s.threads[t := a]))
  {
    StaysUnshared(s, t, a, allocations);
    var s' := s.(nextId := s.nextId + allocations, threads := s.threads[t := a]);
    assert Addressed(s'.history, s'.nextId);
    assert Recorded(w, s');
  }

  lemma StaysUnshared(s: System, t: ThreadId, a: Activity, allocations: nat)
    requires Unshared(s) && Addressed(s.history, s.nextId)
    requires
      || (t in s.threads && Unpublished(a) == Unpublished(s.threads[t]))
      || Unpublished(a) == None
      || (Unpublished(a).value.id == s.nextId && allocations > 0)
    ensures Unshared(s.(nextId := s.nextId + allocations, threads := s.threads[t := a]))
  {
  }

  lemma CompileKeepsInvariant(w: World, s: System, t: ThreadId, compiled: Snapshot)
    requires Inv(w, s) && CanCompile(w, s, t, compiled)
    ensures Inv(w, AfterCompile(s, t, compiled))
  {
    CompileKeepsSound(w, s, t, compiled);
    OthersStaySound(w, s, t, AfterCompile(s, t, compiled).threads[t], 1);
  }

  lemma RetryKeepsSnapshot(s: System, t: ThreadId)
    requires CanSwap(s, t) && !WinsSwap(s, t)
    ensures var again := AfterSwap(s, t).threads[t];
      && (Unpublished(again) == Unpublished(s.threads[t]) || Unpublished(again) == None)
      && AfterSwap(s, t) == s.(nextId := s.nextId + 1, threads := s.threads[t := again])
  {
  }

  lemma LostSwapKeepsInvariant(w: World, s: System, t: ThreadId)
    requires Inv(w, s) && CanSwap(s, t) && !WinsSwap(s, t)
    ensures Inv(w, AfterSwap(s, t))
  {
    var again := AfterSwap(s, t).threads[t];
    LostSwapKeepsSound(w, s, t);
    RetryKeepsSnapshot(s, t);
    OthersStaySound(w, s, t, again, 1);
  }

  lemma LoadKeepsInvariant(w: World, s: System, t: ThreadId)
    requires Inv(w, s) && CanLoad(s, t)
    ensures Inv(w, AfterLoad(s, t))
  {
    LoadKeepsSound(w, s, t);
    OthersStaySound(w, s, t, AfterLoad(s, t).threads[t], 0);
  }

  lemma LoadAgainKeepsInvariant(w: World, s: System, t: ThreadId)
    requires Inv(w, s) && CanLoadAgain(s, t)
    ensures Inv(w, AfterLoadAgain(s, t))
  {
    LoadAgainKeepsSound(w, s, t);
    OthersStaySound(w, s, t, AfterLoadAgain(s, t).threads[t], 0);
  }

  lemma BeginKeepsInvariant(w: World, s: System, t: ThreadId, call: Call)
    requires Inv(w, s) && CanBegin(s, t, call)
    ensures Inv(w, AfterBegin(s, t, call))
  {
    OthersStaySound(w, s, t, AfterBegin(s, t, call).threads[t], 0);
  }

  lemma FailureKeepsInvariant(w: World, s: System, t: ThreadId)
    requires Inv(w, s) && CanFailToCompile(w, s, t)
    ensures Inv(w, AfterFailure(s, t))
  {
    FailureIsAccounted(w, s, t);
  }

  lemma FailureIsAccounted(w: World, s: System, t: ThreadId)
    requires Inv(w, s) && CanFailToCompile(w, s, t)
    ensures Accounted(s.entries, AfterFailure(s, t).reports[|s.reports|])
  {
    var a := s.threads[t];
    assert Sound(w, s.history, s.entries, t, a);
    PolicyChangesAccumulate(s.entries, a.since, a.seen, |s.entries|);
  }

  lemma FinishKeepsInvariant(w: World, s: System, t: ThreadId)
    requires Inv(w, s) && CanFinish(s, t)
    ensures Inv(w, AfterFinish(w, s, t))
  {
    assert Sound(w, s.history, s.entries, t, s.threads[t]);
    assert Coherent(w, s.history, AfterFinish(w, s, t).observations[|s.observations|]);
  }

  lemma OpenKeepsInvariant(w: World, s: System, id: SessionId)
    requires Inv(w, s) && id !in s.sessions
    ensures Inv(w, AfterOpen(s, id))
  {
    forall i | 0 <= i < |s.sessionAnswers| ensures Frozen(w, AfterOpen(s, id).sessions, s.sessionAnswers[i]) {
      assert Frozen(w, s.sessions, s.sessionAnswers[i]);
    }
  }

  lemma AskKeepsInvariant(w: World, s: System, id: SessionId, r: Request)
    requires Inv(w, s) && id in s.sessions
    ensures Inv(w, AfterAsk(w, s, id, r))
  {
    var answers := AfterAsk(w, s, id, r).sessionAnswers;
    forall i | 0 <= i < |answers| ensures Frozen(w, s.sessions, answers[i]) {
      assert i < |s.sessionAnswers| ==> Frozen(w, s.sessions, s.sessionAnswers[i]);
    }
  }

  /** Every action of every thread keeps the invariant. */
  lemma ActionKeepsInvariant(w: World, s: System, a: Action)
    requires Inv(w, s) && Enabled(w, s, a)
    ensures Inv(w, After(w, s, a))
  {
    match a
    case Begin(t, call) => BeginKeepsInvariant(w, s, t, call);
    case Load(t) => LoadKeepsInvariant(w, s, t);
    case Compile(t, compiled) => CompileKeepsInvariant(w, s, t, compiled);
    case CompileFails(t) => FailureKeepsInvariant(w, s, t);
    case LoadAgain(t) => LoadAgainKeepsInvariant(w, s, t);
    case Swap(t) =>
      if WinsSwap(s, t) {
        WonSwapKeepsInvariant(w, s, t);
      } else {
        LostSwapKeepsInvariant(w, s, t);
      }
    case Finish(t) => FinishKeepsInvariant(w, s, t);
    case OpenSession(id) => OpenKeepsInvariant(w, s, id);
    case Ask(id, r) => AskKeepsInvariant(w, s, id, r);
  }

  // ---------- Runs ----------

  ghost predicate IsRun(w: World, run: seq<System>) {
    && run != [] && Initial(w, run[0])
    && forall i | 0 <= i < |run| - 1 :: Next(w, run[i], run[i + 1])
  }

  /** Later systems extend the log and the records, and leave sessions alone. */
  ghost predicate Extends(s: System, s': System) {
    && s.history <= s'.history && s.entries <= s'.entries && s.reports <= s'.reports
    && s.observations <= s'.observations && s.sessionAnswers <= s'.sessionAnswers
    && forall id | id in s.sessions :: id in s'.sessions && s'.sessions[id] == s.sessions[id]
  }

  lemma ActionExtends(w: World, s: System, a: Action)
    requires Enabled(w, s, a)
    ensures Extends(s, After(w, s, a))
  {
  }

  lemma StepExtends(w: World, run: seq<System>, i: nat)
    requires IsRun(w, run) && i + 1 < |run|
    ensures Extends(run[i], run[i + 1])
  {
    assert Next(w, run[i], run[i + 1]);
    var a :| Enabled(w, run[i], a) && run[i + 1] == After(w, run[i], a);
    ActionExtends(w, run[i], a);
  }

  lemma ExtendsTransitive(a: System, b: System, c: System)
    requires Extends(a, b) && Extends(b, c)
    ensures Extends(a, c)
  {
  }

  lemma {:induction false} RunKeepsInvariant(w: World, run: seq<System>, i: nat)
    requires IsRun(w, run) && i < |run|
    ensures Inv(w, run[i])
  {
    if i == 0 {
      InitialIsInvariant(w, run[0]);
    } else {
      RunKeepsInvariant(w, run, i - 1);
      assert Next(w, run[i - 1], run[i - 1 + 1]);
      var a :| Enabled(w, run[i - 1], a) && run[i] == After(w, run[i - 1], a);
      ActionKeepsInvariant(w, run[i - 1], a);
    }
  }

  lemma {:induction false} ChainExtends(run: seq<System>, i: nat, j: nat)
    requires i <= j < |run| && forall k | i <= k < j :: Extends(run[k], run[k + 1])
    ensures Extends(run[i], run[j])
    decreases j
  {
    if i == j {
    } else {
      ChainExtends(run, i, j - 1);
      ExtendsTransitive(run[i], run[j - 1], run[j]);
    }
  }

  /** Nothing published or recorded is ever taken back, and sessions never change. */
  lemma RunExtends(w: World, run: seq<System>, i: nat, j: nat)
    requires IsRun(w, run) && i <= j < |run|
    ensures Extends(run[i], run[j])
  {
    forall k | i <= k < j ensures Extends(run[k], run[k + 1]) {
      StepExtends(w, run, k);
    }
    ChainExtends(run, i, j);
  }

  /**
   What a writer tells from two addresses: snapshots of two published states have the same address exactly when
   only labels changed between them, and then they are the same snapshot.
   */
  lemma AddressesTellUpdatesApart(w: World, run: seq<System>, n: nat, i: nat, j: nat)
    requires IsRun(w, run) && n < |run| && i <= j < |run[n].history|
    ensures var history, entries := run[n].history, run[n].entries;
      && |history| == |entries| + 1
      && (history[i].snapshot.id == history[j].snapshot.id <==>
            PolicyChanges(entries, i, j) == 0)
      && (history[i].snapshot.id == history[j].snapshot.id ==> history[i].snapshot == history[j].snapshot)
  {
    RunKeepsInvariant(w, run, n);
    var s := run[n];
    if s.history[i].snapshot.id == s.history[j].snapshot.id {
      SameAddressMeansNoPolicyChange(w, s.history, s.entries, i, i, j);
    } else {
      NewSnapshotMeansPolicyChange(w, s.history, s.entries, i, i, j);
    }
  }

  // ---------- No update is lost ----------

  /** The last registry put among the first `k` changes. */
  ghost function LatestLabels(entries: seq<Entry>, k: nat): Option<Labels.LabelRegistry>
    requires k <= |entries|
  {
    if k == 0 then None
    else match entries[k - 1].change
      case PutLabels(registry) => Some(registry)
      case _ => LatestLabels(entries, k - 1)
  }

  ghost function LatestText(first: string, entries: seq<Entry>, k: nat): string
    requires k <= |entries|
  {
    if k == 0 then first
    else match entries[k - 1].change
      case PutLabels(_) => LatestText(first, entries, k - 1)
      case Reload(text) => text
      case ReloadWithSchema(text, _) => text
  }

  ghost function LatestSchema(first: Option<Schema>, entries: seq<Entry>, k: nat): Option<Schema>
    requires k <= |entries|
  {
    if k == 0 then first
    else match entries[k - 1].change
      case ReloadWithSchema(_, schema) => Some(schema)
      case _ => LatestSchema(first, entries, k - 1)
  }

  /**
   In every run each published state is what the changes before it, replayed one at a time, leave behind: the last
   registry put, and the last text compiled against the last schema given, for the layout of the first state.
   */
  lemma {:induction false} NoUpdateIsLost(w: World, history: seq<State>, entries: seq<Entry>, k: nat)
    requires IsLog(w, history, entries) && k < |history|
    ensures history[k].labels == LatestLabels(entries, k)
    ensures var first := history[0].snapshot;
      IsCompiled(w, history[k].snapshot, LatestText(first.text, entries, k), LatestSchema(first.schema, entries, k),
                 history[0].StoreLayout())
  {
    if k == 0 {
    } else {
      NoUpdateIsLost(w, history, entries, k - 1);
      assert Follows(w, entries[k - 1].change, history[k - 1], history[k]);
    }
  }

  /** The n-th state is of generation n, until the counter saturates. */
  lemma {:induction false} GenerationsCountStates(w: World, history: seq<State>, entries: seq<Entry>, k: nat)
    requires IsLog(w, history, entries) && k < |history|
    ensures history[k].generation == if k + 1 < MAX_GENERATION then k + 1 else MAX_GENERATION
  {
    if k == 0 {
    } else {
      GenerationsCountStates(w, history, entries, k - 1);
      assert Follows(w, entries[k - 1].change, history[k - 1], history[k]);
    }
  }

  /** Below saturation a generation identifies the published state. */
  lemma GenerationIdentifiesState(w: World, run: seq<System>, i: nat, j: nat, a: nat, b: nat)
    requires IsRun(w, run) && i <= j < |run|
    requires a < |run[i].history| && b < |run[j].history|
    requires run[i].history[a].generation == run[j].history[b].generation < MAX_GENERATION
    ensures run[i].history[a] == run[j].history[b]
  {
    RunKeepsInvariant(w, run, i);
    RunKeepsInvariant(w, run, j);
    RunExtends(w, run, i, j);
    GenerationsCountStates(w, run[i].history, run[i].entries, a);
    GenerationsCountStates(w, run[j].history, run[j].entries, b);
  }

  /** A plain reload publishes under the schema and layout of the very state it replaces, whatever it raced with. */
  lemma ReloadKeepsCurrentSchema(w: World, run: seq<System>, i: nat, t: ThreadId)
    requires IsRun(w, run) && i < |run|
    requires WinsSwap(run[i], t) && run[i].threads[t].call.change.Reload?
    ensures var before, after := run[i].cell, AfterSwap(run[i], t).cell;
      && after.snapshot.schema == before.snapshot.schema && after.StoreLayout() == before.StoreLayout()
      && after.labels == before.labels
      && after.snapshot.text == run[i].threads[t].call.change.text
  {
    RunKeepsInvariant(w, run, i);
    WonSwapFollows(w, run[i], t);
  }

  // ---------- Coherent reads ----------

  /** Every evaluation of every run is the answer of one published state, current at some moment of the call. */
  lemma EvaluationsAreCoherent(w: World, run: seq<System>, i: nat, n: nat)
    requires IsRun(w, run) && i < |run| && n < |run[i].observations|
    ensures Coherent(w, run[i].history, run[i].observations[n])
  {
    RunKeepsInvariant(w, run, i);
  }

  /** A session answers from one published state, with one version, however much is published meanwhile. */
  lemma SessionsAreFrozen(w: World, run: seq<System>, i: nat, j: nat, m: nat, n: nat)
    requires IsRun(w, run) && i <= j < |run|
    requires m < |run[i].sessionAnswers| && n < |run[j].sessionAnswers|
    requires run[i].sessionAnswers[m].id == run[j].sessionAnswers[n].id
    ensures var a, b := run[i].sessionAnswers[m], run[j].sessionAnswers[n];
      && a.version == b.version
      && (a.request == b.request ==> a.answer == b.answer)
      && a.id in run[i].sessions
      && var k := run[i].sessions[a.id].index;
         k < |run[i].history| && b.answer == AnswerOf(w, run[i].history[k], b.request)
  {
    RunKeepsInvariant(w, run, i);
    RunKeepsInvariant(w, run, j);
    RunExtends(w, run, i, j);
    assert Frozen(w, run[i].sessions, run[i].sessionAnswers[m]);
    assert Frozen(w, run[j].sessions, run[j].sessionAnswers[n]);
  }

  // ---------- Progress ----------

  /** Calls that finished: what they published, and what their retries cost. */
  lemma FinishedCallsAreAccounted(w: World, run: seq<System>, i: nat, n: nat)
    requires IsRun(w, run) && i < |run| && n < |run[i].reports|
    ensures Accounted(run[i].entries, run[i].reports[n])
  {
    RunKeepsInvariant(w, run, i);
  }

  /** Calls under way: others published once for every swap lost; steps are at most three for each and three more. */
  lemma UnfinishedCallsAreBounded(w: World, run: seq<System>, i: nat, t: ThreadId)
    requires IsRun(w, run) && i < |run| && t in run[i].threads
    ensures var s, a := run[i], run[i].threads[t];
      && a.since <= |s.entries|
      && (forall k | a.since <= k < |s.entries| :: s.entries[k].who != t)
      && a.failures <= |s.entries| - a.since
      && a.compiles <= 1 + PolicyChanges(s.entries, a.since, |s.entries|)
      && a.steps <= 3 * (|s.entries| - a.since) + 3
  {
    RunKeepsInvariant(w, run, i);
    var s, a := run[i], run[i].threads[t];
    assert Sound(w, s.history, s.entries, t, a);
    PolicyChangesAccumulate(s.entries, a.since, a.seen, |s.entries|);
  }

  /** The thread that acts, if any. */
  function Actor(a: Action): Option<ThreadId> {
    match a
    case OpenSession(_) => None
    case Ask(_, _) => None
    case _ => Some(a.who)
  }

  /** A thread's own action counts as a step of its call or ends it; nobody else's action touches the call. */
  lemma StepsAreCounted(w: World, s: System, a: Action, t: ThreadId)
    requires Enabled(w, s, a) && t in s.threads
    ensures var s' := After(w, s, a);
      if Actor(a) == Some(t) then t !in s'.threads || s'.threads[t].steps == s.threads[t].steps + 1
      else t in s'.threads && s'.threads[t] == s.threads[t]
  {
  }

  /** A run together with the actions that made it. */
  ghost predicate IsTrace(w: World, run: seq<System>, actions: seq<Action>) {
    && |run| == |actions| + 1 && Initial(w, run[0])
    && forall i | 0 <= i < |actions| :: Enabled(w, run[i], actions[i]) && run[i + 1] == After(w, run[i], actions[i])
  }

  lemma TracesAreRuns(w: World, run: seq<System>, actions: seq<Action>)
    requires IsTrace(w, run, actions)
    ensures IsRun(w, run)
  {
    forall i | 0 <= i < |run| - 1 ensures Next(w, run[i], run[i + 1]) {
      assert Enabled(w, run[i], actions[i]) && run[i + 1] == After(w, run[i], actions[i]);
    }
  }

  /** How often a thread acts between two moments. */
  ghost function OwnActions(actions: seq<Action>, t: ThreadId, from: nat, last: nat): nat
    requires last <= |actions|
  {
    if last <= from then 0
    else OwnActions(actions, t, from, last - 1) + OwnAction(actions[last - 1], t)
  }

  /** From one moment of a call to a later one: what its steps are spent on. */
  ghost predicate Advances(a: Activity, b: Activity, steps: nat) {
    && steps <= 3 * (b.failures - a.failures) + Offset(b) - Offset(a)
    && b.failures - a.failures <= b.seen - a.seen
  }

  /** A step that leaves the call under way brings it one stage on, or is a lost swap and has seen a new state. */
  lemma OwnStepAdvances(w: World, s: System, a: Action, t: ThreadId)
    requires Inv(w, s) && Enabled(w, s, a) && Actor(a) == Some(t)
    requires t in s.threads && t in After(w, s, a).threads
    ensures Advances(s.threads[t], After(w, s, a).threads[t], 1)
  {
    if a.Swap? {
      LostSwapAdvances(w, s, t);
    } else {
      QuietStepAdvances(w, s, a, t, s.threads[t]);
    }
  }

  lemma QuietStepAdvances(w: World, s: System, a: Action, t: ThreadId, before: Activity)
    requires Enabled(w, s, a) && Actor(a) == Some(t) && !a.Swap?
    requires t in s.threads && s.threads[t] == before && t in After(w, s, a).threads
    requires before.seen <= |s.entries|
    requires before.stage.Compiled? ==> before.call.Publish? && before.call.change.ReloadWithSchema?
    ensures Advances(before, After(w, s, a).threads[t], 1)
  {
  }

  lemma LostSwapAdvances(w: World, s: System, t: ThreadId)
    requires Inv(w, s) && CanSwap(s, t) && !WinsSwap(s, t)
    ensures t in AfterSwap(s, t).threads && Advances(s.threads[t], AfterSwap(s, t).threads[t], 1)
  {
    LostSwapSeesNewState(w, s, t);
  }

  lemma LostSwapSeesNewState(w: World, s: System, t: ThreadId)
    requires Inv(w, s) && CanSwap(s, t) && !WinsSwap(s, t)
    ensures s.threads[t].seen < |s.entries|
  {
    assert Holds(w, s.history, s.threads[t]);
    assert s.threads[t].stage.expected == s.history[s.threads[t].seen];
  }

  lemma AdvancesAdd(a: Activity, b: Activity, c: Activity, m: nat, n: nat)
    requires Advances(a, b, m) && Advances(b, c, n)
    ensures Advances(a, c, m + n)
  {
  }

  function OwnAction(a: Action, t: ThreadId): nat {
    if Actor(a) == Some(t) then 1 else 0
  }

  lemma BusyStepAdvances(w: World, run: seq<System>, actions: seq<Action>, k: nat, t: ThreadId)
    requires IsTrace(w, run, actions) && k < |actions| && t in run[k].threads && t in run[k + 1].threads
    ensures Advances(run[k].threads[t], run[k + 1].threads[t], OwnAction(actions[k], t))
  {
    TracesAreRuns(w, run, actions);
    RunKeepsInvariant(w, run, k);
    assert Enabled(w, run[k], actions[k]) && run[k + 1] == After(w, run[k], actions[k]);
    if Actor(actions[k]) == Some(t) {
      OwnStepAdvances(w, run[k], actions[k], t);
    } else {
      StepsAreCounted(w, run[k], actions[k], t);
    }
  }

  lemma {:induction false} ChainAdvances(run: seq<System>, actions: seq<Action>, i: nat, j: nat, t: ThreadId)
    requires i <= j <= |actions| < |run| && forall k | i <= k <= j :: t in run[k].threads
    requires forall k | i <= k < j ::
        Advances(run[k].threads[t], run[k + 1].threads[t], OwnAction(actions[k], t))
    ensures Advances(run[i].threads[t], run[j].threads[t], OwnActions(actions, t, i, j))
    decreases j
  {
    if i == j {
    } else {
      ChainAdvances(run, actions, i, j - 1, t);
      AdvancesAdd(run[i].threads[t], run[j - 1].threads[t], run[j].threads[t],
                  OwnActions(actions, t, i, j - 1), OwnAction(actions[j - 1], t));
    }
  }

  lemma BusyThreadsAdvance(w: World, run: seq<System>, actions: seq<Action>, i: nat, j: nat, t: ThreadId)
    requires IsTrace(w, run, actions) && i <= j < |run| && forall k | i <= k <= j :: t in run[k].threads
    ensures Advances(run[i].threads[t], run[j].threads[t], OwnActions(actions, t, i, j))
  {
    forall k | i <= k < j ensures Advances(run[k].threads[t], run[k + 1].threads[t], OwnAction(actions[k], t)) {
      BusyStepAdvances(w, run, actions, k, t);
    }
    ChainAdvances(run, actions, i, j, t);
  }

  lemma BusyThreadsAreBounded(w: World, run: seq<System>, actions: seq<Action>, i: nat, j: nat, t: ThreadId)
    requires IsTrace(w, run, actions) && i <= j < |run| && forall k | i <= k <= j :: t in run[k].threads
    ensures OwnActions(actions, t, i, j) <= 3 * (|run[j].entries| - run[i].threads[t].seen) + 3
  {
    BusyThreadsAdvance(w, run, actions, i, j, t);
    TracesAreRuns(w, run, actions);
    RunKeepsInvariant(w, run, j);
    assert Sound(w, run[j].history, run[j].entries, t, run[j].threads[t]);
  }

  /**
   Calls end. From any moment of a call, once its thread has taken more than three actions for every state published
   that it had not seen, and three more, the call is over.
   */
  lemma CallsEnd(w: World, run: seq<System>, actions: seq<Action>, i: nat, j: nat, t: ThreadId)
    requires IsTrace(w, run, actions) && i <= j < |run| && t in run[i].threads
    requires OwnActions(actions, t, i, j) > 3 * (|run[j].entries| - run[i].threads[t].seen) + 3
    ensures exists k :: i < k <= j && t !in run[k].threads
  {
    if forall k | i <= k <= j :: t in run[k].threads {
      BusyThreadsAreBounded(w, run, actions, i, j, t);
    } else {
      var k :| i <= k <= j && t !in run[k].threads;
      assert k != i;
    }
  }

  /** Counted from its first action, a call takes at most three actions for every publish by others, and three more. */
  lemma CallsEndOnceOthersStop(w: World, run: seq<System>, actions: seq<Action>, i: nat, j: nat, t: ThreadId, n: nat)
    requires IsTrace(w, run, actions) && i + 1 <= j < |run| && actions[i].Begin? && actions[i].who == t
    requires OthersPublish(run[j].entries, t, |run[i].entries|) <= n
    requires OwnActions(actions, t, i + 1, j) > 3 * n + 3
    ensures exists k :: i < k <= j && t !in run[k].threads
  {
    if forall k | i + 1 <= k <= j :: t in run[k].threads {
      BegunCallsAreBounded(w, run, actions, i, j, t);
    }
  }

  lemma BegunCallsAreBounded(w: World, run: seq<System>, actions: seq<Action>, i: nat, j: nat, t: ThreadId)
    requires IsTrace(w, run, actions) && i + 1 <= j < |run| && actions[i].Begin? && actions[i].who == t
    requires forall k | i + 1 <= k <= j :: t in run[k].threads
    ensures OwnActions(actions, t, i + 1, j) <= 3 * OthersPublish(run[j].entries, t, |run[i].entries|) + 3
  {
    assert Enabled(w, run[i], actions[i]) && run[i + 1] == After(w, run[i], actions[i]);
    BusyThreadsAreBounded(w, run, actions, i + 1, j, t);
    SinceIsKept(w, run, actions, i + 1, j, t);
    TracesAreRuns(w, run, actions);
    RunKeepsInvariant(w, run, j);
    assert Sound(w, run[j].history, run[j].entries, t, run[j].threads[t]);
    AllPublishedByOthers(run[j].entries, t, |run[i].entries|);
  }

  /** Entries by other threads, from a position on. */
  ghost function OthersPublish(entries: seq<Entry>, t: ThreadId, from: nat): nat {
    if |entries| <= from then 0
    else OthersPublish(entries[..|entries| - 1], t, from) + if entries[|entries| - 1].who != t then 1 else 0
  }

  lemma {:induction false} AllPublishedByOthers(entries: seq<Entry>, t: ThreadId, from: nat)
    requires from <= |entries| && forall k | from <= k < |entries| :: entries[k].who != t
    ensures OthersPublish(entries, t, from) == |entries| - from
    decreases |entries|
  {
    if |entries| == from {
    } else {
      AllPublishedByOthers(entries[..|entries| - 1], t, from);
    }
  }

  lemma {:induction false} SinceIsKept(w: World, run: seq<System>, actions: seq<Action>, i: nat, j: nat, t: ThreadId)
    requires IsTrace(w, run, actions) && i <= j < |run| && forall k | i <= k <= j :: t in run[k].threads
    ensures run[j].threads[t].since == run[i].threads[t].since
    ensures run[j].threads[t].call == run[i].threads[t].call
    decreases j
  {
    if i == j {
    } else {
      SinceIsKept(w, run, actions, i, j - 1, t);
      assert Enabled(w, run[j - 1], actions[j - 1]) && run[j - 1 + 1] == After(w, run[j - 1], actions[j - 1]);
    }
  }

  // ---------- Calls and sessions, from their first action to their last ----------

  /** A call runs as it was begun, and counts the states published from then on. */
  lemma CallsRunAsBegun(w: World, run: seq<System>, actions: seq<Action>, i: nat, j: nat, t: ThreadId, call: Call)
    requires IsTrace(w, run, actions) && i < j < |run| && actions[i] == Begin(t, call)
    requires forall k | i < k <= j :: t in run[k].threads
    ensures run[j].threads[t].call == call && run[j].threads[t].since == |run[i].entries|
  {
    assert Enabled(w, run[i], actions[i]) && run[i + 1] == After(w, run[i], actions[i]);
    SinceIsKept(w, run, actions, i + 1, j, t);
  }

  /** An evaluation that finishes answers the request it began with from the state that was current when it loaded. */
  lemma EvaluationsAnswerWithinCall(w: World, run: seq<System>, actions: seq<Action>, i: nat, j: nat, t: ThreadId,
                                    r: Request) returns (l: nat)
    requires IsTrace(w, run, actions) && i < j < |actions|
    requires actions[i] == Begin(t, Evaluate(r)) && actions[j] == Finish(t)
    requires forall k | i < k <= j :: t in run[k].threads
    ensures i < l < j && actions[l] == Load(t)
    ensures |run[j + 1].observations| == |run[j].observations| + 1
    ensures var o := run[j + 1].observations[|run[j].observations|];
      o.who == t && o.request == r && o.answer == AnswerOf(w, run[l].cell, r)
  {
    CallsRunAsBegun(w, run, actions, i, j, t, Evaluate(r));
    assert Enabled(w, run[j], actions[j]) && run[j + 1] == After(w, run[j], actions[j]);
    l := LoadedDuringCall(w, run, actions, i, j, t, r);
  }

  /** What an evaluation holds is what the cell held at its one load. */
  lemma {:induction false} LoadedDuringCall(w: World, run: seq<System>, actions: seq<Action>, i: nat, j: nat,
                                            t: ThreadId, r: Request) returns (l: nat)
    requires IsTrace(w, run, actions) && i < j < |run| && actions[i] == Begin(t, Evaluate(r))
    requires forall k | i < k <= j :: t in run[k].threads
    requires run[j].threads[t].stage.Loaded?
    ensures i < l < j && actions[l] == Load(t) && run[j].threads[t].stage.source == run[l].cell
    decreases j
  {
    var n := j - 1;
    assert Enabled(w, run[i], actions[i]) && run[i + 1] == After(w, run[i], actions[i]);
    assert run[i + 1].threads[t].stage == Start;
    assert Enabled(w, run[n], actions[n]) && run[n + 1] == After(w, run[n], actions[n]);
    assert n > i;
    CallsRunAsBegun(w, run, actions, i, n, t, Evaluate(r));
    if actions[n] == Load(t) {
      l := n;
      LoadTakesTheCell(run[n], t);
    } else {
      StagesAreKept(w, run[n], actions[n], t);
      l := LoadedDuringCall(w, run, actions, i, n, t, r);
    }
  }

  lemma LoadTakesTheCell(s: System, t: ThreadId)
    requires CanLoad(s, t) && s.threads[t].call.Evaluate?
    ensures AfterLoad(s, t).threads[t].stage == Loaded(s.cell)
  {
  }

  /** Only its own load changes the stage of an evaluation. */
  lemma StagesAreKept(w: World, s: System, a: Action, t: ThreadId)
    requires Enabled(w, s, a) && t in s.threads && s.threads[t].call.Evaluate?
    requires t in After(w, s, a).threads && a != Load(t)
    requires s.threads[t].stage.Loaded? || s.threads[t].stage.Start?
    ensures After(w, s, a).threads[t].stage == s.threads[t].stage
  {
  }

  /** A writer that leaves its call has published the change it began with, on the state then current, or nothing. */
  lemma WritersPublishTheirChange(w: World, run: seq<System>, actions: seq<Action>, i: nat, j: nat, t: ThreadId,
                                  change: Change)
    requires IsTrace(w, run, actions) && i < j < |actions| && actions[i] == Begin(t, Publish(change))
    requires forall k | i < k <= j :: t in run[k].threads
    requires t !in run[j + 1].threads
    ensures |run[j + 1].reports| == |run[j].reports| + 1
    ensures var report := run[j + 1].reports[|run[j].reports|];
      && report.who == t && report.change == change && report.since == |run[i].entries|
      && (if report.published then
            && run[j + 1].entries == run[j].entries + [Entry(t, change)]
            && Follows(w, change, run[j].cell, run[j + 1].cell)
          else
            && run[j + 1].history == run[j].history && run[j + 1].cell == run[j].cell && !change.PutLabels?
            && exists m :: |run[i].entries| <= m < |run[j].history| && Fails(w, change, run[j].history[m]))
  {
    CallsRunAsBegun(w, run, actions, i, j, t, Publish(change));
    assert Enabled(w, run[j], actions[j]) && run[j + 1] == After(w, run[j], actions[j]);
    TracesAreRuns(w, run, actions);
    RunKeepsInvariant(w, run, j);
    if Actor(actions[j]) != Some(t) {
      StepsAreCounted(w, run[j], actions[j], t);
    }
    if actions[j] == Swap(t) {
      WonSwapFollows(w, run[j], t);
    } else {
      var activity := run[j].threads[t];
      assert Sound(w, run[j].history, run[j].entries, t, activity);
      assert Fails(w, change, run[j].history[activity.seen]);
    }
  }

  /** A reload's text does not compile for a state: against its own schema, or the state's, and the state's layout. */
  ghost predicate Fails(w: World, change: Change, state: State)
    requires !change.PutLabels?
  {
    var schema := if change.ReloadWithSchema? then Some(change.schema) else state.snapshot.schema;
    !w.compiles(change.text, schema, LayoutOf(state.snapshot.policy.sets))
  }

  /** A session holds the state that is current when it is made: every later answer and version is that state's. */
  lemma SessionsHoldTheCurrentState(w: World, run: seq<System>, actions: seq<Action>, k: nat, j: nat,
                                    id: SessionId, n: nat)
    requires IsTrace(w, run, actions) && k < j < |run| && actions[k] == OpenSession(id)
    requires n < |run[j].sessionAnswers| && run[j].sessionAnswers[n].id == id
    ensures id in run[j].sessions && run[j].sessions[id] == Session(run[k].cell, |run[k].entries|)
    ensures var answer, cell := run[j].sessionAnswers[n], run[k].cell;
      && answer.answer == AnswerOf(w, cell, answer.request)
      && answer.version == Version(EngineState(cell.snapshot.policy, cell.labels, cell.generation))
  {
    assert Enabled(w, run[k], actions[k]) && run[k + 1] == After(w, run[k], actions[k]);
    TracesAreRuns(w, run, actions);
    RunExtends(w, run, k + 1, j);
    RunKeepsInvariant(w, run, j);
    assert Frozen(w, run[j].sessions, run[j].sessionAnswers[n]);
  }

  /** Asking a session adds one answer, to the request asked. */
  lemma AskingAnswers(w: World, run: seq<System>, actions: seq<Action>, k: nat, id: SessionId, r: Request)
    requires IsTrace(w, run, actions) && k < |actions| && actions[k] == Ask(id, r)
    ensures |run[k + 1].sessionAnswers| == |run[k].sessionAnswers| + 1
    ensures run[k + 1].sessionAnswers[..|run[k].sessionAnswers|] == run[k].sessionAnswers
    ensures var answer := run[k + 1].sessionAnswers[|run[k].sessionAnswers|]; answer.id == id && answer.request == r
  {
    assert Enabled(w, run[k], actions[k]) && run[k + 1] == After(w, run[k], actions[k]);
  }

  /** No call is ever stuck. */
  lemma CallsCanProceed(w: World, s: System, t: ThreadId) returns (a: Action)
    requires ValidWorld(w) && Inv(w, s) && t in s.threads
    ensures Actor(a) == Some(t) && Enabled(w, s, a)
  {
    assert Sound(w, s.history, s.entries, t, s.threads[t]);
    match s.threads[t].stage
    case Start => a := Load(t);
    case Loaded(_) =>
      if CanFinish(s, t) {
        a := Finish(t);
      } else {
        a := CompilationCanProceed(w, s, t);
      }
    case Compiled(_) => a := LoadAgain(t);
    case Swapping(_, _) => a := Swap(t);
  }

  lemma CompilationCanProceed(w: World, s: System, t: ThreadId) returns (a: Action)
    requires ValidWorld(w) && Inv(w, s) && IsCompiling(s, t)
    ensures Actor(a) == Some(t) && Enabled(w, s, a)
  {
    var change, source := s.threads[t].call.change, s.threads[t].stage.source;
    var schema, layout := SchemaFor(change, source), source.StoreLayout();
    if CanFailToCompile(w, s, t) {
      a := CompileFails(t);
    } else {
      assert source == s.history[s.threads[t].seen];
      PublishedStatesAreCompiled(w, s.history, s.entries, s.threads[t].seen);
      assert w.compiled(source.snapshot.policy, source.snapshot.text, source.snapshot.schema, layout);
      var policy :| IsPolicyFor(w, policy, change.text, schema, layout);
      a := Compile(t, Snapshot(s.nextId, change.text, schema, policy));
    }
  }

  lemma PublishedStatesAreCompiled(w: World, history: seq<State>, entries: seq<Entry>, k: nat)
    requires IsLog(w, history, entries) && k < |history|
    ensures var s := history[k]; IsCompiled(w, s.snapshot, s.snapshot.text, s.snapshot.schema, s.StoreLayout())
  {
    NoUpdateIsLost(w, history, entries, k);
  }
}
