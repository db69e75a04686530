# OperationQueue submission, modelled in Dafny

This project models the submission path of the `OperationQueue` of the
Operations framework: `addOperation(_:)`, the batch forms
`addOperations(_:waitUntilFinished:)` and `addOperations(_:)`, and the
produced-operation observer that routes a produced operation either to its
group or back into the queue.

When an `Operation` is submitted, the queue does the following, in order:

1. It attaches three observers: produced-operation, will-finish and did-finish.
2. If the operation has conditions:
   - it registers the operation under the category of every mutually exclusive
     condition with the exclusivity manager;
   - it collects the holders the manager hands back;
   - it makes every indirect dependency depend on those previous holders and on
     the operation's direct dependencies;
   - it makes the condition evaluator depend on every indirect dependency;
   - it submits the indirect dependencies, then the evaluator, through the same
     path.
3. It signals `willEnqueue`, tells the delegate `willAdd`, and admits the
   operation to the underlying queue.

A plain `NSOperation` only gets a completion block. That block reports
did-finish to the delegate.

Layout:

- `operation_types.dfy` (`OperationTypes`): the values.
  - `Op` is an operation. Its indirect dependencies and its condition
    evaluator are nested operations.
  - `Condition` is a condition; `Edge` is a dependency edge.
  - `Event` is the trace of what the queue does: observer attachments,
    `addDependencies` calls, delegate calls, `willEnqueue` and admissions.
  - `State` is the registry, the edges and the trace together. The edges a
    submission adds are exactly what its recorded `addDependencies` calls add
    (`EdgesOf`).
- `exclusivity.dfy` (`Exclusivity`):
  - the exclusivity manager as a class whose `holders` map is updated in place;
  - the registration loop as the function `Register`;
  - what registration does to the registry and which previous holders it
    collects.
- `submission.dfy` (`Submission`): what one submission does to a `State`.
  - `Submit` is split into `Prepare` and `Gate` along the source's steps.
  - `SubmitAll` is the batch form; `Produce` is the routing rule.
  - The reference definitions the lemmas use: admission order, reachable ids,
    registered categories.
- `operation_queue.dfy` (`Queue`): the `OperationQueue` class. Its methods
  change the queue's edges and trace and the manager's registry step by step.
  - `AddOperation`, `ProcessConditions`, `AddDependencies`, `AdmitOperation`,
    the batch forms and `ProducedOperation` are proved to end in the state that
    `Submit`, `Gate`, `Wire`, `Admit`, `SubmitAll` and `Produce` of
    `Submission` describe.
  - `RegisterExclusive` is proved to end in the registry and previous holders
    that `Exclusivity.Register` describes.
  - `OperationWillFinish`, `OperationDidFinish` and `CompletionBlockRan` are the
    observers and the completion block firing. Each only appends a delegate
    call to the trace, and has no `Submission` counterpart.
- `submission_properties.dfy` (`SubmissionProperties`): the properties of a
  submission.
  - the observers;
  - the admission order;
  - the registry;
  - the dependency wiring;
  - batches;
  - produced operations.

Four behaviours of this file are worth stating outright:

- Same-category ordering. The comment at lines 121-123 of
  `Sources/Core/Shared/OperationQueue.swift` says that indirect dependencies run
  after the previous mutually exclusive operations. This file orders only the
  later operation's indirect dependencies after the earlier holders, and the
  evaluator after those dependencies. The later operation itself gains no
  prerequisite here (`OperationGetsNoNewPrerequisite`). It follows the holders
  only through its dependency on its evaluator, which `evaluateConditions()`
  sets up outside this file. With no indirect dependencies this file adds no
  edge between them (`SameCategoryWithoutIndirectDependencies`). Any
  further ordering would come from the exclusivity manager, whose source is
  not part of this model.
- Edges back to the operation. An indirect dependency D is made to depend on
  the operation itself when the operation is among its own previous holders.
  That happens when two of its exclusive conditions share a category, or when
  it already held one of its categories (`OperationAmongPreviousHolders`).
  The edge D→operation is not a self-edge. Together with evaluator→D it closes
  a cycle only if the operation also depends on its evaluator, and that edge is
  set up by `evaluateConditions()` outside this file
  (`OwnHolderWiresBackToOperation`, `RepeatedCategoryWiresBackToOperation`).
- Self-edges. The wiring makes an indirect dependency depend on itself when
  that dependency is also a previous holder, a direct dependency or the
  evaluator (`WiringSelfEdge`).
- Routing of produced operations. The produced-operation observer tests
  whether the producer itself is a `GroupOperation`, not whether it belongs to
  one (`ProducedOperationRouting`).

## Model

| member | source | states |
|---|---|---|
| Queue.OperationQueue.AddOperation | Sources/Core/Shared/OperationQueue.swift:66-157 | The queue's new state (registry, edges, trace) is exactly `Submit` of the old state; the delegate is unchanged |
| Queue.OperationQueue.AttachObservers | Sources/Core/Shared/OperationQueue.swift:72-93 | The trace grows by the three observer attachments, in order produced-operation, will-finish, did-finish |
| Queue.OperationQueue.ProcessConditions | Sources/Core/Shared/OperationQueue.swift:96-140 | Condition processing ends in exactly the state `Gate` describes |
| Queue.OperationQueue.RegisterExclusive | Sources/Core/Shared/OperationQueue.swift:98-107 | The loop over the exclusive conditions leaves the registry and the collected previous holders `Register` describes |
| Queue.OperationQueue.AddDependencies | Sources/Core/Shared/OperationQueue.swift:119-132 | The edges grow by exactly `Wiring` of the indirect dependencies and the trace by the `addDependencies` calls (`WiringEvents`), in the source's order; nothing else changes |
| Queue.OperationQueue.AddDependenciesOf | Sources/Core/Shared/OperationQueue.swift:121-131 | For one indirect dependency: the three calls are recorded in order (previous holders, direct dependencies, the evaluator's dependency on it) and the edges grow by exactly what they add |
| Queue.OperationQueue.AdmitOperation | Sources/Core/Shared/OperationQueue.swift:154-156 | The trace grows by the delegate's willAdd, when there is a delegate, then the admission, exactly as `Admit` describes |
| Queue.OperationQueue.AddOperations | Sources/Core/Shared/OperationQueue.swift:165-167 | Submitting a batch, whatever the wait flag, ends in `SubmitAll`: each operation submitted in turn |
| Queue.OperationQueue.AddOperationSequence | Sources/Core/Shared/OperationQueue.swift:177-179 | The sequence form submits the operations in order, without waiting |
| Queue.OperationQueue.AddOperationList | Sources/Core/Shared/OperationQueue.swift:185-187 | The variadic form submits the operations in order |
| Queue.OperationQueue.ProducedOperation | Sources/Core/Shared/OperationQueue.swift:72-79 | For an Operation producer (the only kind with this observer): a group producer gets the produced operation appended; otherwise the produced operation is submitted to the queue (`Produce`) |
| Queue.OperationQueue.OperationWillFinish | Sources/Core/Shared/OperationQueue.swift:82-86 | The delegate is told will-finish with the errors when there is a delegate; nothing otherwise |
| Queue.OperationQueue.OperationDidFinish | Sources/Core/Shared/OperationQueue.swift:89-93 | The delegate is told did-finish with the errors when there is a delegate; nothing otherwise |
| Queue.OperationQueue.CompletionBlockRan | Sources/Core/Shared/OperationQueue.swift:146-150 | A plain operation's completion block tells the delegate did-finish with an empty error list |
| Exclusivity.ExclusivityManager.AddOperation | Sources/Core/Shared/OperationQueue.swift:104 | The operation becomes the holder of the category; the previous holder is returned, or none when the category was free |
| Exclusivity.MutuallyExclusive | Sources/Core/Shared/OperationQueue.swift:100 | Exactly the conditions flagged mutually exclusive are kept, and never more conditions than there were |
| Exclusivity.MutuallyExclusiveCounts | Sources/Core/Shared/OperationQueue.swift:100 | Every mutually exclusive condition is kept as many times as it occurs; every other condition not at all |
| Exclusivity.MutuallyExclusiveAppend | Sources/Core/Shared/OperationQueue.swift:100 | The filter keeps order: filtering `a + b` is filtering `a`, then filtering `b` |
| Exclusivity.RepeatAmongExclusive | Sources/Core/Shared/OperationQueue.swift:100-106 | The filtered conditions repeat a category if and only if two mutually exclusive conditions of the operation share one |
| Exclusivity.Register | Sources/Core/Shared/OperationQueue.swift:101-107 | Registration only adds to the collected previous holders |
| Exclusivity.RegisterRecordsHolder | Sources/Core/Shared/OperationQueue.swift:101-107 | After registration every exclusive category maps to the operation; every other category keeps its holder; no other key appears |
| Exclusivity.RegisterCollectsPreviousHolders | Sources/Core/Shared/OperationQueue.swift:101-106 | The previous holders are the registry's old entries for the exclusive categories, plus the operation itself when two of its exclusive conditions share a category; duplicates collapse |
| Exclusivity.OperationAmongPreviousHolders | Sources/Core/Shared/OperationQueue.swift:101-106 | The operation is its own previous holder if and only if a category repeats or it already held one of its categories |
| Submission.Submit | Sources/Core/Shared/OperationQueue.swift:66-157 | A submission only extends the trace and the edges, and its last event admits the submitted operation |
| Submission.Prepare | Sources/Core/Shared/OperationQueue.swift:67-140 | Preparation first appends the three observer attachments, then only extends the trace and the edges |
| Submission.Gate | Sources/Core/Shared/OperationQueue.swift:96-140 | Condition processing only extends the trace and the edges |
| Submission.SubmitAll | Sources/Core/Shared/OperationQueue.swift:165-166 | A batch only extends the trace and the edges |
| Submission.Wiring | Sources/Core/Shared/OperationQueue.swift:119-132 | The loop's edge set; the evaluator depends on every indirect dependency. The exact set, in both directions, is proved in `WiringEdges`, and `AddDependencies` is proved to add it |
| Submission.Admit | Sources/Core/Shared/OperationQueue.swift:154-156 | The last steps change neither registry nor edges, only extend the trace, and end with the admission; that exactly this operation is admitted is `AdmitAdmits`, the exact tail is `LastStepsOfSubmission` |
| Submission.Produce | Sources/Core/Shared/OperationQueue.swift:72-78 | Routing only extends the trace and the edges; a group producer leaves registry and edges alone; the last event is the group append for a group, the produced operation's admission otherwise (in full in `ProducedOperationRouting`) |
| Submission.Wire | Sources/Core/Shared/OperationQueue.swift:116-132 | The dependency loop only extends the trace and the edges |
| Submission.WiringEvents | Sources/Core/Shared/OperationQueue.swift:119-132 | The loop makes exactly three `addDependencies` calls per indirect dependency |
| SubmissionProperties.SubmitAllConcat | Sources/Core/Shared/OperationQueue.swift:165-166 | Submitting `a + b` is submitting `a`, then `b` |
| SubmissionProperties.BatchIsSuccessiveSubmission | Sources/Core/Shared/OperationQueue.swift:165-166 | A batch equals successive single submissions |
| SubmissionProperties.AdmitAdmits | Sources/Core/Shared/OperationQueue.swift:154-156 | The last steps admit exactly the submitted operation, once, after everything admitted before |
| SubmissionProperties.SubmitAdmits | Sources/Core/Shared/OperationQueue.swift:135-156 | A submission admits exactly `AdmissionOrder(op)`: indirect dependencies in full, then the evaluator in full, then the operation; only the operation when it has no conditions |
| SubmissionProperties.PrepareAdmits | Sources/Core/Shared/OperationQueue.swift:96-140 | Preparation admits the indirect dependencies and the evaluator only when there are conditions |
| SubmissionProperties.GateAdmits | Sources/Core/Shared/OperationQueue.swift:116-139 | Condition processing admits the indirect dependencies, in order, then the evaluator |
| SubmissionProperties.SubmitAllAdmits | Sources/Core/Shared/OperationQueue.swift:165-166 | A batch admits the admission orders of its operations, concatenated in sequence order |
| SubmissionProperties.AdmittedAtIsOwnAdmission | Sources/Core/Shared/OperationQueue.swift:165-166 | Each operation of a batch is admitted at the position `AdmittedAt` names |
| SubmissionProperties.AdmittedAtIncreases | Sources/Core/Shared/OperationQueue.swift:165-166 | Operations of a batch are admitted in sequence order |
| SubmissionProperties.AdmissionOrderOfSubmission | Sources/Core/Shared/OperationQueue.swift:116-156 | With conditions, each indirect dependency is admitted in array order, then the evaluator is admitted last but one, then the operation last |
| SubmissionProperties.LastStepsOfSubmission | Sources/Core/Shared/OperationQueue.swift:143-156 | willEnqueue, then the delegate's willAdd when there is a delegate, then admission end every submission of an Operation |
| SubmissionProperties.ObserversAttachedFirst | Sources/Core/Shared/OperationQueue.swift:72-93 | The first three events of a submission of an Operation attach its three observers, in order |
| SubmissionProperties.SubmitEventsConcern | Sources/Core/Shared/OperationQueue.swift:66-157 | Every event a submission records concerns the operation, its indirect dependencies or its evaluator, transitively |
| SubmissionProperties.ExactlyThreeObservers | Sources/Core/Shared/OperationQueue.swift:67-93 | A submitted Operation (distinct from what it reaches) gains exactly the three observers, in order, with or without conditions |
| SubmissionProperties.PreparedObservers | Sources/Core/Shared/OperationQueue.swift:67-140 | Condition processing attaches no further observer to the operation |
| SubmissionProperties.PlainOperationGetsCompletionBlockOnly | Sources/Core/Shared/OperationQueue.swift:145-156 | A plain operation gets only a completion block, the delegate's willAdd and admission: no observers, no registry change, no edges |
| SubmissionProperties.NoConditionsOnlyAdmission | Sources/Core/Shared/OperationQueue.swift:96-156 | An Operation without conditions changes neither the registry nor the edges, and only it is admitted |
| SubmissionProperties.SubmitLeavesOtherCategories | Sources/Core/Shared/OperationQueue.swift:100-107 | A submission leaves every category it does not register untouched, including the categories of non-exclusive conditions |
| SubmissionProperties.GateLeavesOtherCategories | Sources/Core/Shared/OperationQueue.swift:100-139 | Condition processing leaves every category outside the registered ones untouched |
| SubmissionProperties.SubmitAllLeavesOtherCategories | Sources/Core/Shared/OperationQueue.swift:165-166 | A batch leaves every category its operations do not register untouched |
| SubmissionProperties.SubmitRegistersOwnCategories | Sources/Core/Shared/OperationQueue.swift:100-107 | After submission every exclusive category of the operation is held by it, unless a nested submission registered that category again |
| SubmissionProperties.WiringEdges | Sources/Core/Shared/OperationQueue.swift:119-132 | The wiring adds exactly: each indirect dependency after each previous holder and each direct dependency, and the evaluator after each indirect dependency |
| SubmissionProperties.WiringSelfEdge | Sources/Core/Shared/OperationQueue.swift:119-132 | The wiring makes an operation depend on itself if and only if an indirect dependency is also a previous holder, a direct dependency or the evaluator |
| SubmissionProperties.WiringEventsAbout | Sources/Core/Shared/OperationQueue.swift:119-132 | Every call the loop records adds dependencies to an indirect dependency or to the evaluator |
| SubmissionProperties.WiringRecorded | Sources/Core/Shared/OperationQueue.swift:119-132 | The edges the recorded calls add are exactly `Wiring` |
| SubmissionProperties.SubmitRecordsEdges | Sources/Core/Shared/OperationQueue.swift:66-157 | The edges a submission adds are exactly those of the `addDependencies` calls it records |
| SubmissionProperties.GateRecordsEdges | Sources/Core/Shared/OperationQueue.swift:96-140 | The edges condition processing adds are exactly those of the calls it records |
| SubmissionProperties.SubmitAllRecordsEdges | Sources/Core/Shared/OperationQueue.swift:165-166 | The edges a batch adds are exactly those of the calls it records |
| SubmissionProperties.SubmitWiresBeforeAdmitting | Sources/Core/Shared/OperationQueue.swift:116-139 | In what a submission records, every `addDependencies` call on an operation comes before that operation is admitted |
| SubmissionProperties.GateWiresBeforeAdmitting | Sources/Core/Shared/OperationQueue.swift:116-139 | In what condition processing records, every `addDependencies` call on an operation comes before its admission |
| SubmissionProperties.SubmitAllWiresBeforeAdmitting | Sources/Core/Shared/OperationQueue.swift:165-166 | In what a batch records, every `addDependencies` call on an operation comes before its admission |
| SubmissionProperties.AdmittedAfterWiring | Sources/Core/Shared/OperationQueue.swift:135-139 | Submitting the indirect dependencies and then the evaluator admits each of them |
| SubmissionProperties.EdgesAddedBeforeAdmission | Sources/Core/Shared/OperationQueue.swift:116-139 | Every edge (a, b) a submission adds is added by a recorded call on `a` that precedes `a`'s admission |
| SubmissionProperties.SubmitWiresIndirectDependencies | Sources/Core/Shared/OperationQueue.swift:116-135 | After submission with conditions, every indirect dependency depends on every previous holder and direct dependency, and the evaluator on every indirect dependency |
| SubmissionProperties.OwnHolderWiresBackToOperation | Sources/Core/Shared/OperationQueue.swift:101-132 | When the operation is among its own previous holders, every indirect dependency depends on the operation, while the evaluator depends on that dependency |
| SubmissionProperties.RepeatedCategoryWiresBackToOperation | Sources/Core/Shared/OperationQueue.swift:100-132 | Two mutually exclusive conditions sharing a category make every indirect dependency depend on the operation itself, while the evaluator depends on that dependency |
| SubmissionProperties.SubmitEdgesLeaveNested | Sources/Core/Shared/OperationQueue.swift:116-139 | Every new edge leaves from an indirect dependency or an evaluator reached by the submission |
| SubmissionProperties.OperationGetsNoNewPrerequisite | Sources/Core/Shared/OperationQueue.swift:116-139 | The submitted operation itself gains no prerequisite here; in particular it is not made to depend on its evaluator |
| SubmissionProperties.NoWiringKeepsEdges | Sources/Core/Shared/OperationQueue.swift:116 | Without indirect dependencies anywhere in the submission, the edges are unchanged |
| SubmissionProperties.NoIndirectDependenciesNoWiring | Sources/Core/Shared/OperationQueue.swift:116-139 | With conditions but no indirect dependencies, the previous holders are not wired; the evaluator is still admitted before the operation |
| SubmissionProperties.SameCategoryWithoutIndirectDependencies | Sources/Core/Shared/OperationQueue.swift:101-139 | Two operations in category "db" without indirect dependencies: the second finds the first as previous holder, yet no edge orders them |
| SubmissionProperties.ProducedOperationRouting | Sources/Core/Shared/OperationQueue.swift:72-78 | For an Operation producer, a group producer receives the produced operation and nothing is admitted; otherwise the produced operation is submitted in full |

## Left out

- The underlying `NSOperationQueue` (`super.addOperation`) and its execution, threads and priorities. Admission is an `Admitted` event in the trace.
- The exclusivity manager's locking, its singleton lifetime and anything it does besides "record the new holder, return the old one". The manager's source is not part of this model. Any edges it adds itself are not modelled. The queue holds the manager as a constant instead of reaching a shared instance.
- Concurrency: submissions are sequential.
- Weak references to the queue, the operation and the delegate. The delegate is reduced to whether there is one (`hasDelegate`). A deallocated queue is not modelled.
- `evaluateConditions()`, the `indirectDependencies` computation and the operation's `directDependencies`. Their sources are not part of this model, so they are inputs nested in `Op`. In particular:
  - the operation's dependency on its evaluator is not modelled;
  - edges added before an indirect dependency's own submission do not feed back into that dependency's `directDependencies` field.
- `GroupOperation` internals: appending to a group is an `AppendedToGroup` event.
- Observer firing order at finish time and cancellation on condition failure. Those live outside the modelled file.
- Edges form a set: a pair added twice is one edge. The trace still records every `addDependencies` call.
- The observers as closures. Attaching one is an `ObserverAdded` event. Firing one is a separate method call: `ProducedOperation`, `OperationWillFinish`, `OperationDidFinish` or `CompletionBlockRan`.
- An operation that reaches itself. An id is object identity, so an indirect dependency or evaluator (at any depth) with the operation's id is the operation itself, with the same non-empty conditions. The source then submits it again and again, and `addOperation` never returns. The finite nesting of `Op` cannot express such an object.
- `Op` values in which a nested operation reuses the id of an enclosing one describe no object of the source. The functions accept them all the same, and the lemmas without a distinct-id requires, such as `SubmitAdmits`, also cover them.
- SubmissionProperties.ExactlyThreeObservers: requires the operation's id to differ from every id its submission reaches. That excludes exactly the `Op` values above, which describe no object of the source. The same requires sits on `PreparedObservers` and `OperationGetsNoNewPrerequisite`.
- SubmissionProperties.SubmitRegistersOwnCategories: holds only for categories that no nested submission registers again. A later registration replaces the holder.
