/** The registry of active vaults: callers racing through check, load and commit, and vaults being merged. */
module Registry {
  import opened Bytes
  import opened Vault

  /** Which handle each conversation has, and what each handle holds. */
  datatype Registry = Registry(vaults: map<Bytes, nat>, heap: map<nat, VaultState>, next: nat)
  {
    /** Handles are allocated and never shared between conversations. */
    ghost predicate Valid() {
      && (forall id :: id in vaults ==> vaults[id] in heap)
      && (forall h :: h in heap ==> h < next && heap[h].Aligned())
      && (forall id, id' | id in vaults && id' in vaults :: vaults[id] == vaults[id'] ==> id == id')
    }

    /** Every vault satisfies its invariant. */
    ghost predicate Consistent() {
      forall h :: h in heap ==> heap[h].Valid()
    }

    function Content(id: Bytes): VaultState
      requires id in vaults && vaults[id] in heap
    {
      heap[vaults[id]]
    }
  }

  /** Moving everything under `from` to `into`; `persisted` is what storage holds for `into`. */
  function MergeInto(r: Registry, from: Bytes, into: Bytes, persisted: VaultState): Registry
    requires r.Valid()
  {
    if from !in r.vaults then r
    else
      var h, rest := r.vaults[from], r.vaults - {from};
      assert r.heap[h].Aligned();
      if into in rest then
        r.(vaults := rest, heap := r.heap[rest[into] := Merge(r.heap[rest[into]], r.heap[h])])
      else if persisted.originalToSynthetic == map[] then
        r.(vaults := rest[into := h])
      else
        Registry(rest[into := r.next], r.heap[r.next := Merge(persisted, r.heap[h])], r.next + 1)
  }

  /** A merge keeps the registry valid. */
  lemma MergeIntoKeeps(r: Registry, from: Bytes, into: Bytes, persisted: VaultState)
    requires r.Valid() && persisted.Aligned()
    ensures MergeInto(r, from, into, persisted).Valid()
  {
    hide VaultState.Aligned, Merge;
    if from in r.vaults {
      var h, rest := r.vaults[from], r.vaults - {from};
      assert r.heap[h].Aligned();
      if into in rest {
        assert r.heap[rest[into]].Aligned();
        MergeIsAligned(r.heap[rest[into]], r.heap[h]);
      } else {
        MergeIsAligned(persisted, r.heap[h]);
      }
    }
  }

  /** It keeps every vault's invariant if what it loads satisfies it. */
  lemma MergeIntoKeepsVaults(r: Registry, from: Bytes, into: Bytes, persisted: VaultState)
    requires r.Valid() && persisted.Valid() && r.Consistent()
    ensures MergeInto(r, from, into, persisted).Consistent()
  {
    hide VaultState.Valid, VaultState.Aligned, Merge;
    if from in r.vaults {
      var h, rest := r.vaults[from], r.vaults - {from};
      assert r.heap[h].Valid();
      if into in rest {
        assert r.heap[rest[into]].Valid();
        MergeIsUnion(r.heap[rest[into]], r.heap[h]);
      } else {
        MergeIsUnion(persisted, r.heap[h]);
      }
    }
  }

  lemma NothingIndexed(v: VaultState)
    requires v.Indexed() && v.originalToSynthetic == map[]
    ensures v.fullTokens == map[] && v.tokenIdIndex == map[] && v.displays == map[]
  {
    assert v.fullTokens.Values == {} && v.tokenIdIndex.Values == {} && v.displays.Values == {};
  }

  /** The vault of the target before the merge. */
  ghost function Target(r: Registry, from: Bytes, into: Bytes, persisted: VaultState): VaultState
    requires r.Valid()
  {
    if into in r.vaults && into != from then r.Content(into) else persisted
  }

  /** What `into` ends up with: the source vault as it is, or drained into the target. */
  lemma MergedContent(r: Registry, from: Bytes, into: Bytes, persisted: VaultState)
    requires r.Valid() && persisted.Aligned() && from in r.vaults
    ensures
      var r' := MergeInto(r, from, into, persisted);
      var content, target := r.Content(from), Target(r, from, into, persisted);
      && content.Aligned() && into in r'.vaults && r'.vaults[into] in r'.heap
      && (r'.Content(into) == Merge(target, content) ||
          (target.originalToSynthetic == map[] && r'.Content(into) == content))
  {
    hide VaultState.Valid, VaultState.Aligned, Merge;
  }

  /** Whichever branch is taken, `into` ends with the union of both vaults, its own entries winning. */
  lemma MergeIntoIsUnion(r: Registry, from: Bytes, into: Bytes, persisted: VaultState)
    requires r.Valid() && persisted.Aligned() && from in r.vaults
    requires r.Content(from).Valid() && Target(r, from, into, persisted).Valid()
    ensures
      var r' := MergeInto(r, from, into, persisted);
      var content, target := r.Content(from), Target(r, from, into, persisted);
      && into in r'.vaults && r'.vaults[into] in r'.heap
      && r'.Content(into).originalToSynthetic == content.originalToSynthetic + target.originalToSynthetic
      && r'.Content(into).fullTokens == content.fullTokens + target.fullTokens
      && r'.Content(into).tokenIdIndex == content.tokenIdIndex + target.tokenIdIndex
      && r'.Content(into).displays == content.displays + target.displays
  {
    MergedContent(r, from, into, persisted);
    hide MergeInto, VaultState.Valid, Merge, Target;
    var r' := MergeInto(r, from, into, persisted);
    DrainedOrMoved(Target(r, from, into, persisted), r.Content(from), r'.Content(into));
  }

  lemma DrainedOrMoved(target: VaultState, content: VaultState, result: VaultState)
    requires target.Valid() && content.Valid()
    requires result == Merge(target, content) || (target.originalToSynthetic == map[] && result == content)
    ensures result.originalToSynthetic == content.originalToSynthetic + target.originalToSynthetic
    ensures result.fullTokens == content.fullTokens + target.fullTokens
    ensures result.tokenIdIndex == content.tokenIdIndex + target.tokenIdIndex
    ensures result.displays == content.displays + target.displays
  {
    hide Merge, VaultState.TrueMax, VaultState.Zipped, VaultState.Distinct, VaultState.Indexed;
    MergeIsUnion(target, content);
    if target.originalToSynthetic == map[] { NothingIndexed(target); }
  }

  /**
   * The target keeps its handle if it has one, and takes over the source's if storage holds nothing for it, so that
   * calls that have the handle stay with the conversation; only a stored vault gets a fresh handle.
   */
  lemma MergeIntoHandle(r: Registry, from: Bytes, into: Bytes, persisted: VaultState)
    requires r.Valid() && from in r.vaults
    ensures
      var r' := MergeInto(r, from, into, persisted);
      && into in r'.vaults
      && r'.vaults[into] == (
        if into in r.vaults && into != from then r.vaults[into]
        else if persisted.originalToSynthetic == map[] then r.vaults[from]
        else r.next)
      && forall h :: h in r.heap && h != r'.vaults[into] ==> h in r'.heap && r'.heap[h] == r.heap[h]
  {
    hide VaultState.Valid, VaultState.Aligned, Merge;
  }

  /** The source entry is gone and no other conversation is touched. */
  lemma MergeIntoElsewhere(r: Registry, from: Bytes, into: Bytes, persisted: VaultState, id: Bytes)
    requires r.Valid() && id != into
    ensures
      var r' := MergeInto(r, from, into, persisted);
      && (id in r'.vaults <==> id in r.vaults && id != from)
      && (id in r'.vaults ==> r'.vaults[id] in r'.heap && r'.Content(id) == r.Content(id))
  {
    hide VaultState.Valid, VaultState.Aligned, Merge;
  }

  // ----- Callers of get_or_create_with_store

  datatype Pc = Entered | Missed | Loaded(own: nat) | Done(handle: nat)
  datatype Caller = Caller(id: Bytes, pc: Pc)

  /** The registry, the calls under way, and a log of insertions. */
  datatype System = System(reg: Registry, callers: map<nat, Caller>, log: seq<Bytes>)

  datatype Step =
    | Enter(c: nat, id: Bytes)
    | Check(c: nat)
    | Load(c: nat, content: VaultState)
    | Commit(c: nat)
    | Evict(ids: set<Bytes>)
    | MergeStep(from: Bytes, into: Bytes, persisted: VaultState)

  predicate At(s: System, c: nat, pc: Pc) {
    c in s.callers && s.callers[c].pc == pc
  }

  ghost predicate Enabled(s: System, step: Step) {
    match step
    case Enter(c, _) => c !in s.callers
    case Check(c) => At(s, c, Entered)
    case Load(c, content) => At(s, c, Missed) && content.Aligned()
    case Commit(c) => c in s.callers && s.callers[c].pc.Loaded?
    case Evict(_) => true
    case MergeStep(_, _, persisted) => persisted.Aligned() && s.reg.Valid()
  }

  function Move(s: System, c: nat, pc: Pc): System
    requires c in s.callers
  {
    s.(callers := s.callers[c := s.callers[c].(pc := pc)])
  }

  ghost function Do(s: System, step: Step): System
    requires Enabled(s, step)
  {
    match step
    case Enter(c, id) => s.(callers := s.callers[c := Caller(id, Entered)])
    case Check(c) =>
      var id := s.callers[c].id;
      Move(s, c, if id in s.reg.vaults then Done(s.reg.vaults[id]) else Missed)
    case Load(c, content) =>
      var reg := s.reg.(heap := s.reg.heap[s.reg.next := content], next := s.reg.next + 1);
      Move(s.(reg := reg), c, Loaded(s.reg.next))
    case Commit(c) =>
      var id := s.callers[c].id;
      if id in s.reg.vaults then Move(s, c, Done(s.reg.vaults[id]))
      else
        var own := s.callers[c].pc.own;
        Move(s.(reg := s.reg.(vaults := s.reg.vaults[id := own]), log := s.log + [id]), c, Done(own))
    case Evict(ids) => s.(reg := s.reg.(vaults := s.reg.vaults - ids))
    case MergeStep(from, into, persisted) => s.(reg := MergeInto(s.reg, from, into, persisted))
  }

  /** All the states of a run, each step enabled where it is taken. */
  ghost predicate Run(s: System, steps: seq<Step>, last: System)
    decreases |steps|
  {
    if steps == [] then s == last else Enabled(s, steps[0]) && Run(Do(s, steps[0]), steps[1..], last)
  }

  const INIT := System(Registry(map[], map[], 0), map[], [])

  // ----- Isolation: every run, evictions and merges included

  /** No two conversations share a handle, and a handle still being loaded belongs to nobody else. */
  ghost predicate Isolated(s: System) {
    && s.reg.Valid()
    && (forall c :: c in s.callers && s.callers[c].pc.Loaded? ==> s.callers[c].pc.own in s.reg.heap)
    && (forall c, id | c in s.callers && s.callers[c].pc.Loaded? && id in s.reg.vaults
          :: s.callers[c].pc.own != s.reg.vaults[id])
    && (forall c, c' | c in s.callers && c' in s.callers && s.callers[c].pc.Loaded? && s.callers[c'].pc.Loaded?
          :: s.callers[c].pc.own == s.callers[c'].pc.own ==> c == c')
  }

  lemma StepKeepsIsolation(s: System, step: Step)
    requires Isolated(s) && Enabled(s, step)
    ensures Isolated(Do(s, step))
  {
    hide VaultState.Aligned, MergeInto, Merge;
    if step.MergeStep? {
      MergeIntoKeeps(s.reg, step.from, step.into, step.persisted);
      MergeIntoHandles(s.reg, step.from, step.into, step.persisted);
    }
  }

  /** A merge only keeps handles or makes a new one. */
  lemma MergeIntoHandles(r: Registry, from: Bytes, into: Bytes, persisted: VaultState)
    requires r.Valid()
    ensures var r' := MergeInto(r, from, into, persisted);
      && (forall h :: h in r.heap ==> h in r'.heap)
      && (forall id :: id in r'.vaults ==>
            r'.vaults[id] == r.next || exists id' :: id' in r.vaults && r.vaults[id'] == r'.vaults[id])
  {
    hide VaultState.Valid, VaultState.Aligned, Merge;
  }

  lemma {:induction false} RunIsIsolated(s: System, steps: seq<Step>, last: System)
    requires Isolated(s) && Run(s, steps, last)
    ensures Isolated(last)
    decreases |steps|
  {
    hide Isolated, Enabled, Do;
    if steps == [] {
    } else {
      StepKeepsIsolation(s, steps[0]);
      RunIsIsolated(Do(s, steps[0]), steps[1..], last);
    }
  }

  /** What the step loads from storage satisfies the vault's invariant. */
  ghost predicate LoadsValid(step: Step) {
    match step
    case Load(_, content) => content.Valid()
    case MergeStep(_, _, persisted) => persisted.Valid()
    case _ => true
  }

  lemma StepKeepsVaults(s: System, step: Step)
    requires Isolated(s) && Enabled(s, step) && s.reg.Consistent() && LoadsValid(step)
    ensures Do(s, step).reg.Consistent()
  {
    hide VaultState.Valid, VaultState.Aligned, MergeInto, Merge;
    if step.MergeStep? { MergeIntoKeepsVaults(s.reg, step.from, step.into, step.persisted); }
  }

  /** If storage holds consistent vaults, so does the registry after every run. */
  lemma {:induction false} RunKeepsVaults(s: System, steps: seq<Step>, last: System)
    requires Isolated(s) && Run(s, steps, last) && s.reg.Consistent()
    requires forall step :: step in steps ==> LoadsValid(step)
    ensures last.reg.Consistent()
    decreases |steps|
  {
    hide Isolated, Enabled, Do, LoadsValid, Registry.Consistent;
    if steps == [] {
    } else {
      assert steps[0] in steps && (forall step :: step in steps[1..] ==> step in steps);
      StepKeepsIsolation(s, steps[0]);
      StepKeepsVaults(s, steps[0]);
      RunKeepsVaults(Do(s, steps[0]), steps[1..], last);
    }
  }

  // ----- One handle per conversation

  function Count(log: seq<Bytes>, id: Bytes): nat {
    multiset(log)[id]
  }

  /** The step neither evicts nor merges the conversation. */
  predicate Spares(step: Step, id: Bytes) {
    match step
    case Evict(ids) => id !in ids
    case MergeStep(from, into, _) => id != from && id != into
    case _ => true
  }

  /** Every finished call for `id` has the registered handle, and it was inserted once if it is there. */
  ghost predicate OneHandle(s: System, id: Bytes) {
    && (forall c :: c in s.callers && s.callers[c].id == id && s.callers[c].pc.Done? ==>
          id in s.reg.vaults && s.reg.vaults[id] == s.callers[c].pc.handle)
    && Count(s.log, id) == if id in s.reg.vaults then 1 else 0
  }

  lemma StepKeepsOneHandle(s: System, step: Step, id: Bytes)
    requires OneHandle(s, id) && Enabled(s, step) && Spares(step, id)
    ensures OneHandle(Do(s, step), id)
  {
    hide VaultState.Valid, Merge;
    if step.MergeStep? {
      MergeIntoElsewhere(s.reg, step.from, step.into, step.persisted, id);
      MergeIntoSameHandle(s.reg, step.from, step.into, step.persisted, id);
      hide MergeInto, Registry.Valid;
    }
  }

  lemma MergeIntoSameHandle(r: Registry, from: Bytes, into: Bytes, persisted: VaultState, id: Bytes)
    requires r.Valid() && id != into && id != from
    ensures var m := MergeInto(r, from, into, persisted).vaults; id in r.vaults ==> id in m && m[id] == r.vaults[id]
  {
    hide VaultState.Valid, VaultState.Aligned, Merge;
  }

  lemma {:induction false} RunHasOneHandle(s: System, steps: seq<Step>, last: System, id: Bytes)
    requires OneHandle(s, id) && Run(s, steps, last) && forall step :: step in steps ==> Spares(step, id)
    ensures OneHandle(last, id)
    decreases |steps|
  {
    hide OneHandle, Enabled, Do, Spares;
    if steps == [] {
    } else {
      StepKeepsOneHandle(s, steps[0], id);
      RunHasOneHandle(Do(s, steps[0]), steps[1..], last, id);
    }
  }

  /**
   * In every interleaving without an eviction or merge of a conversation, all calls for it return the same
   * handle and it is inserted at most once; and in every interleaving whatsoever conversations stay apart.
   */
  lemma RegistryProtocol(steps: seq<Step>, last: System, id: Bytes)
    requires Run(INIT, steps, last)
    ensures forall id', id'' | id' in last.reg.vaults && id'' in last.reg.vaults
      :: last.reg.vaults[id'] == last.reg.vaults[id''] ==> id' == id''
    ensures (forall step :: step in steps ==> Spares(step, id)) ==>
      && Count(last.log, id) <= 1
      && forall c, c' | c in last.callers && c' in last.callers && last.callers[c].id == id == last.callers[c'].id
           :: last.callers[c].pc.Done? && last.callers[c'].pc.Done? ==> last.callers[c].pc == last.callers[c'].pc
  {
    hide VaultState.Valid;
    RunIsIsolated(INIT, steps, last);
    if forall step :: step in steps ==> Spares(step, id) {
      RunHasOneHandle(INIT, steps, last, id);
    }
  }

  // ----- What the callers get

  /** What storage holds of a conversation: its records, or nothing. */
  function LoadOrCreate(store: map<Bytes, seq<Record>>, id: Bytes): VaultState {
    if id in store then FromRecords(store[id]) else EMPTY
  }

  /** Whatever the step loads for calls of `id` is `content`. */
  predicate LoadsFor(s: System, step: Step, id: Bytes, content: VaultState) {
    step.Load? && step.c in s.callers && s.callers[step.c].id == id ==> step.content == content
  }

  /** A run in which `id` is neither evicted nor merged, and every load for it brings `content`. */
  ghost predicate Serves(s: System, steps: seq<Step>, id: Bytes, content: VaultState)
    decreases |steps|
  {
    steps == [] ||
    (Enabled(s, steps[0]) && Spares(steps[0], id) && LoadsFor(s, steps[0], id, content) &&
     Serves(Do(s, steps[0]), steps[1..], id, content))
  }

  /** Every call for `id` that has a vault has `content`, and the finished ones have the registered handle. */
  ghost predicate Holds(s: System, id: Bytes, content: VaultState) {
    && (id in s.reg.vaults ==> s.reg.vaults[id] in s.reg.heap && s.reg.Content(id) == content)
    && forall c :: c in s.callers && s.callers[c].id == id ==>
         match s.callers[c].pc
         case Loaded(own) => own in s.reg.heap && s.reg.heap[own] == content
         case Done(handle) => id in s.reg.vaults && s.reg.vaults[id] == handle
         case _ => true
  }

  lemma StepKeepsContent(s: System, step: Step, id: Bytes, content: VaultState)
    requires Isolated(s) && Holds(s, id, content) && Enabled(s, step)
    requires Spares(step, id) && LoadsFor(s, step, id, content)
    ensures Holds(Do(s, step), id, content)
  {
    hide VaultState.Valid, VaultState.Aligned, Merge;
    if step.MergeStep? {
      MergeIntoElsewhere(s.reg, step.from, step.into, step.persisted, id);
      MergeIntoSameHandle(s.reg, step.from, step.into, step.persisted, id);
      MergeIntoOthers(s.reg, step.from, step.into, step.persisted);
      hide MergeInto, Registry.Valid;
    }
  }

  /** A merge changes what a handle holds only if it is the target's. */
  lemma MergeIntoOthers(r: Registry, from: Bytes, into: Bytes, persisted: VaultState)
    requires r.Valid()
    ensures
      var r' := MergeInto(r, from, into, persisted);
      forall h | h in r.heap && !(into in r.vaults && r.vaults[into] == h) :: h in r'.heap && r'.heap[h] == r.heap[h]
  {
    hide VaultState.Valid, VaultState.Aligned, Merge;
  }

  lemma {:induction false} RunKeepsContent(s: System, steps: seq<Step>, last: System, id: Bytes, content: VaultState)
    requires Isolated(s) && Holds(s, id, content) && Run(s, steps, last) && Serves(s, steps, id, content)
    ensures Holds(last, id, content)
    decreases |steps|
  {
    hide Isolated, Holds, Enabled, Do, Spares, LoadsFor;
    if steps == [] {
    } else {
      StepKeepsIsolation(s, steps[0]);
      StepKeepsContent(s, steps[0], id, content);
      RunKeepsContent(Do(s, steps[0]), steps[1..], last, id, content);
    }
  }

  /** In every interleaving, each finished call for a conversation has the vault that storage holds for it. */
  lemma CallersGetWhatIsStored(
    steps: seq<Step>, last: System, id: Bytes, store: map<Bytes, seq<Record>>, c: nat)
    requires Run(INIT, steps, last) && Serves(INIT, steps, id, LoadOrCreate(store, id))
    requires c in last.callers && last.callers[c].id == id && last.callers[c].pc.Done?
    ensures var h := last.callers[c].pc.handle; h in last.reg.heap && last.reg.heap[h] == LoadOrCreate(store, id)
  {
    hide LoadOrCreate;
    RunKeepsContent(INIT, steps, last, id, LoadOrCreate(store, id));
  }

  /** What was saved comes back to every caller: the same mappings, in the same order. */
  lemma CallersGetWhatWasSaved(
    steps: seq<Step>, last: System, id: Bytes, store: map<Bytes, seq<Record>>, c: nat, saved: VaultState)
    requires Run(INIT, steps, last) && Serves(INIT, steps, id, LoadOrCreate(store, id))
    requires c in last.callers && last.callers[c].id == id && last.callers[c].pc.Done?
    requires saved.Valid() && id in store && store[id] == ToRecords(saved)
    ensures
      var h := last.callers[c].pc.handle;
      && h in last.reg.heap && last.reg.heap[h].Valid()
      && var w := last.reg.heap[h];
      w == saved.(fullTokens := w.fullTokens, tokenIdIndex := w.tokenIdIndex, displays := w.displays)
  {
    CallersGetWhatIsStored(steps, last, id, store, c);
    hide VaultState.Valid;
    RecordsRoundTrip(saved);
  }

  /** A call for a registered conversation is over at its check and loads nothing. */
  lemma HitLoadsNothing(s: System, c: nat)
    requires At(s, c, Entered) && s.callers[c].id in s.reg.vaults
    ensures Do(s, Check(c)).reg == s.reg && At(Do(s, Check(c)), c, Done(s.reg.vaults[s.callers[c].id]))
    ensures forall content :: !Enabled(Do(s, Check(c)), Load(c, content))
  {
  }

  // ----- Eviction

  /** Exactly the evicted conversations leave; the others keep their handles, and no vault changes. */
  lemma EvictedAreGone(s: System, ids: set<Bytes>, id: Bytes)
    ensures
      var s' := Do(s, Evict(ids));
      && (id in s'.reg.vaults <==> id in s.reg.vaults && id !in ids)
      && (id in s'.reg.vaults ==> s'.reg.vaults[id] == s.reg.vaults[id])
      && s' == s.(reg := s.reg.(vaults := s'.reg.vaults))
  {
  }

  /** One call on its own, for a conversation that has been evicted. */
  function CallAfterEviction(ids: set<Bytes>, c: nat, id: Bytes, content: VaultState): seq<Step> {
    [Evict(ids)] + [Enter(c, id), Check(c), Load(c, content), Commit(c)]
  }

  /** The next call for an evicted conversation gets a fresh vault with what storage holds then. */
  lemma EvictedIsLoadedAgain(s: System, ids: set<Bytes>, c: nat, id: Bytes, content: VaultState, last: System)
    requires Isolated(s) && id in ids && c !in s.callers && content.Aligned()
    requires Run(s, CallAfterEviction(ids, c, id, content), last)
    ensures At(last, c, Done(s.reg.next)) && id in last.reg.vaults && last.reg.vaults[id] == s.reg.next
    ensures s.reg.next !in s.reg.heap && last.reg.heap == s.reg.heap[s.reg.next := content]
    ensures forall d :: d in s.callers ==> d in last.callers && last.callers[d] == s.callers[d]
    ensures forall k :: k !in ids ==> (k in last.reg.vaults <==> k in s.reg.vaults)
    ensures forall k :: k !in ids && k in s.reg.vaults ==> last.reg.vaults[k] == s.reg.vaults[k]
  {
    hide VaultState.Aligned, VaultState.Valid, MergeInto, Run;
    FiveSteps(ids, c, id, content);
    RunStarts(s, Evict(ids), [Enter(c, id), Check(c), Load(c, content), Commit(c)], last);
    var s1 := Do(s, Evict(ids));
    RunStarts(s1, Enter(c, id), [Check(c), Load(c, content), Commit(c)], last);
    var s2 := Do(s1, Enter(c, id));
    RunStarts(s2, Check(c), [Load(c, content), Commit(c)], last);
    var s3 := Do(s2, Check(c));
    RunStarts(s3, Load(c, content), [Commit(c)], last);
    var s4 := Do(s3, Load(c, content));
    RunStarts(s4, Commit(c), [], last);
    RunIsOver(Do(s4, Commit(c)), last);
  }

  lemma FiveSteps(ids: set<Bytes>, c: nat, id: Bytes, content: VaultState)
    ensures
      var check, load, commit := Check(c), Load(c, content), Commit(c);
      && [Enter(c, id), check, load, commit] == [Enter(c, id)] + [check, load, commit]
      && [check, load, commit] == [check] + [load, commit]
      && [load, commit] == [load] + [commit] && [commit] == [commit] + []
  {
  }

  lemma RunStarts(s: System, step: Step, steps: seq<Step>, last: System)
    requires Run(s, [step] + steps, last)
    ensures Enabled(s, step) && Run(Do(s, step), steps, last)
  {
    hide Enabled, Do;
    assert ([step] + steps)[1..] == steps;
  }

  lemma RunIsOver(s: System, last: System)
    requires Run(s, [], last)
    ensures s == last
  {
  }
}
