/** The per-tenant limit on gradings in flight, in every interleaving of the grading coroutines. */
module GradingSemaphore {
  import opened Common

  datatype Phase =
    | Waiting(tenant: string)
    | Holding(tenant: string)
    | Finished

  /**
    permits are the semaphores' values; capacity and created record, for each
    tenant, what the semaphore was made with and how often one was made.
  */
  datatype State = State(
    permits: map<string, nat>, phase: map<Uuid, Phase>, capacity: map<string, nat>, created: map<string, nat>)

  const INITIAL := State(map[], map[], map[], map[])

  /** What the scheduler of the event loop runs between two awaits. */
  datatype Step =
    | LookUp(task: Uuid, tenant: string, limit: nat)
    | Acquire(task: Uuid)
    | Release(task: Uuid)

  function Created(s: State, tenant: string): nat {
    if tenant in s.created then s.created[tenant] else 0
  }

  predicate Enabled(s: State, e: Step) {
    match e
    case LookUp(task, _, _) => task !in s.phase
    case Acquire(task) =>
      task in s.phase && s.phase[task].Waiting? &&
      s.phase[task].tenant in s.permits && s.permits[s.phase[task].tenant] > 0
    case Release(task) =>
      task in s.phase && s.phase[task].Holding? && s.phase[task].tenant in s.permits
  }

  /** A release happens on success and on every exception, as the block is left. */
  function Next(s: State, e: Step): State
    requires Enabled(s, e)
  {
    match e
    case LookUp(task, tenant, limit) =>
      var s' := if tenant in s.permits then s
                else s.(permits := s.permits[tenant := limit], capacity := s.capacity[tenant := limit],
                        created := s.created[tenant := Created(s, tenant) + 1]);
      s'.(phase := s.phase[task := Waiting(tenant)])
    case Acquire(task) =>
      var tenant := s.phase[task].tenant;
      s.(permits := s.permits[tenant := s.permits[tenant] - 1], phase := s.phase[task := Holding(tenant)])
    case Release(task) =>
      var tenant := s.phase[task].tenant;
      s.(permits := s.permits[tenant := s.permits[tenant] + 1], phase := s.phase[task := Finished])
  }

  /** A step that is not enabled does not happen. */
  function Run(s: State, steps: seq<Step>): State
    decreases |steps|
  {
    if steps == [] then s
    else Run(if Enabled(s, steps[0]) then Next(s, steps[0]) else s, steps[1..])
  }

  function Holders(s: State, tenant: string): set<Uuid> {
    set task | task in s.phase && s.phase[task] == Holding(tenant)
  }

  /** Permits and holders add up to the capacity, and each tenant's semaphore was made once. */
  ghost predicate Balanced(s: State) {
    s.permits.Keys == s.capacity.Keys == s.created.Keys &&
    (forall t :: t in s.permits ==> s.permits[t] + |Holders(s, t)| == s.capacity[t] && s.created[t] == 1) &&
    (forall task :: task in s.phase && !s.phase[task].Finished? ==> s.phase[task].tenant in s.permits)
  }

  lemma LookUpKeepsBalance(s: State, task: Uuid, tenant: string, limit: nat)
    requires Balanced(s) && task !in s.phase
    ensures Balanced(Next(s, LookUp(task, tenant, limit)))
  {
    var s' := Next(s, LookUp(task, tenant, limit));
    forall t
      ensures Holders(s', t) == Holders(s, t)
    {
      assert forall u :: u in Holders(s', t) <==> u in Holders(s, t);
    }
    if tenant !in s.permits {
      assert forall u :: u !in Holders(s, tenant);
      assert Holders(s, tenant) == {};
    }
  }

  lemma AcquireAddsHolder(s: State, task: Uuid, t: string)
    requires Enabled(s, Acquire(task))
    ensures Holders(Next(s, Acquire(task)), t) == if t == s.phase[task].tenant then Holders(s, t) + {task} else Holders(s, t)
    ensures task !in Holders(s, t)
  {
  }

  lemma AcquireKeepsBalance(s: State, task: Uuid)
    requires Balanced(s) && Enabled(s, Acquire(task))
    ensures Balanced(Next(s, Acquire(task)))
  {
    hide Holders;
    forall t {
      AcquireAddsHolder(s, task, t);
    }
  }

  lemma ReleaseDropsHolder(s: State, task: Uuid, t: string)
    requires Enabled(s, Release(task))
    ensures Holders(Next(s, Release(task)), t) == if t == s.phase[task].tenant then Holders(s, t) - {task} else Holders(s, t)
    ensures t == s.phase[task].tenant ==> task in Holders(s, t)
  {
  }

  lemma ReleaseKeepsBalance(s: State, task: Uuid)
    requires Balanced(s) && Enabled(s, Release(task))
    ensures Balanced(Next(s, Release(task)))
  {
    hide Holders;
    forall t {
      ReleaseDropsHolder(s, task, t);
    }
  }

  lemma NextKeepsBalance(s: State, e: Step)
    requires Balanced(s) && Enabled(s, e)
    ensures Balanced(Next(s, e))
    ensures forall t :: t in s.capacity ==> t in Next(s, e).capacity && Next(s, e).capacity[t] == s.capacity[t]
  {
    match e
    case LookUp(task, tenant, limit) => LookUpKeepsBalance(s, task, tenant, limit);
    case Acquire(task) => AcquireKeepsBalance(s, task);
    case Release(task) => ReleaseKeepsBalance(s, task);
  }

  lemma {:induction false} RunKeepsBalance(s: State, steps: seq<Step>)
    requires Balanced(s)
    ensures Balanced(Run(s, steps))
    decreases |steps|
  {
    if steps != [] {
      if Enabled(s, steps[0]) {
        NextKeepsBalance(s, steps[0]);
      }
      RunKeepsBalance(if Enabled(s, steps[0]) then Next(s, steps[0]) else s, steps[1..]);
    }
  }

  /** The first look-up for a tenant makes its semaphore with the limit it brings; later ones leave it as it is. */
  lemma LookUpMakesOnce(s: State, task: Uuid, tenant: string, limit: nat)
    requires task !in s.phase
    ensures Enabled(s, LookUp(task, tenant, limit))
    ensures Next(s, LookUp(task, tenant, limit)) ==
            if tenant in s.permits then s.(phase := s.phase[task := Waiting(tenant)])
            else State(s.permits[tenant := limit], s.phase[task := Waiting(tenant)], s.capacity[tenant := limit],
                       s.created[tenant := if tenant in s.created then s.created[tenant] + 1 else 1])
  {
  }

  /** So the limit of that first look-up stands for good. */
  lemma {:induction false} CapacityStays(s: State, steps: seq<Step>, tenant: string)
    requires Balanced(s) && tenant in s.capacity
    ensures tenant in Run(s, steps).capacity && Run(s, steps).capacity[tenant] == s.capacity[tenant]
    decreases |steps|
  {
    hide Balanced, Next;
    if steps != [] {
      if Enabled(s, steps[0]) {
        NextKeepsBalance(s, steps[0]);
      }
      CapacityStays(if Enabled(s, steps[0]) then Next(s, steps[0]) else s, steps[1..], tenant);
    }
  }

  /** Whoever holds a permit can give it back, and then there is one more for the tenant. */
  lemma HolderMayRelease(s: State, task: Uuid)
    requires Balanced(s) && task in s.phase && s.phase[task].Holding?
    ensures Enabled(s, Release(task))
    ensures var tenant, s' := s.phase[task].tenant, Next(s, Release(task));
            s'.phase == s.phase[task := Finished] && s'.permits == s.permits[tenant := s.permits[tenant] + 1] &&
            Holders(s', tenant) == Holders(s, tenant) - {task}
  {
  }

  ghost predicate LimitsUpTo(steps: seq<Step>, limit: nat) {
    forall i :: 0 <= i < |steps| && steps[i].LookUp? ==> steps[i].limit <= limit
  }

  lemma {:induction false} CapacityUpTo(s: State, steps: seq<Step>, limit: nat)
    requires LimitsUpTo(steps, limit) && forall t :: t in s.capacity ==> s.capacity[t] <= limit
    ensures var s' := Run(s, steps); forall t :: t in s'.capacity ==> s'.capacity[t] <= limit
    decreases |steps|
  {
    if steps != [] {
      assert steps[0].LookUp? ==> steps[0].limit <= limit;
      assert LimitsUpTo(steps[1..], limit);
      var next := if Enabled(s, steps[0]) then Next(s, steps[0]) else s;
      assert forall t :: t in next.capacity ==> next.capacity[t] <= limit;
      assert Run(s, steps) == Run(next, steps[1..]);
      CapacityUpTo(next, steps[1..], limit);
    }
  }

  /** In every interleaving no tenant has more gradings between acquire and release than the limit. */
  lemma ConcurrencyBounded(steps: seq<Step>, limit: nat, tenant: string)
    requires LimitsUpTo(steps, limit)
    ensures |Holders(Run(INITIAL, steps), tenant)| <= limit
    ensures Created(Run(INITIAL, steps), tenant) <= 1
  {
    var s := Run(INITIAL, steps);
    RunKeepsBalance(INITIAL, steps);
    CapacityUpTo(INITIAL, steps, limit);
    if tenant !in s.permits {
      assert forall u :: u !in Holders(s, tenant);
      assert Holders(s, tenant) == {};
    }
  }

  /** No permit is lost: with room left, every waiting grading may go on. */
  lemma WaitingMayAcquire(steps: seq<Step>, task: Uuid)
    requires var s := Run(INITIAL, steps); task in s.phase && s.phase[task].Waiting?
    ensures var s := Run(INITIAL, steps);
            var tenant := s.phase[task].tenant;
            tenant in s.capacity && (Enabled(s, Acquire(task)) <==> |Holders(s, tenant)| < s.capacity[tenant])
  {
    RunKeepsBalance(INITIAL, steps);
  }
}
