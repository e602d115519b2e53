/** Any number of calls of `read` and `write` on one lock, interleaved in any way, one atomic step at a time. */
module LockSystem {
  import opened Bits
  import opened RWLock
  import opened Outcomes

  type Id = nat

  /** One call, from before it starts until its guard is dropped.
      `seen`: the values a reader has looked at; `since`: how many writes had been stored when its lock was granted;
      `view`: the calls whose ends happen before where this call stands. */
  datatype Agent<T> = Agent(pc: Pc<T>, seen: seq<T>, since: nat, view: set<Id>)

  /** The lock, the calls on it and their history.
      `owner`: the writer that owns the flag; `order`: the writers, in the order in which they set the flag;
      `applied`: how many of them have stored;
      `present`: the readers that held the lock when the last of them set the flag;
      `wordView`: the calls whose ends happen before a load that acquires the word. */
  datatype State<!T> = State(init: T, jobs: map<Id, Job<T>>, word: nat, data: T, agents: map<Id, Agent<T>>,
                             owner: Option<Id>, order: seq<Id>, applied: nat, present: set<Id>, wordView: set<Id>)

  predicate Owns<T>(pc: Pc<T>) {
    pc.Draining? || HoldsWrite(pc)
  }

  /** A write guard is held. */
  predicate HoldsWrite<T>(pc: Pc<T>) {
    pc.Writing? || pc.Loaded? || pc.Stored?
  }

  function Readers<T>(agents: map<Id, Agent<T>>): set<Id> {
    set a | a in agents && agents[a].pc.Reading?
  }

  function Finished<T>(agents: map<Id, Agent<T>>): set<Id> {
    set a | a in agents && agents[a].pc.Done?
  }

  /** What one successful compare-exchange grants: the lock to a reader, the flag to a writer. */
  predicate Acquires<T>(pc: Pc<T>, pc': Pc<T>) {
    (pc.ReadCas? && pc'.Reading?) || (pc.WriteCas? && Owns(pc'))
  }

  predicate Releases<T>(pc: Pc<T>, pc': Pc<T>) {
    pc'.Done? && !pc.Done?
  }

  /** The next step of call `a`. A successful compare-exchange acquires: what the word knows becomes known to the
      call. Dropping a guard releases: what the call knows, and its own end, become known to the word. Both are
      read-modify-writes, so the word forgets nothing; loads and failures are relaxed and teach nothing. */
  function Next<T>(s: State<T>, a: Id, spurious: bool): State<T>
    requires a in s.agents && a in s.jobs
  {
    var g := s.agents[a];
    var m := Advance(s.word, s.data, s.jobs[a], g.pc, spurious);
    var acquires := Acquires(g.pc, m.pc);
    var flags := g.pc.WriteCas? && acquires;
    var g' := Agent(m.pc, g.seen, if acquires then s.applied else g.since,
                    if acquires then g.view + s.wordView else g.view);
    s.(word := m.word, data := m.data, agents := s.agents[a := g'],
       owner := if flags then Some(a) else if g.pc.Stored? then None else s.owner,
       order := if flags then s.order + [a] else s.order,
       applied := if g.pc.Loaded? then s.applied + 1 else s.applied,
       present := if flags then Readers(s.agents) else s.present,
       wordView := if Releases(g.pc, m.pc) then s.wordView + g.view + {a} else s.wordView)
  }

  /** A reader that holds the lock looks at the data. */
  function Look<T>(s: State<T>, a: Id): State<T>
    requires a in s.agents
  {
    var g := s.agents[a];
    if g.pc.Reading? then s.(agents := s.agents[a := g.(seen := g.seen + [s.data])]) else s
  }

  /** Call `a` takes its next step, or looks at the data. */
  ghost predicate StepBy<T(!new)>(s: State<T>, s': State<T>, a: Id, spurious: bool) {
    a in s.agents && a in s.jobs && (s' == Next(s, a, spurious) || s' == Look(s, a))
  }

  ghost predicate Step<T(!new)>(s: State<T>, s': State<T>) {
    exists a, spurious :: StepBy(s, s', a, spurious)
  }

  /** Nobody has called yet. */
  ghost predicate Initial<T(!new)>(s: State<T>) {
    && s.word == 0 && s.data == s.init
    && s.agents.Keys == s.jobs.Keys
    && (forall a :: a in s.agents ==> s.agents[a] == Agent(Start, [], 0, {}))
    && s.owner == None && s.order == [] && s.applied == 0 && s.present == {} && s.wordView == {}
  }

  /** The value after the writes of `order`, starting from `init`. */
  function ValueAfter<T>(init: T, jobs: map<Id, Job<T>>, order: seq<Id>): T {
    if order == [] then
      init
    else
      var before := ValueAfter(init, jobs, order[..|order| - 1]);
      var last := order[|order| - 1];
      if last in jobs && jobs[last].Write? then jobs[last].op(before) else before
  }

  // ----- the invariant

  /** Calls do what their job says, and a loaded word that a compare-exchange will use had no flag. */
  predicate Fitting<T>(job: Job<T>, pc: Pc<T>) {
    match pc
    case Start | Done => true
    case ReadLoad | Reading => job.Read?
    case ReadCas(n) => job.Read? && n < WRITE_FLAG
    case WriteCas(n) => job.Write? && n < WRITE_FLAG
    case _ => job.Write?
  }

  ghost predicate InvCalls<T(!new)>(s: State<T>) {
    && s.agents.Keys == s.jobs.Keys
    && (forall a :: a in s.agents ==> Fitting(s.jobs[a], s.agents[a].pc))
  }

  /** One call at most owns the flag, and it was the last to set it. */
  ghost predicate InvOwner<T(!new)>(s: State<T>) {
    && (forall a :: a in s.agents ==> (Owns(s.agents[a].pc) <==> s.owner == Some(a)))
    && (s.owner.Some? ==> s.owner.value in s.agents && s.order != [] && s.order[|s.order| - 1] == s.owner.value)
  }

  /** The word is the number of readers that hold the lock, plus the flag while a writer owns it; and a write guard
      excludes every reader. */
  ghost predicate InvWord<T(!new)>(s: State<T>) {
    && |Readers(s.agents)| < WRITE_FLAG
    && s.word == |Readers(s.agents)| + (if s.owner.Some? then WRITE_FLAG else 0)
    && Exclusive(s)
  }

  ghost predicate Exclusive<T(!new)>(s: State<T>) {
    s.owner.Some? && s.owner.value in s.agents && HoldsWrite(s.agents[s.owner.value].pc) ==> Readers(s.agents) == {}
  }

  ghost predicate Inv<T(!new)>(s: State<T>) {
    InvCalls(s) && InvOwner(s) && InvWord(s)
  }

  lemma ReadersUpdated<T>(agents: map<Id, Agent<T>>, a: Id, g: Agent<T>)
    requires a in agents
    ensures Readers(agents[a := g]) == if g.pc.Reading? then Readers(agents) + {a} else Readers(agents) - {a}
    ensures agents[a].pc.Reading? <==> a in Readers(agents)
    ensures |Readers(agents[a := g])| == |Readers(agents)| + (if g.pc.Reading? then 1 else 0) -
                                          (if agents[a].pc.Reading? then 1 else 0)
  {
    if g.pc.Reading? && agents[a].pc.Reading? {
      assert Readers(agents[a := g]) == Readers(agents);
    } else if g.pc.Reading? {
      assert Readers(agents[a := g]) == Readers(agents) + {a};
    } else {
      assert Readers(agents[a := g]) == Readers(agents) - {a};
    }
  }

  lemma InitialInv<T(!new)>(s: State<T>)
    requires Initial(s)
    ensures Inv(s)
  {
    assert Readers(s.agents) == {};
  }

  lemma NextInvCalls<T(!new)>(s: State<T>, a: Id, spurious: bool)
    requires Inv(s) && a in s.agents
    ensures InvCalls(Next(s, a, spurious))
  {
    hide InvOwner;
  }

  lemma NextInvOwner<T(!new)>(s: State<T>, a: Id, spurious: bool)
    requires Inv(s) && a in s.agents
    ensures InvOwner(Next(s, a, spurious))
  {
    hide Readers;
  }

  lemma NextWord<T(!new)>(s: State<T>, a: Id, spurious: bool)
    requires Inv(s) && a in s.agents
    ensures var s' := Next(s, a, spurious);
            s'.word == |Readers(s'.agents)| + (if s'.owner.Some? then WRITE_FLAG else 0)
  {
    hide Readers, InvCalls, Exclusive;
    JobFits(s, a);
    var s' := Next(s, a, spurious);
    ReadersUpdated(s.agents, a, s'.agents[a]);
  }

  lemma JobFits<T(!new)>(s: State<T>, a: Id)
    requires InvCalls(s) && a in s.agents
    ensures a in s.jobs && Fitting(s.jobs[a], s.agents[a].pc)
  {
  }

  lemma NextExclusive<T(!new)>(s: State<T>, a: Id, spurious: bool)
    requires Inv(s) && a in s.agents
    ensures Exclusive(Next(s, a, spurious))
  {
    hide Readers, InvCalls;
    JobFits(s, a);
    var s' := Next(s, a, spurious);
    ReadersUpdated(s.agents, a, s'.agents[a]);
  }

  /** The invariant holds as long as fewer than 2^63 readers hold the lock. */
  lemma NextInv<T(!new)>(s: State<T>, a: Id, spurious: bool)
    requires Inv(s) && a in s.agents && |Readers(Next(s, a, spurious).agents)| < WRITE_FLAG
    ensures Inv(Next(s, a, spurious))
  {
    hide InvCalls, InvOwner, Next, Readers, Exclusive;
    NextInvCalls(s, a, spurious);
    NextInvOwner(s, a, spurious);
    NextWord(s, a, spurious);
    NextExclusive(s, a, spurious);
  }

  lemma LookInv<T(!new)>(s: State<T>, a: Id)
    requires Inv(s) && a in s.agents
    ensures Inv(Look(s, a)) && Readers(Look(s, a).agents) == Readers(s.agents)
  {
    LookReaders(s, a);
    hide Readers;
  }

  lemma LookReaders<T>(s: State<T>, a: Id)
    requires a in s.agents
    ensures Readers(Look(s, a).agents) == Readers(s.agents)
  {
  }
}
