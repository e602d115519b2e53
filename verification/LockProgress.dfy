/** Nobody waits for ever on the reader-writer lock, except a thread that waits for itself. */
module LockProgress {
  import opened Outcomes
  import opened Bits
  import opened RWLock
  import opened LockSystem
  import opened LockHistory
  import opened LockTheorems

  /** `n` steps of call `a`, none of them failing spuriously. */
  function Solo<T>(s: State<T>, a: Id, n: nat): (s': State<T>)
    requires a in s.agents && a in s.jobs
    ensures a in s'.agents && a in s'.jobs
    ensures s'.jobs == s.jobs && s'.agents.Keys == s.agents.Keys
    ensures forall b :: b in s.agents && b != a ==> s'.agents[b] == s.agents[b]
    decreases n
  {
    if n == 0 then s else Solo(Next(s, a, false), a, n - 1)
  }

  /** The steps that call `a` has still to do if it is left alone. */
  function Rank<T>(pc: Pc<T>, job: Job<T>, word: nat): (n: nat)
    ensures n <= 6 && (n == 0 <==> pc.Done?)
  {
    match pc
    case Done => 0
    case Reading => 1
    case Stored => 1
    case Loaded(_) => 2
    case Writing => 3
    case Draining => 4
    case ReadCas(n) => if n == word then 2 else 4
    case ReadLoad => 3
    case WriteCas(n) => if n == word then 4 else 6
    case WriteLoad => 5
    case Start => if job.Read? then 4 else 6
  }

  /** Nobody else holds the lock or owns the flag. */
  ghost predicate Alone<T(!new)>(s: State<T>, a: Id) {
    Inv(s) && a in s.agents && a in s.jobs && Readers(s.agents) <= {a} && (s.owner == None || s.owner == Some(a))
  }

  lemma AloneStep<T(!new)>(s: State<T>, a: Id)
    requires Alone(s, a) && !s.agents[a].pc.Done?
    ensures var s' := Next(s, a, false);
            && Alone(s', a)
            && Rank(s'.agents[a].pc, s.jobs[a], s'.word) == Rank(s.agents[a].pc, s.jobs[a], s.word) - 1
  {
    AloneKept(s, a);
    AloneRank(s, a);
  }

  lemma AloneKept<T(!new)>(s: State<T>, a: Id)
    requires Alone(s, a)
    ensures Alone(Next(s, a, false), a)
  {
    hide Next, InvCalls, InvOwner, InvWord, Readers;
    var s' := Next(s, a, false);
    NextKeys(s, a);
    NextReaders(s, a);
    assert |Readers(s'.agents)| <= |{a}| by {
      SubsetSmall(Readers(s'.agents), a);
    }
    NextInv(s, a, false);
  }

  lemma SubsetSmall(ids: set<Id>, a: Id)
    requires ids <= {a}
    ensures |ids| <= 1
  {
    assert ids == {} || ids == {a};
  }

  lemma NextReaders<T(!new)>(s: State<T>, a: Id)
    requires Inv(s) && a in s.agents && a in s.jobs
    ensures Readers(Next(s, a, false).agents) <= Readers(s.agents) + {a}
  {
    hide Readers, Inv;
    ReadersUpdated(s.agents, a, Next(s, a, false).agents[a]);
  }

  lemma NextKeys<T(!new)>(s: State<T>, a: Id)
    requires Inv(s) && a in s.agents && a in s.jobs
    ensures var s' := Next(s, a, false);
            && s'.agents.Keys == s.agents.Keys && s'.jobs == s.jobs
            && (s.owner in [None, Some(a)] ==> s'.owner in [None, Some(a)])
  {
  }

  lemma AloneRank<T(!new)>(s: State<T>, a: Id)
    requires Alone(s, a) && !s.agents[a].pc.Done?
    ensures var s' := Next(s, a, false);
            Rank(s'.agents[a].pc, s.jobs[a], s'.word) == Rank(s.agents[a].pc, s.jobs[a], s.word) - 1
  {
    hide Readers;
    JobFits(s, a);
    AloneWord(s, a);
  }

  lemma AloneWord<T(!new)>(s: State<T>, a: Id)
    requires Alone(s, a)
    ensures !s.agents[a].pc.Reading? ==> Readers(s.agents) == {}
    ensures !s.agents[a].pc.Reading? && !Owns(s.agents[a].pc) ==> s.word == 0
    ensures Owns(s.agents[a].pc) ==> s.word == WRITE_FLAG
  {
  }

  /** Alone, a call ends after exactly as many steps as its rank says, at most six. */
  lemma {:induction false} AloneFinishes<T(!new)>(s: State<T>, a: Id)
    requires Alone(s, a)
    ensures var s' := Solo(s, a, Rank(s.agents[a].pc, s.jobs[a], s.word));
            Inv(s') && s'.agents[a].pc.Done?
    decreases Rank(s.agents[a].pc, s.jobs[a], s.word)
  {
    hide Next, Inv;
    if !s.agents[a].pc.Done? {
      AloneStep(s, a);
      NextKeys(s, a);
      AloneFinishes(Next(s, a, false), a);
    }
  }

  lemma ReaderLeaves<T(!new)>(s: State<T>, a: Id)
    requires Inv(s) && a in s.agents && a in s.jobs && s.agents[a].pc.Reading?
    ensures var s' := Solo(s, a, 1); Inv(s') && s'.agents[a].pc.Done?
  {
    hide Readers, InvCalls, InvOwner, Exclusive;
    var s' := Next(s, a, false);
    ReadersUpdated(s.agents, a, s'.agents[a]);
    NextInv(s, a, false);
    assert Solo(s', a, 0) == s';
  }

  function Unfinished<T>(s: State<T>): set<Id> {
    set a | a in s.agents && !s.agents[a].pc.Done?
  }

  /** Some call can be run to its end in at most six steps of its own: a reader that holds the lock, else the owner of
      the flag, else any. */
  lemma SomeoneFinishes<T(!new)>(s: State<T>) returns (a: Id, n: nat)
    requires Inv(s) && Unfinished(s) != {}
    ensures a in Unfinished(s) && a in s.jobs && n <= 6
    ensures Inv(Solo(s, a, n)) && Unfinished(Solo(s, a, n)) == Unfinished(s) - {a}
  {
    hide InvWord, Next, Solo;
    if Readers(s.agents) != {} {
      a :| a in Readers(s.agents);
      n := 1;
      ReaderLeaves(s, a);
    } else {
      if s.owner.Some? {
        a := s.owner.value;
      } else {
        a :| a in Unfinished(s);
      }
      n := Rank(s.agents[a].pc, s.jobs[a], s.word);
      AloneFinishes(s, a);
    }
  }

  /** A schedule: calls, each with a number of steps. */
  function Scheduled<T>(s: State<T>, schedule: seq<(Id, nat)>): (s': State<T>)
    requires forall e :: e in schedule ==> e.0 in s.agents && e.0 in s.jobs
    ensures s'.jobs == s.jobs && s'.agents.Keys == s.agents.Keys
    decreases |schedule|
  {
    if schedule == [] then s else Scheduled(Solo(s, schedule[0].0, schedule[0].1), schedule[1..])
  }

  function Length(schedule: seq<(Id, nat)>): nat {
    if schedule == [] then 0 else schedule[0].1 + Length(schedule[1..])
  }

  /** Progress: from every reachable state there is a schedule, of at most six steps for each call that has not ended,
      after which every call has been granted its lock and has ended. */
  lemma {:induction false} EveryoneFinishes<T(!new)>(s: State<T>) returns (schedule: seq<(Id, nat)>)
    requires Inv(s)
    ensures forall e :: e in schedule ==> e.0 in s.agents && e.0 in s.jobs
    ensures Length(schedule) <= 6 * |Unfinished(s)|
    ensures Unfinished(Scheduled(s, schedule)) == {}
    decreases |Unfinished(s)|
  {
    hide Inv, Solo;
    if Unfinished(s) == {} {
      schedule := [];
    } else {
      var a, n := SomeoneFinishes(s);
      var s' := Solo(s, a, n);
      var rest := EveryoneFinishes(s');
      schedule := [(a, n)] + rest;
      assert schedule[1..] == rest;
    }
  }

  // ----- re-entry

  /** Call `b` is a `read` made by the thread that holds the read guard of `a`: until `b` returns, `a` cannot be
      dropped. Call `w` is a writer that drains. */
  ghost predicate Stuck<T(!new)>(s: State<T>, a: Id, b: Id, w: Id) {
    && Inv(s)
    && a in s.agents && s.agents[a].pc.Reading?
    && b in s.agents && (s.agents[b].pc.ReadLoad? || s.agents[b].pc.ReadCas?)
    && w in s.agents && s.agents[w].pc.Draining?
  }

  /** Any step of any call, but for one: `a` does not move while `b` has not returned. */
  ghost predicate NestedStep<T(!new)>(s: State<T>, s': State<T>, a: Id) {
    exists x, spurious :: StepBy(s, s', x, spurious) && x != a
  }

  lemma StuckNext<T(!new)>(s: State<T>, a: Id, b: Id, w: Id, x: Id, spurious: bool)
    requires Stuck(s, a, b, w) && x in s.agents && x in s.jobs && x != a
    ensures Stuck(Next(s, x, spurious), a, b, w)
  {
    StuckCalls(s, a, b, w, x, spurious);
    hide Next, Readers, Finished, InvCalls, InvOwner, InvWord;
    OwnedStep(s, x, spurious);
    SubsetCount(Readers(Next(s, x, spurious).agents), Readers(s.agents));
    BelowLimit(s);
    NextInv(s, x, spurious);
  }

  lemma BelowLimit<T(!new)>(s: State<T>)
    requires Inv(s)
    ensures |Readers(s.agents)| < WRITE_FLAG
  {
  }

  lemma SubsetCount(some: set<Id>, all: set<Id>)
    requires some <= all
    ensures |some| <= |all|
  {
    assert all == some + (all - some);
  }

  lemma StuckCalls<T(!new)>(s: State<T>, a: Id, b: Id, w: Id, x: Id, spurious: bool)
    requires Stuck(s, a, b, w) && x in s.agents && x in s.jobs && x != a
    ensures s.owner.Some?
    ensures var s' := Next(s, x, spurious);
            && a in s'.agents && s'.agents[a].pc.Reading?
            && b in s'.agents && (s'.agents[b].pc.ReadLoad? || s'.agents[b].pc.ReadCas?)
            && w in s'.agents && s'.agents[w].pc.Draining?
  {
    assert s.owner == Some(w);
    hide Readers, Finished;
    JobFits(s, x);
    ReadersUpdated(s.agents, a, s.agents[a]);
  }

  lemma StuckLook<T(!new)>(s: State<T>, a: Id, b: Id, w: Id, x: Id)
    requires Stuck(s, a, b, w) && x in s.agents && x != a
    ensures Stuck(Look(s, x), a, b, w)
  {
    LookInv(s, x);
  }

  /** Once a thread has entered `read` again while it holds a read guard and a writer drains, no interleaving lets it
      out: neither the nested `read` nor the writer ever gets its guard. */
  lemma {:induction false} ReentryNeverReturns<T(!new)>(run: seq<State<T>>, i: nat, a: Id, b: Id, w: Id)
    requires i < |run| && Stuck(run[0], a, b, w)
    requires forall k :: 0 <= k < |run| - 1 ==> NestedStep(run[k], run[k + 1], a)
    ensures Stuck(run[i], a, b, w)
    ensures !run[i].agents[b].pc.Reading? && !HoldsWrite(run[i].agents[w].pc)
  {
    hide Next, Look, Inv;
    if i > 0 {
      ReentryNeverReturns(run, i - 1, a, b, w);
      var s, s' := run[i - 1], run[i];
      assert NestedStep(run[i - 1], run[i - 1 + 1], a);
      var x, spurious :| StepBy(s, s', x, spurious) && x != a;
      if s' == Next(s, x, spurious) {
        StuckNext(s, a, b, w, x, spurious);
      } else {
        StuckLook(s, a, b, w, x);
      }
    }
  }

  ghost predicate GrantsNested<T(!new)>(run: seq<State<T>>, s: State<T>, a: Id, b: Id) {
    && run != [] && run[0] == s
    && (forall k :: 0 <= k < |run| - 1 ==> NestedStep(run[k], run[k + 1], a))
    && b in run[|run| - 1].agents && run[|run| - 1].agents[b].pc.Reading?
  }

  /** When re-entry is safe: a thread that holds a read guard, and has entered `read` again, can be let out, by some
      interleaving that does not move its guard, exactly if no writer has set the flag. */
  lemma ReentryExact<T(!new)>(s: State<T>, a: Id, b: Id)
    requires Inv(s) && a in s.agents && b in s.agents && a != b
    requires s.agents[a].pc.Reading? && (s.agents[b].pc.ReadLoad? || s.agents[b].pc.ReadCas?)
    ensures s.owner == None <==> exists run :: GrantsNested(run, s, a, b)
  {
    hide Next, Inv;
    if s.owner == None {
      var run := NestedGranted(s, a, b);
    } else {
      OwnerDrains(s, a, b);
      forall run | GrantsNested(run, s, a, b)
        ensures false
      {
        ReentryNeverReturns(run, |run| - 1, a, b, s.owner.value);
      }
    }
  }

  lemma OwnerDrains<T(!new)>(s: State<T>, a: Id, b: Id)
    requires Inv(s) && a in s.agents && b in s.agents && s.owner.Some?
    requires s.agents[a].pc.Reading? && (s.agents[b].pc.ReadLoad? || s.agents[b].pc.ReadCas?)
    ensures Stuck(s, a, b, s.owner.value)
  {
    var w := s.owner.value;
    assert w in s.agents && Owns(s.agents[w].pc);
    if HoldsWrite(s.agents[w].pc) {
      StoringExcludesReaders(s, w);
    }
  }

  /** Left alone, the nested call gets its guard: at once if what it has loaded is still there, else at its second
      step or, having failed, at its third. */
  lemma NestedGranted<T(!new)>(s: State<T>, a: Id, b: Id) returns (run: seq<State<T>>)
    requires Inv(s) && a in s.agents && b in s.agents && a != b && s.owner == None
    requires s.agents[b].pc.ReadLoad? || s.agents[b].pc.ReadCas?
    ensures GrantsNested(run, s, a, b)
  {
    BelowLimit(s);
    hide Readers, InvOwner;
    JobFits(s, b);
    if s.agents[b].pc.ReadCas? && s.agents[b].pc.n == s.word {
      run := [s, Next(s, b, false)];
      assert StepBy(run[0], run[1], b, false);
    } else if s.agents[b].pc.ReadCas? {
      var s1 := Next(s, b, false);
      var s2 := Next(s1, b, false);
      run := [s, s1, s2, Next(s2, b, false)];
      assert StepBy(run[0], run[1], b, false) && StepBy(run[1], run[2], b, false) && StepBy(run[2], run[3], b, false);
    } else {
      var s1 := Next(s, b, false);
      run := [s, s1, Next(s1, b, false)];
      assert StepBy(run[0], run[1], b, false) && StepBy(run[1], run[2], b, false);
    }
  }

  // ----- two short runs

  lemma {:induction false} SoloInv<T(!new)>(s: State<T>, a: Id, n: nat)
    requires Inv(s) && a in s.agents && a in s.jobs && |Readers(s.agents)| + n < WRITE_FLAG
    ensures Inv(Solo(s, a, n)) && |Readers(Solo(s, a, n).agents)| <= |Readers(s.agents)| + n
    decreases n
  {
    hide Next, Inv, Readers;
    if n > 0 {
      ReadersByOne(s, a, false);
      NextInv(s, a, false);
      NextKeys(s, a);
      SoloInv(Next(s, a, false), a, n - 1);
    }
  }

  /** A `read` that is left alone while no writer owns the flag gets its guard in three steps. */
  lemma ReaderEnters<T(!new)>(s: State<T>, a: Id)
    requires Inv(s) && a in s.agents && a in s.jobs && s.jobs[a].Read? && s.agents[a].pc == Start && s.owner == None
    ensures var s' := Solo(s, a, 3);
            && s'.agents[a].pc == Reading && s'.owner == None && s'.word == s.word + 1 && s'.order == s.order
  {
    hide Readers;
    var s1 := Next(s, a, false);
    var s2 := Next(s1, a, false);
    var s3 := Next(s2, a, false);
    assert s2.agents[a].pc == ReadCas(s.word);
    assert Solo(s3, a, 0) == s3;
    assert Solo(s2, a, 1) == s3;
    assert Solo(s1, a, 2) == s3;
  }

  /** A `write` that is left alone while readers hold the lock sets the flag in three steps, and drains. */
  lemma WriterDrains<T(!new)>(s: State<T>, w: Id)
    requires Inv(s) && w in s.agents && w in s.jobs && s.jobs[w].Write? && s.agents[w].pc == Start
    requires s.owner == None && s.word > 0
    ensures var s' := Solo(s, w, 3);
            && s'.agents[w].pc == Draining && s'.owner == Some(w) && s'.present == Readers(s.agents)
            && s'.word == s.word + WRITE_FLAG
  {
    assert s.word < WRITE_FLAG;
    hide Inv, Readers, Solo, Next;
    ThreeSteps(s, w);
    NotYetWriting(s, w);
    var s1 := Next(s, w, false);
    NotYetWriting(s1, w);
    FlagSet(Next(s1, w, false), w);
  }

  lemma NotYetWriting<T(!new)>(s: State<T>, w: Id)
    requires w in s.agents && w in s.jobs && s.jobs[w].Write? && s.word < WRITE_FLAG
    requires s.agents[w].pc.Start? || s.agents[w].pc.WriteLoad?
    ensures var s' := Next(s, w, false);
            && w in s'.agents && s'.jobs == s.jobs && s'.owner == s.owner && s'.word == s.word
            && s'.agents[w].pc == (if s.agents[w].pc.Start? then WriteLoad else WriteCas(s.word))
            && Readers(s'.agents) == Readers(s.agents)
  {
    hide Readers;
    ReadersUpdated(s.agents, w, Next(s, w, false).agents[w]);
  }

  lemma FlagSet<T(!new)>(s: State<T>, w: Id)
    requires w in s.agents && w in s.jobs && 0 < s.word < WRITE_FLAG && s.agents[w].pc == WriteCas(s.word)
    ensures var s' := Next(s, w, false);
            && w in s'.agents && s'.agents[w].pc == Draining && s'.owner == Some(w)
            && s'.present == Readers(s.agents) && s'.word == s.word + WRITE_FLAG
  {
    hide Readers;
  }

  lemma ThreeSteps<T(!new)>(s: State<T>, a: Id)
    requires a in s.agents && a in s.jobs
    ensures var s1 := Next(s, a, false);
            && a in s1.agents && a in s1.jobs
            && var s2 := Next(s1, a, false);
               a in s2.agents && a in s2.jobs && Solo(s, a, 3) == Next(s2, a, false)
  {
    var s1 := Next(s, a, false);
    var s2 := Next(s1, a, false);
    var s3 := Next(s2, a, false);
    assert Solo(s3, a, 0) == s3;
    assert Solo(s2, a, 1) == s3;
    assert Solo(s1, a, 2) == s3;
  }

  /** The deadlock of a re-entered `read` is there to be run into: the first `read` gets its guard, a writer sets the
      flag, and the second `read` begins. */
  lemma ReentryReachable<T(!new)>(s: State<T>, a: Id, b: Id, w: Id)
    requires Initial(s) && a in s.jobs && b in s.jobs && w in s.jobs && a != b
    requires s.jobs[a].Read? && s.jobs[b].Read? && s.jobs[w].Write?
    ensures Stuck(Solo(Solo(Solo(s, a, 3), w, 3), b, 1), a, b, w)
  {
    InitialInv(s);
    hide Readers, InvCalls, InvOwner, InvWord, Initial;
    NoReaders(s);
    SoloInv(s, a, 3);
    ReaderEnters(s, a);
    var s1 := Solo(s, a, 3);
    SoloInv(s1, w, 3);
    WriterDrains(s1, w);
    var s2 := Solo(s1, w, 3);
    SoloInv(s2, b, 1);
    var s3 := Next(s2, b, false);
    assert Solo(s3, b, 0) == s3;
    assert Solo(s2, b, 1) == s3;
  }

  lemma NoReaders<T(!new)>(s: State<T>)
    requires Initial(s)
    ensures |Readers(s.agents)| == 0 && s.owner == None
    ensures forall a :: a in s.jobs ==> a in s.agents && s.agents[a].pc == Start
    ensures s.word == 0
  {
    assert Readers(s.agents) == {};
  }

  /** A write guard that does not know of a read section that ended before it was granted: the reader is drained by
      relaxed loads. */
  lemma DrainedReaderUnknown<T(!new)>(s: State<T>, a: Id, w: Id)
    requires Initial(s) && a in s.jobs && w in s.jobs && s.jobs[a].Read? && s.jobs[w].Write?
    ensures var s' := Solo(Solo(Solo(Solo(s, a, 3), w, 3), a, 1), w, 1);
            && s'.agents[w].pc == Writing && a in Finished(s'.agents) && a !in s'.agents[w].view
  {
    InitialInv(s);
    NoReaders(s);
    hide Readers, InvCalls, InvOwner, InvWord, Initial, Next;
    SoloInv(s, a, 3);
    ReaderEnters(s, a);
    var s1 := Solo(s, a, 3);
    SoloInv(s1, w, 3);
    WriterDrains(s1, w);
    ViewsSmall(s, a, w);
    LastReaderDrained(Solo(s1, w, 3), a, w);
  }

  lemma LastReaderDrained<T(!new)>(s: State<T>, a: Id, w: Id)
    requires a in s.agents && a in s.jobs && w in s.agents && w in s.jobs
    requires s.agents[a].pc == Reading && s.agents[w].pc == Draining && s.word == WRITE_FLAG + 1
    ensures var s' := Solo(Solo(s, a, 1), w, 1);
            && s'.agents[w].pc == Writing && s'.agents[w].view == s.agents[w].view
            && a in Finished(s'.agents)
  {
    hide Readers;
    var s1 := Next(s, a, false);
    assert Solo(s1, a, 0) == s1;
    assert Solo(s, a, 1) == s1;
    var s2 := Next(s1, w, false);
    assert Solo(s2, w, 0) == s2;
    assert Solo(s1, w, 1) == s2;
  }

  lemma ViewsSmall<T(!new)>(s: State<T>, a: Id, w: Id)
    requires Initial(s) && a in s.jobs && w in s.jobs && s.jobs[a].Read? && s.jobs[w].Write?
    ensures a !in Solo(Solo(s, a, 3), w, 3).agents[w].view
  {
    InitialFullInv(s);
    NoReaders(s);
    hide Readers, InvCalls, InvOwner, InvWord, InvViews, InvSeen, InvData, InvOrder, InvApplied;
    SoloInv(s, a, 3);
    ReaderEnters(s, a);
    SoloViews(s, a, 3);
    var s1 := Solo(s, a, 3);
    SoloInv(s1, w, 3);
    SoloViews(s1, w, 3);
    var s2 := Solo(s1, w, 3);
    ViewsAreFinished(s2, w, a);
  }

  lemma ViewsAreFinished<T(!new)>(s: State<T>, w: Id, a: Id)
    requires InvViews(s) && w in s.agents && a in s.agents && s.agents[a].pc.Reading?
    ensures a !in s.agents[w].view
  {
    assert a !in Finished(s.agents);
  }

  lemma {:induction false} SoloViews<T(!new)>(s: State<T>, a: Id, n: nat)
    requires Inv(s) && InvViews(s) && a in s.agents && a in s.jobs && |Readers(s.agents)| + n < WRITE_FLAG
    ensures InvViews(Solo(s, a, n))
    decreases n
  {
    hide Next, Inv, Readers, InvViews;
    if n > 0 {
      ReadersByOne(s, a, false);
      NextInv(s, a, false);
      NextKeys(s, a);
      NextViews(s, a, false);
      SoloViews(Next(s, a, false), a, n - 1);
    }
  }

  // ----- how long a writer waits

  /** The readers that a draining writer waits for are those of the readers present when it set the flag that have not
      ended. Its next look at the word gets it the guard exactly if as many have left as were present. */
  lemma WaitIsForPresent<T(!new)>(run: seq<State<T>>, i: nat, w: Id)
    requires IsRun(run) && i < |run| && w in run[i].agents && run[i].agents[w].pc.Draining?
    ensures w in run[i].jobs
    ensures var s := run[i];
            && Readers(s.agents) == s.present - Finished(s.agents)
            && |s.present * Finished(s.agents)| + |Readers(s.agents)| == |s.present|
            && (HoldsWrite(Next(s, w, false).agents[w].pc) <==> |s.present * Finished(s.agents)| == |s.present|)
  {
    RunInv(run, i);
    var s := run[i];
    LeftOfPresent(s, w);
    hide Readers, Finished, FullInv, Next;
    InvOfFull(s);
    DrainEndsExactly(s, w);
    assert s.present == s.present * Finished(s.agents) + (s.present - Finished(s.agents));
  }

  lemma LeftOfPresent<T(!new)>(s: State<T>, w: Id)
    requires Inv(s) && InvViews(s) && w in s.agents && s.agents[w].pc.Draining?
    ensures Readers(s.agents) == s.present - Finished(s.agents)
  {
    assert s.owner == Some(w) && KnowsAllBut(s, w);
    var readers, ended := Readers(s.agents), Finished(s.agents);
    assert readers !! ended;
    forall x | x in s.present && x !in readers
      ensures x in ended
    {
      assert x in s.present - readers;
    }
  }

  /** And no more is needed: one step of each reader that still holds the lock, its drop, and then one look at the
      word. */
  lemma {:induction false} DrainSchedule<T(!new)>(s: State<T>, w: Id) returns (schedule: seq<(Id, nat)>)
    requires Inv(s) && w in s.agents && w in s.jobs && s.agents[w].pc.Draining?
    ensures forall e :: e in schedule ==> e.0 in s.agents && e.0 in s.jobs
    ensures Length(schedule) == |Readers(s.agents)| + 1
    ensures HoldsWrite(Scheduled(s, schedule).agents[w].pc)
    decreases |Readers(s.agents)|
  {
    hide Next, Inv, Solo, Readers;
    if Readers(s.agents) == {} {
      schedule := [(w, 1)];
      DrainEndsExactly(s, w);
      OneStep(s, w);
      assert schedule[1..] == [];
      assert Scheduled(Solo(s, w, 1), []) == Solo(s, w, 1);
      assert Length([]) == 0;
    } else {
      var a :| a in Readers(s.agents);
      IsReading(s, a, w);
      ReaderLeaves(s, a);
      OneLeaves(s, a);
      var rest := DrainSchedule(Solo(s, a, 1), w);
      schedule := [(a, 1)] + rest;
      assert schedule[1..] == rest;
    }
  }

  lemma OneStep<T(!new)>(s: State<T>, a: Id)
    requires a in s.agents && a in s.jobs
    ensures Solo(s, a, 1) == Next(s, a, false)
  {
    var s' := Next(s, a, false);
    assert Solo(s', a, 0) == s';
  }

  lemma IsReading<T(!new)>(s: State<T>, a: Id, w: Id)
    requires Inv(s) && a in Readers(s.agents) && w in s.agents && s.agents[w].pc.Draining?
    ensures a in s.agents && a in s.jobs && s.agents[a].pc.Reading? && a != w
  {
  }

  lemma OneLeaves<T(!new)>(s: State<T>, a: Id)
    requires Inv(s) && a in s.agents && a in s.jobs && s.agents[a].pc.Reading?
    ensures |Readers(Solo(s, a, 1).agents)| == |Readers(s.agents)| - 1
  {
    OneStep(s, a);
    hide Readers, Inv;
    ReadersUpdated(s.agents, a, Next(s, a, false).agents[a]);
  }
}
