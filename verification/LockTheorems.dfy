/** The reader-writer lock over whole runs. */
module LockTheorems {
  import opened Outcomes
  import opened Bits
  import opened RWLock
  import opened LockSystem
  import opened LockHistory

  ghost predicate Steps<T(!new)>(run: seq<State<T>>) {
    run != [] && forall i :: 0 <= i < |run| - 1 ==> Step(run[i], run[i + 1])
  }

  /** A run from the start, in which fewer than 2^63 readers ever hold the lock at once. `LockLimits.BoundExact` says
      when that is all there is. */
  ghost predicate IsRun<T(!new)>(run: seq<State<T>>) {
    Steps(run) && Initial(run[0]) && forall i :: 0 <= i < |run| ==> |Readers(run[i].agents)| < WRITE_FLAG
  }

  lemma {:induction false} RunInv<T(!new)>(run: seq<State<T>>, i: nat)
    requires IsRun(run) && i < |run|
    ensures FullInv(run[i])
  {
    hide FullInv, Next, Look, Initial, Readers;
    if i == 0 {
      InitialFullInv(run[0]);
    } else {
      RunInv(run, i - 1);
      var s := run[i - 1];
      assert Step(s, run[i - 1 + 1]);
      var a, spurious :| StepBy(s, run[i], a, spurious);
      if run[i] == Next(s, a, spurious) {
        NextFullInv(s, a, spurious);
      } else {
        LookFullInv(s, a);
      }
    }
  }

  /** Exclusion: in every reachable state a write guard excludes every other guard. */
  lemma WriteExcludes<T(!new)>(run: seq<State<T>>, i: nat, a: Id, b: Id)
    requires IsRun(run) && i < |run| && a in run[i].agents && b in run[i].agents && a != b
    requires HoldsWrite(run[i].agents[a].pc)
    ensures !run[i].agents[b].pc.Reading? && !HoldsWrite(run[i].agents[b].pc)
  {
    RunInv(run, i);
    StoringExcludesReaders(run[i], a);
  }

  /** The word is what the lock amounts to: the number of read guards, plus 2^63 while a writer drains or holds. */
  lemma WordIsLock<T(!new)>(run: seq<State<T>>, i: nat)
    requires IsRun(run) && i < |run|
    ensures var s := run[i];
            s.word == |Readers(s.agents)| +
                      (if exists w :: w in s.agents && Owns(s.agents[w].pc) then 0x8000_0000_0000_0000 else 0)
  {
    RunInv(run, i);
    var s := run[i];
    if s.owner.Some? {
      assert Owns(s.agents[s.owner.value].pc);
    }
  }

  // ----- refinement

  /** The lock as its users think of it. */
  datatype Lock = Free | ReadLocked(readers: nat) | DrainingFor(writer: Id, readers: nat) | WriteLocked(writer: Id)

  function LockOf<T>(s: State<T>): Lock {
    var k := |Readers(s.agents)|;
    if s.owner.None? then
      if k == 0 then Free else ReadLocked(k)
    else if s.owner.value in s.agents && HoldsWrite(s.agents[s.owner.value].pc) then
      WriteLocked(s.owner.value)
    else
      DrainingFor(s.owner.value, k)
  }

  predicate LockStep(l: Lock, l': Lock) {
    match l
    case Free => l' == ReadLocked(1) || l'.WriteLocked?
    case ReadLocked(k) =>
      || l' == ReadLocked(k + 1)
      || l' == (if k > 1 then ReadLocked(k - 1) else Free)
      || (l'.DrainingFor? && l'.readers == k)
    case DrainingFor(w, k) => if k > 0 then l' == DrainingFor(w, k - 1) else l' == WriteLocked(w)
    case WriteLocked(w) => l' == Free
  }

  lemma GrantsOfOwner<T(!new)>(s: State<T>, a: Id, spurious: bool)
    requires Inv(s) && a in s.agents && a in s.jobs
    ensures var s' := Next(s, a, spurious);
            && (s.owner.None? && s'.owner.Some? ==>
                  s'.owner == Some(a) && a in s'.agents && Readers(s'.agents) == Readers(s.agents) &&
                  (HoldsWrite(s'.agents[a].pc) <==> |Readers(s.agents)| == 0))
            && (s.owner.Some? && s'.owner.Some? && a == s.owner.value ==>
                  (HoldsWrite(s'.agents[a].pc) <==> |Readers(s.agents)| == 0))
            && (s.owner.Some? && a != s.owner.value ==>
                  s.owner.value in s.agents && s'.agents[s.owner.value] == s.agents[s.owner.value])
  {
    hide Readers;
    JobFits(s, a);
    ReadersUpdated(s.agents, a, Next(s, a, spurious).agents[a]);
    if s.owner.Some? {
      OwnerIsNotReader(s, a);
    }
  }

  lemma ReadersByOne<T(!new)>(s: State<T>, a: Id, spurious: bool)
    requires Inv(s) && a in s.agents && a in s.jobs
    ensures |Readers(Next(s, a, spurious).agents)| - |Readers(s.agents)| in {-1, 0, 1}
    ensures s.owner.Some? ==> |Readers(Next(s, a, spurious).agents)| <= |Readers(s.agents)|
  {
    hide Readers, InvWord;
    ReadersUpdated(s.agents, a, Next(s, a, spurious).agents[a]);
    if s.owner.Some? {
      OwnedCount(s, a, spurious);
    }
  }

  lemma OwnedCount<T(!new)>(s: State<T>, a: Id, spurious: bool)
    requires Inv(s) && a in s.agents && a in s.jobs && s.owner.Some?
    ensures |Readers(Next(s, a, spurious).agents)| <= |Readers(s.agents)|
  {
    hide Inv, Next;
    OwnedStep(s, a, spurious);
    ReadersUpdated(s.agents, a, s.agents[a]);
  }

  /** Every atomic step does one step of the lock or none: stale loads, spurious failures and a word that has changed
      and changed back in between make no difference. */
  lemma NextRefines<T(!new)>(s: State<T>, a: Id, spurious: bool)
    requires Inv(s) && a in s.agents && a in s.jobs && |Readers(Next(s, a, spurious).agents)| < WRITE_FLAG
    ensures LockOf(Next(s, a, spurious)) == LockOf(s) || LockStep(LockOf(s), LockOf(Next(s, a, spurious)))
  {
    hide Next, Readers, InvCalls, Finished;
    NextInv(s, a, spurious);
    if s.owner.None? {
      FreeRefines(s, a, spurious);
    } else {
      OwnedRefines(s, a, spurious);
    }
  }

  lemma FreeRefines<T(!new)>(s: State<T>, a: Id, spurious: bool)
    requires Inv(s) && a in s.agents && a in s.jobs && s.owner.None?
    ensures LockOf(Next(s, a, spurious)) == LockOf(s) || LockStep(LockOf(s), LockOf(Next(s, a, spurious)))
  {
    hide Next, Readers, Inv;
    GrantsOfOwner(s, a, spurious);
    ReadersByOne(s, a, spurious);
  }

  lemma OwnedRefines<T(!new)>(s: State<T>, a: Id, spurious: bool)
    requires Inv(s) && a in s.agents && a in s.jobs && s.owner.Some?
    ensures LockOf(Next(s, a, spurious)) == LockOf(s) || LockStep(LockOf(s), LockOf(Next(s, a, spurious)))
  {
    hide Next, Readers, InvCalls, Finished;
    GrantsOfOwner(s, a, spurious);
    ReadersByOne(s, a, spurious);
    OwnedStep(s, a, spurious);
    NextInvOwner(s, a, spurious);
    OwnerIsNotReader(s, a);
  }

  // ----- the data

  /** At every moment the data is what the stored writes make of the initial value, one after the other in the order in
      which the writers set the flag. */
  lemma DataIsFold<T(!new)>(run: seq<State<T>>, i: nat)
    requires IsRun(run) && i < |run|
    ensures var s := run[i];
            && |s.order| - 1 <= s.applied <= |s.order|
            && s.data == ValueAfter(s.init, s.jobs, s.order[..s.applied])
  {
    RunInv(run, i);
  }

  /** Everything a reader looks at during its section is one value, that of the first writes of the order. */
  lemma ReaderSeesOneValue<T(!new)>(run: seq<State<T>>, i: nat, a: Id, v: T)
    requires IsRun(run) && i < |run| && a in run[i].agents && v in run[i].agents[a].seen
    ensures var s := run[i];
            s.agents[a].since <= |s.order| && v == ValueAfter(s.init, s.jobs, s.order[..s.agents[a].since])
  {
    RunInv(run, i);
    assert SeenOne(run[i], a);
  }

  function Writers<T>(jobs: map<Id, Job<T>>): set<Id> {
    set a | a in jobs && jobs[a].Write?
  }

  ghost predicate AllDone<T(!new)>(s: State<T>) {
    forall a :: a in s.agents ==> s.agents[a].pc.Done?
  }

  /** When all calls have ended, every write has been applied exactly once. */
  lemma AllWritesApplied<T(!new)>(run: seq<State<T>>, i: nat)
    requires IsRun(run) && i < |run| && AllDone(run[i])
    ensures var s := run[i];
            && s.data == ValueAfter(s.init, s.jobs, s.order)
            && (forall a :: a in s.order <==> a in Writers(s.jobs))
            && |s.order| == |Writers(s.jobs)|
            && s.word == 0
  {
    RunInv(run, i);
    var s := run[i];
    assert s.order[..|s.order|] == s.order;
    assert Readers(s.agents) == {};
    assert forall a :: a in s.order <==> a in Writers(s.jobs);
    DistinctCount(s.order, Writers(s.jobs));
  }

  lemma {:induction false} DistinctCount(order: seq<Id>, ids: set<Id>)
    requires forall i, j :: 0 <= i < j < |order| ==> order[i] != order[j]
    requires forall a :: a in order <==> a in ids
    ensures |order| == |ids|
  {
    if order == [] {
      assert ids == {};
    } else {
      var last, rest := order[|order| - 1], order[..|order| - 1];
      assert forall a :: a in rest <==> a in ids - {last};
      DistinctCount(rest, ids - {last});
    }
  }

  /** Increments by any number of threads, however interleaved, are all counted. */
  lemma IncrementsCounted(run: seq<State<int>>, i: nat)
    requires IsRun(run) && i < |run| && AllDone(run[i])
    requires forall a :: a in Writers(run[i].jobs) ==> forall x :: run[i].jobs[a].op(x) == x + 1
    ensures run[i].data == run[i].init + |Writers(run[i].jobs)|
  {
    AllWritesApplied(run, i);
    CountIncrements(run[i].init, run[i].jobs, run[i].order);
  }

  lemma {:induction false} CountIncrements(init: int, jobs: map<Id, Job<int>>, order: seq<Id>)
    requires forall a :: a in Writers(jobs) ==> forall x :: jobs[a].op(x) == x + 1
    requires forall a :: a in order ==> a in Writers(jobs)
    ensures ValueAfter(init, jobs, order) == init + |order|
  {
    if order != [] {
      CountIncrements(init, jobs, order[..|order| - 1]);
      assert order[|order| - 1] in Writers(jobs);
    }
  }

  // ----- the writer barrier

  /** From the moment a writer has set the flag until it drops its guard, no call is granted a read guard, whatever it
      has loaded before; the readers only become fewer. */
  lemma {:induction false} FlagIsBarrier<T(!new)>(run: seq<State<T>>, i: nat, j: nat, w: Id)
    requires IsRun(run) && i <= j < |run|
    requires forall k :: i <= k <= j ==> run[k].owner == Some(w)
    ensures Readers(run[j].agents) <= Readers(run[i].agents)
    decreases j - i
  {
    hide Next, Look, Initial, Readers, FullInv;
    if i < j {
      FlagIsBarrier(run, i, j - 1, w);
      var s := run[j - 1];
      RunInv(run, j - 1);
      InvOfFull(s);
      assert Step(s, run[j - 1 + 1]);
      var a, spurious :| StepBy(s, run[j], a, spurious);
      if run[j] == Next(s, a, spurious) {
        OwnedStep(s, a, spurious);
      } else {
        LookInv(s, a);
      }
    }
  }

  lemma InvOfFull<T(!new)>(s: State<T>)
    requires FullInv(s)
    ensures Inv(s)
  {
  }

  /** A draining writer gets its guard at its next look at the word exactly when the last reader has left. */
  lemma DrainEndsExactly<T(!new)>(s: State<T>, w: Id)
    requires Inv(s) && w in s.agents && s.agents[w].pc.Draining?
    ensures w in s.jobs
    ensures HoldsWrite(Next(s, w, false).agents[w].pc) <==> Readers(s.agents) == {}
  {
    hide Readers;
    JobFits(s, w);
  }

  // ----- happens-before

  /** Every guard, read or write, knows of every write section that has ended. */
  lemma GuardKnowsWrites<T(!new)>(run: seq<State<T>>, i: nat, a: Id, w: Id)
    requires IsRun(run) && i < |run| && a in run[i].agents && w in Finished(run[i].agents)
    requires run[i].agents[a].pc.Reading? || HoldsWrite(run[i].agents[a].pc)
    ensures w in run[i].jobs
    ensures run[i].jobs[w].Write? ==> w in run[i].agents[a].view
  {
    RunInv(run, i);
    var s := run[i];
    if s.agents[a].pc.Reading? {
      assert KnowsWriters(s, a);
    } else {
      WriteGuardKnowsReads(run, i, a);
      assert w !in s.agents[a].view ==> w in s.present;
    }
  }

  /** A write guard knows of every section that has ended, read sections included, exactly when no reader was present
      at the moment its writer set the flag: the drain loop loads the word without acquiring it. */
  lemma WriteGuardKnowsReads<T(!new)>(run: seq<State<T>>, i: nat, a: Id)
    requires IsRun(run) && i < |run| && a in run[i].agents && HoldsWrite(run[i].agents[a].pc)
    ensures Finished(run[i].agents) - run[i].agents[a].view == run[i].present
    ensures Finished(run[i].agents) <= run[i].agents[a].view <==> run[i].present == {}
  {
    hide Finished;
    RunInv(run, i);
    var s := run[i];
    assert s.owner == Some(a);
    assert KnowsAllBut(s, a);
    assert s.present - {} == s.present;
  }
}
