/** The order in which the lock serialises its calls agrees with real time: what had ended before a call got its lock
    comes before it, and what had not got the lock when a call had its own does not. */
module LockRealTime {
  import opened RWLock
  import opened LockSystem
  import opened LockHistory
  import opened LockTheorems

  /** The call has been granted the lock, or the flag. */
  predicate Granted<T>(pc: Pc<T>) {
    pc.Reading? || Owns(pc) || pc.Done?
  }

  /** What a step leaves of the history: the order and the stored writes, what has been seen and what is known to have
      happened only grow, and a grant is for good. */
  ghost predicate Continues<T(!new)>(s: State<T>, s': State<T>) {
    && s'.jobs == s.jobs && s'.agents.Keys == s.agents.Keys
    && s.order <= s'.order && s.applied <= s'.applied && s.wordView <= s'.wordView
    && (forall a :: a in s.agents ==>
          s.agents[a].seen <= s'.agents[a].seen && s.agents[a].view <= s'.agents[a].view)
    && forall a :: a in s.agents && Granted(s.agents[a].pc) ==>
         Granted(s'.agents[a].pc) && s'.agents[a].since == s.agents[a].since
  }

  lemma StepContinues<T(!new)>(s: State<T>, s': State<T>, a: Id, spurious: bool)
    requires StepBy(s, s', a, spurious)
    ensures Continues(s, s')
  {
    hide Readers;
  }

  /** A call that drops its guard passes on all that it knows, and its own end; one that gets a guard, or the flag,
      learns all that has been passed on, and forgets nothing. */
  lemma PassedOn<T(!new)>(s: State<T>, a: Id, spurious: bool)
    requires a in s.agents && a in s.jobs
    ensures var s' := Next(s, a, spurious);
            && (Releases(s.agents[a].pc, s'.agents[a].pc) ==> s'.wordView == s.wordView + s.agents[a].view + {a})
            && (Acquires(s.agents[a].pc, s'.agents[a].pc) ==> s'.agents[a].view == s.agents[a].view + s.wordView)
  {
  }

  lemma ContinuesOn<T(!new)>(s: State<T>, s': State<T>, s'': State<T>)
    requires Continues(s, s') && Continues(s', s'')
    ensures Continues(s, s'')
  {
  }

  lemma {:induction false} RunContinues<T(!new)>(run: seq<State<T>>, i: nat, j: nat)
    requires Steps(run) && i <= j < |run|
    ensures Continues(run[i], run[j])
    decreases j - i
  {
    hide StepBy, Continues;
    if i == j {
      ContinuesItself(run[i]);
    } else {
      RunContinues(run, i, j - 1);
      assert Step(run[j - 1], run[j - 1 + 1]);
      var a, spurious :| StepBy(run[j - 1], run[j], a, spurious);
      StepContinues(run[j - 1], run[j], a, spurious);
      ContinuesOn(run[i], run[j - 1], run[j]);
    }
  }

  lemma ContinuesItself<T(!new)>(s: State<T>)
    ensures Continues(s, s)
  {
  }

  /** A write that has ended has been stored: only the owner of the flag may not have stored yet. */
  lemma EndedIsStored<T(!new)>(s: State<T>, w: Id)
    requires FullInv(s) && w in s.agents && w in s.jobs && s.jobs[w].Write? && s.agents[w].pc.Done?
    ensures s.applied <= |s.order| && w in s.order[..s.applied]
  {
    hide InvSeen, InvViews, InvWord, InvPresent;
    var k :| 0 <= k < |s.order| && s.order[k] == w;
    assert k < s.applied;
    assert s.order[..s.applied][k] == w;
  }

  /** The write `w` is stored, and the reader `a`, once it has the lock, has it among the writes it sees. */
  ghost predicate Sees<T(!new)>(s: State<T>, a: Id, w: Id) {
    && a in s.agents && s.applied <= |s.order| && w in s.order[..s.applied]
    && (Granted(s.agents[a].pc) ==> s.agents[a].since <= |s.order| && w in s.order[..s.agents[a].since])
  }

  lemma SeesNext<T(!new)>(s: State<T>, s': State<T>, a: Id, w: Id, b: Id, spurious: bool)
    requires Sees(s, a, w) && a in s.jobs && s.jobs[a].Read? && StepBy(s, s', b, spurious)
    requires InvCalls(s) && s'.applied <= |s'.order|
    ensures Sees(s', a, w)
  {
    StepContinues(s, s', b, spurious);
    PrefixGrows(s.order, s'.order, s.applied, s'.applied, w);
    hide Readers;
    JobFits(s, a);
    if Granted(s'.agents[a].pc) {
      if Granted(s.agents[a].pc) {
        PrefixGrows(s.order, s'.order, s.agents[a].since, s.agents[a].since, w);
      } else {
        assert s'.agents[a].since == s.applied;
        PrefixGrows(s.order, s'.order, s.applied, s.applied, w);
      }
    }
  }

  lemma PrefixGrows(order: seq<Id>, order': seq<Id>, k: nat, k': nat, w: Id)
    requires order <= order' && k <= |order| && k <= k' <= |order'| && w in order[..k]
    ensures w in order'[..k']
  {
    var i :| 0 <= i < k && order[..k][i] == w;
    assert order'[..k'][i] == w;
  }

  /** A write that had ended when a reader was still without its lock is among those whose value the reader sees. */
  lemma {:induction false} ReadsWhatHadEnded<T(!new)>(run: seq<State<T>>, i: nat, j: nat, a: Id, w: Id)
    requires IsRun(run) && i <= j < |run| && a in run[i].jobs && w in run[i].jobs
    requires run[i].jobs[a].Read? && run[i].jobs[w].Write?
    requires a in run[i].agents && w in run[i].agents
    requires !Granted(run[i].agents[a].pc) && run[i].agents[w].pc.Done?
    ensures a in run[j].agents
    ensures Granted(run[j].agents[a].pc) ==>
              run[j].agents[a].since <= |run[j].order| && w in run[j].order[..run[j].agents[a].since]
  {
    SeesThroughout(run, i, j, a, w);
  }

  lemma {:induction false} SeesThroughout<T(!new)>(run: seq<State<T>>, i: nat, j: nat, a: Id, w: Id)
    requires IsRun(run) && i <= j < |run| && a in run[i].jobs && w in run[i].jobs
    requires run[i].jobs[a].Read? && run[i].jobs[w].Write?
    requires a in run[i].agents && w in run[i].agents
    requires !Granted(run[i].agents[a].pc) && run[i].agents[w].pc.Done?
    ensures Sees(run[j], a, w) && run[j].jobs == run[i].jobs
    decreases j - i
  {
    hide StepBy, Sees, Continues, FullInv, Readers;
    if i == j {
      RunInv(run, i);
      EndedIsStored(run[i], w);
      SeesFirst(run[i], a, w);
    } else {
      SeesThroughout(run, i, j - 1, a, w);
      RunInv(run, j - 1);
      RunInv(run, j);
      assert Step(run[j - 1], run[j - 1 + 1]);
      var b, spurious :| StepBy(run[j - 1], run[j], b, spurious);
      PartsOfFull(run[j - 1]);
      PartsOfFull(run[j]);
      SeesNext(run[j - 1], run[j], a, w, b, spurious);
      JobsOf(run[j - 1], run[j], b, spurious);
    }
  }

  lemma SeesFirst<T(!new)>(s: State<T>, a: Id, w: Id)
    requires a in s.agents && !Granted(s.agents[a].pc) && s.applied <= |s.order| && w in s.order[..s.applied]
    ensures Sees(s, a, w)
  {
  }

  lemma PartsOfFull<T(!new)>(s: State<T>)
    requires FullInv(s)
    ensures InvCalls(s) && s.applied <= |s.order|
  {
  }

  lemma JobsOf<T(!new)>(s: State<T>, s': State<T>, a: Id, spurious: bool)
    requires StepBy(s, s', a, spurious)
    ensures s'.jobs == s.jobs
  {
  }

  lemma NotYetInOrder<T(!new)>(s: State<T>, w: Id)
    requires FullInv(s) && w in s.agents && !Granted(s.agents[w].pc)
    ensures w !in s.order
  {
  }

  /** A write that did not own the flag when a reader had its lock is not among those whose value the reader sees. */
  lemma ReadsNothingLater<T(!new)>(run: seq<State<T>>, i: nat, j: nat, a: Id, w: Id)
    requires IsRun(run) && i <= j < |run| && a in run[i].agents && w in run[i].agents
    requires Granted(run[i].agents[a].pc) && !Granted(run[i].agents[w].pc)
    ensures a in run[j].agents
    ensures run[j].agents[a].since <= |run[j].order| && w !in run[j].order[..run[j].agents[a].since]
  {
    hide FullInv, Initial, Step, Readers;
    RunInv(run, i);
    NotYetInOrder(run[i], w);
    SinceInOrder(run[i], a);
    RunContinues(run, i, j);
    var k := run[i].agents[a].since;
    assert run[j].order[..k] == run[i].order[..k];
  }

  lemma SinceInOrder<T(!new)>(s: State<T>, a: Id)
    requires FullInv(s) && a in s.agents
    ensures s.agents[a].since <= |s.order|
  {
    assert SeenOne(s, a);
  }

  /** A write that had ended when another did not yet own the flag comes before it. */
  lemma WritesInRealTime<T(!new)>(run: seq<State<T>>, i: nat, j: nat, w: Id, w': Id, k: nat, k': nat)
    requires IsRun(run) && i <= j < |run| && w in run[i].agents && w' in run[i].agents && w in run[i].jobs
    requires run[i].jobs[w].Write? && run[i].agents[w].pc.Done? && !Granted(run[i].agents[w'].pc)
    requires k < |run[j].order| && k' < |run[j].order| && run[j].order[k] == w && run[j].order[k'] == w'
    ensures k < k'
  {
    hide FullInv, Initial, Step, Readers;
    RunInv(run, i);
    RunInv(run, j);
    NotYetInOrder(run[i], w');
    EndedIsStored(run[i], w);
    RunContinues(run, i, j);
    BehindPrefix(run[i].order, run[j].order, k');
    var m :| 0 <= m < run[i].applied && run[i].order[..run[i].applied][m] == w;
    OnlyOnce(run[j], m, k);
  }

  lemma BehindPrefix(order: seq<Id>, order': seq<Id>, k: nat)
    requires order <= order' && k < |order'| && order'[k] !in order
    ensures k >= |order|
  {
  }

  lemma OnlyOnce<T(!new)>(s: State<T>, k: nat, k': nat)
    requires FullInv(s) && k < |s.order| && k' < |s.order| && s.order[k] == s.order[k']
    ensures k == k'
  {
  }
}
