/** What readers get to see. */
module LockReads {
  import opened Outcomes
  import opened Bits
  import opened RWLock
  import opened LockSystem
  import opened LockHistory
  import opened LockTheorems
  import opened LockProgress
  import opened LockLimits
  import opened LockRealTime

  /** A call that holds a read guard and looks gets the data, once more, and that is what the writes before its grant
      have made of the initial value; nothing else changes. */
  lemma LookSeesData<T(!new)>(s: State<T>, a: Id)
    requires FullInv(s) && a in s.agents && s.agents[a].pc.Reading?
    ensures var s', since := Look(s, a), s.agents[a].since;
            && since <= |s.order|
            && s'.agents[a].seen == s.agents[a].seen + [ValueAfter(s.init, s.jobs, s.order[..since])]
            && s' == s.(agents := s.agents[a := s'.agents[a]]) && s'.agents[a].pc.Reading?
  {
    hide ValueAfter, InvViews, InvOrder, Readers;
    assert SeenOne(s, a);
  }

  /** In every run, a look by a call that holds a read guard leaves it with a value seen, and the last is that of the
      writes before its grant. */
  lemma ReaderSees<T(!new)>(run: seq<State<T>>, i: nat, a: Id)
    requires IsRun(run) && i < |run| && a in run[i].agents && run[i].agents[a].pc.Reading?
    ensures var s, seen := run[i], Look(run[i], a).agents[a].seen;
            && s.agents[a].since <= |s.order| && seen != []
            && seen[|seen| - 1] == ValueAfter(s.init, s.jobs, s.order[..s.agents[a].since])
  {
    hide FullInv, Look, ValueAfter;
    RunInv(run, i);
    LookSeesData(run[i], a);
  }

  ghost predicate AllIncrements(s: State<int>) {
    forall w :: w in Writers(s.jobs) ==> forall x :: s.jobs[w].op(x) == x + 1
  }

  ghost predicate WritersDone<T(!new)>(s: State<T>) {
    forall w :: w in Writers(s.jobs) ==> w in s.agents && s.agents[w].pc.Done?
  }

  /** A reader that is granted after all of N increments have ended sees the initial value and N. */
  lemma ReaderSeesIncrements(run: seq<State<int>>, i: nat, j: nat, a: Id)
    requires IsRun(run) && i <= j < |run| && AllIncrements(run[i]) && WritersDone(run[i])
    requires a in run[i].agents && a in run[i].jobs && run[i].jobs[a].Read? && !Granted(run[i].agents[a].pc)
    requires a in run[j].agents && run[j].agents[a].pc.Reading?
    ensures var seen := Look(run[j], a).agents[a].seen;
            seen != [] && seen[|seen| - 1] == run[i].init + |Writers(run[i].jobs)|
  {
    var s, since := run[j], run[j].agents[a].since;
    RunInv(run, j);
    ReaderSees(run, j, a);
    RunContinues(run, i, j);
    InitKept(run, i, j);
    var before := s.order[..since];
    OrderIsWriters(s);
    forall w | w in Writers(s.jobs)
      ensures w in before
    {
      ReadsWhatHadEnded(run, i, j, a, w);
    }
    hide FullInv, Look, Initial, Step, Readers, Granted, ValueAfter;
    assert forall w :: w in before ==> w in s.order;
    DistinctCount(before, Writers(s.jobs));
    CountIncrements(s.init, s.jobs, before);
  }

  lemma OrderIsWriters<T(!new)>(s: State<T>)
    requires FullInv(s)
    ensures forall w :: w in s.order ==> w in Writers(s.jobs)
    ensures forall i, j :: 0 <= i < j < |s.order| ==> s.order[i] != s.order[j]
  {
  }

  lemma {:induction false} InitKept<T(!new)>(run: seq<State<T>>, i: nat, j: nat)
    requires Steps(run) && i <= j < |run|
    ensures run[j].init == run[i].init
    decreases j - i
  {
    if i < j {
      InitKept(run, i, j - 1);
      assert Step(run[j - 1], run[j - 1 + 1]);
    }
  }

  // ----- such a run

  /** The calls `ws` have ended, and nobody else has begun. */
  ghost predicate OnlyEnded<T(!new)>(s: State<T>, ws: set<Id>) {
    forall a :: a in s.agents ==> if a in ws then s.agents[a].pc.Done? else s.agents[a].pc == Start
  }

  lemma NobodyInside<T(!new)>(s: State<T>, ws: set<Id>, a: Id)
    requires Inv(s) && OnlyEnded(s, ws) && a in s.agents
    ensures Alone(s, a) && s.owner == None
  {
    assert Readers(s.agents) == {};
  }

  /** From every start, some calls can be run to their ends one after the other. */
  lemma {:induction false} RunToEnds<T(!new)>(s: State<T>, ws: set<Id>) returns (run: seq<State<T>>)
    requires Initial(s) && ws <= s.agents.Keys
    ensures Steps(run) && run[0] == s
    ensures var e := run[|run| - 1];
            Inv(e) && OnlyEnded(e, ws) && e.jobs == s.jobs && e.agents.Keys == s.agents.Keys && e.init == s.init
    decreases ws
  {
    hide Inv, Initial, Solo, Next, Step, Alone;
    if ws == {} {
      InitialInv(s);
      NobodyBegun(s);
      run := [s];
    } else {
      var a :| a in ws;
      var before := RunToEnds(s, ws - {a});
      var e := before[|before| - 1];
      NobodyInside(e, ws - {a}, a);
      InvHasJobs(e);
      AloneFinishes(e, a);
      var n := Rank(e.agents[a].pc, e.jobs[a], e.word);
      var more := SoloSteps(e, a, n);
      StepsConcat(before, more);
      run := before + more[1..];
      InitKept(run, 0, |run| - 1);
    }
  }

  lemma NobodyBegun<T(!new)>(s: State<T>)
    requires Initial(s)
    ensures OnlyEnded(s, {})
  {
  }

  lemma InvHasJobs<T(!new)>(s: State<T>)
    requires Inv(s)
    ensures s.agents.Keys == s.jobs.Keys
  {
  }

  /** From every start with N increments and a reader, there is a run in which the reader sees the initial value and N:
      the lock lets it through, and gives it the data. */
  lemma ReaderCanSeeIncrements(s: State<int>, a: Id) returns (run: seq<State<int>>)
    requires Initial(s) && a in s.jobs && s.jobs[a].Read? && AllIncrements(s) && |ReadCalls(s.jobs)| < WRITE_FLAG
    ensures IsRun(run) && run[0] == s
    ensures a in run[|run| - 1].agents
    ensures var seen := run[|run| - 1].agents[a].seen;
            seen != [] && seen[|seen| - 1] == s.init + |Writers(s.jobs)|
  {
    hide Initial, Steps, Step, Readers, ReadCalls, Look, Inv, Next;
    InitialKeys(s);
    var ws := Writers(s.jobs);
    var first := RunToEnds(s, ws);
    NotEmpty(first);
    var e := first[|first| - 1];
    var more := ReaderGoesIn(e, ws, a);
    NotEmpty(more);
    StepsConcat(first, more);
    var all := first + more[1..];
    run := all + [Look(all[|all| - 1], a)];
    LookIsStep(all, a);
    BoundExact(s);
    assert IsRun(all) && all[|first| - 1] == e;
    ReaderSeesIncrements(all, |first| - 1, |all| - 1, a);
    LookKeys(all[|all| - 1], a);
  }

  lemma NotEmpty<T(!new)>(run: seq<State<T>>)
    requires Steps(run)
    ensures run != []
  {
  }

  lemma LookKeys<T(!new)>(s: State<T>, a: Id)
    requires a in s.agents
    ensures a in Look(s, a).agents
  {
  }

  lemma InitialKeys<T(!new)>(s: State<T>)
    requires Initial(s)
    ensures s.agents.Keys == s.jobs.Keys
  {
  }

  /** A reader that has not begun enters where all others have ended or not begun. */
  lemma ReaderGoesIn<T(!new)>(e: State<T>, ws: set<Id>, a: Id) returns (run: seq<State<T>>)
    requires Inv(e) && OnlyEnded(e, ws) && a in e.agents && a in e.jobs && a !in ws && e.jobs[a].Read?
    ensures Steps(run) && run[0] == e
    ensures a in run[|run| - 1].agents && run[|run| - 1].agents[a].pc.Reading? && run[|run| - 1].jobs == e.jobs
  {
    hide Inv, Next, Step, Alone;
    NobodyInside(e, ws, a);
    ReaderEnters(e, a);
    run := SoloSteps(e, a, 3);
  }

  lemma LookIsStep<T(!new)>(run: seq<State<T>>, a: Id)
    requires Steps(run) && a in run[|run| - 1].agents && a in run[|run| - 1].jobs
    ensures Steps(run + [Look(run[|run| - 1], a)])
  {
    hide Next;
    var s := run[|run| - 1];
    var all := run + [Look(s, a)];
    assert StepBy(s, Look(s, a), a, false);
    forall i | 0 <= i < |all| - 1
      ensures Step(all[i], all[i + 1])
    {
      if i < |run| - 1 {
        assert Step(run[i], run[i + 1]);
      }
    }
  }
}
