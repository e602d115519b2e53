/** How many readers the lock can take. */
module LockLimits {
  import opened Outcomes
  import opened Bits
  import opened RWLock
  import opened LockSystem
  import opened LockTheorems
  import opened LockProgress

  function ReadCalls<T>(jobs: map<Id, Job<T>>): set<Id> {
    set a | a in jobs && jobs[a].Read?
  }

  // ----- few enough

  lemma ReadersAreReadCalls<T(!new)>(s: State<T>)
    requires InvCalls(s)
    ensures |Readers(s.agents)| <= |ReadCalls(s.jobs)|
  {
    SubsetCount(Readers(s.agents), ReadCalls(s.jobs));
  }

  /** With fewer than 2^63 calls of `read` the readers never run into the flag, in any run: the hypothesis of the
      theorems about runs is one about the calls, and met before the first of them. */
  lemma {:induction false} FewReaders<T(!new)>(run: seq<State<T>>, i: nat)
    requires Steps(run) && Initial(run[0]) && |ReadCalls(run[0].jobs)| < WRITE_FLAG && i < |run|
    ensures Inv(run[i]) && run[i].jobs == run[0].jobs && |Readers(run[i].agents)| < WRITE_FLAG
  {
    hide Next, Look, Initial, Readers, InvCalls, InvOwner, InvWord, ReadCalls;
    if i == 0 {
      InitialInv(run[0]);
    } else {
      FewReaders(run, i - 1);
      var s := run[i - 1];
      assert Step(s, run[i - 1 + 1]);
      var a, spurious :| StepBy(s, run[i], a, spurious);
      if run[i] == Next(s, a, spurious) {
        NextInvCalls(s, a, spurious);
        JobsKept(s, a, spurious);
        ReadersAreReadCalls(run[i]);
        NextInv(s, a, spurious);
      } else {
        LookInv(s, a);
        JobsKept(s, a, spurious);
      }
    }
    BelowLimit(run[i]);
  }

  lemma JobsKept<T(!new)>(s: State<T>, a: Id, spurious: bool)
    requires a in s.agents && a in s.jobs
    ensures Next(s, a, spurious).jobs == s.jobs && Look(s, a).jobs == s.jobs
  {
  }

  // ----- too many

  /** The states that `n` steps of a call go through. */
  lemma {:induction false} SoloSteps<T(!new)>(s: State<T>, a: Id, n: nat) returns (run: seq<State<T>>)
    requires a in s.agents && a in s.jobs
    ensures Steps(run) && run[0] == s && run[|run| - 1] == Solo(s, a, n)
    decreases n
  {
    hide Next;
    if n == 0 {
      run := [s];
    } else {
      var s' := Next(s, a, false);
      StillThere(s, a);
      var rest := SoloSteps(s', a, n - 1);
      run := [s] + rest;
      assert StepBy(s, s', a, false);
      assert forall i :: 0 < i < |run| ==> run[i] == rest[i - 1];
    }
  }

  lemma StillThere<T(!new)>(s: State<T>, a: Id)
    requires a in s.agents && a in s.jobs
    ensures a in Next(s, a, false).agents && a in Next(s, a, false).jobs
  {
  }

  lemma StepsConcat<T(!new)>(run: seq<State<T>>, run': seq<State<T>>)
    requires Steps(run) && Steps(run') && run'[0] == run[|run| - 1]
    ensures Steps(run + run'[1..])
    ensures (run + run'[1..])[0] == run[0]
    ensures (run + run'[1..])[|run + run'[1..]| - 1] == run'[|run'| - 1]
  {
    hide Step;
    var all := run + run'[1..];
    forall i | 0 <= i < |all| - 1
      ensures Step(all[i], all[i + 1])
    {
      if i < |run| - 1 {
        assert Step(run[i], run[i + 1]);
      } else {
        assert Step(run'[i - |run| + 1], run'[i - |run| + 1 + 1]);
      }
    }
  }

  /** A `read` that has not begun, while no writer owns the flag, enters without meeting anyone. */
  lemma OneMoreReader<T(!new)>(s: State<T>, a: Id)
    requires Inv(s) && a in s.agents && a in s.jobs && s.jobs[a].Read? && s.agents[a].pc == Start && s.owner == None
    ensures var s' := Solo(s, a, 3);
            && s'.owner == None && s'.word == s.word + 1
            && Readers(s'.agents) == Readers(s.agents) + {a}
            && |Readers(s'.agents)| == |Readers(s.agents)| + 1
            && (|Readers(s.agents)| + 1 < WRITE_FLAG ==> Inv(s'))
  {
    hide Next, Inv, Readers;
    var s1 := Next(s, a, false);
    OneStep(s, a);
    NotYetReading(s, a);
    var s2 := Next(s1, a, false);
    NotYetReading(s1, a);
    var s3 := Next(s2, a, false);
    ReadGranted(s2, a);
    ThreeSteps(s, a);
    if |Readers(s.agents)| + 1 < WRITE_FLAG {
      NextInv(s2, a, false);
    }
  }

  lemma NotYetReading<T(!new)>(s: State<T>, a: Id)
    requires Inv(s) && a in s.agents && a in s.jobs && s.owner == None
    requires s.jobs[a].Read? && (s.agents[a].pc.Start? || s.agents[a].pc.ReadLoad?)
    ensures var s' := Next(s, a, false);
            && Inv(s') && s'.owner == None && s'.word == s.word && s'.jobs == s.jobs
            && a in s'.agents
            && s'.agents[a].pc == (if s.agents[a].pc.Start? then ReadLoad else ReadCas(s.word))
            && Readers(s'.agents) == Readers(s.agents)
  {
    hide Readers, InvOwner, InvCalls, Exclusive;
    BelowLimit(s);
    var s' := Next(s, a, false);
    ReadersUpdated(s.agents, a, s'.agents[a]);
    assert Readers(s'.agents) == Readers(s.agents);
    NextInv(s, a, false);
  }

  lemma ReadGranted<T(!new)>(s: State<T>, a: Id)
    requires a in s.agents && a in s.jobs && s.owner == None && s.agents[a].pc == ReadCas(s.word)
    ensures var s' := Next(s, a, false);
            && s'.owner == None && s'.word == s.word + 1
            && Readers(s'.agents) == Readers(s.agents) + {a}
            && |Readers(s'.agents)| == |Readers(s.agents)| + 1
  {
    hide Readers;
    var s' := Next(s, a, false);
    ReadersUpdated(s.agents, a, s'.agents[a]);
  }

  /** The first `k` calls of `read` have entered, and nobody else has begun. */
  ghost predicate Entered<T(!new)>(s: State<T>, k: nat) {
    && s.owner == None && s.word == k && |Readers(s.agents)| == k
    && (forall a :: a in s.agents && a !in Readers(s.agents) ==> s.agents[a].pc == Start)
  }

  lemma {:induction false} Enter<T(!new)>(s: State<T>, k: nat) returns (run: seq<State<T>>)
    requires Initial(s) && k <= |ReadCalls(s.jobs)| && k <= WRITE_FLAG
    ensures Steps(run) && run[0] == s
    ensures var e := run[|run| - 1];
            Entered(e, k) && e.jobs == s.jobs && e.agents.Keys == s.agents.Keys && (k < WRITE_FLAG ==> Inv(e))
    decreases k
  {
    hide Inv, Initial, Readers, ReadCalls, Solo, Next;
    if k == 0 {
      InitialInv(s);
      NoReaders(s);
      KeysMatch(s);
      run := [s];
    } else {
      var before := Enter(s, k - 1);
      var e := before[|before| - 1];
      KeysMatch(s);
      var a := Waiting(e);
      OneMoreReader(e, a);
      var more := SoloSteps(e, a, 3);
      StepsConcat(before, more);
      run := before + more[1..];
      EnteredOn(e, a, k - 1);
    }
  }

  lemma KeysMatch<T(!new)>(s: State<T>)
    requires Initial(s)
    ensures s.agents.Keys == s.jobs.Keys
  {
  }

  lemma EnteredOn<T(!new)>(e: State<T>, a: Id, k: nat)
    requires Entered(e, k) && a in e.agents && a in e.jobs
    requires var s' := Solo(e, a, 3);
             s'.owner == None && s'.word == e.word + 1 && Readers(s'.agents) == Readers(e.agents) + {a} &&
             |Readers(s'.agents)| == |Readers(e.agents)| + 1
    ensures Entered(Solo(e, a, 3), k + 1)
  {
    hide Readers;
  }

  /** There is a `read` that has not begun, while fewer have entered than there are. */
  lemma Waiting<T(!new)>(s: State<T>) returns (a: Id)
    requires s.agents.Keys == s.jobs.Keys && |Readers(s.agents)| < |ReadCalls(s.jobs)|
    requires forall a :: a in s.agents && a !in Readers(s.agents) ==> s.agents[a].pc == Start
    ensures a in s.agents && a in s.jobs && s.jobs[a].Read? && s.agents[a].pc == Start
  {
    if ReadCalls(s.jobs) <= Readers(s.agents) {
      SubsetCount(ReadCalls(s.jobs), Readers(s.agents));
      assert false;
    }
    a :| a in ReadCalls(s.jobs) && a !in Readers(s.agents);
  }

  /** With 2^63 calls of `read` there is a run in which all of them come to hold the lock at once. The count has then
      run into the flag: the word reads as if a writer owned the lock, though none has even begun. */
  lemma TooManyReaders<T(!new)>(s: State<T>) returns (run: seq<State<T>>)
    requires Initial(s) && |ReadCalls(s.jobs)| >= WRITE_FLAG
    ensures Steps(run) && run[0] == s
    ensures var e := run[|run| - 1];
            && |Readers(e.agents)| == WRITE_FLAG && Flagged(e.word) && e.owner == None
            && forall a :: a in e.agents ==> !Owns(e.agents[a].pc)
  {
    hide Initial;
    run := Enter(s, WRITE_FLAG);
    NobodyOwns(run[|run| - 1], WRITE_FLAG);
  }

  lemma NobodyOwns<T(!new)>(s: State<T>, k: nat)
    requires Entered(s, k)
    ensures forall a :: a in s.agents ==> !Owns(s.agents[a].pc)
  {
  }

  /** Whether the readers can run into the flag at all is settled by the number of calls. */
  lemma BoundExact<T(!new)>(s: State<T>)
    requires Initial(s)
    ensures (forall run: seq<State<T>> :: Steps(run) && run[0] == s ==> IsRun(run)) <==>
            |ReadCalls(s.jobs)| < WRITE_FLAG
  {
    hide Initial, Readers, ReadCalls, Step;
    if |ReadCalls(s.jobs)| < WRITE_FLAG {
      forall run: seq<State<T>> | Steps(run) && run[0] == s
        ensures IsRun(run)
      {
        forall i | 0 <= i < |run|
          ensures |Readers(run[i].agents)| < WRITE_FLAG
        {
          FewReaders(run, i);
        }
      }
    } else {
      var run := TooManyReaders(s);
      assert !IsRun(run);
    }
  }
}
