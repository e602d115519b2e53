/** What the lock does for the data, and for the order in which its users see each other. */
module LockHistory {
  import opened Outcomes
  import opened Bits
  import opened RWLock
  import opened LockSystem

  // ----- the data

  /** The owner of the flag has not stored yet. */
  predicate Pending<T>(pc: Pc<T>) {
    pc.Draining? || pc.Writing? || pc.Loaded?
  }

  /** The writers in the order of their flags: each once, and exactly those that own the flag or are done. */
  ghost predicate InvOrder<T(!new)>(s: State<T>) {
    && (forall i, j :: 0 <= i < j < |s.order| ==> s.order[i] != s.order[j])
    && (forall a :: a in s.order ==> a in s.agents)
    && (forall a :: a in s.agents ==>
          (a in s.order <==> a in s.jobs && s.jobs[a].Write? && (Owns(s.agents[a].pc) || s.agents[a].pc.Done?)))
  }

  ghost predicate InvApplied<T(!new)>(s: State<T>) {
    s.applied == |s.order| - (if s.owner.Some? && s.owner.value in s.agents && Pending(s.agents[s.owner.value].pc)
                              then 1 else 0)
  }

  /** The data is what the stored writes make of the initial value, in the order of their flags; and what a writer has
      read is still there when it stores. */
  ghost predicate InvData<T(!new)>(s: State<T>) {
    && s.applied <= |s.order|
    && s.data == ValueAfter(s.init, s.jobs, s.order[..s.applied])
    && (forall a :: a in s.agents && s.agents[a].pc.Loaded? ==> s.agents[a].pc.v == s.data)
  }

  /** What a reader looks at is one value: what the writes stored before it was granted the lock have made. */
  ghost predicate InvSeen<T(!new)>(s: State<T>) {
    forall a :: a in s.agents ==> SeenOne(s, a)
  }

  ghost predicate SeenOne<T(!new)>(s: State<T>, a: Id)
    requires a in s.agents
  {
    var g := s.agents[a];
    && g.since <= s.applied <= |s.order|
    && (g.pc.Reading? ==> g.since == s.applied)
    && (!g.pc.Reading? && !g.pc.Done? ==> g.seen == [])
    && (forall v :: v in g.seen ==> v == ValueAfter(s.init, s.jobs, s.order[..g.since]))
  }

  lemma NextOrder<T(!new)>(s: State<T>, a: Id, spurious: bool)
    requires Inv(s) && InvOrder(s) && a in s.agents
    ensures InvOrder(Next(s, a, spurious)) && s.order <= Next(s, a, spurious).order
  {
    hide InvWord, Readers;
    JobFits(s, a);
  }

  lemma NextApplied<T(!new)>(s: State<T>, a: Id, spurious: bool)
    requires Inv(s) && InvApplied(s) && a in s.agents
    ensures InvApplied(Next(s, a, spurious))
  {
    hide Readers;
    JobFits(s, a);
  }

  lemma OwnerLast<T(!new)>(s: State<T>, a: Id)
    requires Inv(s) && a in s.agents && Owns(s.agents[a].pc)
    ensures s.owner == Some(a) && s.order != [] && s.order[|s.order| - 1] == a
  {
  }

  lemma NextData<T(!new)>(s: State<T>, a: Id, spurious: bool)
    requires Inv(s) && InvApplied(s) && InvData(s) && a in s.agents
    ensures InvData(Next(s, a, spurious))
  {
    hide InvWord, Readers, InvOwner, InvCalls;
    JobFits(s, a);
    NextApplied(s, a, spurious);
    var s' := Next(s, a, spurious);
    if s.agents[a].pc.Loaded? {
      OwnerLast(s, a);
      assert s'.order[..s'.applied] == s.order[..s.applied] + [a];
      assert s'.order[..s'.applied][..s.applied] == s.order[..s.applied];
      OnlyOneLoaded(s, a);
    } else {
      assert s'.order[..s'.applied] == s.order[..s.applied];
    }
  }

  lemma OnlyOneLoaded<T(!new)>(s: State<T>, a: Id)
    requires Inv(s) && a in s.agents && Owns(s.agents[a].pc)
    ensures forall b :: b in s.agents && b != a ==> !s.agents[b].pc.Loaded?
  {
  }

  lemma PrefixKept<T(!new)>(order: seq<Id>, order': seq<Id>, k: nat)
    requires order <= order' && k <= |order|
    ensures order'[..k] == order[..k]
  {
  }

  lemma NextSeen<T(!new)>(s: State<T>, a: Id, spurious: bool)
    requires Inv(s) && InvOrder(s) && InvApplied(s) && InvData(s) && InvSeen(s) && a in s.agents
    ensures InvSeen(Next(s, a, spurious))
  {
    NextOrder(s, a, spurious);
    NextApplied(s, a, spurious);
    NextData(s, a, spurious);
    hide InvWord, InvOrder, InvApplied, InvOwner, ValueAfter, InvCalls;
    var s' := Next(s, a, spurious);
    forall b | b in s'.agents
      ensures SeenOne(s', b)
    {
      assert SeenOne(s, b);
      PrefixKept<T>(s.order, s'.order, s.agents[b].since);
      if s.agents[a].pc.Loaded? {
        StoringExcludesReaders(s, a);
      }
      if b == a {
        NextSeenSelf(s, a, spurious);
      }
    }
  }

  lemma StoringExcludesReaders<T(!new)>(s: State<T>, a: Id)
    requires Inv(s) && a in s.agents && HoldsWrite(s.agents[a].pc)
    ensures forall b :: b in s.agents ==> !s.agents[b].pc.Reading?
  {
    forall b | b in s.agents
      ensures !s.agents[b].pc.Reading?
    {
      assert Readers(s.agents) == {};
      assert b !in Readers(s.agents);
    }
  }

  lemma NextSeenSelf<T(!new)>(s: State<T>, a: Id, spurious: bool)
    requires a in s.agents && a in s.jobs && SeenOne(s, a)
    requires var s' := Next(s, a, spurious); s'.applied <= |s'.order| && s.order <= s'.order
    ensures SeenOne(Next(s, a, spurious), a)
  {
    hide ValueAfter;
    var s' := Next(s, a, spurious);
    PrefixKept<T>(s.order, s'.order, s.agents[a].since);
  }

  // ----- happens-before

  /** The word knows the end of every call that has ended, and a call knows only of ended ones. A reader that holds the
      lock knows of all writers that have ended. The owner of the flag knows of every call that has ended, but for the
      readers that were present when it set the flag: those that have left since are exactly what it does not know. */
  ghost predicate InvViews<T(!new)>(s: State<T>) {
    && s.wordView == Finished(s.agents)
    && (forall a :: a in s.agents ==> s.agents[a].view <= Finished(s.agents))
    && (forall a :: a in s.agents && s.agents[a].pc.Reading? ==> KnowsWriters(s, a))
    && (s.owner.Some? && s.owner.value in s.agents ==> KnowsAllBut(s, s.owner.value))
  }

  ghost predicate KnowsWriters<T(!new)>(s: State<T>, a: Id)
    requires a in s.agents
  {
    forall w :: w in Finished(s.agents) && w in s.jobs && s.jobs[w].Write? ==> w in s.agents[a].view
  }

  ghost predicate KnowsAllBut<T(!new)>(s: State<T>, a: Id)
    requires a in s.agents
  {
    && Readers(s.agents) <= s.present
    && Finished(s.agents) - s.agents[a].view == s.present - Readers(s.agents)
  }

  lemma FinishedUpdated<T>(agents: map<Id, Agent<T>>, a: Id, g: Agent<T>)
    requires a in agents
    ensures Finished(agents[a := g]) == if g.pc.Done? then Finished(agents) + {a} else Finished(agents) - {a}
    ensures agents[a].pc.Done? <==> a in Finished(agents)
  {
  }

  lemma NextWordView<T(!new)>(s: State<T>, a: Id, spurious: bool)
    requires Inv(s) && InvViews(s) && a in s.agents
    ensures var s' := Next(s, a, spurious);
            && s'.wordView == Finished(s'.agents)
            && (forall b :: b in s'.agents ==> s'.agents[b].view <= Finished(s'.agents))
            && Finished(s.agents) <= Finished(s'.agents) <= Finished(s.agents) + {a}
  {
    hide InvWord, Readers, InvOwner, Finished, KnowsWriters, KnowsAllBut;
    JobFits(s, a);
    var s' := Next(s, a, spurious);
    FinishedUpdated(s.agents, a, s'.agents[a]);
  }

  lemma NextReadersKnow<T(!new)>(s: State<T>, a: Id, spurious: bool)
    requires Inv(s) && InvViews(s) && a in s.agents
    ensures var s' := Next(s, a, spurious);
            forall b :: b in s'.agents && s'.agents[b].pc.Reading? ==> KnowsWriters(s', b)
  {
    NextWordView(s, a, spurious);
    hide InvWord, Readers, InvOwner, Finished, KnowsAllBut;
    JobFits(s, a);
    var s' := Next(s, a, spurious);
    FinishedUpdated(s.agents, a, s'.agents[a]);
    if s.agents[a].pc.Stored? {
      StoringExcludesReaders(s, a);
    }
  }

  lemma FlagKnows<T(!new)>(s: State<T>, a: Id, spurious: bool)
    requires Inv(s) && InvViews(s) && a in s.agents
    requires Next(s, a, spurious).owner == Some(a) && s.owner != Some(a)
    ensures KnowsAllBut(Next(s, a, spurious), a)
  {
    hide Readers, Finished, KnowsWriters, InvWord, InvOwner;
    JobFits(s, a);
    var s' := Next(s, a, spurious);
    FinishedUpdated(s.agents, a, s'.agents[a]);
    ReadersUpdated(s.agents, a, s'.agents[a]);
  }

  /** While the flag is set no reader is granted the lock: the readers only become fewer, and those that leave end. */
  lemma OwnedStep<T(!new)>(s: State<T>, a: Id, spurious: bool)
    requires Inv(s) && a in s.agents && s.owner.Some?
    ensures var s', o := Next(s, a, spurious), s.owner.value;
            && o in s.agents && s'.owner == (if s.agents[a].pc.Stored? then None else s.owner)
            && s'.present == s.present
            && s'.agents[o].view == s.agents[o].view
            && Readers(s'.agents) == Readers(s.agents) - {a}
            && Finished(s'.agents) ==
               if s.agents[a].pc.Reading? || s.agents[a].pc.Stored? then Finished(s.agents) + {a}
               else Finished(s.agents)
  {
    hide Readers, Finished, Exclusive;
    JobFits(s, a);
    OwnerIsNotReader(s, a);
    var s' := Next(s, a, spurious);
    FinishedUpdated(s.agents, a, s'.agents[a]);
    ReadersUpdated(s.agents, a, s'.agents[a]);
  }

  lemma NextOwnerKnows<T(!new)>(s: State<T>, a: Id, spurious: bool)
    requires Inv(s) && InvViews(s) && a in s.agents
    ensures var s' := Next(s, a, spurious);
            s'.owner.Some? && s'.owner.value in s'.agents ==> KnowsAllBut(s', s'.owner.value)
  {
    hide Readers, Finished, KnowsWriters, InvWord, InvOwner, Next, InvCalls;
    OwnerChange(s, a, spurious);
    var s' := Next(s, a, spurious);
    if s.owner.None? {
      if s'.owner.Some? {
        FlagKnows(s, a, spurious);
      }
    } else {
      OwnedStep(s, a, spurious);
      OwnerIsNotReader(s, a);
      FinishedUpdated(s.agents, a, s.agents[a]);
      ReadersUpdated(s.agents, a, s.agents[a]);
      var o := s.owner.value;
      assert s.agents[o].view <= Finished(s.agents) && KnowsAllBut(s, o);
      if s.agents[a].pc.Reading? {
        assert Finished(s'.agents) - s.agents[o].view == Finished(s.agents) - s.agents[o].view + {a};
        assert s'.present - Readers(s'.agents) == s.present - Readers(s.agents) + {a};
      } else {
        assert Readers(s'.agents) == Readers(s.agents);
      }
    }
  }

  lemma OwnerChange<T(!new)>(s: State<T>, a: Id, spurious: bool)
    requires Inv(s) && a in s.agents
    ensures a in s.jobs
    ensures s.owner.None? ==> Next(s, a, spurious).owner in [None, Some(a)]
  {
    hide InvWord, Readers;
  }

  lemma OwnerIsNotReader<T(!new)>(s: State<T>, a: Id)
    requires Inv(s) && a in s.agents && s.owner.Some?
    ensures s.owner.value in s.agents && !s.agents[s.owner.value].pc.Reading?
    ensures s.owner.value == a <==> Owns(s.agents[a].pc)
  {
  }

  /** Only readers are ever drained. */
  ghost predicate InvPresent<T(!new)>(s: State<T>) {
    forall b :: b in s.present ==> b in s.jobs && s.jobs[b].Read?
  }

  lemma NextPresent<T(!new)>(s: State<T>, a: Id, spurious: bool)
    requires Inv(s) && InvPresent(s) && a in s.agents && a in s.jobs
    ensures InvPresent(Next(s, a, spurious))
  {
    hide Exclusive;
  }

  // ----- everything together

  ghost predicate FullInv<T(!new)>(s: State<T>) {
    Inv(s) && InvOrder(s) && InvApplied(s) && InvData(s) && InvSeen(s) && InvViews(s) && InvPresent(s)
  }

  lemma NextFullInv<T(!new)>(s: State<T>, a: Id, spurious: bool)
    requires FullInv(s) && a in s.agents && a in s.jobs
    requires |Readers(Next(s, a, spurious).agents)| < WRITE_FLAG
    ensures FullInv(Next(s, a, spurious))
  {
    hide Inv, InvOrder, InvApplied, InvData, InvSeen, InvViews, InvPresent, Readers, Next;
    NextInv(s, a, spurious);
    NextOrder(s, a, spurious);
    NextApplied(s, a, spurious);
    NextData(s, a, spurious);
    NextSeen(s, a, spurious);
    NextViews(s, a, spurious);
    NextPresent(s, a, spurious);
  }

  lemma NextViews<T(!new)>(s: State<T>, a: Id, spurious: bool)
    requires Inv(s) && InvViews(s) && a in s.agents && a in s.jobs
    ensures InvViews(Next(s, a, spurious))
  {
    hide Inv, Readers, Finished, Next, KnowsWriters, KnowsAllBut;
    NextWordView(s, a, spurious);
    NextReadersKnow(s, a, spurious);
    NextOwnerKnows(s, a, spurious);
  }

  lemma LookFullInv<T(!new)>(s: State<T>, a: Id)
    requires FullInv(s) && a in s.agents
    ensures FullInv(Look(s, a))
  {
    LookInv(s, a);
    LookOrder(s, a);
    LookSeen(s, a);
    LookViews(s, a);
  }

  lemma LookOrder<T(!new)>(s: State<T>, a: Id)
    requires InvOrder(s) && InvApplied(s) && InvData(s) && a in s.agents
    ensures InvOrder(Look(s, a)) && InvApplied(Look(s, a)) && InvData(Look(s, a))
  {
    hide ValueAfter;
  }

  lemma LookSeen<T(!new)>(s: State<T>, a: Id)
    requires InvData(s) && InvSeen(s) && a in s.agents
    ensures InvSeen(Look(s, a))
  {
    hide ValueAfter;
    var s' := Look(s, a);
    forall b | b in s'.agents
      ensures SeenOne(s', b)
    {
      assert SeenOne(s, b) && SeenOne(s, a);
    }
  }

  lemma LookViews<T(!new)>(s: State<T>, a: Id)
    requires InvViews(s) && a in s.agents
    ensures InvViews(Look(s, a))
  {
    var s' := Look(s, a);
    assert Finished(s'.agents) == Finished(s.agents) && Readers(s'.agents) == Readers(s.agents);
  }

  lemma InitialFullInv<T(!new)>(s: State<T>)
    requires Initial(s)
    ensures FullInv(s)
  {
    InitialInv(s);
    assert Finished(s.agents) == {};
    assert s.order[..s.applied] == [];
  }
}
