/** The console: `_print` holds one spin lock while it takes a second, and writes a message to one or two devices. */
module Console {
  import opened Outcomes

  type Id = nat

  /** A spin lock and what it guards; the flag is changed in place. */
  class SpinLock<T> {
    var locked: bool
    var data: T

    constructor (data: T)
      ensures !locked && this.data == data
    {
      locked := false;
      this.data := data;
    }

    /** One turn of the loop of `lock`. */
    method TryLock(spurious: bool) returns (ok: bool)
      modifies this`locked
      ensures ok <==> !spurious && !old(locked)
      ensures locked == (old(locked) || ok)
    {
      ok := !spurious && !locked;
      if ok {
        locked := true;
      }
    }

    method Unlock()
      modifies this`locked
      ensures !locked
    {
      locked := false;
    }
  }

  /** A call of `_print` with its message, or whoever fills the slot of the second device under its lock. */
  datatype Job = Print(message: string) | Install

  datatype Pc =
    | WaitDebug            // DEBUG_UART.lock()
    | OpenDebug            // get_or_insert_with
    | WriteDebug(k: nat)   // `k` characters written
    | WaitRp1              // RP1_UART0.lock()
    | CheckRp1             // if let Some(uart)
    | WriteRp1(k: nat)
    | DropRp1              // guards are dropped in reverse order
    | DropDebug
    | WaitInstall
    | Fill
    | DropInstall
    | Done

  /** The two locks, the two slots and what the devices have received. */
  datatype Board = Board(debugLocked: bool, rp1Locked: bool, debugOpen: bool, rp1Open: bool,
                         debugOut: string, rp1Out: string)

  function Advance(b: Board, job: Job, pc: Pc, spurious: bool): (Board, Pc) {
    var m := if job.Print? then job.message else "";
    match pc
    case WaitDebug => if spurious || b.debugLocked then (b, pc) else (b.(debugLocked := true), OpenDebug)
    case OpenDebug => (b.(debugOpen := true), WriteDebug(0))
    case WriteDebug(k) =>
      if k < |m| then (b.(debugOut := b.debugOut + [m[k]]), WriteDebug(k + 1)) else (b, WaitRp1)
    case WaitRp1 => if spurious || b.rp1Locked then (b, pc) else (b.(rp1Locked := true), CheckRp1)
    case CheckRp1 => (b, if b.rp1Open then WriteRp1(0) else DropRp1)
    case WriteRp1(k) =>
      if k < |m| then (b.(rp1Out := b.rp1Out + [m[k]]), WriteRp1(k + 1)) else (b, DropRp1)
    case DropRp1 => (b.(rp1Locked := false), DropDebug)
    case DropDebug => (b.(debugLocked := false), Done)
    case WaitInstall => if spurious || b.rp1Locked then (b, pc) else (b.(rp1Locked := true), Fill)
    case Fill => (b.(rp1Open := true), DropInstall)
    case DropInstall => (b.(rp1Locked := false), Done)
    case Done => (b, pc)
  }

  /** The console in place: two locks around optional devices, and the characters the devices have received. */
  class Uarts {
    const debugUart: SpinLock<bool>
    const rp1Uart: SpinLock<bool>
    var debugOut: string
    var rp1Out: string

    ghost function View(): Board
      reads this, debugUart, rp1Uart
    {
      Board(debugUart.locked, rp1Uart.locked, debugUart.data, rp1Uart.data, debugOut, rp1Out)
    }

    constructor ()
      ensures View() == Board(false, false, false, false, "", "") && debugUart != rp1Uart
    {
      debugUart := new SpinLock(false);
      rp1Uart := new SpinLock(false);
      debugOut, rp1Out := "", "";
    }

    /** The next step of `_print`. */
    method PrintStep(message: string, pc: Pc, spurious: bool) returns (pc': Pc)
      requires debugUart != rp1Uart && !pc.WaitInstall? && !pc.Fill? && !pc.DropInstall? && !pc.Done?
      modifies this, debugUart, rp1Uart
      ensures (View(), pc') == Advance(old(View()), Print(message), pc, spurious)
    {
      pc' := pc;
      match pc
      case WaitDebug =>
        var ok := debugUart.TryLock(spurious);
        if ok {
          pc' := OpenDebug;
        }
      case OpenDebug =>
        if !debugUart.data {
          debugUart.data := true;
        }
        pc' := WriteDebug(0);
      case WriteDebug(k) =>
        if k < |message| {
          debugOut := debugOut + [message[k]];
          pc' := WriteDebug(k + 1);
        } else {
          pc' := WaitRp1;
        }
      case WaitRp1 =>
        var ok := rp1Uart.TryLock(spurious);
        if ok {
          pc' := CheckRp1;
        }
      case CheckRp1 =>
        pc' := if rp1Uart.data then WriteRp1(0) else DropRp1;
      case WriteRp1(k) =>
        if k < |message| {
          rp1Out := rp1Out + [message[k]];
          pc' := WriteRp1(k + 1);
        } else {
          pc' := DropRp1;
        }
      case DropRp1 =>
        rp1Uart.Unlock();
        pc' := DropDebug;
      case DropDebug =>
        debugUart.Unlock();
        pc' := Done;
    }
  }

  // ----- any number of calls

  /** The console, the calls on it and their history.
      `debugHolder`, `rp1Holder`: who holds the locks; `order`: the printers in the order in which they took the first;
      `passed`: how many of them are done with the second device; `since`: how many were when its slot was filled. */
  datatype State = State(board: Board, jobs: map<Id, Job>, pcs: map<Id, Pc>, debugHolder: Option<Id>,
                         rp1Holder: Option<Id>, order: seq<Id>, passed: nat, since: nat)

  predicate HoldsDebug(pc: Pc) {
    pc.OpenDebug? || pc.WriteDebug? || pc.WaitRp1? || HoldsBoth(pc) || pc.DropDebug?
  }

  predicate HoldsBoth(pc: Pc) {
    pc.CheckRp1? || pc.WriteRp1? || pc.DropRp1?
  }

  predicate HoldsRp1(pc: Pc) {
    HoldsBoth(pc) || pc.Fill? || pc.DropInstall?
  }

  /** A printer that holds the first lock and is not done with the second device. */
  predicate Underway(pc: Pc) {
    HoldsDebug(pc) && !pc.DropRp1? && !pc.DropDebug?
  }

  function Next(s: State, a: Id, spurious: bool): State
    requires a in s.pcs && a in s.jobs
  {
    var pc := s.pcs[a];
    var (b, pc') := Advance(s.board, s.jobs[a], pc, spurious);
    s.(board := b, pcs := s.pcs[a := pc'],
       debugHolder := if !HoldsDebug(pc) && HoldsDebug(pc') then Some(a)
                      else if pc.DropDebug? then None else s.debugHolder,
       rp1Holder := if !HoldsRp1(pc) && HoldsRp1(pc') then Some(a)
                    else if pc.DropRp1? || pc.DropInstall? then None else s.rp1Holder,
       order := if !HoldsDebug(pc) && HoldsDebug(pc') then s.order + [a] else s.order,
       passed := if Underway(pc) && pc'.DropRp1? then s.passed + 1 else s.passed,
       since := if pc.Fill? && !s.board.rp1Open then s.passed else s.since)
  }

  predicate Fitting(job: Job, pc: Pc) {
    match pc
    case WriteDebug(k) => job.Print? && k <= |job.message|
    case WriteRp1(k) => job.Print? && k <= |job.message|
    case WaitInstall | Fill | DropInstall => job.Install?
    case Done => true
    case _ => job.Print?
  }

  ghost predicate Initial(s: State) {
    && s.board == Board(false, false, false, false, "", "")
    && s.pcs.Keys == s.jobs.Keys
    && (forall a :: a in s.pcs ==> s.pcs[a] == if s.jobs[a].Print? then WaitDebug else WaitInstall)
    && s.debugHolder == None && s.rp1Holder == None && s.order == [] && s.passed == 0 && s.since == 0
  }

  /** The messages of some printers, one whole message after the other. */
  function Text(jobs: map<Id, Job>, order: seq<Id>): string {
    if order == [] then ""
    else
      var last := order[|order| - 1];
      Text(jobs, order[..|order| - 1]) + MessageOf(jobs, last)
  }

  ghost predicate InvCalls(s: State) {
    && s.pcs.Keys == s.jobs.Keys
    && (forall a :: a in s.pcs ==> Fitting(s.jobs[a], s.pcs[a]))
  }

  /** The first lock is held by one call at most, the last that took it, and marked as locked exactly while held. */
  ghost predicate InvDebug(s: State) {
    && (forall a :: a in s.pcs ==> (HoldsDebug(s.pcs[a]) <==> s.debugHolder == Some(a)))
    && (s.debugHolder.Some? ==>
          s.debugHolder.value in s.pcs && s.order != [] && s.order[|s.order| - 1] == s.debugHolder.value)
    && (s.board.debugLocked <==> s.debugHolder.Some?)
  }

  ghost predicate InvRp1(s: State) {
    && (forall a :: a in s.pcs ==> (HoldsRp1(s.pcs[a]) <==> s.rp1Holder == Some(a)))
    && (s.rp1Holder.Some? ==> s.rp1Holder.value in s.pcs)
    && (s.board.rp1Locked <==> s.rp1Holder.Some?)
  }

  ghost predicate Inv(s: State) {
    InvCalls(s) && InvDebug(s) && InvRp1(s)
  }

  lemma InitialInv(s: State)
    requires Initial(s)
    ensures Inv(s)
  {
  }

  lemma JobFits(s: State, a: Id)
    requires InvCalls(s) && a in s.pcs
    ensures a in s.jobs && Fitting(s.jobs[a], s.pcs[a])
  {
  }

  lemma NextInvCalls(s: State, a: Id, spurious: bool)
    requires InvCalls(s) && a in s.pcs
    ensures InvCalls(Next(s, a, spurious))
  {
  }

  lemma NextInvDebug(s: State, a: Id, spurious: bool)
    requires InvCalls(s) && InvDebug(s) && a in s.pcs
    ensures InvDebug(Next(s, a, spurious))
  {
    hide InvCalls;
    JobFits(s, a);
  }

  lemma NextInvRp1(s: State, a: Id, spurious: bool)
    requires InvCalls(s) && InvRp1(s) && a in s.pcs
    ensures InvRp1(Next(s, a, spurious))
  {
    hide InvCalls;
    JobFits(s, a);
  }

  lemma NextInv(s: State, a: Id, spurious: bool)
    requires Inv(s) && a in s.pcs && a in s.jobs
    ensures Inv(Next(s, a, spurious))
  {
    hide InvCalls, InvDebug, InvRp1, Next;
    NextInvCalls(s, a, spurious);
    NextInvDebug(s, a, spurious);
    NextInvRp1(s, a, spurious);
  }

  // ----- what the devices receive

  ghost predicate InvOrder(s: State) {
    && (forall i, j :: 0 <= i < j < |s.order| ==> s.order[i] != s.order[j])
    && (forall a :: a in s.order ==> a in s.pcs)
    && (forall a :: a in s.pcs ==>
          (a in s.order <==> a in s.jobs && s.jobs[a].Print? && (HoldsDebug(s.pcs[a]) || s.pcs[a].Done?)))
  }

  function MessageOf(jobs: map<Id, Job>, a: Id): string {
    if a in jobs && jobs[a].Print? then jobs[a].message else ""
  }

  /** What a call has written of its message to the debug device, and to the second. */
  function DebugPart(pc: Pc, m: string): string {
    match pc
    case WaitDebug | OpenDebug => ""
    case WriteDebug(k) => if k <= |m| then m[..k] else m
    case _ => m
  }

  function Rp1Part(pc: Pc, m: string): string {
    match pc
    case WriteRp1(k) => if k <= |m| then m[..k] else m
    case _ => ""
  }

  /** The printers that are done with the first device. */
  function Printed(s: State): seq<Id> {
    if s.debugHolder.Some? && s.order != [] then s.order[..|s.order| - 1] else s.order
  }

  /** The debug device has received whole messages, one after the other in the order of the first lock, and of the
      message underway the part that is written. */
  ghost predicate InvDebugOut(s: State) {
    s.board.debugOut == Text(s.jobs, Printed(s)) +
      (if s.debugHolder.Some? && s.debugHolder.value in s.pcs
       then DebugPart(s.pcs[s.debugHolder.value], MessageOf(s.jobs, s.debugHolder.value)) else "")
  }

  ghost predicate InvPassed(s: State) {
    && s.since <= s.passed
    && s.passed == |s.order| - (if s.debugHolder.Some? && s.debugHolder.value in s.pcs
                                   && Underway(s.pcs[s.debugHolder.value]) then 1 else 0)
  }

  function Rp1Underway(s: State): string {
    if s.debugHolder.Some? && s.debugHolder.value in s.pcs
    then Rp1Part(s.pcs[s.debugHolder.value], MessageOf(s.jobs, s.debugHolder.value)) else ""
  }

  /** The second device has received nothing until its slot was filled, and from then on every message. */
  ghost predicate InvRp1Out(s: State) {
    if s.board.rp1Open && s.since <= s.passed <= |s.order| then
      s.board.rp1Out == Text(s.jobs, s.order[s.since..s.passed]) + Rp1Underway(s)
    else
      && !s.board.rp1Open && s.board.rp1Out == ""
      && (s.debugHolder.Some? && s.debugHolder.value in s.pcs ==> !s.pcs[s.debugHolder.value].WriteRp1?)
  }

  lemma TextLast(jobs: map<Id, Job>, order: seq<Id>, a: Id)
    ensures Text(jobs, order + [a]) == Text(jobs, order) + MessageOf(jobs, a)
  {
    assert (order + [a])[..|order|] == order;
  }

  lemma NextOrder(s: State, a: Id, spurious: bool)
    requires Inv(s) && InvOrder(s) && a in s.pcs
    ensures InvOrder(Next(s, a, spurious))
  {
    hide InvCalls, InvRp1;
    JobFits(s, a);
  }

  /** A step of the call that holds the first lock writes on where its part ends; a step of another writes nothing. */
  lemma DebugStep(b: Board, job: Job, pc: Pc, spurious: bool, before: string)
    requires Fitting(job, pc)
    ensures !HoldsDebug(pc) ==> Advance(b, job, pc, spurious).0.debugOut == b.debugOut
    ensures job.Print? && HoldsDebug(pc) && b.debugOut == before + DebugPart(pc, job.message) ==>
              var (b', pc') := Advance(b, job, pc, spurious); b'.debugOut == before + DebugPart(pc', job.message)
  {
    if job.Print? {
      var m := job.message;
      assert m[..|m|] == m && m[..0] == "";
      match pc
      case WriteDebug(k) =>
        if k < |m| {
          assert m[..k + 1] == m[..k] + [m[k]];
          assert (before + m[..k]) + [m[k]] == before + (m[..k] + [m[k]]);
        }
      case _ =>
    }
  }

  lemma NextDebugOut(s: State, a: Id, spurious: bool)
    requires Inv(s) && InvDebugOut(s) && a in s.pcs
    ensures InvDebugOut(Next(s, a, spurious))
  {
    hide InvCalls, InvRp1, Text, DebugPart;
    JobFits(s, a);
    var s' := Next(s, a, spurious);
    var m := MessageOf(s.jobs, a);
    DebugStep(s.board, s.jobs[a], s.pcs[a], spurious, Text(s.jobs, Printed(s)));
    if HoldsDebug(s.pcs[a]) {
      if s.pcs[a].DropDebug? {
        assert s.order == Printed(s) + [a];
        TextLast(s.jobs, Printed(s), a);
        assert DebugPart(DropDebug, m) == m by {
          DropHasAll(m);
        }
      }
    } else if HoldsDebug(s'.pcs[a]) {
      assert Printed(s') == s.order;
      NothingYet(m);
    }
  }

  lemma DropHasAll(m: string)
    ensures DebugPart(DropDebug, m) == m
  {
  }

  lemma NothingYet(m: string)
    ensures DebugPart(OpenDebug, m) == ""
  {
  }

  lemma NextPassed(s: State, a: Id, spurious: bool)
    requires Inv(s) && InvPassed(s) && a in s.pcs
    ensures InvPassed(Next(s, a, spurious))
  {
    hide InvCalls, InvRp1;
    JobFits(s, a);
  }

  lemma Rp1Step(b: Board, job: Job, pc: Pc, spurious: bool, before: string)
    requires Fitting(job, pc)
    ensures var (b', pc') := Advance(b, job, pc, spurious);
            && (!pc.WriteRp1? ==> b'.rp1Out == b.rp1Out)
            && (pc.WriteRp1? && b.rp1Out == before + Rp1Part(pc, job.message) ==>
                  b'.rp1Out == before + (if pc'.DropRp1? then job.message else Rp1Part(pc', job.message)))
            && (!pc.WriteRp1? && pc'.WriteRp1? ==> pc.CheckRp1? && b.rp1Open && pc' == WriteRp1(0))
            && (pc'.DropRp1? && !pc.DropRp1? ==> pc.WriteRp1? || (pc.CheckRp1? && !b.rp1Open))
            && (b'.rp1Open != b.rp1Open ==> pc.Fill? && b'.rp1Open)
  {
    if pc.WriteRp1? {
      var m, k := job.message, pc.k;
      assert m[..|m|] == m;
      if k < |m| {
        assert m[..k + 1] == m[..k] + [m[k]];
        assert (before + m[..k]) + [m[k]] == before + (m[..k] + [m[k]]);
      }
    }
  }

  /** Whoever writes to the second device holds both locks, and whoever fills its slot keeps all others out. */
  lemma WhoHolds(s: State, a: Id)
    requires Inv(s) && a in s.pcs
    ensures s.pcs[a].WriteRp1? || s.pcs[a].CheckRp1? ==> s.debugHolder == Some(a) && s.order[|s.order| - 1] == a
    ensures s.pcs[a].Fill? ==> Rp1Underway(s) == ""
    ensures HoldsDebug(s.pcs[a]) ==> s.debugHolder == Some(a) && s.order != []
  {
    hide InvCalls;
  }

  lemma NextRp1Out(s: State, a: Id, spurious: bool)
    requires Inv(s) && InvPassed(s) && InvRp1Out(s) && a in s.pcs && a in s.jobs
    ensures InvRp1Out(Next(s, a, spurious))
  {
    hide Inv, InvPassed, InvRp1Out, Advance;
    var pc' := Next(s, a, spurious).pcs[a];
    if s.pcs[a].Fill? {
      FillRp1Out(s, a, spurious);
    } else if Underway(s.pcs[a]) && pc'.DropRp1? {
      PassRp1Out(s, a, spurious);
    } else {
      QuietRp1Out(s, a, spurious);
    }
  }

  lemma FillRp1Out(s: State, a: Id, spurious: bool)
    requires Inv(s) && InvPassed(s) && InvRp1Out(s) && a in s.pcs && s.pcs[a].Fill?
    ensures InvRp1Out(Next(s, a, spurious))
  {
    hide InvCalls, InvRp1, Text, Rp1Underway;
    JobFits(s, a);
    WhoHolds(s, a);
    var s' := Next(s, a, spurious);
    FillKeeps(s, a, spurious);
    assert s.order[s.passed..s.passed] == [];
    NoText(s.jobs);
  }

  lemma FillKeeps(s: State, a: Id, spurious: bool)
    requires Inv(s) && a in s.pcs && s.pcs[a].Fill?
    ensures a in s.jobs && Rp1Underway(Next(s, a, spurious)) == Rp1Underway(s)
  {
    hide InvRp1;
    JobFits(s, a);
  }

  lemma PassRp1Out(s: State, a: Id, spurious: bool)
    requires Inv(s) && InvPassed(s) && InvRp1Out(s) && a in s.pcs && a in s.jobs
    requires Underway(s.pcs[a]) && Next(s, a, spurious).pcs[a].DropRp1?
    ensures InvRp1Out(Next(s, a, spurious))
  {
    hide InvCalls, InvRp1, Text;
    JobFits(s, a);
    WhoHolds(s, a);
    if s.board.rp1Open {
      var before := s.order[s.since..s.passed];
      Rp1Step(s.board, s.jobs[a], s.pcs[a], spurious, Text(s.jobs, before));
      assert s.order[s.since..s.passed + 1] == before + [a];
      TextLast(s.jobs, before, a);
    }
  }

  lemma QuietRp1Out(s: State, a: Id, spurious: bool)
    requires Inv(s) && InvPassed(s) && InvRp1Out(s) && a in s.pcs && a in s.jobs
    requires !s.pcs[a].Fill? && !(Underway(s.pcs[a]) && Next(s, a, spurious).pcs[a].DropRp1?)
    ensures InvRp1Out(Next(s, a, spurious))
  {
    hide InvCalls, InvRp1, Text;
    JobFits(s, a);
    WhoHolds(s, a);
    var s' := Next(s, a, spurious);
    assert s.passed <= |s.order| && s.since <= s.passed;
    assert s'.order[s.since..s.passed] == s.order[s.since..s.passed];
    var before := Text(s.jobs, s.order[s.since..s.passed]);
    Rp1Step(s.board, s.jobs[a], s.pcs[a], spurious, before);
    var m := MessageOf(s.jobs, a);
    assert m[..0] == "";
  }

  lemma NoText(jobs: map<Id, Job>)
    ensures Text(jobs, []) == ""
  {
  }

  // ----- the slots

  /** A printer that has been at the slot of the debug device. */
  predicate PastOpen(job: Job, pc: Pc) {
    job.Print? && !pc.WaitDebug? && !pc.OpenDebug?
  }

  /** A call that has filled the slot of the second device. */
  predicate PastFill(job: Job, pc: Pc) {
    job.Install? && !pc.WaitInstall? && !pc.Fill?
  }

  ghost predicate SomeoneOpened(s: State) {
    exists a :: a in s.pcs && a in s.jobs && PastOpen(s.jobs[a], s.pcs[a])
  }

  ghost predicate SomeoneFilled(s: State) {
    exists a :: a in s.pcs && a in s.jobs && PastFill(s.jobs[a], s.pcs[a])
  }

  /** The slot of the debug device is filled exactly if some printer has been at it, that of the second exactly if
      somebody has filled it. */
  ghost predicate InvSlots(s: State) {
    (s.board.debugOpen <==> SomeoneOpened(s)) && (s.board.rp1Open <==> SomeoneFilled(s))
  }

  /** One step: which slots it fills, and how far the call is then. */
  lemma SlotStep(b: Board, job: Job, pc: Pc, spurious: bool)
    requires Fitting(job, pc)
    ensures var (b', pc') := Advance(b, job, pc, spurious);
            && (b'.debugOpen <==> b.debugOpen || pc.OpenDebug?)
            && (b'.rp1Open <==> b.rp1Open || pc.Fill?)
            && (PastOpen(job, pc') <==> PastOpen(job, pc) || pc.OpenDebug?)
            && (PastFill(job, pc') <==> PastFill(job, pc) || pc.Fill?)
  {
  }

  lemma NextSlots(s: State, a: Id, spurious: bool)
    requires Inv(s) && InvSlots(s) && a in s.pcs && a in s.jobs
    ensures InvSlots(Next(s, a, spurious))
  {
    hide InvDebug, InvRp1, Advance, PastOpen, PastFill;
    JobFits(s, a);
    SlotStep(s.board, s.jobs[a], s.pcs[a], spurious);
    var s' := Next(s, a, spurious);
    forall c | c in s.pcs && c in s.jobs && c != a
      ensures s'.pcs[c] == s.pcs[c]
    {
    }
    if SomeoneOpened(s) {
      var c :| c in s.pcs && c in s.jobs && PastOpen(s.jobs[c], s.pcs[c]);
      assert PastOpen(s'.jobs[c], s'.pcs[c]);
    }
    if SomeoneFilled(s) {
      var c :| c in s.pcs && c in s.jobs && PastFill(s.jobs[c], s.pcs[c]);
      assert PastFill(s'.jobs[c], s'.pcs[c]);
    }
    assert s.pcs[a].OpenDebug? ==> PastOpen(s'.jobs[a], s'.pcs[a]);
    assert s.pcs[a].Fill? ==> PastFill(s'.jobs[a], s'.pcs[a]);
  }

  /** A device receives something only through its slot: the step that writes to it finds the slot filled, and the call
      that takes it holds the lock. */
  lemma WrittenThroughSlot(s: State, a: Id, spurious: bool)
    requires FullInv(s) && a in s.pcs && a in s.jobs
    ensures var s' := Next(s, a, spurious);
            && (s'.board.debugOut != s.board.debugOut ==> s.board.debugOpen && s.debugHolder == Some(a))
            && (s'.board.rp1Out != s.board.rp1Out ==>
                  s.board.rp1Open && s.debugHolder == Some(a) && s.rp1Holder == Some(a))
  {
    hide InvOrder, InvDebugOut, Text;
    JobFits(s, a);
    if s.pcs[a].WriteDebug? {
      assert PastOpen(s.jobs[a], s.pcs[a]);
    }
  }

  /** When the slot of the second device is filled first, exactly the printers that are done with that device will be
      missing from its output; afterwards that does not change. */
  lemma FirstFill(s: State, a: Id, spurious: bool)
    requires FullInv(s) && a in s.pcs && a in s.jobs
    ensures var s' := Next(s, a, spurious);
            && (!s.board.rp1Open && s'.board.rp1Open ==>
                  && s.pcs[a].Fill?
                  && s'.since == |s.order| - (if exists p :: p in s.pcs && Underway(s.pcs[p]) then 1 else 0))
            && (s.board.rp1Open ==> s'.board.rp1Open && s'.since == s.since)
  {
    hide InvOrder, InvDebugOut, InvRp1Out, InvSlots, Text;
    JobFits(s, a);
    SlotStep(s.board, s.jobs[a], s.pcs[a], spurious);
    if p :| p in s.pcs && Underway(s.pcs[p]) {
      assert s.debugHolder == Some(p);
    }
  }

  // ----- runs

  ghost predicate FullInv(s: State) {
    Inv(s) && InvOrder(s) && InvDebugOut(s) && InvPassed(s) && InvRp1Out(s) && InvSlots(s)
  }

  ghost predicate StepBy(s: State, s': State, a: Id, spurious: bool) {
    a in s.pcs && a in s.jobs && s' == Next(s, a, spurious)
  }

  ghost predicate Step(s: State, s': State) {
    exists a, spurious :: StepBy(s, s', a, spurious)
  }

  ghost predicate IsRun(run: seq<State>) {
    run != [] && Initial(run[0]) && forall i :: 0 <= i < |run| - 1 ==> Step(run[i], run[i + 1])
  }

  lemma InitialFullInv(s: State)
    requires Initial(s)
    ensures FullInv(s)
  {
    InitialInv(s);
    NoText(s.jobs);
    assert Printed(s) == [];
    assert forall a :: a in s.pcs && a in s.jobs ==> !PastOpen(s.jobs[a], s.pcs[a]) && !PastFill(s.jobs[a], s.pcs[a]);
  }

  lemma NextFullInv(s: State, a: Id, spurious: bool)
    requires FullInv(s) && a in s.pcs && a in s.jobs
    ensures FullInv(Next(s, a, spurious))
  {
    hide Inv, InvOrder, InvDebugOut, InvPassed, InvRp1Out, InvSlots, Next;
    NextInv(s, a, spurious);
    NextSlots(s, a, spurious);
    NextOrder(s, a, spurious);
    NextDebugOut(s, a, spurious);
    NextPassed(s, a, spurious);
    NextRp1Out(s, a, spurious);
  }

  lemma {:induction false} RunInv(run: seq<State>, i: nat)
    requires IsRun(run) && i < |run|
    ensures FullInv(run[i])
  {
    hide FullInv, Next, Initial;
    if i == 0 {
      InitialFullInv(run[0]);
    } else {
      RunInv(run, i - 1);
      assert Step(run[i - 1], run[i - 1 + 1]);
      var a, spurious :| StepBy(run[i - 1], run[i], a, spurious);
      NextFullInv(run[i - 1], a, spurious);
    }
  }

  /** Each lock is held by one call at most. */
  lemma LocksExclude(run: seq<State>, i: nat, a: Id, b: Id)
    requires IsRun(run) && i < |run| && a in run[i].pcs && b in run[i].pcs && a != b
    ensures !(HoldsDebug(run[i].pcs[a]) && HoldsDebug(run[i].pcs[b]))
    ensures !(HoldsRp1(run[i].pcs[a]) && HoldsRp1(run[i].pcs[b]))
  {
    RunInv(run, i);
  }

  ghost predicate AllDone(s: State) {
    forall a :: a in s.pcs ==> s.pcs[a].Done?
  }

  /** In every reachable state the slot of the debug device is filled exactly if some printer has been at it, and that
      of the second exactly if somebody has filled it. */
  lemma SlotsFilled(run: seq<State>, i: nat)
    requires IsRun(run) && i < |run|
    ensures run[i].board.debugOpen <==> SomeoneOpened(run[i])
    ensures run[i].board.rp1Open <==> SomeoneFilled(run[i])
  {
    hide Next, Initial, Inv, SomeoneOpened, SomeoneFilled;
    RunInv(run, i);
  }

  /** When all calls have ended, the debug device has received every message whole and once, in the order in which the
      calls took the first lock; and the second device the same text from some message on, or nothing if nobody has
      filled its slot. The slot of a device is filled exactly if there was a call to fill it. */
  lemma OutputsAtRest(run: seq<State>, i: nat)
    requires IsRun(run) && i < |run| && AllDone(run[i])
    ensures var s := run[i];
            && (forall a :: a in s.order <==> a in s.jobs && s.jobs[a].Print?)
            && (forall j, k :: 0 <= j < k < |s.order| ==> s.order[j] != s.order[k])
            && s.board.debugOut == Text(s.jobs, s.order)
            && s.since <= |s.order|
            && s.board.rp1Out == (if s.board.rp1Open then Text(s.jobs, s.order[s.since..]) else "")
            && s.board.debugOut == Text(s.jobs, s.order[..s.since]) + Text(s.jobs, s.order[s.since..])
            && (s.board.debugOpen <==> exists a :: a in s.jobs && s.jobs[a].Print?)
            && (s.board.rp1Open <==> exists a :: a in s.jobs && s.jobs[a].Install?)
  {
    hide Text, Next, Initial;
    RunInv(run, i);
    var s := run[i];
    SlotsAtRest(s);
    assert s.order[s.since..s.passed] == s.order[s.since..];
    TextSplit(s.jobs, s.order, s.since);
  }

  lemma SlotsAtRest(s: State)
    requires InvCalls(s) && InvSlots(s) && AllDone(s)
    ensures s.board.debugOpen <==> exists a :: a in s.jobs && s.jobs[a].Print?
    ensures s.board.rp1Open <==> exists a :: a in s.jobs && s.jobs[a].Install?
  {
    assert forall a :: a in s.jobs ==> a in s.pcs && (PastOpen(s.jobs[a], s.pcs[a]) <==> s.jobs[a].Print?);
    assert forall a :: a in s.jobs ==> a in s.pcs && (PastFill(s.jobs[a], s.pcs[a]) <==> s.jobs[a].Install?);
  }

  lemma {:induction false} TextSplit(jobs: map<Id, Job>, order: seq<Id>, k: nat)
    requires k <= |order|
    ensures Text(jobs, order) == Text(jobs, order[..k]) + Text(jobs, order[k..])
    decreases |order|
  {
    hide MessageOf;
    if k == |order| {
      assert order[..k] == order;
    } else {
      var rest := order[..|order| - 1];
      TextSplit(jobs, rest, k);
      assert rest[..k] == order[..k];
      assert order[k..][..|order[k..]| - 1] == rest[k..];
    }
  }

  // ----- progress

  function Solo(s: State, a: Id, n: nat): (s': State)
    requires a in s.pcs && a in s.jobs
    ensures s'.jobs == s.jobs && s'.pcs.Keys == s.pcs.Keys
    ensures forall b :: b in s.pcs && b != a ==> s'.pcs[b] == s.pcs[b]
    decreases n
  {
    if n == 0 then s else Solo(Next(s, a, false), a, n - 1)
  }

  /** The steps that a call has still to do if nothing keeps it waiting. */
  function Rank(pc: Pc, m: string): (n: nat)
    ensures n <= 8 + 2 * |m| && (n == 0 <==> pc.Done?)
  {
    match pc
    case WaitDebug => 8 + 2 * |m|
    case OpenDebug => 7 + 2 * |m|
    case WriteDebug(k) => if k <= |m| then 6 + 2 * |m| - k else 6 + |m|
    case WaitRp1 => 5 + |m|
    case CheckRp1 => 4 + |m|
    case WriteRp1(k) => if k <= |m| then 3 + |m| - k else 3
    case DropRp1 => 2
    case DropDebug => 1
    case WaitInstall => 3
    case Fill => 2
    case DropInstall => 1
    case Done => 0
  }

  /** Nothing that the call will need is held by another. */
  ghost predicate Unhindered(s: State, a: Id) {
    && Inv(s) && a in s.pcs && a in s.jobs
    && s.rp1Holder in [None, Some(a)]
    && (s.debugHolder in [None, Some(a)] || s.jobs[a].Install?)
  }

  lemma UnhinderedStep(s: State, a: Id)
    requires Unhindered(s, a) && !s.pcs[a].Done?
    ensures var s' := Next(s, a, false);
            && Unhindered(s', a) && s'.jobs == s.jobs
            && Rank(s'.pcs[a], MessageOf(s.jobs, a)) < Rank(s.pcs[a], MessageOf(s.jobs, a))
  {
    NextInv(s, a, false);
    hide InvCalls;
    JobFits(s, a);
  }

  lemma {:induction false} UnhinderedFinishes(s: State, a: Id) returns (n: nat)
    requires Unhindered(s, a)
    ensures n <= Rank(s.pcs[a], MessageOf(s.jobs, a))
    ensures Inv(Solo(s, a, n)) && Solo(s, a, n).pcs[a].Done?
    decreases Rank(s.pcs[a], MessageOf(s.jobs, a))
  {
    hide Inv, Next, Rank;
    n := 0;
    if !s.pcs[a].Done? {
      UnhinderedStep(s, a);
      n := UnhinderedFinishes(Next(s, a, false), a);
      n := n + 1;
    }
  }

  function Unfinished(s: State): set<Id> {
    set a | a in s.pcs && !s.pcs[a].Done?
  }

  /** Whatever the state, some call can be run to its end: the holder of the second lock, else that of the first, else
      any. */
  lemma SomeoneFinishes(s: State) returns (a: Id, n: nat)
    requires Inv(s) && Unfinished(s) != {}
    ensures a in Unfinished(s) && a in s.jobs && n <= 8 + 2 * |MessageOf(s.jobs, a)|
    ensures Inv(Solo(s, a, n)) && Unfinished(Solo(s, a, n)) == Unfinished(s) - {a}
  {
    hide Solo, Next;
    if s.rp1Holder.Some? {
      a := s.rp1Holder.value;
    } else if s.debugHolder.Some? {
      a := s.debugHolder.value;
    } else {
      a :| a in Unfinished(s);
    }
    n := UnhinderedFinishes(s, a);
  }

  function Scheduled(s: State, schedule: seq<(Id, nat)>): State
    requires forall e :: e in schedule ==> e.0 in s.pcs && e.0 in s.jobs
    decreases |schedule|
  {
    if schedule == [] then s else Scheduled(Solo(s, schedule[0].0, schedule[0].1), schedule[1..])
  }

  /** No deadlock: from every reachable state there is a schedule after which every call has ended, with one turn for
      each unfinished call, of at most eight steps and two for each character of its message. */
  lemma {:induction false} EveryoneFinishes(s: State) returns (schedule: seq<(Id, nat)>)
    requires Inv(s)
    ensures forall e :: e in schedule ==>
              e.0 in s.pcs && e.0 in s.jobs && e.1 <= 8 + 2 * |MessageOf(s.jobs, e.0)|
    ensures |schedule| == |Unfinished(s)|
    ensures Unfinished(Scheduled(s, schedule)) == {}
    decreases |Unfinished(s)|
  {
    hide Inv, Solo;
    if Unfinished(s) == {} {
      schedule := [];
    } else {
      var a, n := SomeoneFinishes(s);
      var rest := EveryoneFinishes(Solo(s, a, n));
      schedule := [(a, n)] + rest;
      assert schedule[1..] == rest;
    }
  }
}
