/** How a property fails: which error, or which read past the end of memory, and exactly when. */
module Faults {
  import opened Outcomes
  import opened Bytes
  import opened Strings
  import opened Nodes
  import opened Trees
  import opened Meaning

  // ----- one string

  /** A string that is not valid UTF-8 stands at the front. */
  ghost predicate BadString(view: seq<byte>) {
    exists s :: 0 !in s && !Utf8(s) && s + [0] <= view
  }

  lemma CStringFault(view: seq<byte>)
    ensures CString(view) == Err(NotUtf8) <==> BadString(view)
    ensures CString(view) == Trap(OutOfBounds) <==> 0 !in view
    ensures CString(view).Ok? || CString(view) in [Err(NotUtf8), Trap(OutOfBounds)]
  {
    hide Utf8;
    var k := NulIndex(view);
    if k < |view| {
      assert view[..k] + [0] <= view && 0 !in view[..k];
      forall s | 0 !in s && s + [0] <= view
        ensures s == view[..k]
      {
        assert view[|s|] == (s + [0])[|s|] && view[..|s|] == (s + [0])[..|s|] == s;
        assert forall i :: 0 <= i < |s| ==> view[i] == s[i];
        NulIndexUnique(view, |s|);
      }
    } else {
      NulNeeded(view);
    }
  }

  lemma NulNeeded(view: seq<byte>)
    ensures BadString(view) ==> 0 in view
  {
    hide Utf8;
    if BadString(view) {
      var s :| 0 !in s && !Utf8(s) && s + [0] <= view;
      assert view[|s|] == (s + [0])[|s|];
    }
  }

  // ----- a list of strings

  /** How the first string of a list fails, with `left` bytes of the list to go. */
  ghost predicate StringFails(view: seq<byte>, left: nat, how: Result<()>) {
    match how
    case Err(NotUtf8) => BadString(view)
    case Trap(OutOfBounds) => 0 !in view
    case Err(StringOverflow) => exists s :: Clean(s) && s + [0] <= view && |s| + 1 >= U32_LIMIT
    case Err(ListTooShort) => exists s :: Clean(s) && s + [0] <= view && left < |s| + 1 < U32_LIMIT
    case _ => false
  }

  /** The strings `ss` stand at the front, and the list goes on behind them. */
  ghost predicate GoesOn(view: seq<byte>, len: nat, ss: seq<seq<byte>>) {
    AllClean(ss) && Joined(ss) <= view && |Joined(ss)| < len
  }

  /** The first string of the list that fails, after others that are read, fails in this way. */
  ghost predicate ListFails(view: seq<byte>, len: nat, how: Result<()>) {
    exists ss :: GoesOn(view, len, ss) && StringFails(view[|Joined(ss)|..], len - |Joined(ss)|, how)
  }

  function Unit<T>(r: Result<T>): Result<()> {
    match r
    case Ok(_) => Ok(())
    case Err(e) => Err(e)
    case Trap(t) => Trap(t)
  }

  /** Over a string that is read, a list fails as what is behind it. */
  lemma ListStep(view: seq<byte>, len: nat, s: seq<byte>)
    requires Clean(s) && s + [0] <= view && |s| + 1 < len < U32_LIMIT
    ensures Unit(Items(view, len)) == Unit(Items(view[|s| + 1..], len - (|s| + 1)))
  {
    hide Utf8, CString, Item, Items, Clean;
    CStringExact(view, s);
    FirstItem(view, len);
  }

  lemma {:induction false} ListAfter(view: seq<byte>, len: nat, ss: seq<seq<byte>>)
    requires GoesOn(view, len, ss) && len < U32_LIMIT
    ensures Unit(Items(view, len)) == Unit(Items(view[|Joined(ss)|..], len - |Joined(ss)|))
    decreases |ss|
  {
    hide Items, Clean;
    if ss == [] {
      assert view[0..] == view;
    } else {
      var s, n := ss[0], |ss[0]| + 1;
      var joined := Joined(ss[1..]);
      assert Joined(ss) == s + [0] + joined;
      assert s + [0] <= view && joined == Joined(ss)[n..] <= view[n..];
      ListStep(view, len, s);
      ListAfter(view[n..], len - n, ss[1..]);
      assert view[n..][|joined|..] == view[|Joined(ss)|..];
    }
  }

  /** The first string of a list that goes on: how it fails is how the list fails. */
  lemma FirstFails(view: seq<byte>, len: nat, how: Result<()>)
    requires 0 < len < U32_LIMIT && StringFails(view, len, how)
    ensures Unit(Items(view, len)) == how
  {
    hide Utf8, CString, Item, Items, Clean, BadString;
    CStringFault(view);
    FirstItem(view, len);
    if how == Err(StringOverflow) {
      var s :| Clean(s) && s + [0] <= view && |s| + 1 >= U32_LIMIT;
      CStringExact(view, s);
    } else if how == Err(ListTooShort) {
      var s :| Clean(s) && s + [0] <= view && len < |s| + 1 < U32_LIMIT;
      CStringExact(view, s);
    }
  }

  /** Every list that fails has such a string. */
  lemma {:induction false} FailingString(view: seq<byte>, len: nat) returns (ss: seq<seq<byte>>)
    requires len < U32_LIMIT && !Items(view, len).Ok?
    ensures GoesOn(view, len, ss)
    ensures StringFails(view[|Joined(ss)|..], len - |Joined(ss)|, Unit(Items(view, len)))
    decreases len
  {
    hide Utf8, CString, Item, Items, Clean, BadString;
    ss := [];
    assert view[|Joined(ss)|..] == view;
    CStringFault(view);
    FirstItem(view, len);
    if CString(view).Ok? {
      var s := CString(view).value;
      var n := |s| + 1;
      CStringExact(view, s);
      if n < len {
        ListStep(view, len, s);
        var rest := FailingString(view[n..], len - n);
        ss := [s] + rest;
        OneMore(view, len, s, rest);
      }
    }
  }

  lemma OneMore(view: seq<byte>, len: nat, s: seq<byte>, rest: seq<seq<byte>>)
    requires Clean(s) && s + [0] <= view && |s| + 1 < len && GoesOn(view[|s| + 1..], len - (|s| + 1), rest)
    ensures GoesOn(view, len, [s] + rest) && |Joined([s] + rest)| == |s| + 1 + |Joined(rest)|
    ensures view[|s| + 1..][|Joined(rest)|..] == view[|Joined([s] + rest)|..]
  {
    hide Clean;
    assert ([s] + rest)[1..] == rest;
    assert Joined([s] + rest) == s + [0] + Joined(rest);
    assert view == view[..|s| + 1] + view[|s| + 1..] && view[..|s| + 1] == s + [0];
  }

  /** A list fails in a given way exactly if the first of its strings that fails does so. */
  lemma ListFaultExact(view: seq<byte>, len: nat, how: Result<()>)
    requires len < U32_LIMIT && !how.Ok?
    ensures Unit(Items(view, len)) == how <==> ListFails(view, len, how)
  {
    hide Items, StringFails, Joined, AllClean;
    if Unit(Items(view, len)) == how {
      var ss := FailingString(view, len);
    }
    if ListFails(view, len, how) {
      var ss :| GoesOn(view, len, ss) && StringFails(view[|Joined(ss)|..], len - |Joined(ss)|, how);
      ListAfter(view, len, ss);
      FirstFails(view[|Joined(ss)|..], len - |Joined(ss)|, how);
    }
  }

  // ----- one property

  /** How the property fails, told from its kind, its value and what is behind it in memory. */
  ghost predicate PropFails(up: Chain, q: Query, kind: Kind, view: seq<byte>, len: nat, how: Result<()>) {
    match kind
    case AddressCells | SizeCells =>
      if |view| < 4 then how == Trap(OutOfBounds) else len < 4 && how == Err(InvalidSize)
    case Compatible => q.compatible.Some? && ListFails(view, len, how)
    case DeviceType =>
      && q.deviceName.Some?
      && (|| (how == Err(NotUtf8) && BadString(view))
          || (how == Trap(OutOfBounds) && 0 !in view))
    case RegList =>
      if up.Top? then how == Err(RegAtRoot) else len < Stride(up) && how == Err(InvalidSize)
    case _ => false
  }

  /** A property fails in a given way exactly under the condition for its kind, whatever the record so far. */
  lemma AbsorbFaultExact(n: Node, up: Chain, q: Query, kind: Kind, view: seq<byte>, len: nat, how: Result<()>)
    requires len < U32_LIMIT && !how.Ok?
    ensures Unit(Absorb(n, up, q, kind, view, len)) == how <==> PropFails(up, q, kind, view, len, how)
  {
    hide Items, CString, ListFails, BadString, BigEndian, Stride;
    match kind
    case Compatible => ListFaultExact(view, len, how);
    case DeviceType => CStringFault(view);
    case _ =>
  }

  /** The properties of a node fail as the first of them that does not read. */
  lemma {:induction false} AbsorbAllFault(ps: seq<Prop>, n: Node, up: Chain, q: Query, found: bool) returns (i: nat)
    requires Small(ps) && !AbsorbAll(ps, n, up, q, found).Ok?
    ensures i < |ps| && forall j :: 0 <= j < i ==> PropReads(ps[j], up, q)
    ensures PropFails(up, q, KindOf(ps[i].name), ps[i].value, |ps[i].value|, Unit(AbsorbAll(ps, n, up, q, found)))
    decreases |ps|
  {
    hide Absorb, KindOf, PropReads, PropFails;
    var p := ps[0];
    AbsorbExact(n, up, q, p);
    var absorbed := Absorb(n, up, q, KindOf(p.name), p.value, |p.value|);
    if absorbed.Ok? {
      i := AbsorbAllFault(ps[1..], absorbed.value.0, up, q, found || absorbed.value.1);
      i := i + 1;
    } else {
      AbsorbFaultExact(n, up, q, KindOf(p.name), p.value, |p.value|, Unit(absorbed));
      i := 0;
    }
  }
}
