/** NUL-terminated strings and lists of them. */
module Strings {
  import opened Outcomes
  import opened Bytes

  predicate Within(b: byte, lo: byte, hi: byte) {
    lo <= b <= hi
  }

  predicate Continuation(b: byte) {
    Within(b, 0x80, 0xBF)
  }

  /** The length of the well-formed UTF-8 sequence that `s` starts with (table 3-7 of the Unicode standard),
      zero if there is none. */
  function SequenceLength(s: seq<byte>): (n: nat)
    ensures n <= |s|
  {
    if |s| >= 1 && s[0] < 0x80 then 1
    else if |s| >= 2 && Within(s[0], 0xC2, 0xDF) && Continuation(s[1]) then 2
    else if |s| >= 3 && Continuation(s[2]) &&
            (|| (s[0] == 0xE0 && Within(s[1], 0xA0, 0xBF))
             || (Within(s[0], 0xE1, 0xEC) && Continuation(s[1]))
             || (s[0] == 0xED && Within(s[1], 0x80, 0x9F))
             || (Within(s[0], 0xEE, 0xEF) && Continuation(s[1]))) then 3
    else if |s| >= 4 && Continuation(s[2]) && Continuation(s[3]) &&
            (|| (s[0] == 0xF0 && Within(s[1], 0x90, 0xBF))
             || (Within(s[0], 0xF1, 0xF3) && Continuation(s[1]))
             || (s[0] == 0xF4 && Within(s[1], 0x80, 0x8F))) then 4
    else 0
  }

  predicate Utf8(s: seq<byte>) {
    s == [] || (SequenceLength(s) > 0 && Utf8(s[SequenceLength(s)..]))
  }

  /** The contents a NUL-terminated `&str` can have. */
  predicate Clean(s: seq<byte>) {
    0 !in s && Utf8(s)
  }

  /** The index of the first NUL, the length of `view` if there is none. */
  function NulIndex(view: seq<byte>): (k: nat)
    ensures k <= |view| && (k < |view| ==> view[k] == 0)
    ensures forall i :: 0 <= i < k ==> view[i] != 0
  {
    if view == [] || view[0] == 0 then 0 else 1 + NulIndex(view[1..])
  }

  /** The string that starts at the front of `view`. */
  function CString(view: seq<byte>): (r: Result<seq<byte>>)
    ensures r.Ok? ==> |r.value| < |view|
  {
    var k := NulIndex(view);
    if k == |view| then Trap(OutOfBounds)
    else if !Utf8(view[..k]) then Err(NotUtf8)
    else Ok(view[..k])
  }

  /** `Dtb::read_char_str`. */
  function CStringAt(mem: seq<byte>, p: nat): (r: Result<seq<byte>>)
    ensures r.Ok? ==> p + |r.value| < |mem|
  {
    if p <= |mem| then CString(mem[p..]) else Trap(OutOfBounds)
  }

  lemma NulIndexUnique(view: seq<byte>, k: nat)
    requires k < |view| && view[k] == 0 && forall i :: 0 <= i < k ==> view[i] != 0
    ensures NulIndex(view) == k
  {
    var n := NulIndex(view);
    assert n >= k;
  }

  /** Reading a string succeeds exactly on a clean string followed by NUL. */
  lemma CStringExact(view: seq<byte>, s: seq<byte>)
    ensures CString(view) == Ok(s) <==> Clean(s) && s + [0] <= view
  {
    if Clean(s) && s + [0] <= view {
      assert view[|s|] == (s + [0])[|s|];
      assert view[..|s|] == (s + [0])[..|s|] == s;
      assert forall i :: 0 <= i < |s| ==> view[i] == s[i];
      NulIndexUnique(view, |s|);
    }
  }

  /** A result that does not depend on what follows `part`. */
  lemma CStringPrefix(part: seq<byte>, view: seq<byte>)
    requires part <= view && CString(part) != Trap(OutOfBounds)
    ensures CString(view) == CString(part)
  {
    var k := NulIndex(part);
    assert part[..k] == view[..k];
    NulIndexUnique(view, k);
  }

  /** The string that `CharStringIter` yields with `len` bytes of the property left. */
  function Item(view: seq<byte>, len: nat): (r: Result<seq<byte>>)
    ensures r.Ok? ==> |r.value| < |view| && |r.value| < len
  {
    var s :- CString(view);
    if |s| + 1 >= U32_LIMIT then Err(StringOverflow)
    else if |s| + 1 > len then Err(ListTooShort)
    else Ok(s)
  }

  /** All items of `CharStringIter` over the first `len` bytes of `view`, or the first failure. */
  function Items(view: seq<byte>, len: nat): Result<seq<seq<byte>>>
    decreases len
  {
    if len == 0 then
      Ok([])
    else
      var s :- Item(view, len);
      Prepended(s, Items(view[|s| + 1..], len - (|s| + 1)))
  }

  function Prepended(s: seq<byte>, rest: Result<seq<seq<byte>>>): Result<seq<seq<byte>>> {
    var ss :- rest;
    Ok([s] + ss)
  }

  /** How the first string of a list decides what the whole list reads as. */
  lemma FirstItem(view: seq<byte>, len: nat)
    ensures Items(view, len) ==
            if len == 0 then Ok([]) else
            match CString(view)
            case Err(e) => Err(e)
            case Trap(t) => Trap(t)
            case Ok(s) =>
              if |s| + 1 >= U32_LIMIT then Err(StringOverflow)
              else if |s| + 1 > len then Err(ListTooShort)
              else if len == |s| + 1 then Prepended(s, Ok([]))
              else Prepended(s, Items(view[|s| + 1..], len - (|s| + 1)))
  {
    hide Utf8, NulIndex;
  }

  /** The value of a string list property. */
  function Joined(ss: seq<seq<byte>>): seq<byte> {
    if ss == [] then [] else ss[0] + [0] + Joined(ss[1..])
  }

  ghost predicate AllClean(ss: seq<seq<byte>>) {
    forall s :: s in ss ==> Clean(s)
  }

  lemma {:induction false} ItemsSound(view: seq<byte>, len: nat)
    requires Items(view, len).Ok?
    ensures len <= |view| && view[..len] == Joined(Items(view, len).value) && AllClean(Items(view, len).value)
    decreases len
  {
    hide Utf8, NulIndex, CString, Item, Items;
    FirstItem(view, len);
    if len > 0 {
      var s := CString(view).value;
      var n := |s| + 1;
      CStringExact(view, s);
      assert view[..n] == s + [0];
      if n == len {
        assert Joined([s]) == s + [0] + Joined([]);
      } else {
        var rest := Items(view[n..], len - n).value;
        ItemsSound(view[n..], len - n);
        assert ([s] + rest)[1..] == rest;
        assert view[..len] == view[..n] + view[n..][..len - n];
      }
    }
  }

  lemma {:induction false} ItemsComplete(view: seq<byte>, ss: seq<seq<byte>>)
    requires Joined(ss) <= view && AllClean(ss) && |Joined(ss)| < U32_LIMIT
    ensures Items(view, |Joined(ss)|) == Ok(ss)
    decreases |ss|
  {
    hide Utf8, NulIndex, CString;
    if ss != [] {
      var s, rest := ss[0], Joined(ss[1..]);
      var n := |s| + 1;
      assert Joined(ss) == s + [0] + rest;
      assert s + [0] <= view;
      CStringExact(view, s);
      assert rest == Joined(ss)[n..] <= view[n..];
      ItemsComplete(view[n..], ss[1..]);
      assert |Joined(ss)| - n == |rest|;
      assert [s] + ss[1..] == ss;
    }
  }

  /** Every item is read exactly when the value is a concatenation of NUL-terminated valid strings, and the
      items are then those strings. */
  lemma ItemsExact(view: seq<byte>, len: nat, ss: seq<seq<byte>>)
    requires len < U32_LIMIT
    ensures Items(view, len) == Ok(ss) <==> len <= |view| && view[..len] == Joined(ss) && AllClean(ss)
  {
    if Items(view, len) == Ok(ss) {
      ItemsSound(view, len);
    }
    if len <= |view| && view[..len] == Joined(ss) && AllClean(ss) {
      ItemsComplete(view, ss);
    }
  }

  lemma ItemPrefix(part: seq<byte>, view: seq<byte>, len: nat)
    requires part <= view && Item(part, len) != Trap(OutOfBounds)
    ensures Item(view, len) == Item(part, len)
  {
    CStringPrefix(part, view);
  }

  lemma {:induction false} ItemsPrefix(part: seq<byte>, view: seq<byte>, len: nat)
    requires part <= view && Items(part, len) != Trap(OutOfBounds)
    ensures Items(view, len) == Items(part, len)
    decreases len
  {
    hide Item;
    if len > 0 {
      var r := Item(part, len);
      ItemPrefix(part, view, len);
      if r.Ok? {
        var n := |r.value| + 1;
        assert part[n..] <= view[n..];
        ItemsPrefix(part[n..], view[n..], len - n);
      }
    }
  }

  /** The library's iterator over the strings of a property value. */
  class CharStringIter {
    const mem: seq<byte>
    var pointer: nat
    var remainSize: nat

    constructor (mem: seq<byte>, pointer: nat, remainSize: nat)
      ensures this.mem == mem && this.pointer == pointer && this.remainSize == remainSize
    {
      this.mem := mem;
      this.pointer := pointer;
      this.remainSize := remainSize;
    }

    /** What the iterator has still to yield. */
    ghost function Remaining(): Result<seq<seq<byte>>>
      reads this
    {
      if remainSize == 0 then Ok([])
      else if pointer <= |mem| then Items(mem[pointer..], remainSize)
      else Trap(OutOfBounds)
    }

    /** Yields the next string and leaves the others, or yields the failure that ends the list. */
    method Next() returns (item: Option<Result<seq<byte>>>)
      modifies this
      ensures item == None <==> old(remainSize) == 0
      ensures item == None ==> Remaining() == old(Remaining()) == Ok([])
      ensures item.Some? && item.value.Ok? ==>
                && remainSize < old(remainSize)
                && old(Remaining()) == Prepended(item.value.value, Remaining())
      ensures item.Some? && !item.value.Ok? ==> old(Remaining()) == item.value.PropagateFailure()
    {
      hide Utf8, NulIndex, CString, Item, Items, Prepended;
      if remainSize == 0 {
        return None;
      }
      var str := CStringAt(mem, pointer);
      if pointer <= |mem| {
        FirstItem(mem[pointer..], remainSize);
      }
      if str.Ok? {
        var strSize := |str.value| + 1;
        assert mem[pointer..][strSize..] == mem[pointer + strSize..];
        pointer := pointer + strSize;
        if strSize >= U32_LIMIT {
          return Some(Err(StringOverflow));
        }
        if strSize > remainSize {
          return Some(Err(ListTooShort));
        }
        remainSize := remainSize - strSize;
      }
      return Some(str);
    }
  }
}
