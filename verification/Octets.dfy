/** Octets and the small arithmetic shared by the size and codec modules. */
module Octets {

  type byte = x: int | 0 <= x < 256

  const TWO_16 := 0x1_0000
  const TWO_32 := 0x1_0000_0000
  const TWO_64 := 0x1_0000_0000_0000_0000
  const INT32_MAX := 0x7FFF_FFFF

  datatype Option<+T> = None | Some(value: T)

  function Min(a: int, b: int): int {
    if b < a then b else a
  }

  function Sum(s: seq<nat>): nat {
    if s == [] then 0 else s[0] + Sum(s[1..])
  }

  function Concat<T>(ss: seq<seq<T>>): seq<T> {
    if ss == [] then [] else ss[0] + Concat(ss[1..])
  }

  /** `p` put in front of a sequence, if there is one. */
  function Prefixed<T>(p: seq<T>, s: Option<seq<T>>): Option<seq<T>> {
    match s case None => None case Some(v) => Some(p + v)
  }

  lemma PrefixedNothing<T>(s: Option<seq<T>>)
    ensures Prefixed([], s) == s
  {
    if s.Some? {
      assert [] + s.value == s.value;
    }
  }

  lemma PrefixedTwice<T>(p: seq<T>, q: seq<T>, s: Option<seq<T>>)
    ensures Prefixed(p, Prefixed(q, s)) == Prefixed(p + q, s)
  {
    if s.Some? {
      assert p + (q + s.value) == p + q + s.value;
    }
  }

  lemma {:induction false} SumAppend(s: seq<nat>, t: seq<nat>)
    ensures Sum(s + t) == Sum(s) + Sum(t)
  {
    if s == [] {
      assert s + t == t;
    } else {
      SumAppend(s[1..], t);
      assert (s + t)[1..] == s[1..] + t;
    }
  }

  lemma {:induction false} ConcatAppend<T>(s: seq<seq<T>>, t: seq<seq<T>>)
    ensures Concat(s + t) == Concat(s) + Concat(t)
  {
    if s == [] {
      assert s + t == t;
    } else {
      ConcatAppend(s[1..], t);
      assert (s + t)[1..] == s[1..] + t;
      assert s[0] + (Concat(s[1..]) + Concat(t)) == s[0] + Concat(s[1..]) + Concat(t);
    }
  }

  lemma ConcatOne<T>(s: seq<T>)
    ensures Concat([s]) == s
  {
    assert [s][1..] == [];
    assert s + [] == s;
  }

  lemma ConcatAround<T>(ss: seq<seq<T>>, i: nat)
    requires i < |ss|
    ensures multiset(Concat(ss)) == multiset(ss[i]) + multiset(Concat(ss[..i] + ss[i + 1..]))
  {
    hide Concat;
    assert ss == ss[..i] + ([ss[i]] + ss[i + 1..]);
    ConcatAppend(ss[..i], [ss[i]] + ss[i + 1..]);
    ConcatAppend([ss[i]], ss[i + 1..]);
    ConcatOne(ss[i]);
    ConcatAppend(ss[..i], ss[i + 1..]);
  }
}
