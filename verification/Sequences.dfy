/**
 The kernel's intrusive lists, read as sequences: `list_add` is `[x] + s`, `list_del` is
 `Without(s, x)`. IntrusiveList.dfy shows that include/list.h implements exactly these.
 */
module Sequences {

  datatype Option<+T> = None | Some(value: T)

  ghost predicate NoDuplicates<T>(s: seq<T>) {
    forall i, j :: 0 <= i < j < |s| ==> s[i] != s[j]
  }

  /** The list `s` after unlinking its entry `x`. */
  function Without<T(==)>(s: seq<T>, x: T): (r: seq<T>)
    ensures x in s ==> |r| == |s| - 1
    ensures x !in s ==> r == s
  {
    if s == [] then [] else if s[0] == x then s[1..] else [s[0]] + Without(s[1..], x)
  }

  lemma {:induction false} WithoutMembers<T>(s: seq<T>, x: T)
    requires NoDuplicates(s)
    ensures NoDuplicates(Without(s, x))
    ensures forall y :: y in Without(s, x) <==> y in s && y != x
  {
    if s != [] {
      WithoutMembers(s[1..], x);
      assert s == [s[0]] + s[1..];
      if s[0] != x {
        var r := Without(s[1..], x);
        assert Without(s, x) == [s[0]] + r;
        assert s[0] !in s[1..];
        forall i, j | 0 <= i < j < |Without(s, x)| ensures Without(s, x)[i] != Without(s, x)[j] {
          assert r[j - 1] in r;
        }
      }
    }
  }

  lemma PushMembers<T>(s: seq<T>, x: T)
    requires NoDuplicates(s) && x !in s
    ensures NoDuplicates([x] + s)
    ensures forall y :: y in [x] + s <==> y in s || y == x
  {
  }

  lemma AppendMembers<T>(s: seq<T>, t: seq<T>)
    requires NoDuplicates(s) && NoDuplicates(t) && forall x :: !(x in s && x in t)
    ensures NoDuplicates(s + t)
    ensures forall x :: x in s + t <==> x in s || x in t
  {
    forall i, j | 0 <= i < j < |s + t| ensures (s + t)[i] != (s + t)[j] {
      if i < |s| <= j { assert s[i] in s && t[j - |s|] in t; }
    }
  }

  function Reverse<T>(s: seq<T>): (r: seq<T>)
    ensures |r| == |s|
  {
    if s == [] then [] else [s[|s| - 1]] + Reverse(s[..|s| - 1])
  }

  lemma {:induction false} ReversePush<T>(s: seq<T>, x: T)
    ensures Reverse([x] + s) == Reverse(s) + [x]
  {
    if s != [] {
      ReversePush(s[..|s| - 1], x);
      assert ([x] + s)[..|s|] == [x] + s[..|s| - 1];
    }
  }

  lemma ReverseAppend<T>(s: seq<T>, x: T)
    ensures Reverse(s + [x]) == [x] + Reverse(s)
  {
    assert (s + [x])[..|s|] == s;
  }

  lemma {:induction false} ReverseMembers<T>(s: seq<T>)
    requires NoDuplicates(s)
    ensures NoDuplicates(Reverse(s)) && forall x :: x in Reverse(s) <==> x in s
  {
    if s != [] {
      var rest, last := s[..|s| - 1], s[|s| - 1];
      ReverseMembers(rest);
      assert s == rest + [last];
      PushMembers(Reverse(rest), last);
    }
  }
}
