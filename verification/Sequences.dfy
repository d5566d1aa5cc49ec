/** Sets, repetitions and concatenations of sequences. */
module Sequences {
  function Elements<T>(s: seq<T>): set<T> { set x | x in s }

  lemma ElementsCons<T>(first: T, rest: seq<T>)
    ensures Elements([first] + rest) == {first} + Elements(rest)
  {
  }

  predicate Distinct<T(==)>(s: seq<T>) {
    forall i, j :: 0 <= i < j < |s| ==> s[i] != s[j]
  }

  lemma {:induction false} DistinctCount<T>(s: seq<T>)
    ensures |Elements(s)| <= |s|
    ensures Distinct(s) <==> |Elements(s)| == |s|
  {
    if s != [] {
      var rest := s[1..];
      DistinctCount(rest);
      assert Elements(s) == {s[0]} + Elements(rest);
      if s[0] in rest {
        var i :| 0 <= i < |rest| && rest[i] == s[0];
        assert s[0] == s[i + 1] && Elements(s) == Elements(rest);
      } else {
        assert forall i, j :: 0 <= i < j < |rest| ==> s[i + 1] == rest[i] && s[j + 1] == rest[j];
        assert Distinct(rest) ==> Distinct(s);
        if Distinct(s) {
          forall i, j | 0 <= i < j < |rest| ensures rest[i] != rest[j] {
            assert s[i + 1] != s[j + 1];
          }
        }
      }
    }
  }

  lemma {:induction false} DistinctMultiset<T>(s: seq<T>)
    requires Distinct(s)
    ensures multiset(s) == multiset(Elements(s))
  {
    if s != [] {
      var rest := s[1..];
      assert s == [s[0]] + rest;
      forall i, j | 0 <= i < j < |rest| ensures rest[i] != rest[j] {
        assert s[i + 1] != s[j + 1];
      }
      DistinctMultiset(rest);
      assert Elements(s) == {s[0]} + Elements(rest);
      assert s[0] !in rest;
    }
  }

  lemma {:induction false} SubsetSize<T>(a: set<T>, b: set<T>)
    requires a <= b
    ensures |a| <= |b|
    decreases a
  {
    if a != {} {
      var x :| x in a;
      SubsetSize(a - {x}, b - {x});
    }
  }

  function Concat<T>(parts: seq<seq<T>>): seq<T> {
    if parts == [] then [] else parts[0] + Concat(parts[1..])
  }

  lemma {:induction false} ConcatAppend<T>(parts: seq<seq<T>>, last: seq<T>)
    ensures Concat(parts + [last]) == Concat(parts) + last
  {
    if parts == [] {
      assert [last][1..] == [];
    } else {
      assert (parts + [last])[1..] == parts[1..] + [last];
      ConcatAppend(parts[1..], last);
    }
  }
}
