/** Small value types and facts about sequences used throughout the model. */
module Util {

  datatype Option<+T> = None | Some(value: T)

  /** The set of elements of a sequence. */
  function Elems<T(==)>(s: seq<T>): set<T>
  {
    set x | x in s
  }

  /** No element occurs twice. */
  predicate NoDuplicates<T(==)>(s: seq<T>)
  {
    forall i, j :: 0 <= i < j < |s| ==> s[i] != s[j]
  }

  /** `s` lists every element of `e` exactly once, in some order. */
  predicate IsEnumeration<T(==)>(s: seq<T>, e: set<T>)
  {
    NoDuplicates(s) && Elems(s) == e
  }

  /** Some enumeration of a finite set (which one is left unspecified). */
  ghost function SomeEnumeration<T>(e: set<T>): (s: seq<T>)
    ensures IsEnumeration(s, e)
    decreases e
  {
    if e == {} then []
    else
      var x :| x in e;
      var rest := SomeEnumeration(e - {x});
      assert forall k :: 0 <= k < |rest| ==> rest[k] in e - {x};
      assert Elems([x] + rest) == {x} + Elems(rest);
      [x] + rest
  }

  /** A duplicate-free sequence has as many elements as its element set. */
  lemma {:induction false} DistinctCardinality<T>(s: seq<T>)
    requires NoDuplicates(s)
    ensures |Elems(s)| == |s|
  {
    if s != [] {
      var rest := s[1..];
      assert NoDuplicates(rest) by {
        forall i, j | 0 <= i < j < |rest| ensures rest[i] != rest[j] {
          assert rest[i] == s[i + 1] && rest[j] == s[j + 1];
        }
      }
      DistinctCardinality(rest);
      assert s[0] !in Elems(rest) by {
        forall k | 0 <= k < |rest| ensures rest[k] != s[0] {
          assert rest[k] == s[k + 1];
        }
      }
      assert Elems(s) == {s[0]} + Elems(rest) by {
        assert s == [s[0]] + rest;
      }
    }
  }
}
