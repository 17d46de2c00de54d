/**
 * Unspecified iteration orders. `HashMap.entrySet()` and `DirectoryStream`
 * visit their elements in an order nobody promises; the model lets such an
 * order be any listing of the underlying set.
 */
module Orders {

  /** `s` lists every element of `S` exactly once. */
  ghost predicate Enumerates<T>(s: seq<T>, S: set<T>) {
    && (forall i, j :: 0 <= i < j < |s| ==> s[i] != s[j])
    && (forall x :: x in s ==> x in S)
    && (forall x :: x in S ==> x in s)
  }

  /** Some listing of `S`, chosen nondeterministically one element at a time. */
  method Enumerate<T(==)>(S: set<T>) returns (s: seq<T>)
    ensures Enumerates(s, S)
  {
    s := [];
    var rest := S;
    while rest != {}
      invariant rest <= S
      invariant forall x :: x in s <==> x in S && x !in rest
      invariant forall i, j :: 0 <= i < j < |s| ==> s[i] != s[j]
      decreases rest
    {
      var x :| x in rest;
      s := s + [x];
      rest := rest - {x};
    }
  }

  /** The only listing of a one-element set. */
  lemma EnumeratesSingleton<T>(s: seq<T>, x: T)
    requires Enumerates(s, {x})
    ensures s == [x]
  {
    assert x in s;
    var i :| 0 <= i < |s| && s[i] == x;
    assert s[0] in s && s[|s| - 1] in s;
  }

  /** A listing is exactly as long as the set it lists. */
  lemma {:induction false} EnumeratesSize<T>(s: seq<T>, S: set<T>)
    requires Enumerates(s, S)
    ensures |s| == |S|
    decreases |s|
  {
    if s == [] {
      assert S == {};
    } else {
      var x := s[|s| - 1];
      var t := s[..|s| - 1];
      assert forall y :: y in t ==> y in s && y != x;
      assert forall y :: y in S - {x} ==> y in t by {
        forall y | y in S - {x}
          ensures y in t
        {
          var i :| 0 <= i < |s| && s[i] == y;
          assert i < |s| - 1 && t[i] == y;
        }
      }
      EnumeratesSize(t, S - {x});
    }
  }
}
