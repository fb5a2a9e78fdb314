/** Python list operations on sequences: `list(some_set)`, `l.remove(x)`, and
    the list that remains once some elements have been removed. */
module Collections {
  import opened Results

  predicate Distinct<T(==)>(s: seq<T>)
  {
    forall i, j | 0 <= i < j < |s| :: s[i] != s[j]
  }

  /** `list(s)` for a set: its elements once each, in an order the model
      leaves open (Python's set iteration order is an implementation
      detail). */
  method SetToSeq<T(==)>(s: set<T>) returns (r: seq<T>)
    ensures Distinct(r)
    ensures forall x :: x in r <==> x in s
  {
    r := [];
    var rest := s;
    while rest != {}
      invariant rest <= s
      invariant Distinct(r)
      invariant forall x :: x in r <==> x in s && x !in rest
      decreases |rest|
    {
      var x :| x in rest;
      r := r + [x];
      rest := rest - {x};
    }
  }

  /** `set(s)`. */
  function Elems<T>(s: seq<T>): set<T>
  {
    set x | x in s
  }

  /** `[x for x in s if x not in xs]`. */
  function Except<T(==)>(s: seq<T>, xs: set<T>): seq<T>
  {
    if s == [] then []
    else (if s[0] in xs then [] else [s[0]]) + Except(s[1..], xs)
  }

  /** What Except keeps: exactly the elements of `s` outside `xs`. */
  lemma {:induction false} ExceptMembers<T>(s: seq<T>, xs: set<T>)
    ensures forall x :: x in Except(s, xs) <==> x in s && x !in xs
  {
    if s != [] {
      ExceptMembers(s[1..], xs);
      assert forall x :: x in s <==> x == s[0] || x in s[1..];
    }
  }

  /** Except keeps a list without repeats free of repeats. */
  lemma {:induction false} ExceptDistinct<T>(s: seq<T>, xs: set<T>)
    requires Distinct(s)
    ensures Distinct(Except(s, xs))
  {
    if s != [] {
      assert Distinct(s[1..]) by {
        forall i, j | 0 <= i < j < |s| - 1 ensures s[1..][i] != s[1..][j] {
          assert s[1..][i] == s[i + 1] && s[1..][j] == s[j + 1];
        }
      }
      ExceptDistinct(s[1..], xs);
      ExceptMembers(s[1..], xs);
      var t := Except(s[1..], xs);
      if s[0] !in xs {
        assert s[0] !in s[1..] by {
          forall k | 0 <= k < |s| - 1 ensures s[1..][k] != s[0] {
            assert s[1..][k] == s[k + 1];
          }
        }
        forall i, j | 0 <= i < j < |t| + 1 ensures ([s[0]] + t)[i] != ([s[0]] + t)[j] {
          if i > 0 {
            assert ([s[0]] + t)[i] == t[i - 1];
          }
          assert ([s[0]] + t)[j] == t[j - 1];
        }
      } else {
        assert Except(s, xs) == t;
      }
    }
  }

  /** `l.remove(x)`: drops the first `x`, or None where Python raises
      ValueError because `x` is not in the list. */
  function RemoveFirst<T(==)>(s: seq<T>, x: T): (r: Option<seq<T>>)
    ensures r.None? <==> x !in s
  {
    if s == [] then None
    else if s[0] == x then Some(s[1..])
    else
      match RemoveFirst(s[1..], x)
      case None => None
      case Some(t) => Some([s[0]] + t)
  }

  /** What `remove` leaves: the list with its first `x`, at `k`, cut out. */
  lemma {:induction false} RemoveFirstCuts<T>(s: seq<T>, x: T, k: nat)
    requires k < |s| && s[k] == x && x !in s[..k]
    ensures RemoveFirst(s, x) == Some(s[..k] + s[k + 1..])
  {
    if k == 0 {
      assert s[..0] + s[0 + 1..] == s[1..];
    } else {
      assert s[0] == s[..k][0];
      assert s[1..][k - 1] == x && x !in s[1..][..k - 1] by {
        assert s[1..][..k - 1] == s[1..k];
      }
      RemoveFirstCuts(s[1..], x, k - 1);
      assert s[..k] + s[k + 1..] == [s[0]] + (s[1..][..k - 1] + s[1..][k..]);
    }
  }

  /** On a list without repeats, removing a further element `x` that is
      still present is the same as leaving `x` out from the start. */
  lemma {:induction false} RemoveExcept<T>(s: seq<T>, xs: set<T>, x: T)
    requires Distinct(s) && x in s && x !in xs
    ensures RemoveFirst(Except(s, xs), x) == Some(Except(s, xs + {x}))
  {
    assert Distinct(s[1..]) by {
      forall i, j | 0 <= i < j < |s| - 1 ensures s[1..][i] != s[1..][j] {
        assert s[1..][i] == s[i + 1] && s[1..][j] == s[j + 1];
      }
    }
    if s[0] == x {
      assert x !in s[1..] by {
        forall k | 0 <= k < |s| - 1 ensures s[1..][k] != x {
          assert s[1..][k] == s[k + 1];
        }
      }
      ExceptIgnores(s[1..], xs, x);
      var e := Except(s[1..], xs);
      assert Except(s, xs) == [x] + e;
      assert ([x] + e)[1..] == e;
      assert Except(s, xs + {x}) == [] + e;
      assert [] + e == e;
    } else {
      RemoveExcept(s[1..], xs, x);
      if s[0] !in xs {
        assert Except(s, xs) == [s[0]] + Except(s[1..], xs);
        assert Except(s, xs)[1..] == Except(s[1..], xs);
        assert Except(s, xs + {x}) == [s[0]] + Except(s[1..], xs + {x});
      } else {
        assert Except(s, xs) == Except(s[1..], xs);
        assert Except(s, xs + {x}) == Except(s[1..], xs + {x});
      }
    }
  }

  /** Leaving out an element that does not occur changes nothing. */
  lemma {:induction false} ExceptIgnores<T>(s: seq<T>, xs: set<T>, x: T)
    requires x !in s
    ensures Except(s, xs + {x}) == Except(s, xs)
  {
    if s != [] {
      ExceptIgnores(s[1..], xs, x);
    }
  }

  /** Leaving out nothing keeps the whole list. */
  lemma {:induction false} ExceptNothing<T>(s: seq<T>)
    ensures Except(s, {}) == s
  {
    if s != [] {
      ExceptNothing(s[1..]);
    }
  }
}
