/**
  Sequence and key-set helpers shared by the form components: order-preserving
  filtering, distinctness, and the ascending enumeration of integer keys that
  JavaScript uses for `Object.values` on an object keyed by array indices.
 */
module Collections {

  /** `sub` is obtained from `s` by deleting elements, keeping the order of the rest. */
  predicate IsSubsequence<T(==)>(sub: seq<T>, s: seq<T>)
  {
    sub == [] ||
    (s != [] && ((sub[0] == s[0] && IsSubsequence(sub[1..], s[1..])) || IsSubsequence(sub, s[1..])))
  }

  lemma {:induction false} SubsequenceReflexive<T>(s: seq<T>)
    ensures IsSubsequence(s, s)
  {
    if s != [] {
      SubsequenceReflexive(s[1..]);
    }
  }

  /** No element occurs twice. */
  predicate Distinct<T(==)>(s: seq<T>)
  {
    forall i, j :: 0 <= i < j < |s| ==> s[i] != s[j]
  }

  predicate StrictlyIncreasing(s: seq<nat>)
  {
    forall i, j :: 0 <= i < j < |s| ==> s[i] < s[j]
  }

  /** `s.filter(y => y !== x)`: every occurrence of `x` dropped, the rest kept in order. */
  function Without(s: seq<nat>, x: nat): (r: seq<nat>)
    ensures forall y :: y in r <==> y in s && y != x
    ensures IsSubsequence(r, s)
    ensures x !in s ==> r == s
    ensures Distinct(s) ==> Distinct(r)
  {
    if s == [] then []
    else if s[0] == x then Without(s[1..], x)
    else
      var rest := Without(s[1..], x);
      assert Distinct(s) ==> s[0] !in s[1..] && Distinct(s[1..]) by {
        if Distinct(s) {
          forall i | 0 <= i < |s[1..]| ensures s[1..][i] != s[0] {
            assert s[1..][i] == s[i + 1];
          }
        }
      }
      [s[0]] + rest
  }

  /** `Without` drops every occurrence of `x` and keeps every other element as often as it occurs. */
  lemma {:induction false} WithoutOccurrences(s: seq<nat>, x: nat)
    ensures forall y :: multiset(Without(s, x))[y] == if y == x then 0 else multiset(s)[y]
  {
    if s != [] {
      WithoutOccurrences(s[1..], x);
      assert s == [s[0]] + s[1..];
    }
  }

  /** Every non-empty key set has a least element. */
  lemma {:induction false} LeastElement(ks: set<nat>) returns (m: nat)
    requires ks != {}
    ensures m in ks && forall k :: k in ks ==> m <= k
    decreases |ks|
  {
    var x :| x in ks;
    var rest := ks - {x};
    if rest == {} {
      m := x;
    } else {
      var r := LeastElement(rest);
      m := if x < r then x else r;
    }
    forall k | k in ks
      ensures m <= k
    {
      if k != x {
        assert k in rest;
      }
    }
  }

  lemma MinExists(ks: set<nat>)
    requires ks != {}
    ensures exists m :: m in ks && forall k :: k in ks ==> m <= k
  {
    var m := LeastElement(ks);
  }

  /** The least key of a non-empty key set. */
  function MinOf(ks: set<nat>): (m: nat)
    requires ks != {}
    ensures m in ks && forall k :: k in ks ==> m <= k
  {
    MinExists(ks);
    var m :| m in ks && forall k :: k in ks ==> m <= k; m
  }

  /** The keys of `ks` in ascending order: the enumeration order of integer keys in JavaScript. */
  function Ascending(ks: set<nat>): (s: seq<nat>)
    ensures |s| == |ks|
    ensures forall k :: k in s <==> k in ks
    ensures StrictlyIncreasing(s)
    decreases |ks|
  {
    if ks == {} then []
    else
      var m := MinOf(ks);
      var rest := Ascending(ks - {m});
      PrependLeast(m, rest);
      [m] + rest
  }

  lemma PrependLeast(m: nat, rest: seq<nat>)
    requires StrictlyIncreasing(rest)
    requires forall k :: k in rest ==> m < k
    ensures StrictlyIncreasing([m] + rest)
  {
    var s := [m] + rest;
    forall i, j | 0 <= i < j < |s|
      ensures s[i] < s[j]
    {
      assert s[j] == rest[j - 1];
      if i == 0 {
        assert rest[j - 1] in rest;
      } else {
        assert s[i] == rest[i - 1];
      }
    }
  }
}
