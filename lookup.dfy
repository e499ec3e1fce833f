/**
 * Structural member lookup: the LINQ queries `First`, `Single` and `Where`
 * that the patch engine runs over a type's fields, properties and methods,
 * keyed on a predicate such as "the declared type name is BinderFlags".
 *
 * `First` and `Single` throw in the engine when they cannot answer; here the
 * failure is a value, so the zero-match and the many-match cases stay visible.
 */
module Lookup {

  /** The answer of a query that expects one member. */
  datatype Lookup<T> = Found(value: T) | NotFound | Ambiguous

  datatype Option<T> = None | Some(value: T)

  /** The index of the earliest element satisfying `p`, if there is one. */
  function FirstIndex<T>(xs: seq<T>, p: T -> bool): (r: Option<nat>)
    ensures r.None? <==> forall i :: 0 <= i < |xs| ==> !p(xs[i])
    ensures r.Some? ==> r.value < |xs| && p(xs[r.value])
    ensures r.Some? ==> forall j :: 0 <= j < r.value ==> !p(xs[j])
  {
    if xs == [] then None
    else if p(xs[0]) then Some(0)
    else match FirstIndex(xs[1..], p)
      case None => None
      case Some(i) => Some(i + 1)
  }

  /**
   * `Enumerable.First(pred)`: the earliest match; it fails only when nothing
   * matches (it never reports `Ambiguous`).
   */
  function First<T>(xs: seq<T>, p: T -> bool): (r: Lookup<T>)
    ensures r.NotFound? <==> forall i :: 0 <= i < |xs| ==> !p(xs[i])
    ensures !r.Ambiguous?
    ensures r.Found? ==> exists i :: 0 <= i < |xs| && xs[i] == r.value && p(xs[i])
                                     && forall j :: 0 <= j < i ==> !p(xs[j])
  {
    match FirstIndex(xs, p)
    case None => NotFound
    case Some(i) => Found(xs[i])
  }

  /** Two different positions of `xs` both satisfy `p`. */
  ghost predicate ManyMatch<T>(xs: seq<T>, p: T -> bool)
  {
    exists i, j :: 0 <= i < j < |xs| && p(xs[i]) && p(xs[j])
  }

  /**
   * `Enumerable.Single(pred)`: it finds the first match and then looks for a
   * second one after it; a second match is an error, as is no match at all.
   */
  function Single<T>(xs: seq<T>, p: T -> bool): (r: Lookup<T>)
    ensures r.NotFound? <==> forall i :: 0 <= i < |xs| ==> !p(xs[i])
    ensures r.Ambiguous? <==> ManyMatch(xs, p)
    ensures r.Found? ==> exists i :: 0 <= i < |xs| && xs[i] == r.value && p(xs[i])
                                     && forall j :: 0 <= j < |xs| && j != i ==> !p(xs[j])
  {
    match FirstIndex(xs, p)
    case None => NotFound
    case Some(i) =>
      var rest := FirstIndex(xs[i + 1..], p);
      if rest.Some? then
        assert p(xs[i]) && p(xs[i + 1 + rest.value]);
        Ambiguous
      else
        assert forall j :: i < j < |xs| ==> xs[j] == xs[i + 1..][j - i - 1];
        Found(xs[i])
  }

  /**
   * `m` lists, in increasing order, the positions of `xs` that `r` picks
   * out, and every position whose element satisfies `p` is among them.
   */
  ghost predicate PicksInOrder<T>(xs: seq<T>, p: T -> bool, r: seq<T>, m: seq<nat>)
  {
    && |m| == |r|
    && (forall i :: 0 <= i < |m| ==> m[i] < |xs| && r[i] == xs[m[i]])
    && (forall i, j :: 0 <= i < j < |m| ==> m[i] < m[j])
    && (forall k :: 0 <= k < |xs| && p(xs[k]) ==> k in m)
  }

  /**
   * `Enumerable.Where(pred)`: the matching elements, in their original
   * order, each as often as it occurs.
   */
  function Where<T>(xs: seq<T>, p: T -> bool): (r: seq<T>)
    ensures |r| <= |xs|
    ensures forall i :: 0 <= i < |r| ==> r[i] in xs && p(r[i])
    ensures forall i :: 0 <= i < |xs| && p(xs[i]) ==> xs[i] in r
  {
    if xs == [] then []
    else if p(xs[0]) then [xs[0]] + Where(xs[1..], p)
    else Where(xs[1..], p)
  }

  /**
   * `Where` keeps the order and the multiplicity of the matches: its result
   * is picked out of `xs` at strictly increasing positions, which include
   * every matching position.
   */
  lemma {:induction false} WhereInOrder<T>(xs: seq<T>, p: T -> bool)
    ensures exists m :: PicksInOrder(xs, p, Where(xs, p), m)
  {
    if xs == [] {
      assert Where(xs, p) == [];
      assert PicksInOrder(xs, p, [], []);
    } else {
      WhereInOrder(xs[1..], p);
      var m' :| PicksInOrder(xs[1..], p, Where(xs[1..], p), m');
      var m := WhereStep(xs, p, Where(xs[1..], p), m');
      assert PicksInOrder(xs, p, Where(xs, p), m);
    }
  }

  /** The positions picked from the tail, moved up by one, with position 0 in front when the head matches. */
  lemma WhereStep<T>(xs: seq<T>, p: T -> bool, rest: seq<T>, m': seq<nat>) returns (m: seq<nat>)
    requires xs != [] && PicksInOrder(xs[1..], p, rest, m')
    ensures PicksInOrder(xs, p, if p(xs[0]) then [xs[0]] + rest else rest, m)
  {
    var shifted := ShiftPositions(xs, p, rest, m');
    if p(xs[0]) {
      m := [0] + shifted;
      var r := [xs[0]] + rest;
      forall i | 0 <= i < |m| ensures m[i] < |xs| && r[i] == xs[m[i]] {
        if i > 0 {
          assert m[i] == shifted[i - 1] && r[i] == rest[i - 1];
        }
      }
      forall i, j | 0 <= i < j < |m| ensures m[i] < m[j] {
        assert m[j] == shifted[j - 1];
        if i > 0 {
          assert m[i] == shifted[i - 1];
        }
      }
      forall k | 0 <= k < |xs| && p(xs[k]) ensures k in m {
        if k > 0 {
          assert k in shifted;
        }
      }
      assert PicksInOrder(xs, p, r, m);
    } else {
      m := shifted;
      forall k | 0 <= k < |xs| && p(xs[k]) ensures k in m {
        assert k != 0;
      }
      assert PicksInOrder(xs, p, rest, m);
    }
  }

  /** Positions in the tail `xs[1..]` moved up by one, to positions in `xs`. */
  lemma ShiftPositions<T>(xs: seq<T>, p: T -> bool, rest: seq<T>, m': seq<nat>) returns (shifted: seq<nat>)
    requires xs != [] && PicksInOrder(xs[1..], p, rest, m')
    ensures |shifted| == |rest|
    ensures forall i :: 0 <= i < |shifted| ==> 0 < shifted[i] < |xs| && rest[i] == xs[shifted[i]]
    ensures forall i, j :: 0 <= i < j < |shifted| ==> shifted[i] < shifted[j]
    ensures forall k :: 0 < k < |xs| && p(xs[k]) ==> k in shifted
  {
    shifted := seq(|m'|, i requires 0 <= i < |m'| => m'[i] + 1);
    forall k | 0 < k < |xs| && p(xs[k]) ensures k in shifted {
      assert xs[1..][k - 1] == xs[k];
      var i :| 0 <= i < |m'| && m'[i] == k - 1;
      assert shifted[i] == k;
    }
    forall i | 0 <= i < |shifted| ensures 0 < shifted[i] < |xs| && rest[i] == xs[shifted[i]] {
      assert rest[i] == xs[1..][m'[i]];
    }
    forall i, j | 0 <= i < j < |shifted| ensures shifted[i] < shifted[j] {
      assert m'[i] < m'[j];
    }
  }

  /** `key` tells apart every two positions of `xs`. */
  ghost predicate DistinctKeys<T, K>(xs: seq<T>, key: T -> K)
  {
    forall i, j :: 0 <= i < j < |xs| ==> key(xs[i]) != key(xs[j])
  }

  /**
   * Filtering keeps distinct keys distinct: the constructors picked out of a
   * method list whose bodies are all different objects still have pairwise
   * different bodies, so patching one of them never touches another.
   */
  lemma {:induction false} WhereKeepsDistinct<T, K>(xs: seq<T>, p: T -> bool, key: T -> K)
    requires DistinctKeys(xs, key)
    ensures DistinctKeys(Where(xs, p), key)
  {
    if xs != [] {
      var tail := xs[1..];
      TailKeepsDistinct(xs, key);
      WhereKeepsDistinct(tail, p, key);
      if p(xs[0]) {
        var r := Where(xs, p);
        var w := Where(tail, p);
        assert r == [xs[0]] + w;
        forall i, j | 0 <= i < j < |r| ensures key(r[i]) != key(r[j]) {
          if i == 0 {
            assert r[j] == w[j - 1];
            HeadKeyNotInTail(xs, key, r[j]);
          } else {
            assert r[i] == w[i - 1] && r[j] == w[j - 1];
          }
        }
      }
    }
  }

  lemma TailKeepsDistinct<T, K>(xs: seq<T>, key: T -> K)
    requires xs != [] && DistinctKeys(xs, key)
    ensures DistinctKeys(xs[1..], key)
  {
    var tail := xs[1..];
    forall i, j | 0 <= i < j < |tail| ensures key(tail[i]) != key(tail[j]) {
      assert tail[i] == xs[i + 1] && tail[j] == xs[j + 1];
    }
  }

  lemma HeadKeyNotInTail<T, K>(xs: seq<T>, key: T -> K, x: T)
    requires xs != [] && DistinctKeys(xs, key) && x in xs[1..]
    ensures key(xs[0]) != key(x)
  {
    var m :| 0 <= m < |xs[1..]| && xs[1..][m] == x;
    assert xs[m + 1] == x;
  }
}
