/** Turn orders: sequences of player positions, and `Collections.sort` over
    them by the players' `compareTo`. */
module Orders {
  import opened Players

  /** Every entry of `s` is a position in `ps`. */
  predicate InRange(ps: seq<Player>, s: seq<nat>) {
    forall k :: 0 <= k < |s| ==> s[k] < |ps|
  }

  /** No position appears twice. */
  predicate Distinct(s: seq<nat>) {
    forall k, l :: 0 <= k < l < |s| ==> s[k] != s[l]
  }

  /** Players carry their 1-based position as their number, as `play` sets
      them up; `equals` then tells positions apart. */
  predicate Numbered(ps: seq<Player>) {
    forall i :: 0 <= i < |ps| ==> ps[i].num == i + 1
  }

  /** `s` lists its players in ascending `compareTo` order. */
  predicate Ascending(ps: seq<Player>, s: seq<nat>)
    requires InRange(ps, s)
  {
    forall k, l :: 0 <= k < l < |s| ==> Compare(ps[s[k]], ps[s[l]]) <= 0
  }

  /** Player `a` comes no later than any player of `s`. */
  predicate NoLaterThanAll(ps: seq<Player>, a: nat, s: seq<nat>)
    requires a < |ps| && InRange(ps, s)
  {
    forall k :: 0 <= k < |s| ==> Compare(ps[a], ps[s[k]]) <= 0
  }

  /** Inserts `x` into `s` before the first entry it precedes. */
  function Insert(ps: seq<Player>, x: nat, s: seq<nat>): (r: seq<nat>)
    requires x < |ps| && InRange(ps, s)
    ensures |r| == |s| + 1 && InRange(ps, r)
    ensures multiset(r) == multiset(s) + multiset{x}
  {
    if |s| == 0 then [x]
    else if Compare(ps[x], ps[s[0]]) < 0 then [x] + s
    else
      assert s == [s[0]] + s[1..];
      [s[0]] + Insert(ps, x, s[1..])
  }

  /** A player no later than `x` and than all of `s` is no later than all of
      `s` with `x` inserted. */
  lemma {:induction false} InsertKeepsLowerBound(ps: seq<Player>, a: nat, x: nat, s: seq<nat>)
    requires a < |ps| && x < |ps| && InRange(ps, s)
    requires NoLaterThanAll(ps, a, s) && Compare(ps[a], ps[x]) <= 0
    ensures NoLaterThanAll(ps, a, Insert(ps, x, s))
    decreases |s|
  {
    if |s| > 0 && Compare(ps[x], ps[s[0]]) >= 0 {
      InsertKeepsLowerBound(ps, a, x, s[1..]);
    }
  }

  /** Inserting into an ascending order keeps it ascending. */
  lemma {:induction false} InsertAscending(ps: seq<Player>, x: nat, s: seq<nat>)
    requires x < |ps| && InRange(ps, s) && Ascending(ps, s)
    ensures Ascending(ps, Insert(ps, x, s))
    decreases |s|
  {
    if |s| == 0 {
    } else if Compare(ps[x], ps[s[0]]) < 0 {
      forall k | 0 <= k < |s|
        ensures Compare(ps[x], ps[s[k]]) <= 0
      {
        CompareTransitive(ps[x], ps[s[0]], ps[s[k]]);
      }
    } else {
      InsertAscending(ps, x, s[1..]);
      CompareAntisymmetric(ps[x], ps[s[0]]);
      InsertKeepsLowerBound(ps, s[0], x, s[1..]);
    }
  }

  /** `Collections.sort` of a turn order: insertion sort by `compareTo`. */
  function Sort(ps: seq<Player>, s: seq<nat>): (r: seq<nat>)
    requires InRange(ps, s)
    ensures |r| == |s| && InRange(ps, r) && Ascending(ps, r)
    ensures multiset(r) == multiset(s)
  {
    if |s| == 0 then []
    else
      assert s == s[..|s| - 1] + [s[|s| - 1]];
      var sorted := Sort(ps, s[..|s| - 1]);
      InsertAscending(ps, s[|s| - 1], sorted);
      Insert(ps, s[|s| - 1], sorted)
  }

  /** Sorting keeps exactly the positions it was given: nobody joins the
      order and nobody leaves it. */
  lemma SortKeepsMembers(ps: seq<Player>, s: seq<nat>, i: nat)
    requires InRange(ps, s)
    ensures i in Sort(ps, s) <==> i in s
  {
    assert i in Sort(ps, s) <==> i in multiset(Sort(ps, s));
    assert i in s <==> i in multiset(s);
  }

  /** A permutation of distinct positions is distinct. */
  lemma PermutationDistinct(s: seq<nat>, t: seq<nat>)
    requires multiset(s) == multiset(t) && Distinct(s)
    ensures Distinct(t)
  {
    forall k, l | 0 <= k < l < |t|
      ensures t[k] != t[l]
    {
      if t[k] == t[l] {
        var x := t[k];
        assert multiset(t)[x] >= 2 by {
          var t' := t[..l] + t[l + 1..];
          assert t == t' [..l] + [t[l]] + t'[l..] by {
            assert t[..l] == t'[..l];
            assert t[l + 1..] == t'[l..];
            assert t == t[..l] + [t[l]] + t[l + 1..];
          }
          calc {
            multiset(t)[x];
            (multiset(t'[..l]) + multiset{t[l]} + multiset(t'[l..]))[x];
            multiset(t')[x] + 1;
          }
          assert t'[k] == x;
          assert x in multiset(t');
        }
        DistinctCountsOne(s, x);
      }
    }
  }

  /** In a sequence without repeats every value occurs at most once. */
  lemma {:induction false} DistinctCountsOne(s: seq<nat>, x: nat)
    requires Distinct(s)
    ensures multiset(s)[x] <= 1
    decreases |s|
  {
    if |s| > 0 {
      var last := s[|s| - 1];
      var init := s[..|s| - 1];
      assert s == init + [last];
      assert Distinct(init);
      DistinctCountsOne(init, x);
      if x == last {
        assert x !in init;
        assert x !in multiset(init);
      }
    }
  }

  /** The first entry of an ascending order comes no later than any entry. */
  lemma FirstIsLeast(ps: seq<Player>, s: seq<nat>, x: nat)
    requires InRange(ps, s) && Ascending(ps, s) && x in s
    ensures Compare(ps[s[0]], ps[x]) <= 0
  {
    var k :| 0 <= k < |s| && s[k] == x;
    if k > 0 {
      assert Compare(ps[s[0]], ps[s[k]]) <= 0;
    }
  }

  /** Dropping the first entry keeps an order ascending. */
  lemma TailAscending(ps: seq<Player>, s: seq<nat>)
    requires |s| > 0 && InRange(ps, s) && Ascending(ps, s)
    ensures InRange(ps, s[1..]) && Ascending(ps, s[1..])
  {
    forall k, l | 0 <= k < l < |s| - 1
      ensures Compare(ps[s[1..][k]], ps[s[1..][l]]) <= 0
    {
      assert s[1..][k] == s[k + 1] && s[1..][l] == s[l + 1];
    }
  }

  /** Sequences with the same multiset and the same first entry have tails
      with the same multiset. */
  lemma SameTail(s: seq<nat>, t: seq<nat>)
    requires |s| > 0 && |t| > 0 && s[0] == t[0] && multiset(s) == multiset(t)
    ensures multiset(s[1..]) == multiset(t[1..])
  {
    assert s == [s[0]] + s[1..] && t == [t[0]] + t[1..];
    assert multiset(s[1..]) == multiset(s) - multiset{s[0]};
    assert multiset(t[1..]) == multiset(t) - multiset{s[0]};
  }

  /** An ascending order of numbered players is unique: any sort by
      `compareTo` of the same positions, stable or not, gives `Sort`'s
      result. */
  lemma {:induction false} AscendingUnique(ps: seq<Player>, s: seq<nat>, t: seq<nat>)
    requires Numbered(ps) && InRange(ps, s) && InRange(ps, t)
    requires Ascending(ps, s) && Ascending(ps, t) && multiset(s) == multiset(t)
    ensures s == t
    decreases |s|
  {
    assert |s| == |multiset(s)| == |multiset(t)| == |t|;
    if |s| > 0 {
      assert s[0] == t[0] by {
        assert s[0] in multiset(t) && t[0] in multiset(s);
        FirstIsLeast(ps, s, t[0]);
        FirstIsLeast(ps, t, s[0]);
        CompareAntisymmetric(ps[s[0]], ps[t[0]]);
        assert ps[s[0]].num == ps[t[0]].num;
      }
      SameTail(s, t);
      TailAscending(ps, s);
      TailAscending(ps, t);
      AscendingUnique(ps, s[1..], t[1..]);
      assert s == [s[0]] + s[1..] && t == [t[0]] + t[1..];
    }
  }
}
