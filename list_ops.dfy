/**
 * The two list operations the roster pass relies on: keeping the elements
 * whose update reported them alive, and the list's remove-first-occurrence.
 */
module ListOps {

  /** No element occurs twice: each element is absent from those before it. */
  predicate Distinct<T(==)>(ts: seq<T>)
    decreases |ts|
  {
    |ts| == 0 || (Distinct(ts[..|ts| - 1]) && ts[|ts| - 1] !in ts[..|ts| - 1])
  }

  /** Two positions of a list without repetitions hold different elements. */
  lemma {:induction false} DistinctApart<T>(ts: seq<T>, a: nat, b: nat)
    requires Distinct(ts) && a < b < |ts|
    ensures ts[a] != ts[b]
    decreases |ts|
  {
    var n := |ts| - 1;
    assert ts[..n][a] == ts[a];
    if b < n {
      assert ts[..n][b] == ts[b];
      DistinctApart(ts[..n], a, b);
    }
  }

  /** The element at `i` differs from every other element. */
  lemma DistinctOthers<T>(ts: seq<T>, i: nat)
    requires Distinct(ts) && i < |ts|
    ensures forall k :: 0 <= k < |ts| && k != i ==> ts[k] != ts[i]
    ensures ts[i] !in ts[..i]
  {
    forall k | 0 <= k < |ts| && k != i
      ensures ts[k] != ts[i]
    {
      if k < i {
        DistinctApart(ts, k, i);
      } else {
        DistinctApart(ts, i, k);
      }
    }
    assert forall k :: 0 <= k < i ==> ts[..i][k] == ts[k];
  }

  /** Appending an element not yet present keeps a list without repetitions. */
  lemma DistinctAppend<T>(ts: seq<T>, x: T)
    requires Distinct(ts) && x !in ts
    ensures Distinct(ts + [x])
  {
    assert (ts + [x])[..|ts|] == ts;
  }

  /** The elements of `ts` whose flag in `alive` is set, in their original order. */
  function Survivors<T>(ts: seq<T>, alive: seq<bool>): (r: seq<T>)
    requires |ts| == |alive|
    ensures |r| <= |ts|
    ensures (forall i :: 0 <= i < |ts| ==> alive[i]) ==> r == ts
    ensures (forall i :: 0 <= i < |ts| ==> !alive[i]) ==> r == []
    decreases |ts|
  {
    if |ts| == 0 then []
    else
      var n := |ts| - 1;
      Survivors(ts[..n], alive[..n]) + (if alive[n] then [ts[n]] else [])
  }

  /** Every element kept comes from the list. */
  lemma {:induction false} SurvivorsFromList<T>(ts: seq<T>, alive: seq<bool>)
    requires |ts| == |alive|
    ensures forall j :: 0 <= j < |Survivors(ts, alive)| ==> Survivors(ts, alive)[j] in ts
    decreases |ts|
  {
    if |ts| > 0 {
      var n := |ts| - 1;
      SurvivorsFromList(ts[..n], alive[..n]);
      assert forall x :: x in ts[..n] ==> x in ts;
    }
  }

  /** Every element whose flag is set is kept. */
  lemma {:induction false} SurvivorsKeepAlive<T>(ts: seq<T>, alive: seq<bool>)
    requires |ts| == |alive|
    ensures forall i :: 0 <= i < |ts| && alive[i] ==> ts[i] in Survivors(ts, alive)
    decreases |ts|
  {
    if |ts| > 0 {
      var n := |ts| - 1;
      var front := Survivors(ts[..n], alive[..n]);
      SurvivorsKeepAlive(ts[..n], alive[..n]);
      assert Survivors(ts, alive) == front + (if alive[n] then [ts[n]] else []);
      forall i | 0 <= i < n && alive[i] ensures ts[i] in Survivors(ts, alive) {
        assert ts[..n][i] == ts[i] && alive[..n][i];
        assert ts[i] in front;
      }
    }
  }

  /** Extending the list and its flags by one element keeps that element exactly when its flag is set. */
  lemma SurvivorsExtend<T>(ts: seq<T>, alive: seq<bool>, i: nat)
    requires |ts| == |alive| && i < |ts|
    ensures Survivors(ts[..i + 1], alive[..i + 1])
         == Survivors(ts[..i], alive[..i]) + (if alive[i] then [ts[i]] else [])
  {
    assert ts[..i + 1][..i] == ts[..i];
    assert alive[..i + 1][..i] == alive[..i];
  }

  /** Keeping some elements of a list without repetitions gives a list without repetitions. */
  lemma {:induction false} SurvivorsDistinct<T>(ts: seq<T>, alive: seq<bool>)
    requires |ts| == |alive| && Distinct(ts)
    ensures Distinct(Survivors(ts, alive))
    decreases |ts|
  {
    if |ts| > 0 {
      var n := |ts| - 1;
      var front := Survivors(ts[..n], alive[..n]);
      SurvivorsDistinct(ts[..n], alive[..n]);
      if alive[n] {
        assert ts[n] !in front by {
          SurvivorsFromList(ts[..n], alive[..n]);
          DistinctOthers(ts, n);
        }
        DistinctAppend(front, ts[n]);
      } else {
        assert Survivors(ts, alive) == front + [] == front;
      }
    }
  }

  /** In a list without repetitions, an element whose flag is clear is not kept. */
  lemma {:induction false} SurvivorsDropDead<T>(ts: seq<T>, alive: seq<bool>, i: nat)
    requires |ts| == |alive| && Distinct(ts) && i < |ts| && !alive[i]
    ensures ts[i] !in Survivors(ts, alive)
    decreases |ts|
  {
    var n := |ts| - 1;
    if i < n {
      assert ts[..n][i] == ts[i];
      SurvivorsDropDead(ts[..n], alive[..n], i);
      DistinctApart(ts, i, n);
    } else {
      SurvivorsFromList(ts[..n], alive[..n]);
      DistinctOthers(ts, n);
    }
  }

  /** The list removal of the source: drops the first occurrence of `x`. */
  function RemoveFirst<T(==)>(s: seq<T>, x: T): (r: seq<T>)
    requires x in s
    ensures |r| == |s| - 1
  {
    if s[0] == x then s[1..] else [s[0]] + RemoveFirst(s[1..], x)
  }

  /** Removal takes away exactly one occurrence of `x` and keeps every other element. */
  lemma {:induction false} RemoveFirstCount<T>(s: seq<T>, x: T)
    requires x in s
    ensures multiset(RemoveFirst(s, x)) == multiset(s) - multiset{x}
  {
    assert s == [s[0]] + s[1..];
    if s[0] != x {
      RemoveFirstCount(s[1..], x);
    }
  }

  /** Removing an element that occurs only after `front` leaves `front` and `back` joined. */
  lemma {:induction false} RemoveFirstAfter<T>(front: seq<T>, x: T, back: seq<T>)
    requires x !in front
    ensures RemoveFirst(front + [x] + back, x) == front + back
    decreases |front|
  {
    var s := front + [x] + back;
    if front != [] {
      assert s[1..] == front[1..] + [x] + back;
      RemoveFirstAfter(front[1..], x, back);
    }
  }

  /**
   * One step of a walk over `ts` that keeps the elements whose flag is set:
   * with the first `i` elements done, a working copy that holds the survivors
   * so far followed by the untouched rest has `ts[i]` right after the
   * survivors, and nowhere among them.
   */
  lemma {:induction false} SurvivorsStep<T>(ts: seq<T>, alive: seq<bool>, i: nat, kept: seq<T>, current: seq<T>)
    requires |ts| == |alive| && Distinct(ts) && i < |ts|
    requires kept == Survivors(ts[..i], alive[..i]) && current == kept + ts[i..]
    ensures ts[i] !in kept && current == kept + [ts[i]] + ts[i + 1..]
    ensures Survivors(ts[..i + 1], alive[..i + 1]) == kept + (if alive[i] then [ts[i]] else [])
  {
    var t := ts[i];
    assert t !in kept by {
      SurvivorsFromList(ts[..i], alive[..i]);
      DistinctOthers(ts, i);
    }
    SurvivorsExtend(ts, alive, i);
    assert ts[i..] == [t] + ts[i + 1..];
  }

  /**
   * The list after the first `i` steps of a walk over a copy of `ts` that
   * removes from the list each element whose flag is clear.
   */
  function Pruned<T(==)>(ts: seq<T>, alive: seq<bool>, i: nat): seq<T>
    requires |ts| == |alive| && Distinct(ts) && i <= |ts|
    decreases i, 0
  {
    if i == 0 then ts
    else
      var prev := Pruned(ts, alive, i - 1);
      if alive[i - 1] then prev
      else
        PrunedShape(ts, alive, i - 1);
        RemoveFirst(prev, ts[i - 1])
  }

  /**
   * Removing the dead elements one at a time from a list without repetitions
   * leaves the survivors so far, in order, followed by the elements not yet
   * walked over.
   */
  lemma {:induction false} PrunedShape<T>(ts: seq<T>, alive: seq<bool>, i: nat)
    requires |ts| == |alive| && Distinct(ts) && i <= |ts|
    ensures Pruned(ts, alive, i) == Survivors(ts[..i], alive[..i]) + ts[i..]
    ensures i < |ts| ==> ts[i] in Pruned(ts, alive, i)
    decreases i, 1
  {
    if i > 0 {
      var j := i - 1;
      PrunedShape(ts, alive, j);
      var kept := Survivors(ts[..j], alive[..j]);
      SurvivorsStep(ts, alive, j, kept, Pruned(ts, alive, j));
      if !alive[j] {
        RemoveFirstAfter(kept, ts[j], ts[i..]);
      }
    }
    if i < |ts| {
      assert ts[i..] == [ts[i]] + ts[i + 1..];
    }
  }
}
