/** Folds over sequences and index ranges that the parsers share: keeping
    the present results of a partial function, tabulating a function, and
    building a map by successive writes.  Their lemmas depend only on the
    shape of the fold, never on the function folded. */
module Folds {
  import opened Wrappers
  import opened Strings

  // ------------------------------------------------------------ collecting

  /** The present results of `f` on `xs`, in order. */
  function Collect<A, B>(xs: seq<A>, f: A -> Option<B>): seq<B> {
    if xs == [] then []
    else
      var last := f(xs[|xs| - 1]);
      Collect(xs[..|xs| - 1], f) + (if last.Some? then [last.value] else [])
  }

  /** One more element adds its result, if any, at the end. */
  lemma CollectSnoc<A, B>(xs: seq<A>, f: A -> Option<B>, i: nat)
    requires i < |xs|
    ensures Collect(xs[..i + 1], f) == Collect(xs[..i], f) + (if f(xs[i]).Some? then [f(xs[i]).value] else [])
  {
    TakeSnoc(xs, i);
  }

  lemma {:induction false} CollectLength<A, B>(xs: seq<A>, f: A -> Option<B>)
    ensures |Collect(xs, f)| <= |xs|
  {
    if xs != [] {
      CollectLength(xs[..|xs| - 1], f);
    }
  }

  lemma {:induction false} CollectAppend<A, B>(a: seq<A>, b: seq<A>, f: A -> Option<B>)
    ensures Collect(a + b, f) == Collect(a, f) + Collect(b, f)
    decreases |b|
  {
    if b == [] {
      assert a + b == a;
    } else {
      SnocAppend(a, b);
      CollectAppend(a, b[..|b| - 1], f);
      var last := f(b[|b| - 1]);
      AppendAssoc(Collect(a, f), Collect(b[..|b| - 1], f), if last.Some? then [last.value] else []);
    }
  }

  lemma {:induction false} CollectMembers<A, B>(xs: seq<A>, f: A -> Option<B>, y: B)
    ensures y in Collect(xs, f) <==> exists i | 0 <= i < |xs| :: f(xs[i]) == Some(y)
  {
    if xs != [] {
      var n := |xs| - 1;
      var init := xs[..n];
      CollectMembers(init, f, y);
      if y in Collect(xs, f) && y !in Collect(init, f) {
        assert f(xs[n]) == Some(y);
      }
      if exists i | 0 <= i < |xs| :: f(xs[i]) == Some(y) {
        var i :| 0 <= i < |xs| && f(xs[i]) == Some(y);
        if i < n {
          assert init[i] == xs[i];
        }
      }
    }
  }

  // ---------------------------------------------------- collecting by index

  /** The present results of `f` on 0, 1, …, n - 1, in order. */
  function CollectUpTo<B>(n: nat, f: nat -> Option<B>): seq<B> {
    if n == 0 then []
    else CollectUpTo(n - 1, f) + (if f(n - 1).Some? then [f(n - 1).value] else [])
  }

  lemma {:induction false} CollectUpToLength<B>(n: nat, f: nat -> Option<B>)
    ensures |CollectUpTo(n, f)| <= n
  {
    if n > 0 {
      CollectUpToLength(n - 1, f);
    }
  }

  /** Indices without a result add nothing. */
  lemma {:induction false} CollectUpToNoneTail<B>(n: nat, m: nat, f: nat -> Option<B>)
    requires m <= n && forall i | m <= i < n :: f(i).None?
    ensures CollectUpTo(n, f) == CollectUpTo(m, f)
  {
    if m < n {
      CollectUpToNoneTail(n - 1, m, f);
    }
  }

  /** A property of every result is a property of every collected value. */
  lemma {:induction false} CollectUpToAll<B>(n: nat, f: nat -> Option<B>, p: B -> bool)
    requires forall i | 0 <= i < n :: f(i).Some? ==> p(f(i).value)
    ensures forall y | y in CollectUpTo(n, f) :: p(y)
  {
    if n > 0 {
      CollectUpToAll(n - 1, f, p);
    }
  }

  /** Functions that agree on 0, …, n - 1 collect the same values. */
  lemma {:induction false} CollectUpToCongruent<B>(n: nat, f: nat -> Option<B>, g: nat -> Option<B>)
    requires forall i | 0 <= i < n :: f(i) == g(i)
    ensures CollectUpTo(n, f) == CollectUpTo(n, g)
  {
    if n > 0 {
      CollectUpToCongruent(n - 1, f, g);
    }
  }

  // ------------------------------------------------------------ tabulating

  /** `f` at 0, 1, …, n - 1. */
  function Tabulate<T>(n: nat, f: nat -> T): (r: seq<T>)
    ensures |r| == n
  {
    if n == 0 then [] else Tabulate(n - 1, f) + [f(n - 1)]
  }

  lemma {:induction false} TabulateAt<T>(n: nat, f: nat -> T, k: nat)
    requires k < n
    ensures Tabulate(n, f)[k] == f(k)
  {
    if k < n - 1 {
      TabulateAt(n - 1, f, k);
    }
  }

  lemma TabulateSnoc<T>(n: nat, f: nat -> T)
    ensures Tabulate(n + 1, f) == Tabulate(n, f) + [f(n)]
  {
  }

  // ---------------------------------------------------------------- maps

  /** The map built by writing, in order, the entry each element gives,
      if any; a later entry for a key replaces an earlier one. */
  function Assign<A, K(==), V>(xs: seq<A>, f: A -> Option<(K, V)>): map<K, V> {
    if xs == [] then map[]
    else
      var m := Assign(xs[..|xs| - 1], f);
      var e := f(xs[|xs| - 1]);
      if e.Some? then m[e.value.0 := e.value.1] else m
  }

  /** One more element writes its entry, if any. */
  lemma AssignSnoc<A, K, V>(xs: seq<A>, f: A -> Option<(K, V)>, i: nat)
    requires i < |xs|
    ensures var m := Assign(xs[..i], f);
      Assign(xs[..i + 1], f) == if f(xs[i]).Some? then m[f(xs[i]).value.0 := f(xs[i]).value.1] else m
  {
    TakeSnoc(xs, i);
  }

  lemma {:induction false} AssignKeys<A, K, V>(xs: seq<A>, f: A -> Option<(K, V)>, k: K)
    ensures k in Assign(xs, f) <==> exists i | 0 <= i < |xs| :: f(xs[i]).Some? && f(xs[i]).value.0 == k
  {
    if xs != [] {
      var n := |xs| - 1;
      var init := xs[..n];
      AssignKeys(init, f, k);
      if exists i | 0 <= i < |init| :: f(init[i]).Some? && f(init[i]).value.0 == k {
        var i :| 0 <= i < |init| && f(init[i]).Some? && f(init[i]).value.0 == k;
        assert xs[i] == init[i];
      }
      if exists i | 0 <= i < |xs| :: f(xs[i]).Some? && f(xs[i]).value.0 == k {
        var i :| 0 <= i < |xs| && f(xs[i]).Some? && f(xs[i]).value.0 == k;
        if i < n {
          assert init[i] == xs[i];
        }
      }
    }
  }

  lemma {:induction false} AssignValue<A, K, V>(xs: seq<A>, f: A -> Option<(K, V)>, k: K)
    requires k in Assign(xs, f)
    ensures exists i | 0 <= i < |xs| :: f(xs[i]) == Some((k, Assign(xs, f)[k]))
  {
    var n := |xs| - 1;
    var init := xs[..n];
    var e := f(xs[n]);
    if e.Some? && e.value.0 == k {
      assert f(xs[n]) == Some((k, Assign(xs, f)[k]));
    } else {
      assert Assign(xs, f) == (if e.Some? then Assign(init, f)[e.value.0 := e.value.1] else Assign(init, f));
      AssignValue(init, f, k);
      var i :| 0 <= i < |init| && f(init[i]) == Some((k, Assign(init, f)[k]));
      assert xs[i] == init[i];
    }
  }

  lemma {:induction false} AssignLastWins<A, K, V>(xs: seq<A>, f: A -> Option<(K, V)>, i: nat)
    requires i < |xs| && f(xs[i]).Some?
    requires forall j | i < j < |xs| :: f(xs[j]).Some? ==> f(xs[j]).value.0 != f(xs[i]).value.0
    ensures f(xs[i]).value.0 in Assign(xs, f)
    ensures Assign(xs, f)[f(xs[i]).value.0] == f(xs[i]).value.1
  {
    var n := |xs| - 1;
    var init := xs[..n];
    if i < n {
      assert init[i] == xs[i];
      forall j | i < j < |init| ensures f(init[j]).Some? ==> f(init[j]).value.0 != f(init[i]).value.0 {
        assert init[j] == xs[j];
      }
      AssignLastWins(init, f, i);
    }
  }
}
