/** Optional values and results with an error, used for the source's None returns and raised exceptions. */
module Base {

  datatype Option<+T> = None | Some(value: T)

  datatype Result<+T, +E> = Ok(value: T) | Err(error: E)

  function Max(a: int, b: int): (r: int)
    ensures r >= a && r >= b && (r == a || r == b)
  {
    if a >= b then a else b
  }

  function Min(a: int, b: int): (r: int)
    ensures r <= a && r <= b && (r == a || r == b)
  {
    if a <= b then a else b
  }

  // ---------------------------------------------------------------------
  // Keeping what a function accepts, in order (a comprehension with `if`)
  // ---------------------------------------------------------------------

  /** The values `f` gives for the elements of `s`, in order, over the ones it rejects. */
  function Filtrar<A, B>(s: seq<A>, f: A -> Option<B>): (r: seq<B>)
    ensures |r| <= |s|
    decreases |s|
  {
    if |s| == 0 then []
    else
      var n := |s| - 1;
      Filtrar(s[..n], f) + (if f(s[n]).Some? then [f(s[n]).value] else [])
  }

  /** Set intersection does not depend on the order of its operands. */
  lemma InterseccionConmuta<T>(a: set<T>, b: set<T>)
    ensures a * b == b * a
  {
  }

  /** A non-empty sequence is its head followed by its tail. */
  lemma CabezaCola<T>(s: seq<T>)
    requires |s| > 0
    ensures [s[0]] + s[1..] == s
  {
  }

  /** The head and the tail of `[x] + s`. */
  lemma Delante<T>(x: T, s: seq<T>)
    ensures ([x] + s)[0] == x && ([x] + s)[1..] == s
  {
  }

  /** A two-element separator splits into its two halves. */
  lemma DosDelante<T>(a: seq<T>, u: T, v: T, c: seq<T>)
    ensures a + [u, v] + c == a + [u] + ([v] + c)
  {
  }

  /** Where each part of `a + b + c + d` lies. */
  lemma Cuatro<T>(a: seq<T>, b: seq<T>, c: seq<T>, d: seq<T>)
    ensures var s := a + b + c + d;
      && |s| == |a| + |b| + |c| + |d|
      && s[..|a|] == a
      && s[|a|..|a| + |b|] == b
      && s[|a| + |b|..|s| - |d|] == c
      && (|d| > 0 ==> s[|s| - 1] == d[|d| - 1])
  {
    var s := a + b + c + d;
    assert s == a + (b + (c + d));
  }

  /** A sequence is its prefix of length `k` followed by the rest. */
  lemma PrefijoResto<T>(s: seq<T>, k: nat)
    requires k <= |s|
    ensures s == s[..k] + s[k..]
  {
  }

  /** The head and the tail of `a + b` when `a` is not empty. */
  lemma ConcatCabeza<T>(a: seq<T>, b: seq<T>)
    requires |a| > 0
    ensures (a + b)[0] == a[0] && (a + b)[1..] == a[1..] + b
  {
  }

  /** Concatenation is associative; stated apart so that callers need not rediscover it. */
  lemma Asociativa<T>(a: seq<T>, b: seq<T>, c: seq<T>)
    ensures a + (b + c) == (a + b) + c
  {
  }

  /** Filtering respects concatenation, so it keeps the input order. */
  lemma {:induction false} FiltrarConcat<A, B>(a: seq<A>, b: seq<A>, f: A -> Option<B>)
    ensures Filtrar(a + b, f) == Filtrar(a, f) + Filtrar(b, f)
    decreases |b|
  {
    if |b| == 0 {
      assert a + b == a;
    } else {
      var n := |b| - 1;
      assert (a + b)[..|a| + n] == a + b[..n];
      assert (a + b)[|a| + n] == b[n];
      FiltrarConcat(a, b[..n], f);
    }
  }

  lemma FiltrarUno<A, B>(x: A, f: A -> Option<B>)
    ensures Filtrar([x], f) == (if f(x).Some? then [f(x).value] else [])
  {
    assert [x][..0] == [];
  }

  /** One more element adds what `f` gives for it. */
  lemma FiltrarAnadir<A, B>(s: seq<A>, i: nat, f: A -> Option<B>)
    requires i < |s|
    ensures Filtrar(s[..i + 1], f) == Filtrar(s[..i], f) + (if f(s[i]).Some? then [f(s[i]).value] else [])
  {
    assert s[..i + 1] == s[..i] + [s[i]];
    FiltrarConcat(s[..i], [s[i]], f);
    FiltrarUno(s[i], f);
  }

  /** A value is kept exactly when some element gives it. */
  lemma {:induction false} FiltrarMiembro<A, B>(s: seq<A>, f: A -> Option<B>, v: B)
    ensures v in Filtrar(s, f) <==> exists i :: 0 <= i < |s| && f(s[i]) == Some(v)
    decreases |s|
  {
    if |s| > 0 {
      var n := |s| - 1;
      FiltrarMiembro(s[..n], f, v);
      if exists i :: 0 <= i < |s| && f(s[i]) == Some(v) {
        var i :| 0 <= i < |s| && f(s[i]) == Some(v);
        if i < n {
          assert s[..n][i] == s[i];
        }
      }
      if exists i :: 0 <= i < n && f(s[..n][i]) == Some(v) {
        var i :| 0 <= i < n && f(s[..n][i]) == Some(v);
        assert s[i] == s[..n][i];
      }
    }
  }

  /** Filtering a prefix gives a prefix of the filtered whole. */
  lemma FiltrarPrefijo<A, B>(s: seq<A>, i: nat, f: A -> Option<B>)
    requires i <= |s|
    ensures |Filtrar(s[..i], f)| <= |Filtrar(s, f)|
    ensures Filtrar(s[..i], f) == Filtrar(s, f)[..|Filtrar(s[..i], f)|]
  {
    assert s == s[..i] + s[i..];
    FiltrarConcat(s[..i], s[i..], f);
  }


  // ---------------------------------------------------------------------
  // Sums over a sequence (`sum(f(x) for x in s)`)
  // ---------------------------------------------------------------------

  function Suma<T>(s: seq<T>, f: T -> int): int
    decreases |s|
  {
    if |s| == 0 then 0 else f(s[0]) + Suma(s[1..], f)
  }

  lemma {:induction false} SumaConcat<T>(a: seq<T>, b: seq<T>, f: T -> int)
    ensures Suma(a + b, f) == Suma(a, f) + Suma(b, f)
    decreases |a|
  {
    if |a| == 0 {
      assert a + b == b;
    } else {
      assert (a + b)[1..] == a[1..] + b;
      SumaConcat(a[1..], b, f);
    }
  }

  /** Replacing one element changes the sum by the difference. */
  lemma {:induction false} SumaActualizar<T>(s: seq<T>, k: nat, x: T, f: T -> int)
    requires k < |s|
    ensures Suma(s[k := x], f) == Suma(s, f) - f(s[k]) + f(x)
    decreases |s|
  {
    if k > 0 {
      assert s[k := x][1..] == s[1..][k - 1 := x];
      SumaActualizar(s[1..], k - 1, x, f);
    } else {
      assert s[k := x][1..] == s[1..];
    }
  }

  /** The sum does not depend on the order: a permutation has the same sum. */
  lemma {:induction false} SumaPermutacion<T>(a: seq<T>, b: seq<T>, f: T -> int)
    requires multiset(a) == multiset(b)
    ensures Suma(a, f) == Suma(b, f)
    decreases |a|
  {
    if |a| == 0 {
      assert |b| == |multiset(b)| == 0;
    } else {
      assert a[0] in multiset(b);
      var k :| 0 <= k < |b| && b[k] == a[0];
      var resto := b[..k] + b[k + 1..];
      assert b == b[..k] + [b[k]] + b[k + 1..];
      assert a == [a[0]] + a[1..];
      assert multiset(a[1..]) == multiset(resto) by {
        calc {
          multiset(b);
          multiset(b[..k] + [b[k]] + b[k + 1..]);
          multiset(b[..k]) + multiset([b[k]]) + multiset(b[k + 1..]);
          multiset{a[0]} + multiset(resto);
        }
        assert multiset(a) == multiset([a[0]]) + multiset(a[1..]);
        assert multiset(a[1..]) == multiset(a) - multiset{a[0]};
        assert multiset(resto) == multiset(b) - multiset{a[0]};
      }
      SumaPermutacion(a[1..], resto, f);
      SumaConcat(b[..k] + [b[k]], b[k + 1..], f);
      SumaConcat(b[..k], [b[k]], f);
      SumaConcat(b[..k], b[k + 1..], f);
      assert Suma([b[k]], f) == f(b[k]);
    }
  }

  /** Non-negative terms have a non-negative sum. */
  lemma {:induction false} SumaNoNegativa<T>(s: seq<T>, f: T -> int)
    requires forall k :: 0 <= k < |s| ==> f(s[k]) >= 0
    ensures Suma(s, f) >= 0
    decreases |s|
  {
    if |s| > 0 {
      assert forall k :: 0 <= k < |s[1..]| ==> f(s[1..][k]) == f(s[k + 1]);
      SumaNoNegativa(s[1..], f);
    }
  }

  /** A non-empty set of integers has an element. */
  lemma ConElemento(s: set<int>)
    requires s != {}
    ensures exists x :: x in s
  {
    if forall x :: x !in s {
      assert false;
    }
  }

  /** Functions that agree on the elements have the same sum. */
  lemma {:induction false} SumaIgual<T>(s: seq<T>, f: T -> int, g: T -> int)
    requires forall k :: 0 <= k < |s| ==> f(s[k]) == g(s[k])
    ensures Suma(s, f) == Suma(s, g)
    decreases |s|
  {
    if |s| > 0 {
      assert forall k :: 0 <= k < |s[1..]| ==> s[1..][k] == s[k + 1];
      SumaIgual(s[1..], f, g);
    }
  }

  /** Zero terms have a zero sum. */
  lemma {:induction false} SumaNula<T>(s: seq<T>, f: T -> int)
    requires forall k :: 0 <= k < |s| ==> f(s[k]) == 0
    ensures Suma(s, f) == 0
    decreases |s|
  {
    if |s| > 0 {
      assert forall k :: 0 <= k < |s[1..]| ==> s[1..][k] == s[k + 1];
      SumaNula(s[1..], f);
    }
  }

  /** With non-negative terms, the sum is at least any one term. */
  lemma {:induction false} SumaCota<T>(s: seq<T>, f: T -> int, k: nat)
    requires forall j :: 0 <= j < |s| ==> f(s[j]) >= 0
    requires k < |s|
    ensures Suma(s, f) >= f(s[k])
    decreases |s|
  {
    assert forall j :: 0 <= j < |s[1..]| ==> s[1..][j] == s[j + 1];
    if k == 0 {
      SumaNoNegativa(s[1..], f);
    } else {
      SumaCota(s[1..], f, k - 1);
    }
  }
}
