/**
 * Python's `list.sort(key=...)` and `sorted(...)`: a stable sort by a key.
 * Keys are sequences of integers compared lexicographically, which is how
 * Python compares the tuples and strings the core sorts by; a descending
 * sort (`reverse=True`, which Python keeps stable) is a sort by the negated key.
 */
module Ordenacion {

  /** Lexicographic order on integer sequences, a proper prefix first (Python's tuple and `str` order). */
  predicate LexMenorIgual(a: seq<int>, b: seq<int>)
    decreases |a|
  {
    |a| == 0 || (|b| > 0 && (a[0] < b[0] || (a[0] == b[0] && LexMenorIgual(a[1..], b[1..]))))
  }

  lemma {:induction false} LexReflexiva(a: seq<int>)
    ensures LexMenorIgual(a, a)
    decreases |a|
  {
    if |a| > 0 {
      LexReflexiva(a[1..]);
    }
  }

  lemma {:induction false} LexTotal(a: seq<int>, b: seq<int>)
    ensures LexMenorIgual(a, b) || LexMenorIgual(b, a)
    decreases |a|
  {
    if |a| > 0 && |b| > 0 && a[0] == b[0] {
      LexTotal(a[1..], b[1..]);
    }
  }

  lemma {:induction false} LexTransitiva(a: seq<int>, b: seq<int>, c: seq<int>)
    requires LexMenorIgual(a, b) && LexMenorIgual(b, c)
    ensures LexMenorIgual(a, c)
    decreases |a|
  {
    if |a| > 0 && a[0] == b[0] && b[0] == c[0] {
      LexTransitiva(a[1..], b[1..], c[1..]);
    }
  }

  lemma {:induction false} LexAntisimetrica(a: seq<int>, b: seq<int>)
    requires LexMenorIgual(a, b) && LexMenorIgual(b, a)
    ensures a == b
    decreases |a|
  {
    if |a| > 0 {
      LexAntisimetrica(a[1..], b[1..]);
      assert a == [a[0]] + a[1..] && b == [b[0]] + b[1..];
    }
  }

  /** One-component keys compare as their integers. */
  lemma LexUnitario(x: int, y: int)
    ensures LexMenorIgual([x], [y]) <==> x <= y
  {
    assert [x][1..] == [] && [y][1..] == [];
  }

  /** Keys that share a first component compare by the rest. */
  lemma LexPrefijoComun(x: int, a: seq<int>, b: seq<int>)
    ensures LexMenorIgual([x] + a, [x] + b) <==> LexMenorIgual(a, b)
  {
    assert ([x] + a)[1..] == a && ([x] + b)[1..] == b;
  }

  predicate Ordenada<T>(s: seq<T>, clave: T -> seq<int>) {
    forall i, j :: 0 <= i < j < |s| ==> LexMenorIgual(clave(s[i]), clave(s[j]))
  }

  lemma OrdenadaCola<T>(s: seq<T>, clave: T -> seq<int>)
    requires |s| > 0 && Ordenada(s, clave)
    ensures Ordenada(s[1..], clave)
  {
    forall i, j | 0 <= i < j < |s[1..]| ensures LexMenorIgual(clave(s[1..][i]), clave(s[1..][j])) {
      assert s[1..][i] == s[i + 1] && s[1..][j] == s[j + 1];
    }
  }

  /** Insert `x` in front of the first element whose key is not smaller, so it stays before its equals. */
  function Insertar<T>(x: T, s: seq<T>, clave: T -> seq<int>): (r: seq<T>)
    ensures multiset(r) == multiset(s) + multiset{x}
    ensures Ordenada(s, clave) ==> Ordenada(r, clave)
  {
    if |s| == 0 then [x]
    else if LexMenorIgual(clave(x), clave(s[0])) then
      InsertarDelante(x, s, clave);
      [x] + s
    else
      var r := [s[0]] + Insertar(x, s[1..], clave);
      assert s == [s[0]] + s[1..];
      InsertarDetras(x, s, clave, r);
      r
  }

  lemma InsertarDelante<T>(x: T, s: seq<T>, clave: T -> seq<int>)
    requires |s| > 0 && LexMenorIgual(clave(x), clave(s[0]))
    ensures Ordenada(s, clave) ==> Ordenada([x] + s, clave)
  {
    if Ordenada(s, clave) {
      var r := [x] + s;
      forall i, j | 0 <= i < j < |r| ensures LexMenorIgual(clave(r[i]), clave(r[j])) {
        if i == 0 && j > 1 {
          LexTransitiva(clave(x), clave(s[0]), clave(s[j - 1]));
        }
      }
    }
  }

  lemma InsertarDetras<T>(x: T, s: seq<T>, clave: T -> seq<int>, r: seq<T>)
    requires |s| > 0 && !LexMenorIgual(clave(x), clave(s[0]))
    requires r == [s[0]] + Insertar(x, s[1..], clave)
    requires multiset(Insertar(x, s[1..], clave)) == multiset(s[1..]) + multiset{x}
    requires Ordenada(s[1..], clave) ==> Ordenada(Insertar(x, s[1..], clave), clave)
    ensures Ordenada(s, clave) ==> Ordenada(r, clave)
  {
    if Ordenada(s, clave) {
      var t := Insertar(x, s[1..], clave);
      CabezaAntes(x, s, clave, t);
      forall i, j | 0 <= i < j < |r| ensures LexMenorIgual(clave(r[i]), clave(r[j])) {
        if i > 0 {
          assert r[i] == t[i - 1] && r[j] == t[j - 1];
        } else {
          assert r[j] == t[j - 1];
        }
      }
    }
  }

  /** The head of an ordered `s` comes before everything of `s[1..]` and before `x` when `x` goes behind it. */
  lemma CabezaAntes<T>(x: T, s: seq<T>, clave: T -> seq<int>, t: seq<T>)
    requires |s| > 0 && !LexMenorIgual(clave(x), clave(s[0])) && Ordenada(s, clave)
    requires multiset(t) == multiset(s[1..]) + multiset{x}
    ensures forall k :: 0 <= k < |t| ==> LexMenorIgual(clave(s[0]), clave(t[k]))
  {
    LexTotal(clave(x), clave(s[0]));
    forall k | 0 <= k < |t| ensures LexMenorIgual(clave(s[0]), clave(t[k])) {
      assert t[k] in multiset(t);
      if t[k] != x {
        assert t[k] in multiset(s[1..]);
        var m :| 0 <= m < |s[1..]| && s[1..][m] == t[k];
        assert s[m + 1] == t[k];
      }
    }
  }

  /** `sorted(s, key=clave)`: a stable sort; the result is ordered by key and a permutation of `s`. */
  function Ordenar<T>(s: seq<T>, clave: T -> seq<int>): (r: seq<T>)
    ensures multiset(r) == multiset(s)
    ensures |r| == |s|
    ensures Ordenada(r, clave)
  {
    if |s| == 0 then []
    else
      assert s == [s[0]] + s[1..];
      var r := Insertar(s[0], Ordenar(s[1..], clave), clave);
      assert |r| == |multiset(r)|;
      r
  }

  /** An ordered sequence is its own sort, so sorting twice changes nothing. */
  lemma {:induction false} OrdenarOrdenada<T>(s: seq<T>, clave: T -> seq<int>)
    requires Ordenada(s, clave)
    ensures Ordenar(s, clave) == s
    decreases |s|
  {
    if |s| > 0 {
      OrdenadaCola(s, clave);
      OrdenarOrdenada(s[1..], clave);
      if |s| > 1 {
        assert LexMenorIgual(clave(s[0]), clave(s[1]));
      }
      assert [s[0]] + s[1..] == s;
    }
  }

  /** The sort is stable: the elements of one key keep their relative order. */
  function ConClave<T>(s: seq<T>, clave: T -> seq<int>, k: seq<int>): seq<T>
  {
    if |s| == 0 then []
    else (if clave(s[0]) == k then [s[0]] else []) + ConClave(s[1..], clave, k)
  }

  lemma {:induction false} InsertarEstable<T>(x: T, s: seq<T>, clave: T -> seq<int>, k: seq<int>)
    requires Ordenada(s, clave)
    ensures ConClave(Insertar(x, s, clave), clave, k)
         == (if clave(x) == k then [x] else []) + ConClave(s, clave, k)
    decreases |s|
  {
    if |s| > 0 {
      if LexMenorIgual(clave(x), clave(s[0])) {
        assert Insertar(x, s, clave) == [x] + s;
        ConClaveCons(x, s, clave, k);
      } else {
        var t := Insertar(x, s[1..], clave);
        assert Insertar(x, s, clave) == [s[0]] + t;
        OrdenadaCola(s, clave);
        InsertarEstable(x, s[1..], clave, k);
        ConClaveCons(s[0], t, clave, k);
        ConClaveCons(s[0], s[1..], clave, k);
        assert [s[0]] + s[1..] == s;
        if clave(x) == k && clave(s[0]) == k {
          LexReflexiva(k);
          assert false;
        }
        UnaVacia(if clave(s[0]) == k then [s[0]] else [], if clave(x) == k then [x] else [], ConClave(s[1..], clave, k));
      }
    }
  }

  lemma ConClaveCons<T>(y: T, s: seq<T>, clave: T -> seq<int>, k: seq<int>)
    ensures ConClave([y] + s, clave, k) == (if clave(y) == k then [y] else []) + ConClave(s, clave, k)
  {
    assert ([y] + s)[1..] == s;
  }

  /** When one of two prefixes is empty their order does not matter. */
  lemma UnaVacia<T>(a: seq<T>, b: seq<T>, c: seq<T>)
    requires a == [] || b == []
    ensures a + (b + c) == b + (a + c)
  {
  }

  lemma {:induction false} OrdenarEstable<T>(s: seq<T>, clave: T -> seq<int>, k: seq<int>)
    ensures ConClave(Ordenar(s, clave), clave, k) == ConClave(s, clave, k)
    decreases |s|
  {
    if |s| > 0 {
      OrdenarEstable(s[1..], clave, k);
      InsertarEstable(s[0], Ordenar(s[1..], clave), clave, k);
    }
  }

  /** Key of a descending sort by an integer (Python's `key=f, reverse=True`). */
  function Desc(v: int): seq<int>
  {
    [-v]
  }

  lemma DescOrden(a: int, b: int)
    ensures LexMenorIgual(Desc(a), Desc(b)) <==> a >= b
  {
    LexUnitario(-a, -b);
  }
}
