/**
 * The Python `str` operations the core relies on: `isspace`, `strip`,
 * `split(sep)`, `split()`, `replace(",", "")`, `lower()` on ASCII letters,
 * `isdigit()` on ASCII digits, `str(n)` and `int(s)` in base 10.
 */
module Texto {
  import opened Base

  // ---------------------------------------------------------------------
  // Whitespace and strip()
  // ---------------------------------------------------------------------

  /** Python's `str.isspace()` for one character (the complete list of code points). */
  predicate EsEspacio(c: char) {
    var n := c as int;
    n == 0x20 || 0x09 <= n <= 0x0d || 0x1c <= n <= 0x1f || n == 0x85 || n == 0xa0
    || n == 0x1680 || 0x2000 <= n <= 0x200a || n == 0x2028 || n == 0x2029
    || n == 0x202f || n == 0x205f || n == 0x3000
  }

  predicate SoloEspacios(s: string) {
    forall i :: 0 <= i < |s| ==> EsEspacio(s[i])
  }

  predicate SinEspacios(s: string) {
    forall i :: 0 <= i < |s| ==> !EsEspacio(s[i])
  }

  /** A string with no whitespace at either end: what `strip()` returns. */
  predicate Recortada(s: string) {
    s == [] || (!EsEspacio(s[0]) && !EsEspacio(s[|s| - 1]))
  }

  /** `str.lstrip()`: the suffix left after dropping the leading whitespace. */
  function QuitarIzq(s: string): (r: string)
    ensures |r| <= |s| && r == s[|s| - |r|..]
    ensures SoloEspacios(s[..|s| - |r|])
    ensures r == [] || !EsEspacio(r[0])
  {
    if |s| > 0 && EsEspacio(s[0]) then
      var r := QuitarIzq(s[1..]);
      assert s[..|s| - |r|] == [s[0]] + s[1..][..|s| - 1 - |r|];
      r
    else s
  }

  /** `str.rstrip()`: the prefix left after dropping the trailing whitespace. */
  function QuitarDer(s: string): (r: string)
    ensures |r| <= |s| && r == s[..|r|]
    ensures SoloEspacios(s[|r|..])
    ensures r == [] || !EsEspacio(r[|r| - 1])
  {
    if |s| > 0 && EsEspacio(s[|s| - 1]) then
      var r := QuitarDer(s[..|s| - 1]);
      assert s[|r|..] == s[..|s| - 1][|r|..] + [s[|s| - 1]];
      r
    else s
  }

  /** `str.strip()`. */
  function Recortar(s: string): (r: string)
    ensures Recortada(r)
    ensures |r| <= |s|
  {
    QuitarDer(QuitarIzq(s))
  }

  /** The characters of `strip(s)` all occur in `s`. */
  lemma RecortarSubcadena(s: string, c: char)
    requires c in Recortar(s)
    ensures c in s
  {
    var l := QuitarIzq(s);
    var r := QuitarDer(l);
    var k :| 0 <= k < |r| && r[k] == c;
    assert l[k] == c;
    assert s[|s| - |l| + k] == c;
  }

  /** `strip` adds no character. */
  lemma RecortarAusente(s: string, c: char)
    ensures c !in s ==> c !in Recortar(s)
  {
    if c in Recortar(s) {
      RecortarSubcadena(s, c);
    }
  }

  /** A string that is already stripped is left alone, so `strip` is idempotent. */
  lemma RecortarFijo(s: string)
    requires Recortada(s)
    ensures Recortar(s) == s
  {
  }

  lemma RecortarIdempotente(s: string)
    ensures Recortar(Recortar(s)) == Recortar(s)
  {
    RecortarFijo(Recortar(s));
  }

  /** Stripping only whitespace leaves nothing, and the converse. */
  lemma {:induction false} RecortarVacia(s: string)
    ensures Recortar(s) == [] <==> SoloEspacios(s)
  {
    var l := QuitarIzq(s);
    if l != [] {
      assert !EsEspacio(s[|s| - |l|]);
      RecortarNoVacia(l);
    } else {
      assert s[..|s|] == s;
    }
  }

  // ---------------------------------------------------------------------
  // split(sep) and its inverse, join
  // ---------------------------------------------------------------------

  /** `s.split(sep)` for a one-character separator: every occurrence splits, so k separators give k + 1 pieces. */
  function Separar(s: string, sep: char): (r: seq<string>)
    ensures |r| >= 1
    ensures forall i :: 0 <= i < |r| ==> sep !in r[i]
    decreases |s|
  {
    if |s| == 0 then [""]
    else
      var resto := Separar(s[1..], sep);
      if s[0] == sep then [""] + resto
      else [[s[0]] + resto[0]] + resto[1..]
  }

  /** `sep.join(partes)`. */
  function Unir(partes: seq<string>, sep: string): string
  {
    if |partes| == 0 then ""
    else if |partes| == 1 then partes[0]
    else partes[0] + sep + Unir(partes[1..], sep)
  }

  /** Joining the pieces of a split with the same separator gives back the string. */
  lemma {:induction false} UnirSeparar(s: string, sep: char)
    ensures Unir(Separar(s, sep), [sep]) == s
    decreases |s|
  {
    if |s| > 0 {
      var resto := Separar(s[1..], sep);
      UnirSeparar(s[1..], sep);
      if s[0] == sep {
        assert Separar(s, sep) == [""] + resto;
        assert s == [sep] + s[1..];
      } else {
        var r := Separar(s, sep);
        assert r == [[s[0]] + resto[0]] + resto[1..];
        if |resto| == 1 {
          assert r == [[s[0]] + resto[0]];
        } else {
          assert r[1..] == resto[1..];
          assert Unir(resto, [sep]) == resto[0] + [sep] + Unir(resto[1..], [sep]);
        }
      }
    }
  }

  /** The piece before the first separator, and the rest after it. */
  lemma {:induction false} SepararPrimero(a: string, sep: char, b: string)
    requires sep !in a
    ensures Separar(a + [sep] + b, sep) == [a] + Separar(b, sep)
    decreases |a|
  {
    if |a| == 0 {
      assert [sep] + b == a + [sep] + b;
      assert ([sep] + b)[1..] == b;
    } else {
      SepararPrimero(a[1..], sep, b);
      assert (a + [sep] + b)[1..] == a[1..] + [sep] + b;
      assert [a[0]] + a[1..] == a;
    }
  }

  /** Splitting a string without the separator gives the string itself. */
  lemma {:induction false} SepararSinSeparador(s: string, sep: char)
    requires sep !in s
    ensures Separar(s, sep) == [s]
    decreases |s|
  {
    if |s| > 0 {
      SepararSinSeparador(s[1..], sep);
      assert [s[0]] + s[1..] == s;
    }
  }

  /** Splitting at a separator distributes over the concatenation around it. */
  lemma {:induction false} SepararConcat(a: string, sep: char, b: string)
    ensures Separar(a + [sep] + b, sep) == Separar(a, sep) + Separar(b, sep)
    decreases |a|
  {
    if |a| == 0 {
      assert a + [sep] + b == [sep] + b;
      assert ([sep] + b)[1..] == b;
    } else {
      var s := a + [sep] + b;
      ConcatCabeza(a + [sep], b);
      ConcatCabeza(a, [sep]);
      Asociativa(a[1..], [sep], b);
      assert s[0] == a[0] && s[1..] == a[1..] + [sep] + b;
      SepararConcat(a[1..], sep, b);
      var ra := Separar(a[1..], sep);
      var rb := Separar(b, sep);
      var resto := Separar(s[1..], sep);
      assert resto == ra + rb;
      if a[0] == sep {
        assert Separar(s, sep) == [""] + resto;
        assert Separar(a, sep) == [""] + ra;
        Asociativa([""], ra, rb);
      } else {
        ConcatCabeza(ra, rb);
        assert Separar(s, sep) == [[a[0]] + ra[0]] + (ra[1..] + rb);
        assert Separar(a, sep) == [[a[0]] + ra[0]] + ra[1..];
        Asociativa([[a[0]] + ra[0]], ra[1..], rb);
      }
    }
  }

  /** Everything before the first occurrence of `sep` (`s.split(sep)[0]`). */
  function AntesDe(s: string, sep: char): (r: string)
    ensures sep !in r
    ensures |r| <= |s| && r == s[..|r|]
    ensures |r| == |s| || s[|r|] == sep
    decreases |s|
  {
    if |s| == 0 || s[0] == sep then "" else [s[0]] + AntesDe(s[1..], sep)
  }

  lemma {:induction false} AntesDeEsPrimeraPieza(s: string, sep: char)
    ensures Separar(s, sep)[0] == AntesDe(s, sep)
    decreases |s|
  {
    if |s| > 0 && s[0] != sep {
      AntesDeEsPrimeraPieza(s[1..], sep);
    }
  }

  /** `s.replace(c, "")`. */
  function Quitar(s: string, c: char): (r: string)
    ensures c !in r
    ensures |r| <= |s|
  {
    if |s| == 0 then ""
    else if s[0] == c then Quitar(s[1..], c)
    else [s[0]] + Quitar(s[1..], c)
  }

  lemma {:induction false} QuitarAusente(s: string, c: char)
    requires c !in s
    ensures Quitar(s, c) == s
  {
    if |s| > 0 {
      QuitarAusente(s[1..], c);
      assert [s[0]] + s[1..] == s;
    }
  }

  /** A character at a valid position is in the string. */
  lemma Pertenece(s: string, i: int)
    ensures 0 <= i < |s| ==> s[i] in s
  {
  }

  /** Without the separator, the first piece is the whole string. */
  lemma AntesDeAusente(s: string, sep: char)
    requires sep !in s
    ensures AntesDe(s, sep) == s
  {
    var r := AntesDe(s, sep);
    if |r| < |s| {
      Pertenece(s, |r|);
      assert false;
    }
  }

  /** The first piece ends at the first separator. */
  lemma AntesDePrefijo(s: string, a: string, sep: char)
    requires sep !in a && |a| < |s| && s[..|a|] == a && s[|a|] == sep
    ensures AntesDe(s, sep) == a
  {
    var r := AntesDe(s, sep);
    if |r| < |a| {
      Pertenece(a, |r|);
      assert false;
    } else if |r| > |a| {
      Pertenece(r, |a|);
      assert false;
    }
  }

  /** `replace` distributes over concatenation. */
  lemma {:induction false} QuitarConcat(a: string, b: string, c: char)
    ensures Quitar(a + b, c) == Quitar(a, c) + Quitar(b, c)
    decreases |a|
  {
    if |a| > 0 {
      assert (a + b)[1..] == a[1..] + b;
      QuitarConcat(a[1..], b, c);
    } else {
      assert a + b == b;
    }
  }

  // ---------------------------------------------------------------------
  // split() without argument
  // ---------------------------------------------------------------------

  /** The longest prefix of `s` without whitespace. */
  function Token(s: string): (r: string)
    ensures |r| <= |s| && r == s[..|r|] && SinEspacios(r)
    ensures |r| == |s| || EsEspacio(s[|r|])
  {
    if |s| == 0 || EsEspacio(s[0]) then [] else [s[0]] + Token(s[1..])
  }

  /** `s.split()`: the maximal runs of non-whitespace, in order. */
  function Palabras(s: string): (r: seq<string>)
    ensures forall i :: 0 <= i < |r| ==> r[i] != [] && SinEspacios(r[i])
    decreases |s|
  {
    if |s| == 0 then []
    else if EsEspacio(s[0]) then Palabras(s[1..])
    else var t := Token(s); [t] + Palabras(s[|t|..])
  }

  /** A word followed by whitespace or the end is the first token. */
  lemma {:induction false} TokenPrefijo(a: string, b: string)
    requires SinEspacios(a) && (b == [] || EsEspacio(b[0]))
    ensures Token(a + b) == a
    decreases |a|
  {
    if |a| == 0 {
      assert a + b == b;
    } else {
      assert (a + b)[0] == a[0] && (a + b)[1..] == a[1..] + b;
      TokenPrefijo(a[1..], b);
      assert [a[0]] + a[1..] == a;
    }
  }

  /** The first word of a string that starts with a word is that word's token. */
  lemma PalabrasPrimera(s: string)
    requires |s| > 0 && !EsEspacio(s[0])
    ensures Palabras(s) != [] && Palabras(s)[0] == Token(s)
  {
  }

  /** The longest suffix of `s` without whitespace. */
  function TokenFinal(s: string): (r: string)
    ensures SinEspacios(r) && |r| <= |s| && r == s[|s| - |r|..]
  {
    if |s| == 0 || EsEspacio(s[|s| - 1]) then []
    else
      var r := TokenFinal(s[..|s| - 1]);
      assert s[..|s| - 1][|s| - 1 - |r|..] + [s[|s| - 1]] == s[|s| - |r| - 1..];
      r + [s[|s| - 1]]
  }

  /** The last word of `s`: the characters after the last whitespace once trailing whitespace is dropped. */
  function UltimaPalabra(s: string): string
  {
    TokenFinal(QuitarDer(s))
  }

  lemma {:induction false} PalabrasVacia(s: string)
    ensures Palabras(s) == [] <==> SoloEspacios(s)
    decreases |s|
  {
    if |s| > 0 && EsEspacio(s[0]) {
      PalabrasVacia(s[1..]);
      if SoloEspacios(s[1..]) {
        forall i | 0 <= i < |s| ensures EsEspacio(s[i]) {
          if i > 0 { assert s[i] == s[1..][i - 1]; }
        }
      }
    }
  }

  lemma {:induction false} TokenFinalConEspacio(a: string, b: string)
    requires exists i :: 0 <= i < |b| && EsEspacio(b[i])
    ensures TokenFinal(a + b) == TokenFinal(b)
    decreases |b|
  {
    var i :| 0 <= i < |b| && EsEspacio(b[i]);
    if !EsEspacio(b[|b| - 1]) {
      assert i < |b| - 1;
      assert (a + b)[..|a + b| - 1] == a + b[..|b| - 1];
      assert b[..|b| - 1][i] == b[i];
      TokenFinalConEspacio(a, b[..|b| - 1]);
    }
  }

  lemma {:induction false} QuitarDerConcat(a: string, b: string)
    requires !SoloEspacios(b)
    ensures QuitarDer(a + b) == a + QuitarDer(b)
    decreases |b|
  {
    if EsEspacio(b[|b| - 1]) {
      assert (a + b)[..|a + b| - 1] == a + b[..|b| - 1];
      assert !SoloEspacios(b[..|b| - 1]) by {
        var i :| 0 <= i < |b| && !EsEspacio(b[i]);
        assert i < |b| - 1 && b[..|b| - 1][i] == b[i];
      }
      QuitarDerConcat(a, b[..|b| - 1]);
    }
  }

  /** The last element of `split()` is the last word, so `split()[-1]` is `UltimaPalabra`. */
  lemma {:induction false} UltimaDePalabras(s: string)
    requires Palabras(s) != []
    ensures Palabras(s)[|Palabras(s)| - 1] == UltimaPalabra(s)
    decreases |s|
  {
    if EsEspacio(s[0]) {
      UltimaDePalabras(s[1..]);
      UltimaPasoEspacio(s);
    } else {
      var resto := s[|Token(s)|..];
      if Palabras(resto) == [] {
        UltimaUnica(s);
      } else {
        UltimaDePalabras(resto);
        UltimaPasoToken(s);
      }
    }
  }

  lemma UltimaPasoEspacio(s: string)
    requires |s| > 0 && EsEspacio(s[0]) && Palabras(s[1..]) != []
    requires Palabras(s[1..])[|Palabras(s[1..])| - 1] == UltimaPalabra(s[1..])
    ensures Palabras(s) != [] && Palabras(s)[|Palabras(s)| - 1] == UltimaPalabra(s)
  {
    PalabrasVacia(s[1..]);
    UltimaTrasEspacio(s);
    assert Palabras(s) == Palabras(s[1..]);
  }

  lemma UltimaPasoToken(s: string)
    requires |s| > 0 && !EsEspacio(s[0])
    requires var resto := s[|Token(s)|..];
      Palabras(resto) != [] && Palabras(resto)[|Palabras(resto)| - 1] == UltimaPalabra(resto)
    ensures Palabras(s) != [] && Palabras(s)[|Palabras(s)| - 1] == UltimaPalabra(s)
  {
    UltimaTrasToken(s);
  }

  lemma UltimaTrasEspacio(s: string)
    requires |s| > 0 && EsEspacio(s[0]) && !SoloEspacios(s[1..])
    ensures UltimaPalabra(s) == UltimaPalabra(s[1..])
  {
    var c, resto := s[0], s[1..];
    CabezaCola(s);
    QuitarDerConcat([c], resto);
    RecortarNoVacia(resto);
    TokenFinalSinEspacioFinal([c], QuitarDer(resto));
  }

  lemma UltimaUnica(s: string)
    requires |s| > 0 && !EsEspacio(s[0])
    requires Palabras(s[|Token(s)|..]) == []
    ensures Palabras(s) == [Token(s)]
    ensures UltimaPalabra(s) == Token(s)
  {
    var t := Token(s);
    QuitarDerToken(s);
    TokenFinalTodo(t);
  }

  lemma QuitarDerToken(s: string)
    requires |s| > 0 && !EsEspacio(s[0])
    requires Palabras(s[|Token(s)|..]) == []
    ensures QuitarDer(s) == Token(s)
  {
    var t := Token(s);
    var resto := s[|t|..];
    PrefijoResto(s, |t|);
    PalabrasVacia(resto);
    assert t != [] && !EsEspacio(t[|t| - 1]);
    QuitarDerTodoEspacio(t, resto);
  }

  lemma UltimaTrasToken(s: string)
    requires |s| > 0 && !EsEspacio(s[0])
    requires Palabras(s[|Token(s)|..]) != []
    ensures Palabras(s) == [Token(s)] + Palabras(s[|Token(s)|..])
    ensures UltimaPalabra(s) == UltimaPalabra(s[|Token(s)|..])
  {
    var t := Token(s);
    var resto := s[|t|..];
    var q := QuitarDer(resto);
    QuitarDerTrasToken(s);
    RestoEmpiezaConEspacio(s);
    assert EsEspacio(q[0]);
    TokenFinalConEspacio(t, q);
  }

  lemma QuitarDerTrasToken(s: string)
    requires |s| > 0 && !EsEspacio(s[0])
    requires Palabras(s[|Token(s)|..]) != []
    ensures QuitarDer(s) == Token(s) + QuitarDer(s[|Token(s)|..])
  {
    var t := Token(s);
    var resto := s[|t|..];
    PrefijoResto(s, |t|);
    PalabrasVacia(resto);
    QuitarDerConcat(t, resto);
  }

  lemma RestoEmpiezaConEspacio(s: string)
    requires |s| > 0 && !EsEspacio(s[0])
    requires Palabras(s[|Token(s)|..]) != []
    ensures var q := QuitarDer(s[|Token(s)|..]); q != [] && EsEspacio(q[0])
  {
    var t := Token(s);
    var resto := s[|t|..];
    PalabrasVacia(resto);
    RecortarNoVacia(resto);
    assert resto != [] && EsEspacio(resto[0]);
    assert resto[0] == QuitarDer(resto)[0];
  }

  lemma QuitarDerTodoEspacio(a: string, b: string)
    requires SoloEspacios(b)
    requires a == [] || !EsEspacio(a[|a| - 1])
    ensures QuitarDer(a + b) == a
    decreases |b|
  {
    if |b| > 0 {
      assert (a + b)[..|a + b| - 1] == a + b[..|b| - 1];
      QuitarDerTodoEspacio(a, b[..|b| - 1]);
    } else {
      assert a + b == a;
    }
  }

  lemma {:induction false} TokenFinalTodo(t: string)
    requires SinEspacios(t)
    ensures TokenFinal(t) == t
  {
    if |t| > 0 {
      TokenFinalTodo(t[..|t| - 1]);
    }
  }

  lemma RecortarNoVacia(s: string)
    requires !SoloEspacios(s)
    ensures QuitarDer(s) != []
  {
  }

  lemma TokenFinalSinEspacioFinal(a: string, q: string)
    requires q != [] && !EsEspacio(q[|q| - 1])
    requires |a| == 1 && EsEspacio(a[0])
    ensures TokenFinal(a + q) == TokenFinal(q)
  {
    var w := TokenFinal(q);
    if |w| == |q| {
      assert forall i :: 0 <= i < |q| ==> !EsEspacio(q[i]);
      TokenFinalPrefijoEspacio(a, q);
    } else {
      assert EsEspacio(q[|q| - |w| - 1]) by { TokenFinalMaximo(q); }
      TokenFinalConEspacio(a, q);
    }
  }

  /** The final token is either the whole string or preceded by whitespace. */
  lemma {:induction false} TokenFinalMaximo(s: string)
    ensures |TokenFinal(s)| == |s| || EsEspacio(s[|s| - |TokenFinal(s)| - 1])
  {
    if |s| > 0 && !EsEspacio(s[|s| - 1]) {
      var p := s[..|s| - 1];
      TokenFinalMaximo(p);
      assert TokenFinal(s) == TokenFinal(p) + [s[|s| - 1]];
      if |TokenFinal(p)| < |p| {
        assert s[|s| - |TokenFinal(s)| - 1] == p[|p| - |TokenFinal(p)| - 1];
      }
    }
  }

  lemma {:induction false} TokenFinalPrefijoEspacio(a: string, q: string)
    requires SinEspacios(q)
    requires |a| == 1 && EsEspacio(a[0])
    ensures TokenFinal(a + q) == q
    decreases |q|
  {
    if |q| == 0 {
      assert a + q == a;
    } else {
      assert (a + q)[..|a + q| - 1] == a + q[..|q| - 1];
      TokenFinalPrefijoEspacio(a, q[..|q| - 1]);
    }
  }

  // ---------------------------------------------------------------------
  // lower() on ASCII letters
  // ---------------------------------------------------------------------

  function MinusculaChar(c: char): char
  {
    if 'A' <= c <= 'Z' then (c as int + 32) as char else c
  }

  /** `str.lower()` on ASCII letters; every other character is kept. */
  function Minusculas(s: string): (r: string)
    ensures |r| == |s|
    ensures forall i :: 0 <= i < |s| ==> r[i] == MinusculaChar(s[i])
  {
    seq(|s|, i requires 0 <= i < |s| => MinusculaChar(s[i]))
  }

  lemma MinusculasIdempotente(s: string)
    ensures Minusculas(Minusculas(s)) == Minusculas(s)
  {
  }

  /** Lowering changes no whitespace, so it commutes with `strip`. */
  lemma {:induction false} MinusculasRecortar(s: string)
    ensures Minusculas(Recortar(s)) == Recortar(Minusculas(s))
  {
    MinusculasQuitarIzq(s);
    MinusculasQuitarDer(QuitarIzq(s));
  }

  lemma {:induction false} MinusculasQuitarIzq(s: string)
    ensures Minusculas(QuitarIzq(s)) == QuitarIzq(Minusculas(s))
    decreases |s|
  {
    if |s| > 0 && EsEspacio(s[0]) {
      assert Minusculas(s)[1..] == Minusculas(s[1..]);
      MinusculasQuitarIzq(s[1..]);
    }
  }

  lemma {:induction false} MinusculasQuitarDer(s: string)
    ensures Minusculas(QuitarDer(s)) == QuitarDer(Minusculas(s))
    decreases |s|
  {
    if |s| > 0 && EsEspacio(s[|s| - 1]) {
      assert Minusculas(s)[..|s| - 1] == Minusculas(s[..|s| - 1]);
      MinusculasQuitarDer(s[..|s| - 1]);
    }
  }

  // ---------------------------------------------------------------------
  // Decimal digits: isdigit(), str(n), int(s)
  // ---------------------------------------------------------------------

  predicate EsDigito(c: char) {
    '0' <= c <= '9'
  }

  function ValorDigito(c: char): (d: nat)
    ensures d < 10
  {
    if EsDigito(c) then c as int - '0' as int else 0
  }

  function CharDigito(d: nat): (c: char)
    requires d < 10
    ensures EsDigito(c) && ValorDigito(c) == d
  {
    ('0' as int + d) as char
  }

  /** `s.isdigit()` on ASCII digits: non-empty and every character a digit. */
  predicate EsNumero(s: string) {
    |s| > 0 && forall i :: 0 <= i < |s| ==> EsDigito(s[i])
  }

  /**
   * The digits of a base-10 integer literal as `int()` accepts them: digits with
   * single underscores between digits (PEP 515).
   */
  predicate DigitosLiteral(s: string) {
    && |s| > 0 && EsDigito(s[0]) && EsDigito(s[|s| - 1])
    && (forall i :: 0 <= i < |s| ==> EsDigito(s[i]) || s[i] == '_')
    && (forall i :: 0 <= i < |s| - 1 ==> !(s[i] == '_' && s[i + 1] == '_'))
  }

  /** The value of a digit string, underscores skipped. */
  function ValorDigitos(s: string): nat
  {
    if |s| == 0 then 0
    else if s[|s| - 1] == '_' then ValorDigitos(s[..|s| - 1])
    else ValorDigitos(s[..|s| - 1]) * 10 + ValorDigito(s[|s| - 1])
  }

  /** `10 ** n`. */
  function Pot10(n: nat): (r: nat)
    ensures r >= 1
  {
    if n == 0 then 1 else 10 * Pot10(n - 1)
  }

  /** Digits written after others shift the others' value by their count. */
  lemma {:induction false} ValorDigitosConcat(a: string, b: string)
    requires forall i :: 0 <= i < |b| ==> EsDigito(b[i])
    ensures ValorDigitos(a + b) == ValorDigitos(a) * Pot10(|b|) + ValorDigitos(b)
    decreases |b|
  {
    if |b| == 0 {
      assert a + b == a;
    } else {
      var b1 := b[..|b| - 1];
      assert (a + b)[..|a + b| - 1] == a + b1;
      ValorDigitosConcat(a, b1);
      ValorUltimo(a + b);
      ValorUltimo(b);
      Desplazar(ValorDigitos(a), Pot10(|b1|), ValorDigitos(b1), ValorDigito(b[|b| - 1]));
    }
  }

  lemma ValorUltimo(s: string)
    requires |s| > 0 && EsDigito(s[|s| - 1])
    ensures ValorDigitos(s) == ValorDigitos(s[..|s| - 1]) * 10 + ValorDigito(s[|s| - 1])
  {
  }

  lemma Desplazar(va: nat, p: nat, vb: nat, d: nat)
    ensures (va * p + vb) * 10 + d == va * (10 * p) + (vb * 10 + d)
  {
  }

  /** `str(n)` for a natural number. */
  function MostrarNat(n: nat): (r: string)
    ensures EsNumero(r)
    ensures r[0] != '0' || n == 0
  {
    if n < 10 then [CharDigito(n)]
    else MostrarNat(n / 10) + [CharDigito(n % 10)]
  }

  lemma {:induction false} ValorMostrarNat(n: nat)
    ensures ValorDigitos(MostrarNat(n)) == n
  {
    if n >= 10 {
      ValorMostrarNat(n / 10);
      var s := MostrarNat(n);
      assert s[..|s| - 1] == MostrarNat(n / 10);
    }
  }

  lemma EsNumeroLiteral(s: string)
    requires EsNumero(s)
    ensures DigitosLiteral(s)
  {
  }

  /**
   * `int(s)` for base 10: surrounding whitespace, an optional sign, then the
   * digits of a literal. `None` stands for the `ValueError` it raises otherwise.
   */
  function PyInt(s: string): (r: Option<int>)
  {
    var t := Recortar(s);
    if |t| > 0 && (t[0] == '+' || t[0] == '-') then
      if DigitosLiteral(t[1..]) then
        Some(if t[0] == '-' then -(ValorDigitos(t[1..]) as int) else ValorDigitos(t[1..]))
      else None
    else if DigitosLiteral(t) then Some(ValorDigitos(t))
    else None
  }

  /** `int` accepts exactly the digits of a literal after an optional sign, and only a `-` gives a negative value. */
  lemma PyIntNegativo(s: string)
    requires '-' !in s
    ensures PyInt(s).Some? ==> PyInt(s).value >= 0
  {
    var t := Recortar(s);
    if |t| > 0 && t[0] == '-' {
      RecortarSubcadena(s, '-');
    }
  }

  /** `int(str(n)) == n`. */
  lemma PyIntMostrar(n: nat)
    ensures PyInt(MostrarNat(n)) == Some(n)
  {
    var s := MostrarNat(n);
    assert Recortada(s) by { assert EsDigito(s[0]) && EsDigito(s[|s| - 1]); }
    RecortarFijo(s);
    EsNumeroLiteral(s);
    ValorMostrarNat(n);
  }

  /** `int("-" + str(n)) == -n`. */
  lemma PyIntMostrarNegativo(n: nat)
    ensures PyInt("-" + MostrarNat(n)) == Some(-(n as int))
  {
    var d := MostrarNat(n);
    var s := "-" + d;
    assert !EsEspacio(s[0]) && !EsEspacio(s[|s| - 1]) by {
      assert s[0] == '-' && s[|s| - 1] == d[|d| - 1] && EsDigito(d[|d| - 1]);
    }
    RecortarFijo(s);
    assert s[1..] == d;
    EsNumeroLiteral(d);
    ValorMostrarNat(n);
    assert Recortar(s) == s && s[0] == '-' && DigitosLiteral(s[1..]);
  }

  /** On a string of ASCII digits (`isdigit()`), `int` gives the digits' value. */
  lemma PyIntNumero(s: string)
    requires EsNumero(s)
    ensures PyInt(s) == Some(ValorDigitos(s) as int)
  {
    assert EsDigito(s[0]) && EsDigito(s[|s| - 1]);
    RecortarFijo(s);
    assert DigitosLiteral(s);
  }
}
