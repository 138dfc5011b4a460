/**
 * The selection of the `imdb_curated_seed` command
 * (`moviegame/management/commands/imdb_curated_seed.py`, lines 230-276):
 * each decade takes its quota from its sorted bucket, at most `cap` per
 * primary genre, then tops up ignoring the cap; unless `--strict`, the last
 * places go to any candidate whose (title, year) has not been chosen yet;
 * the list is finally cut to `--top`.
 */
module CuradaSeleccion {
  import opened Base
  import opened SemillaCurada
  import opened CuradaCupos
  import SemillaImdb

  /** A row of `results`: `(title, year, decade, pgenre, votes, rating)`. */
  datatype Eleccion = Eleccion(titulo: string, anio: int, decada: int, genero: string, votos: int, decimas: int)

  function Elegida(c: Candidato, d: int): Eleccion {
    Eleccion(c.titulo, c.anio, d, c.genero, c.votos, c.decimas)
  }

  // ---------------------------------------------------------------------
  // A greedy pass: scan in order, stop once `falta` are taken, skip what `admite` refuses
  // ---------------------------------------------------------------------

  /** What a pass over `s` appends: each element `admite` accepts, until `falta` have been taken. */
  function Voraz(s: seq<Candidato>, f: Candidato -> Eleccion, admite: (seq<Eleccion>, Candidato) -> bool, falta: int): seq<Eleccion>
    decreases |s|
  {
    if |s| == 0 then []
    else
      var n := |s| - 1;
      var r := Voraz(s[..n], f, admite, falta);
      if |r| >= falta || !admite(r, s[n]) then r else r + [f(s[n])]
  }

  lemma VorazPaso(s: seq<Candidato>, f: Candidato -> Eleccion, admite: (seq<Eleccion>, Candidato) -> bool, falta: int, j: nat)
    requires j < |s|
    ensures var r := Voraz(s[..j], f, admite, falta);
      Voraz(s[..j + 1], f, admite, falta) == if |r| >= falta || !admite(r, s[j]) then r else r + [f(s[j])]
  {
    assert s[..j + 1][..j] == s[..j];
  }

  /** A pass never takes more than it was asked for. */
  lemma {:induction false} VorazCota(s: seq<Candidato>, f: Candidato -> Eleccion, admite: (seq<Eleccion>, Candidato) -> bool, falta: int)
    ensures |Voraz(s, f, admite, falta)| <= Max(0, falta)
    decreases |s|
  {
    if |s| > 0 {
      VorazCota(s[..|s| - 1], f, admite, falta);
    }
  }

  /** Once the quota is met, the rest of the input changes nothing: the `break`. */
  lemma {:induction false} VorazLleno(s: seq<Candidato>, f: Candidato -> Eleccion, admite: (seq<Eleccion>, Candidato) -> bool, falta: int, j: nat)
    requires j <= |s| && |Voraz(s[..j], f, admite, falta)| >= falta
    ensures Voraz(s, f, admite, falta) == Voraz(s[..j], f, admite, falta)
    decreases |s|
  {
    if j < |s| {
      var n := |s| - 1;
      assert s[..n][..j] == s[..j];
      VorazLleno(s[..n], f, admite, falta, j);
    } else {
      assert s[..j] == s;
    }
  }

  /** What the pass has appended after a prefix is a prefix of what it appends in the end. */
  lemma {:induction false} VorazPrefijo(s: seq<Candidato>, f: Candidato -> Eleccion, admite: (seq<Eleccion>, Candidato) -> bool, falta: int, j: nat)
    requires j <= |s|
    ensures var p := Voraz(s[..j], f, admite, falta);
      |p| <= |Voraz(s, f, admite, falta)| && Voraz(s, f, admite, falta)[..|p|] == p
    decreases |s|
  {
    if j < |s| {
      var n := |s| - 1;
      assert s[..n][..j] == s[..j];
      VorazPrefijo(s[..n], f, admite, falta, j);
    } else {
      assert s[..j] == s;
    }
  }

  /** Everything appended is the image of an input element `admite` accepted. */
  lemma {:induction false} VorazOrigen(s: seq<Candidato>, f: Candidato -> Eleccion, admite: (seq<Eleccion>, Candidato) -> bool, falta: int, e: Eleccion)
    requires e in Voraz(s, f, admite, falta)
    ensures exists i :: 0 <= i < |s| && e == f(s[i])
    decreases |s|
  {
    var n := |s| - 1;
    var r := Voraz(s[..n], f, admite, falta);
    if e in r {
      VorazOrigen(s[..n], f, admite, falta, e);
      var i :| 0 <= i < n && e == f(s[..n][i]);
      assert s[..n][i] == s[i];
    } else {
      assert e == f(s[n]);
    }
  }

  /** When the quota is not met, every element was either taken or refused by `admite` when it came. */
  lemma {:induction false} VorazMaximal(s: seq<Candidato>, f: Candidato -> Eleccion, admite: (seq<Eleccion>, Candidato) -> bool, falta: int, i: nat)
    requires i < |s| && |Voraz(s, f, admite, falta)| < falta
    ensures f(s[i]) in Voraz(s, f, admite, falta) || !admite(Voraz(s[..i], f, admite, falta), s[i])
  {
    var r := Voraz(s, f, admite, falta);
    VorazPaso(s, f, admite, falta, i);
    VorazPrefijo(s, f, admite, falta, i + 1);
    var p := Voraz(s[..i], f, admite, falta);
    VorazPrefijo(s[..i + 1], f, admite, falta, i);
    assert s[..i + 1][..i] == s[..i];
    if admite(p, s[i]) {
      assert |p| < falta;
      var q := Voraz(s[..i + 1], f, admite, falta);
      assert q == p + [f(s[i])];
      assert r[..|q|] == q;
      assert r[|p|] == q[|p|];
    }
  }

  // ---------------------------------------------------------------------
  // The genre cap (lines 232-249)
  // ---------------------------------------------------------------------

  /** `per_genre[g]`: how many of `r` have primary genre `g`. */
  function Cuenta(r: seq<Eleccion>, g: string): (n: nat)
    ensures n <= |r|
    decreases |r|
  {
    if |r| == 0 then 0 else Cuenta(r[..|r| - 1], g) + (if r[|r| - 1].genero == g then 1 else 0)
  }

  lemma CuentaAnadir(r: seq<Eleccion>, e: Eleccion, g: string)
    ensures Cuenta(r + [e], g) == Cuenta(r, g) + (if e.genero == g then 1 else 0)
  {
    assert (r + [e])[..|r|] == r;
  }

  /** Counting over a longer list never counts fewer. */
  lemma {:induction false} CuentaPrefijo(r: seq<Eleccion>, k: nat, g: string)
    requires k <= |r|
    ensures Cuenta(r[..k], g) <= Cuenta(r, g)
    decreases |r|
  {
    if k < |r| {
      var n := |r| - 1;
      assert r[..n][..k] == r[..k];
      CuentaPrefijo(r[..n], k, g);
    } else {
      assert r[..k] == r;
    }
  }

  /** `max(1, int(targets[d] * 0.28))`; `int` truncates towards zero, and 0.28 is 28/100. */
  function Tope(target: int): (cap: int)
    ensures cap >= 1
    ensures target >= 0 ==> cap == Max(1, 28 * target / 100)
  {
    Max(1, if target >= 0 then 28 * target / 100 else -(28 * -target / 100))
  }

  /** The cap is never above the quota, except that it is at least one. */
  lemma TopeCota(target: int)
    ensures Tope(target) <= Max(1, target)
  {
  }

  function Elegir(d: int): Candidato -> Eleccion {
    (c: Candidato) => Elegida(c, d)
  }

  /** `if per_genre[pg] >= cap: continue`. */
  function AdmiteTope(cap: int): (seq<Eleccion>, Candidato) -> bool {
    (r: seq<Eleccion>, c: Candidato) => Cuenta(r, c.genero) < cap
  }

  function ConTope(bucket: seq<Candidato>, d: int, target: int): (r: seq<Eleccion>)
    ensures |r| <= Max(0, target)
  {
    VorazCota(bucket, Elegir(d), AdmiteTope(Tope(target)), target);
    Voraz(bucket, Elegir(d), AdmiteTope(Tope(target)), target)
  }

  /** No primary genre gets more than `cap` places in the capped pass. */
  lemma {:induction false} ConTopeGenero(s: seq<Candidato>, d: int, cap: int, target: int, g: string)
    requires cap >= 0
    ensures Cuenta(Voraz(s, Elegir(d), AdmiteTope(cap), target), g) <= cap
    decreases |s|
  {
    if |s| > 0 {
      var n := |s| - 1;
      var r := Voraz(s[..n], Elegir(d), AdmiteTope(cap), target);
      ConTopeGenero(s[..n], d, cap, target, g);
      CuentaAnadir(r, Elegida(s[n], d), g);
    }
  }

  /** An unfilled capped pass left out only candidates whose genre had reached the cap. */
  lemma ConTopeMaximal(bucket: seq<Candidato>, d: int, target: int, i: nat)
    requires i < |bucket| && |ConTope(bucket, d, target)| < target
    ensures Elegida(bucket[i], d) in ConTope(bucket, d, target) ||
      Cuenta(ConTope(bucket, d, target), bucket[i].genero) >= Tope(target)
  {
    var f, a := Elegir(d), AdmiteTope(Tope(target));
    VorazMaximal(bucket, f, a, target, i);
    VorazPrefijo(bucket, f, a, target, i);
    var r := ConTope(bucket, d, target);
    var p := Voraz(bucket[..i], f, a, target);
    CuentaPrefijo(r, |p|, bucket[i].genero);
  }

  /** The map `per_genre`, read as a `Counter`. */
  function Contador(m: map<string, int>, g: string): int {
    if g in m then m[g] else 0
  }

  /** Bumping the counter of a row's genre keeps the counters equal to the counts. */
  lemma ContadorAnadir(m: map<string, int>, r: seq<Eleccion>, e: Eleccion)
    requires forall g :: Contador(m, g) == Cuenta(r, g)
    ensures forall g :: Contador(m[e.genero := Contador(m, e.genero) + 1], g) == Cuenta(r + [e], g)
  {
    forall g ensures Contador(m[e.genero := Contador(m, e.genero) + 1], g) == Cuenta(r + [e], g) {
      CuentaAnadir(r, e, g);
    }
  }

  /** The first `for item in buckets[d]` loop. */
  method PasadaConTope(bucket: seq<Candidato>, d: int, target: int, cap: int, results: seq<Eleccion>)
    returns (results2: seq<Eleccion>, taken: nat)
    requires cap == Tope(target)
    ensures results2 == results + ConTope(bucket, d, target)
    ensures taken == |ConTope(bucket, d, target)|
  {
    results2 := results;
    taken := 0;
    var perGenre: map<string, int> := map[];
    ghost var nuevas: seq<Eleccion> := [];
    for j := 0 to |bucket|
      invariant nuevas == ConTope(bucket[..j], d, target)
      invariant results2 == results + nuevas && taken == |nuevas|
      invariant forall g :: Contador(perGenre, g) == Cuenta(nuevas, g)
    {
      if taken >= target {
        LlenoTope(bucket, d, target, j);
        break;
      }
      PasoContador(bucket, d, target, perGenre, nuevas, j);
      var item := bucket[j];
      var pg := item.genero;
      if Contador(perGenre, pg) >= cap {
        continue;
      }
      results2 := results2 + [Elegida(item, d)];
      nuevas := nuevas + [Elegida(item, d)];
      perGenre := perGenre[pg := Contador(perGenre, pg) + 1];
      taken := taken + 1;
    }
    assert bucket[..|bucket|] == bucket;
  }

  /** One step of the capped loop: `per_genre` decides as the count would, and stays equal to it. */
  lemma PasoContador(bucket: seq<Candidato>, d: int, target: int, m: map<string, int>, nuevas: seq<Eleccion>, j: nat)
    requires j < |bucket| && nuevas == ConTope(bucket[..j], d, target) && |nuevas| < target
    requires forall g :: Contador(m, g) == Cuenta(nuevas, g)
    ensures var pg := bucket[j].genero;
      Contador(m, pg) >= Tope(target) ==> ConTope(bucket[..j + 1], d, target) == nuevas
    ensures var pg := bucket[j].genero; var e := Elegida(bucket[j], d);
      Contador(m, pg) < Tope(target) ==>
        && ConTope(bucket[..j + 1], d, target) == nuevas + [e]
        && forall g :: Contador(m[pg := Contador(m, pg) + 1], g) == Cuenta(nuevas + [e], g)
  {
    PasoTope(bucket, d, target, nuevas, j);
    ContadorAnadir(m, nuevas, Elegida(bucket[j], d));
  }

  /** One step of the capped pass: a row goes in while its genre is under the cap. */
  lemma PasoTope(bucket: seq<Candidato>, d: int, target: int, nuevas: seq<Eleccion>, j: nat)
    requires j < |bucket| && nuevas == ConTope(bucket[..j], d, target) && |nuevas| < target
    ensures ConTope(bucket[..j + 1], d, target)
         == if Cuenta(nuevas, bucket[j].genero) >= Tope(target) then nuevas else nuevas + [Elegida(bucket[j], d)]
  {
    VorazPaso(bucket, Elegir(d), AdmiteTope(Tope(target)), target, j);
  }

  /** Once the capped pass has `target` rows the rest of the bucket adds nothing. */
  lemma LlenoTope(bucket: seq<Candidato>, d: int, target: int, j: nat)
    requires j <= |bucket| && |ConTope(bucket[..j], d, target)| >= target
    ensures ConTope(bucket, d, target) == ConTope(bucket[..j], d, target)
  {
    VorazLleno(bucket, Elegir(d), AdmiteTope(Tope(target)), target, j);
  }

  // ---------------------------------------------------------------------
  // Topping up a decade without the cap (lines 251-259)
  // ---------------------------------------------------------------------

  /** `if (...) in results: continue`: a row already in `results` is not added again. */
  function AdmiteNueva(d: int, previas: seq<Eleccion>): (seq<Eleccion>, Candidato) -> bool {
    (r: seq<Eleccion>, c: Candidato) => Elegida(c, d) !in previas + r
  }

  function Relleno(bucket: seq<Candidato>, d: int, falta: int, previas: seq<Eleccion>): (r: seq<Eleccion>)
    ensures |r| <= Max(0, falta)
  {
    VorazCota(bucket, Elegir(d), AdmiteNueva(d, previas), falta);
    Voraz(bucket, Elegir(d), AdmiteNueva(d, previas), falta)
  }

  predicate SinRepetidos(r: seq<Eleccion>) {
    forall i, j :: 0 <= i < j < |r| ==> r[i] != r[j]
  }

  /** The top-up adds no row twice, and none that was already chosen. */
  lemma {:induction false} RellenoSinRepetir(s: seq<Candidato>, d: int, falta: int, previas: seq<Eleccion>)
    requires SinRepetidos(previas)
    ensures SinRepetidos(previas + Relleno(s, d, falta, previas))
    decreases |s|
  {
    if |s| > 0 {
      var n := |s| - 1;
      RellenoSinRepetir(s[..n], d, falta, previas);
      var r := Relleno(s[..n], d, falta, previas);
      assert Relleno(s, d, falta, previas) == Voraz(s, Elegir(d), AdmiteNueva(d, previas), falta);
      assert Voraz(s[..n], Elegir(d), AdmiteNueva(d, previas), falta) == r;
      if |r| < falta && Elegida(s[n], d) !in previas + r {
        var t := previas + r + [Elegida(s[n], d)];
        forall i, j | 0 <= i < j < |t| ensures t[i] != t[j] {
          if j == |t| - 1 {
            assert t[i] in previas + r;
          } else {
            assert t[i] == (previas + r)[i] && t[j] == (previas + r)[j];
          }
        }
        assert previas + Relleno(s, d, falta, previas) == t;
      }
    }
  }

  /** An unfilled top-up has taken every candidate of the bucket. */
  lemma RellenoCompleto(bucket: seq<Candidato>, d: int, falta: int, previas: seq<Eleccion>, i: nat)
    requires i < |bucket| && |Relleno(bucket, d, falta, previas)| < falta
    ensures Elegida(bucket[i], d) in previas + Relleno(bucket, d, falta, previas)
  {
    var f, a := Elegir(d), AdmiteNueva(d, previas);
    VorazMaximal(bucket, f, a, falta, i);
    VorazPrefijo(bucket, f, a, falta, i);
    var r := Relleno(bucket, d, falta, previas);
    var p := Voraz(bucket[..i], f, a, falta);
    if Elegida(bucket[i], d) in previas + p {
      if Elegida(bucket[i], d) !in previas {
        assert Elegida(bucket[i], d) in r[..|p|];
      }
    }
  }

  /** The second loop: `taken` continues from the capped pass. */
  method PasadaRelleno(bucket: seq<Candidato>, d: int, target: int, results: seq<Eleccion>, taken0: nat)
    returns (results2: seq<Eleccion>, taken: int)
    ensures results2 == results + Relleno(bucket, d, target - taken0, results)
    ensures taken == taken0 + |Relleno(bucket, d, target - taken0, results)|
  {
    results2 := results;
    taken := taken0;
    ghost var nuevas: seq<Eleccion> := [];
    for j := 0 to |bucket|
      invariant nuevas == Relleno(bucket[..j], d, target - taken0, results)
      invariant results2 == results + nuevas && taken == taken0 + |nuevas|
    {
      if taken >= target {
        LlenoRelleno(bucket, d, target - taken0, results, j);
        break;
      }
      PasoRelleno(bucket, d, results, nuevas, results2, target - taken0, j);
      var item := bucket[j];
      if Elegida(item, d) in results2 {
        continue;
      }
      results2 := results2 + [Elegida(item, d)];
      nuevas := nuevas + [Elegida(item, d)];
      taken := taken + 1;
    }
    assert bucket[..|bucket|] == bucket;
  }

  /** Once the top-up has `falta` rows the rest of the bucket adds nothing. */
  lemma LlenoRelleno(bucket: seq<Candidato>, d: int, falta: int, results: seq<Eleccion>, j: nat)
    requires j <= |bucket| && |Relleno(bucket[..j], d, falta, results)| >= falta
    ensures Relleno(bucket, d, falta, results) == Relleno(bucket[..j], d, falta, results)
  {
    VorazLleno(bucket, Elegir(d), AdmiteNueva(d, results), falta, j);
  }

  /** One step of the top-up: a row not yet in `results` or taken so far is added. */
  lemma PasoRelleno(bucket: seq<Candidato>, d: int, results: seq<Eleccion>, nuevas: seq<Eleccion>, results2: seq<Eleccion>, falta: int, j: nat)
    requires j < |bucket| && nuevas == Relleno(bucket[..j], d, falta, results) && |nuevas| < falta
    requires results2 == results + nuevas
    ensures Elegida(bucket[j], d) in results2 ==> Relleno(bucket[..j + 1], d, falta, results) == nuevas
    ensures Elegida(bucket[j], d) !in results2 ==>
      Relleno(bucket[..j + 1], d, falta, results) == nuevas + [Elegida(bucket[j], d)]
  {
    VorazPaso(bucket, Elegir(d), AdmiteNueva(d, results), falta, j);
  }

  /** One decade: the capped pass, then the top-up when the cap left the quota unfilled. */
  function PorDecada(bucket: seq<Candidato>, d: int, target: int, results: seq<Eleccion>): seq<Eleccion> {
    var conTope := ConTope(bucket, d, target);
    if |conTope| < target then
      results + conTope + Relleno(bucket, d, target - |conTope|, results + conTope)
    else results + conTope
  }

  /** A decade only appends to `results`, and at most its quota. */
  lemma PorDecadaCota(bucket: seq<Candidato>, d: int, target: int, results: seq<Eleccion>)
    ensures var r := PorDecada(bucket, d, target, results);
      |results| <= |r| <= |results| + Max(0, target) && r[..|results|] == results
  {
    var conTope := ConTope(bucket, d, target);
    VorazCota(bucket, Elegir(d), AdmiteTope(Tope(target)), target);
    if |conTope| < target {
      VorazCota(bucket, Elegir(d), AdmiteNueva(d, results + conTope), target - |conTope|);
    }
  }

  /** A decade that adds fewer than its quota has taken every candidate of its bucket. */
  lemma PorDecadaCompleta(bucket: seq<Candidato>, d: int, target: int, results: seq<Eleccion>, c: Candidato)
    requires |PorDecada(bucket, d, target, results)| < |results| + target && c in bucket
    ensures Elegida(c, d) in PorDecada(bucket, d, target, results)
  {
    var conTope := ConTope(bucket, d, target);
    var i :| 0 <= i < |bucket| && bucket[i] == c;
    if |conTope| < target {
      RellenoCompleto(bucket, d, target - |conTope|, results + conTope, i);
    }
  }

  /** Every row a decade adds is one of its own candidates. */
  lemma PorDecadaOrigen(bucket: seq<Candidato>, d: int, target: int, results: seq<Eleccion>, e: Eleccion)
    requires e in PorDecada(bucket, d, target, results)[|results|..]
    ensures e.decada == d && exists c :: c in bucket && e == Elegida(c, d)
  {
    var conTope := ConTope(bucket, d, target);
    var relleno := if |conTope| < target then Relleno(bucket, d, target - |conTope|, results + conTope) else [];
    Asociativa(results, conTope, relleno);
    assert PorDecada(bucket, d, target, results) == results + (conTope + relleno);
    assert PorDecada(bucket, d, target, results)[|results|..] == conTope + relleno;
    if e in conTope {
      VorazOrigen(bucket, Elegir(d), AdmiteTope(Tope(target)), target, e);
    } else {
      VorazOrigen(bucket, Elegir(d), AdmiteNueva(d, results + conTope), target - |conTope|, e);
    }
    var i :| 0 <= i < |bucket| && e == Elegir(d)(bucket[i]);
    assert e == Elegida(bucket[i], d) && bucket[i] in bucket;
  }

  /** The body of `for d in decades`. */
  method ElegirDecada(bucket: seq<Candidato>, d: int, target: int, results: seq<Eleccion>)
    returns (results2: seq<Eleccion>)
    ensures results2 == PorDecada(bucket, d, target, results)
  {
    var cap := Tope(target);
    var taken;
    results2, taken := PasadaConTope(bucket, d, target, cap, results);
    if taken < target {
      results2, taken := PasadaRelleno(bucket, d, target, results2, taken);
    }
  }

  /** `results` after the loop over the decades. */
  function Seleccion(buckets: map<int, seq<Candidato>>, decades: seq<int>, targets: map<int, int>): seq<Eleccion>
    requires forall d :: d in decades ==> d in buckets && d in targets
    decreases |decades|
  {
    if |decades| == 0 then []
    else
      var n := |decades| - 1;
      var d := decades[n];
      PorDecada(buckets[d], d, targets[d], Seleccion(buckets, decades[..n], targets))
  }

  method Seleccionar(buckets: map<int, seq<Candidato>>, decades: seq<int>, targets: map<int, int>)
    returns (results: seq<Eleccion>)
    requires forall d :: d in decades ==> d in buckets && d in targets
    ensures results == Seleccion(buckets, decades, targets)
  {
    results := [];
    for i := 0 to |decades|
      invariant results == Seleccion(buckets, decades[..i], targets)
    {
      var d := decades[i];
      assert decades[..i + 1][..i] == decades[..i];
      results := ElegirDecada(buckets[d], d, targets[d], results);
    }
    assert decades[..|decades|] == decades;
  }

  /** There are at most as many rows as the positive quotas add up to. */
  lemma {:induction false} SeleccionCota(buckets: map<int, seq<Candidato>>, decades: seq<int>, targets: map<int, int>)
    requires forall d :: d in decades ==> d in buckets && d in targets
    ensures |Seleccion(buckets, decades, targets)| <= Suma(decades, CupoPositivo(targets))
    decreases |decades|
  {
    if |decades| > 0 {
      var n := |decades| - 1;
      var d := decades[n];
      assert forall x :: x in decades[..n] ==> x in decades;
      SeleccionCota(buckets, decades[..n], targets);
      PorDecadaCota(buckets[d], d, targets[d], Seleccion(buckets, decades[..n], targets));
      SumaUltimo(decades, CupoPositivo(targets));
    }
  }

  /** Every row comes from the bucket of its own decade. */
  lemma {:induction false} SeleccionOrigen(buckets: map<int, seq<Candidato>>, decades: seq<int>, targets: map<int, int>, e: Eleccion)
    requires forall d :: d in decades ==> d in buckets && d in targets
    requires e in Seleccion(buckets, decades, targets)
    ensures e.decada in decades && exists c :: c in buckets[e.decada] && e == Elegida(c, e.decada)
    decreases |decades|
  {
    var n := |decades| - 1;
    var d := decades[n];
    var previa := Seleccion(buckets, decades[..n], targets);
    assert forall x :: x in decades[..n] ==> x in decades;
    PorDecadaCota(buckets[d], d, targets[d], previa);
    var r := PorDecada(buckets[d], d, targets[d], previa);
    assert r == previa + r[|previa|..];
    if e in previa {
      SeleccionOrigen(buckets, decades[..n], targets, e);
    } else {
      assert e in r[|previa|..];
      PorDecadaOrigen(buckets[d], d, targets[d], previa, e);
    }
  }

  /** `max(0, targets[d])`: the most a decade can add. */
  function CupoPositivo(targets: map<int, int>): int -> int {
    d => if d in targets then Max(0, targets[d]) else 0
  }

  lemma {:induction false} SumaUltimo(s: seq<int>, f: int -> int)
    requires |s| > 0
    ensures Suma(s, f) == Suma(s[..|s| - 1], f) + f(s[|s| - 1])
  {
    var n := |s| - 1;
    assert s == s[..n] + [s[n]];
    SumaConcat(s[..n], [s[n]], f);
  }

  // ---------------------------------------------------------------------
  // The final fill and the cut (lines 261-276)
  // ---------------------------------------------------------------------

  /** `(title, year)` of the rows chosen so far. */
  function Claves(results: seq<Eleccion>): set<(string, int)> {
    set e | e in results :: (e.titulo, e.anio)
  }

  /** `if key in chosen: continue`. */
  function AdmiteClave(chosen: set<(string, int)>): (seq<Eleccion>, Candidato) -> bool {
    (r: seq<Eleccion>, c: Candidato) => (c.titulo, c.anio) !in chosen
  }

  /** The row for a pool entry, with `_decade(item["year"])`. */
  function ElegirPorAnio(): Candidato -> Eleccion {
    (c: Candidato) => Elegida(c, Decada(c.anio))
  }

  /** `pool`: the sorted buckets one after another, in decade order. */
  function Juntar(buckets: map<int, seq<Candidato>>, decades: seq<int>): seq<Candidato>
    requires forall d :: d in decades ==> d in buckets
    decreases |decades|
  {
    if |decades| == 0 then []
    else
      var n := |decades| - 1;
      var d := decades[n];
      Juntar(buckets, decades[..n]) + buckets[d]
  }

  lemma {:induction false} JuntarMiembro(buckets: map<int, seq<Candidato>>, decades: seq<int>, c: Candidato)
    requires forall d :: d in decades ==> d in buckets
    ensures c in Juntar(buckets, decades) <==> exists d :: d in decades && c in buckets[d]
    decreases |decades|
  {
    if |decades| > 0 {
      var n := |decades| - 1;
      assert forall x :: x in decades[..n] ==> x in decades;
      JuntarMiembro(buckets, decades[..n], c);
      if exists d :: d in decades && c in buckets[d] {
        var d :| d in decades && c in buckets[d];
        if d != decades[n] {
          assert d in decades[..n];
        }
      }
    }
  }

  function RellenoFinal(pool: seq<Candidato>, chosen: set<(string, int)>, falta: int): seq<Eleccion> {
    Voraz(pool, ElegirPorAnio(), AdmiteClave(chosen), falta)
  }

  /** The final fill only adds pool entries whose `(title, year)` was not chosen before it started. */
  lemma RellenoFinalNuevo(pool: seq<Candidato>, chosen: set<(string, int)>, falta: int, e: Eleccion)
    requires e in RellenoFinal(pool, chosen, falta)
    ensures (e.titulo, e.anio) !in chosen && e.decada == Decada(e.anio)
    ensures exists c :: c in pool && e == Elegida(c, Decada(c.anio))
  {
    RellenoFinalAdmitidos(pool, chosen, falta, e);
    VorazOrigen(pool, ElegirPorAnio(), AdmiteClave(chosen), falta, e);
  }

  lemma {:induction false} RellenoFinalAdmitidos(pool: seq<Candidato>, chosen: set<(string, int)>, falta: int, e: Eleccion)
    requires e in RellenoFinal(pool, chosen, falta)
    ensures (e.titulo, e.anio) !in chosen && e.decada == Decada(e.anio)
    decreases |pool|
  {
    var n := |pool| - 1;
    if e in RellenoFinal(pool[..n], chosen, falta) {
      RellenoFinalAdmitidos(pool[..n], chosen, falta, e);
    }
  }

  /** An unfilled final pass has taken (the row of) every pool entry not chosen before. */
  lemma RellenoFinalCompleto(pool: seq<Candidato>, chosen: set<(string, int)>, falta: int, i: nat)
    requires i < |pool| && |RellenoFinal(pool, chosen, falta)| < falta
    ensures (pool[i].titulo, pool[i].anio) in chosen || Elegida(pool[i], Decada(pool[i].anio)) in RellenoFinal(pool, chosen, falta)
  {
    VorazMaximal(pool, ElegirPorAnio(), AdmiteClave(chosen), falta, i);
  }

  /** One step of the final fill: an entry whose key was not chosen is added. */
  lemma PasoFinal(pool: seq<Candidato>, chosen: set<(string, int)>, nuevas: seq<Eleccion>, falta: int, j: nat)
    requires j < |pool| && nuevas == RellenoFinal(pool[..j], chosen, falta) && |nuevas| < falta
    ensures RellenoFinal(pool[..j + 1], chosen, falta)
         == if (pool[j].titulo, pool[j].anio) in chosen then nuevas else nuevas + [Elegida(pool[j], Decada(pool[j].anio))]
  {
    VorazPaso(pool, ElegirPorAnio(), AdmiteClave(chosen), falta, j);
  }

  /** `pool = []; for d in decades: pool.extend(buckets[d])`. */
  method JuntarCubetas(buckets: map<int, seq<Candidato>>, decades: seq<int>) returns (pool: seq<Candidato>)
    requires forall d :: d in decades ==> d in buckets
    ensures pool == Juntar(buckets, decades)
  {
    pool := [];
    for i := 0 to |decades|
      invariant pool == Juntar(buckets, decades[..i])
    {
      var d := decades[i];
      assert decades[..i + 1][..i] == decades[..i];
      pool := pool + buckets[d];
    }
    assert decades[..|decades|] == decades;
  }

  /** The `for item in pool` loop: skip chosen keys, stop as soon as `top_n` rows are there. */
  method RellenarDesde(pool: seq<Candidato>, chosen: set<(string, int)>, results: seq<Eleccion>, topN: int)
    returns (results2: seq<Eleccion>)
    requires |results| < topN
    ensures results2 == results + RellenoFinal(pool, chosen, topN - |results|)
  {
    results2 := results;
    var falta := topN - |results|;
    ghost var nuevas: seq<Eleccion> := [];
    for j := 0 to |pool|
      invariant nuevas == RellenoFinal(pool[..j], chosen, falta)
      invariant results2 == results + nuevas && |nuevas| < falta
    {
      PasoFinal(pool, chosen, nuevas, falta, j);
      var item := pool[j];
      if (item.titulo, item.anio) in chosen {
        continue;
      }
      results2 := results2 + [Elegida(item, Decada(item.anio))];
      nuevas := nuevas + [Elegida(item, Decada(item.anio))];
      if |results2| >= topN {
        LlenoFinal(pool, chosen, falta, j + 1);
        break;
      }
    }
    assert pool[..|pool|] == pool;
  }

  /** Once the final fill has `falta` rows the rest of the pool adds nothing. */
  lemma LlenoFinal(pool: seq<Candidato>, chosen: set<(string, int)>, falta: int, j: nat)
    requires j <= |pool| && |RellenoFinal(pool[..j], chosen, falta)| >= falta
    ensures RellenoFinal(pool, chosen, falta) == RellenoFinal(pool[..j], chosen, falta)
  {
    VorazLleno(pool, ElegirPorAnio(), AdmiteClave(chosen), falta, j);
  }

  /** The `if len(results) < top_n and not strict` block. */
  method Rellenar(buckets: map<int, seq<Candidato>>, decades: seq<int>, results: seq<Eleccion>, topN: int, strict: bool)
    returns (results2: seq<Eleccion>)
    requires forall d :: d in decades ==> d in buckets
    ensures results2 == if |results| < topN && !strict
      then results + RellenoFinal(Juntar(buckets, decades), Claves(results), topN - |results|)
      else results
  {
    results2 := results;
    if |results| < topN && !strict {
      var pool := JuntarCubetas(buckets, decades);
      var chosen := set e | e in results :: (e.titulo, e.anio);
      results2 := RellenarDesde(pool, chosen, results, topN);
    }
  }
}
