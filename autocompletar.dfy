/**
 * The search suggestions of `api_autocomplete` (`moviegame/views.py`,
 * lines 303-341): films with votes and a rating, most voted first; the
 * titles that start with the query come first, then those that merely
 * contain it, never the same film twice and never more than `limit`.
 */
module Autocompletar {
  import opened Base
  import opened Texto
  import opened Ordenacion
  import SemillaImdb

  /** The columns of a `Pelicula` row the view reads; `votos` and `decimas` are nullable. */
  datatype Sugerible = Sugerible(id: int, titulo: string, anio: nat, votos: Option<int>, decimas: Option<int>)

  /** One entry of `results`: `values("id", "titulo", "anio")`. */
  datatype Sugerencia = Sugerencia(id: int, titulo: string, anio: nat)

  /** Slicing a queryset with a negative bound raises, and the view does not catch it. */
  datatype ErrorAuto = IndiceNegativo

  const LimitePorDefecto: int := 20

  /** `int(request.GET.get("limit", 20))`, with 20 again on `ValueError`. */
  function Limite(param: Option<string>): (r: int)
    ensures param.Some? && PyInt(param.value).Some? ==> r == PyInt(param.value).value
    ensures param.None? || PyInt(param.value).None? ==> r == LimitePorDefecto
  {
    if param.None? then LimitePorDefecto
    else if PyInt(param.value).Some? then PyInt(param.value).value
    else LimitePorDefecto
  }

  /** `(request.GET.get("q") or "").strip()`. */
  function Consulta(param: Option<string>): (r: string)
    ensures Recortada(r)
    ensures param.None? ==> r == ""
    ensures param.Some? ==> |r| <= |param.value|
  {
    Recortar(if param.Some? then param.value else "")
  }

  // ---------------------------------------------------------------------
  // Lookups: `istartswith` and `icontains`, case folded on ASCII letters
  // ---------------------------------------------------------------------

  predicate EmpiezaPor(t: string, q: string) {
    var a, b := Minusculas(t), Minusculas(q);
    |b| <= |a| && a[..|b|] == b
  }

  /** `b` occurs in `a` at position `k`. */
  predicate EnPosicion(a: string, b: string, k: int) {
    0 <= k <= |a| - |b| && a[k..k + |b|] == b
  }

  predicate Contiene(t: string, q: string) {
    exists k :: 0 <= k <= |t| && EnPosicion(Minusculas(t), Minusculas(q), k)
  }

  lemma EmpiezaContiene(t: string, q: string)
    requires EmpiezaPor(t, q)
    ensures Contiene(t, q)
  {
    var a, b := Minusculas(t), Minusculas(q);
    assert EnPosicion(a, b, 0);
  }

  // ---------------------------------------------------------------------
  // Querysets as filters over sequences
  // ---------------------------------------------------------------------

  /** A `.filter(...)`: keep the rows that satisfy `p`, in order. */
  function Donde<T>(p: T -> bool): T -> Option<T> {
    (x: T) => if p(x) then Some(x) else None
  }

  lemma DondeMiembro<T>(s: seq<T>, p: T -> bool, x: T)
    ensures x in Filtrar(s, Donde(p)) <==> x in s && p(x)
  {
    FiltrarMiembro(s, Donde(p), x);
    if x in s && p(x) {
      var i :| 0 <= i < |s| && s[i] == x;
      assert Donde(p)(s[i]) == Some(x);
    }
  }

  /** A filter takes each row at most as often as the rows hold it. */
  lemma {:induction false} DondeMultiset<T>(s: seq<T>, p: T -> bool)
    ensures multiset(Filtrar(s, Donde(p))) <= multiset(s)
    decreases |s|
  {
    if |s| > 0 {
      var n := |s| - 1;
      DondeMultiset(s[..n], p);
      FiltrarAnadir(s, n, Donde(p));
      assert s == s[..n] + [s[n]];
    }
  }

  /** A filter keeps the order of what it keeps. */
  lemma {:induction false} DondeOrdenada<T>(s: seq<T>, p: T -> bool, clave: T -> seq<int>)
    requires Ordenada(s, clave)
    ensures Ordenada(Filtrar(s, Donde(p)), clave)
    decreases |s|
  {
    if |s| > 0 {
      var n := |s| - 1;
      assert Ordenada(s[..n], clave);
      DondeOrdenada(s[..n], p, clave);
      FiltrarAnadir(s, n, Donde(p));
      assert s[..n + 1] == s;
      var previa := Filtrar(s[..n], Donde(p));
      if p(s[n]) {
        forall i | 0 <= i < |previa| ensures LexMenorIgual(clave(previa[i]), clave(s[n])) {
          DondeMiembro(s[..n], p, previa[i]);
          var k :| 0 <= k < n && s[k] == previa[i];
        }
      }
    }
  }

  lemma PrefijoOrdenada<T>(s: seq<T>, k: nat, clave: T -> seq<int>)
    requires Ordenada(s, clave) && k <= |s|
    ensures Ordenada(s[..k], clave)
  {
  }

  lemma PrefijoMultiset<T>(s: seq<T>, k: nat)
    requires k <= |s|
    ensures multiset(s[..k]) <= multiset(s)
  {
    assert s == s[..k] + s[k..];
  }

  // ---------------------------------------------------------------------
  // The view
  // ---------------------------------------------------------------------

  predicate Jugable(p: Sugerible) {
    p.votos.Some? && p.decimas.Some?
  }

  /** `order_by("-imdb_votes")`. */
  function ClaveVotos(p: Sugerible): seq<int> {
    Desc(if p.votos.Some? then p.votos.value else 0)
  }

  /** `base`: the playable films, most voted first; ties keep table order. */
  function Catalogo(tabla: seq<Sugerible>): seq<Sugerible> {
    Ordenar(Filtrar(tabla, Donde(Jugable)), ClaveVotos)
  }

  function EmpiezaCon(q: string): Sugerible -> bool {
    (p: Sugerible) => EmpiezaPor(p.titulo, q)
  }

  function ContieneSin(q: string, ids: set<int>): Sugerible -> bool {
    (p: Sugerible) => Contiene(p.titulo, q) && p.id !in ids
  }

  function Ids(s: seq<Sugerible>): set<int> {
    set p | p in s :: p.id
  }

  /** `starts`: the first `limit` titles that start with `q`. */
  function Empiezan(tabla: seq<Sugerible>, q: string, limit: int): seq<Sugerible> {
    SemillaImdb.PrefijoPy(Filtrar(Catalogo(tabla), Donde(EmpiezaCon(q))), limit)
  }

  /** `contains`: the first `left` titles containing `q` whose id is not taken yet. */
  function Contienen(tabla: seq<Sugerible>, q: string, ids: set<int>, left: int): seq<Sugerible> {
    SemillaImdb.PrefijoPy(Filtrar(Catalogo(tabla), Donde(ContieneSin(q, ids))), left)
  }

  /** The rows behind `results`, for a query that is not empty and a limit that is not negative. */
  function Candidatas(tabla: seq<Sugerible>, q: string, limit: int): (r: seq<Sugerible>)
    requires limit >= 0
    ensures |r| <= limit
  {
    var starts := Empiezan(tabla, q, limit);
    if |starts| < limit then starts + Contienen(tabla, q, Ids(starts), limit - |starts|)
    else starts
  }

  /** `results = starts[:]`, then `results.extend(contains)` while there is room. */
  method Resultados(tabla: seq<Sugerible>, q: string, limit: int) returns (results: seq<Sugerible>)
    requires limit >= 0
    ensures results == Candidatas(tabla, q, limit)
  {
    var starts := Empiezan(tabla, q, limit);
    results := starts;
    if |results| < limit {
      var left := limit - |results|;
      var contains := Contienen(tabla, q, Ids(results), left);
      results := results + contains;
    }
  }

  /** A missing `limit`, or one `int` cannot read, means 20. */
  lemma LimiteAusente(param: Option<string>)
    requires param.None? || PyInt(param.value).None?
    ensures Limite(param) == 20
  {
  }

  function Vista(p: Sugerible): Sugerencia {
    Sugerencia(p.id, p.titulo, p.anio)
  }

  function Proyectar(s: seq<Sugerible>): seq<Sugerencia> {
    seq(|s|, i requires 0 <= i < |s| => Vista(s[i]))
  }

  /** The JSON `results` of `api_autocomplete`. */
  function Autocompletar(tabla: seq<Sugerible>, qParam: Option<string>, limitParam: Option<string>)
    : (r: Result<seq<Sugerencia>, ErrorAuto>)
    ensures r.Err? <==> Consulta(qParam) != "" && Limite(limitParam) < 0
    ensures Consulta(qParam) == "" ==> r == Ok([])
    ensures r.Ok? ==> |r.value| <= Max(0, Limite(limitParam))
    ensures r.Ok? ==> forall s :: s in r.value ==>
      exists p :: p in tabla && Jugable(p) && Contiene(p.titulo, Consulta(qParam)) && s == Vista(p)
  {
    var q := Consulta(qParam);
    var limit := Limite(limitParam);
    if q == "" then Ok([])
    else if limit < 0 then Err(IndiceNegativo)
    else
      CandidatasCota(tabla, q, limit);
      CandidatasOrigen(tabla, q, limit);
      Ok(Proyectar(Candidatas(tabla, q, limit)))
  }

  // ---------------------------------------------------------------------
  // What the merge promises
  // ---------------------------------------------------------------------

  lemma CatalogoMiembro(tabla: seq<Sugerible>, p: Sugerible)
    ensures p in Catalogo(tabla) <==> p in tabla && Jugable(p)
  {
    var f := Filtrar(tabla, Donde(Jugable));
    assert p in Catalogo(tabla) <==> p in multiset(f);
    DondeMiembro(tabla, Jugable, p);
  }

  lemma CandidatasCota(tabla: seq<Sugerible>, q: string, limit: int)
    requires limit >= 0
    ensures |Candidatas(tabla, q, limit)| <= limit
  {
  }

  /** Every suggestion is a playable film whose title contains the query. */
  lemma CandidatasOrigen(tabla: seq<Sugerible>, q: string, limit: int)
    requires limit >= 0
    ensures forall p :: p in Candidatas(tabla, q, limit) ==> p in tabla && Jugable(p) && Contiene(p.titulo, q)
  {
    var base := Catalogo(tabla);
    var starts := Empiezan(tabla, q, limit);
    forall p | p in Candidatas(tabla, q, limit) ensures p in tabla && Jugable(p) && Contiene(p.titulo, q) {
      if p in starts {
        DondeMiembro(base, EmpiezaCon(q), p);
        EmpiezaContiene(p.titulo, q);
      } else {
        DondeMiembro(base, ContieneSin(q, Ids(starts)), p);
      }
      CatalogoMiembro(tabla, p);
    }
  }

  /**
   * The suggestions are two runs, each most voted first: the titles that
   * start with the query, then titles that contain it without starting with it.
   */
  lemma CandidatasDosTramos(tabla: seq<Sugerible>, q: string, limit: int)
    requires limit >= 0
    ensures var r := Candidatas(tabla, q, limit);
      exists k :: 0 <= k <= |r|
        && (forall i :: 0 <= i < k ==> EmpiezaPor(r[i].titulo, q))
        && (forall i :: k <= i < |r| ==> !EmpiezaPor(r[i].titulo, q))
        && Ordenada(r[..k], ClaveVotos) && Ordenada(r[k..], ClaveVotos)
  {
    var base := Catalogo(tabla);
    var todas := Filtrar(base, Donde(EmpiezaCon(q)));
    var starts := Empiezan(tabla, q, limit);
    var r := Candidatas(tabla, q, limit);
    DondeOrdenada(base, EmpiezaCon(q), ClaveVotos);
    PrefijoOrdenada(todas, |starts|, ClaveVotos);
    forall i | 0 <= i < |starts| ensures EmpiezaPor(starts[i].titulo, q) {
      DondeMiembro(base, EmpiezaCon(q), starts[i]);
    }
    if |starts| < limit {
      var resto := Filtrar(base, Donde(ContieneSin(q, Ids(starts))));
      var contains := Contienen(tabla, q, Ids(starts), limit - |starts|);
      assert starts == todas;
      DondeOrdenada(base, ContieneSin(q, Ids(starts)), ClaveVotos);
      PrefijoOrdenada(resto, |contains|, ClaveVotos);
      forall i | 0 <= i < |contains| ensures !EmpiezaPor(contains[i].titulo, q) {
        var p := contains[i];
        DondeMiembro(base, ContieneSin(q, Ids(starts)), p);
        if EmpiezaPor(p.titulo, q) {
          DondeMiembro(base, EmpiezaCon(q), p);
          assert false;
        }
      }
      assert r[..|starts|] == starts && r[|starts|..] == contains;
    } else {
      assert r[..|starts|] == starts && r[|starts|..] == [];
    }
  }

  /** Two different positions of a table hold different films. */
  predicate IdsUnicos(s: seq<Sugerible>) {
    forall i, j :: 0 <= i < j < |s| ==> s[i].id != s[j].id
  }

  /** The same, stated on the multiset of rows, so that permutations keep it. */
  ghost predicate SinDuplicar(s: seq<Sugerible>) {
    && (forall x :: multiset(s)[x] <= 1)
    && (forall x, y :: x in s && y in s && x.id == y.id ==> x == y)
  }

  lemma {:induction false} DosPosiciones(s: seq<Sugerible>, x: Sugerible)
    requires multiset(s)[x] >= 2
    ensures exists i, j :: 0 <= i < j < |s| && s[i] == x && s[j] == x
    decreases |s|
  {
    var n := |s| - 1;
    assert s == s[..n] + [s[n]];
    if s[n] == x {
      assert x in multiset(s[..n]);
      var i :| 0 <= i < n && s[..n][i] == x;
      assert s[i] == x && s[n] == x;
    } else {
      DosPosiciones(s[..n], x);
      var i, j :| 0 <= i < j < n && s[..n][i] == x && s[..n][j] == x;
      assert s[i] == x && s[j] == x;
    }
  }

  lemma UnaPosicion(s: seq<Sugerible>, i: int, j: int)
    requires 0 <= i < j < |s| && s[i] == s[j]
    ensures multiset(s)[s[i]] >= 2
  {
    assert s == s[..j] + [s[j]] + s[j + 1..];
    assert s[i] in multiset(s[..j]);
  }

  lemma IdsUnicosSinDuplicar(s: seq<Sugerible>)
    ensures IdsUnicos(s) <==> SinDuplicar(s)
  {
    if IdsUnicos(s) {
      forall x ensures multiset(s)[x] <= 1 {
        if multiset(s)[x] >= 2 {
          DosPosiciones(s, x);
        }
      }
    }
    if SinDuplicar(s) {
      forall i, j | 0 <= i < j < |s| ensures s[i].id != s[j].id {
        if s[i].id == s[j].id {
          UnaPosicion(s, i, j);
        }
      }
    }
  }

  lemma SinDuplicarMenor(a: seq<Sugerible>, b: seq<Sugerible>)
    requires SinDuplicar(b) && multiset(a) <= multiset(b)
    ensures SinDuplicar(a)
  {
    forall x, y | x in a && y in a && x.id == y.id ensures x == y {
      assert x in multiset(a) && y in multiset(a);
    }
  }

  /** A filtered prefix of a table without duplicates has none either. */
  lemma TramoSinDuplicar(base: seq<Sugerible>, p: Sugerible -> bool, k: int)
    requires SinDuplicar(base)
    ensures SinDuplicar(SemillaImdb.PrefijoPy(Filtrar(base, Donde(p)), k))
  {
    var f := Filtrar(base, Donde(p));
    var t := SemillaImdb.PrefijoPy(f, k);
    DondeMultiset(base, p);
    PrefijoMultiset(f, |t|);
    SinDuplicarMenor(t, base);
  }

  lemma CatalogoSinDuplicar(tabla: seq<Sugerible>)
    requires IdsUnicos(tabla)
    ensures SinDuplicar(Catalogo(tabla))
  {
    var jugables := Filtrar(tabla, Donde(Jugable));
    IdsUnicosSinDuplicar(tabla);
    DondeMultiset(tabla, Jugable);
    SinDuplicarMenor(jugables, tabla);
    SinDuplicarMenor(Catalogo(tabla), jugables);
  }

  /** Two runs without duplicates whose ids do not meet join without duplicates. */
  lemma SinDuplicarConcat(a: seq<Sugerible>, b: seq<Sugerible>)
    requires SinDuplicar(a) && SinDuplicar(b)
    requires forall y :: y in b ==> y.id !in Ids(a)
    ensures SinDuplicar(a + b)
  {
    forall x ensures multiset(a + b)[x] <= 1 {
      if x in b {
        assert x.id !in Ids(a);
      }
    }
  }

  /** No film appears twice among the suggestions. */
  lemma CandidatasSinRepetir(tabla: seq<Sugerible>, q: string, limit: int)
    requires limit >= 0 && IdsUnicos(tabla)
    ensures IdsUnicos(Candidatas(tabla, q, limit))
  {
    var base := Catalogo(tabla);
    var starts := Empiezan(tabla, q, limit);
    CatalogoSinDuplicar(tabla);
    TramoSinDuplicar(base, EmpiezaCon(q), limit);
    if |starts| < limit {
      var contains := Contienen(tabla, q, Ids(starts), limit - |starts|);
      TramoSinDuplicar(base, ContieneSin(q, Ids(starts)), limit - |starts|);
      forall y | y in contains ensures y.id !in Ids(starts) {
        DondeMiembro(base, ContieneSin(q, Ids(starts)), y);
      }
      SinDuplicarConcat(starts, contains);
    }
    IdsUnicosSinDuplicar(Candidatas(tabla, q, limit));
  }

  /** Rows of a table with unique ids are told apart by their id. */
  lemma MismoId(tabla: seq<Sugerible>, x: Sugerible, y: Sugerible)
    requires IdsUnicos(tabla) && x in tabla && y in tabla && x.id == y.id
    ensures x == y
  {
    IdsUnicosSinDuplicar(tabla);
  }

  /** Fewer than `limit` suggestions means every playable film containing the query is among them. */
  lemma CandidatasCompleta(tabla: seq<Sugerible>, q: string, limit: int, p: Sugerible)
    requires limit >= 0 && IdsUnicos(tabla)
    requires p in tabla && Jugable(p) && Contiene(p.titulo, q)
    requires |Candidatas(tabla, q, limit)| < limit
    ensures p in Candidatas(tabla, q, limit)
  {
    var base := Catalogo(tabla);
    var todas := Filtrar(base, Donde(EmpiezaCon(q)));
    var starts := Empiezan(tabla, q, limit);
    CatalogoMiembro(tabla, p);
    assert starts == todas;
    if EmpiezaPor(p.titulo, q) {
      DondeMiembro(base, EmpiezaCon(q), p);
    } else {
      var resto := Filtrar(base, Donde(ContieneSin(q, Ids(starts))));
      assert Contienen(tabla, q, Ids(starts), limit - |starts|) == resto;
      if p.id in Ids(starts) {
        var x :| x in starts && x.id == p.id;
        DondeMiembro(base, EmpiezaCon(q), x);
        CatalogoMiembro(tabla, x);
        MismoId(tabla, x, p);
        assert false;
      }
      DondeMiembro(base, ContieneSin(q, Ids(starts)), p);
    }
  }

  /** The view's answer lists no film twice. */
  lemma AutocompletarSinRepetir(tabla: seq<Sugerible>, qParam: Option<string>, limitParam: Option<string>)
    requires IdsUnicos(tabla)
    requires Autocompletar(tabla, qParam, limitParam).Ok?
    ensures var r := Autocompletar(tabla, qParam, limitParam).value;
      forall i, j :: 0 <= i < j < |r| ==> r[i].id != r[j].id
  {
    if Consulta(qParam) != "" {
      CandidatasSinRepetir(tabla, Consulta(qParam), Limite(limitParam));
    }
  }
}
