/**
 * The `imdb_curated_seed` command (`moviegame/management/commands/imdb_curated_seed.py`):
 * it keeps the well-rated, well-voted non-adult movies of a year range,
 * groups them by decade, gives each decade a quota, lends the quota a
 * decade cannot fill to decades with spare candidates, and picks each
 * decade's share with a cap on how many may share a primary genre.
 * Ratings are whole tenths (IMDb publishes one decimal).
 */
module SemillaCurada {
  import opened Base
  import opened Texto
  import opened Ordenacion
  import SemillaImdb

  // ---------------------------------------------------------------------
  // _decade and the vote thresholds
  // ---------------------------------------------------------------------

  /** `_decade`: `(year // 10) * 10`; Dafny's `/` by a positive divisor floors like Python's `//`. */
  function Decada(anio: int): (d: int)
    ensures d % 10 == 0 && d <= anio < d + 10
  {
    (anio / 10) * 10
  }

  /** `DEFAULT_DECADE_VOTE_MIN.get(dec, 50000)`. */
  function UmbralVotos(d: int): (v: int)
    ensures v >= 8000
  {
    if d == 1930 then 8000
    else if d == 1940 then 12000
    else if d == 1950 then 20000
    else if d == 1960 then 30000
    else if d == 1970 then 40000
    else if d == 1980 then 50000
    else if d == 1990 then 70000
    else if d == 2000 then 80000
    else if d == 2010 then 100000
    else if d == 2020 then 60000
    else 50000
  }

  /** Decades outside the table need 50000 votes. */
  lemma UmbralPorDefecto(d: int)
    requires d < 1930 || d > 2020 || d % 10 != 0
    ensures UmbralVotos(d) == 50000
  {
  }

  // ---------------------------------------------------------------------
  // The candidate filter (lines 124-181)
  // ---------------------------------------------------------------------

  /** A row of `title.basics.tsv.gz`, as far as the command reads it. */
  datatype Fila = Fila(
    tconst: Option<string>, titleType: Option<string>, isAdult: Option<string>, startYear: Option<string>,
    primaryTitle: Option<string>, originalTitle: Option<string>, genres: Option<string>,
    runtimeMinutes: Option<string>)

  /** `ratings[tconst]`: the rating in tenths and the vote count. */
  datatype Calificacion = Calificacion(decimas: int, votos: int)

  /** One entry of a decade's bucket. */
  datatype Candidato = Candidato(
    tconst: string, titulo: string, anio: int, decimas: int, votos: int,
    generos: seq<string>, genero: string, duracion: Option<int>)

  predicate Presente(x: Option<string>) {
    x.Some? && x.value != ""
  }

  /** A piece of the genres column is kept unless it is empty or `\N`; the test comes before the strip. */
  function PiezaGenero(g: string): Option<string> {
    if g != "" && g != SemillaImdb.Nulo then Some(Recortar(g)) else None
  }

  /** `[g.strip() for g in genres_s.split(",") if g and g != "\\N"]`. */
  function Generos(s: string): (r: seq<string>)
    ensures forall i :: 0 <= i < |r| ==> ',' !in r[i] && Recortada(r[i])
  {
    var r := Filtrar(Separar(s, ','), PiezaGenero);
    forall i | 0 <= i < |r| ensures ',' !in r[i] && Recortada(r[i]) {
      FiltrarMiembro(Separar(s, ','), PiezaGenero, r[i]);
      var j :| 0 <= j < |Separar(s, ',')| && PiezaGenero(Separar(s, ',')[j]) == Some(r[i]);
      RecortarAusente(Separar(s, ',')[j], ',');
    }
    r
  }

  /** The primary genre is the first one, or "Unknown". */
  function GeneroPrimario(gs: seq<string>): string {
    if gs == [] then "Unknown" else gs[0]
  }

  /** `runtimeMinutes` as an integer, or `None`. */
  function Duracion(r: Option<string>): Option<int> {
    if Presente(r) && r.value != SemillaImdb.Nulo then PyInt(r.value) else None
  }

  /** The filter's settings: the year range and the minimum rating in tenths. */
  datatype Filtro = Filtro(anioMin: int, anioMax: int, decimasMin: int)

  /** `primaryTitle or originalTitle or ""`. */
  function Titulo(b: Fila): string {
    if Presente(b.primaryTitle) then b.primaryTitle.value
    else if Presente(b.originalTitle) then b.originalTitle.value
    else ""
  }

  /** The year a row gives, or `None` when it is missing, `\N` or not an integer. */
  function Anio(b: Fila): Option<int> {
    if !Presente(b.startYear) || b.startYear.value == SemillaImdb.Nulo then None else PyInt(b.startYear.value)
  }

  /** The candidate a row becomes, or `None` when one of the `continue`s skips it. */
  function Criterio(b: Fila, ratings: map<string, Calificacion>, f: Filtro): (c: Option<Candidato>)
    ensures c.Some? ==> b.titleType == Some("movie") && SemillaImdb.NoAdulta(IsAdult(b))
    ensures c.Some? ==> Anio(b) == Some(c.value.anio) && f.anioMin <= c.value.anio <= f.anioMax
    ensures c.Some? ==> b.tconst == Some(c.value.tconst) && c.value.tconst in ratings
    ensures c.Some? ==> c.value.decimas == ratings[c.value.tconst].decimas >= f.decimasMin
    ensures c.Some? ==> c.value.votos == ratings[c.value.tconst].votos >= UmbralVotos(Decada(c.value.anio))
    ensures c.Some? ==> c.value.titulo == Titulo(b) != ""
  {
    if b.titleType != Some("movie") || !SemillaImdb.NoAdulta(IsAdult(b)) then None
    else match Anio(b)
      case None => None
      case Some(anio) =>
        if anio < f.anioMin || anio > f.anioMax then None
        else if b.tconst.None? || b.tconst.value !in ratings then None
        else
          var cal := ratings[b.tconst.value];
          if cal.decimas < f.decimasMin then None
          else if cal.votos < UmbralVotos(Decada(anio)) then None
          else if Titulo(b) == "" then None
          else
            var gs := Generos(if Presente(b.genres) then b.genres.value else "");
            Some(Candidato(b.tconst.value, Titulo(b), anio, cal.decimas, cal.votos, gs, GeneroPrimario(gs),
                           Duracion(b.runtimeMinutes)))
  }

  /** Only the adult flag matters to the shared test. */
  function IsAdult(b: Fila): SemillaImdb.FilaBasica {
    SemillaImdb.FilaBasica(None, None, b.isAdult, None, None, None)
  }

  /** A row that meets every condition is kept. */
  lemma CriterioAdmite(b: Fila, ratings: map<string, Calificacion>, f: Filtro, anio: int)
    requires b.titleType == Some("movie") && SemillaImdb.NoAdulta(IsAdult(b))
    requires Anio(b) == Some(anio) && f.anioMin <= anio <= f.anioMax
    requires b.tconst.Some? && b.tconst.value in ratings
    requires ratings[b.tconst.value].decimas >= f.decimasMin
    requires ratings[b.tconst.value].votos >= UmbralVotos(Decada(anio))
    requires Titulo(b) != ""
    ensures Criterio(b, ratings, f).Some? && Criterio(b, ratings, f).value.anio == anio
  {
  }

  /** The per-row test, for given ratings and settings. */
  function Admitir(ratings: map<string, Calificacion>, f: Filtro): Fila -> Option<Candidato> {
    b => Criterio(b, ratings, f)
  }

  /** The candidates of a decade, in file order. */
  function DeDecada(d: int): Candidato -> Option<Candidato> {
    (c: Candidato) => if Decada(c.anio) == d then Some(c) else None
  }

  function Cubeta(cs: seq<Candidato>, d: int): seq<Candidato> {
    Filtrar(cs, DeDecada(d))
  }

  /** A decade has a bucket exactly when some candidate falls in it. */
  ghost predicate TieneCubeta(cs: seq<Candidato>, d: int) {
    exists c :: c in cs && Decada(c.anio) == d
  }

  /** `buckets`, keyed by decade as `defaultdict(list)` leaves it. */
  ghost predicate SonCubetas(buckets: map<int, seq<Candidato>>, cs: seq<Candidato>) {
    && (forall d :: d in buckets <==> TieneCubeta(cs, d))
    && (forall d :: d in buckets ==> buckets[d] == Cubeta(cs, d))
  }

  /** The loop over the basics rows: each kept row is appended to its decade's bucket. */
  method Clasificar(filas: seq<Fila>, ratings: map<string, Calificacion>, f: Filtro)
    returns (buckets: map<int, seq<Candidato>>, kept: nat)
    ensures SonCubetas(buckets, Filtrar(filas, Admitir(ratings, f)))
    ensures kept == |Filtrar(filas, Admitir(ratings, f))|
  {
    var adm := Admitir(ratings, f);
    buckets := map[];
    kept := 0;
    for i := 0 to |filas|
      invariant SonCubetas(buckets, Filtrar(filas[..i], adm))
      invariant kept == |Filtrar(filas[..i], adm)|
    {
      FiltrarAnadir(filas, i, adm);
      var c := Criterio(filas[i], ratings, f);
      assert adm(filas[i]) == c;
      if c.Some? {
        var dec := Decada(c.value.anio);
        var previa := if dec in buckets then buckets[dec] else [];
        CubetasAnadir(buckets, Filtrar(filas[..i], adm), c.value);
        buckets := buckets[dec := previa + [c.value]];
        kept := kept + 1;
      } else {
        assert Filtrar(filas[..i + 1], adm) == Filtrar(filas[..i], adm);
      }
    }
    assert filas[..|filas|] == filas;
  }

  /** Appending a candidate extends its decade's bucket, creating it if needed, and no other. */
  lemma CubetasAnadir(buckets: map<int, seq<Candidato>>, cs: seq<Candidato>, c: Candidato)
    requires SonCubetas(buckets, cs)
    ensures var dec := Decada(c.anio);
      SonCubetas(buckets[dec := (if dec in buckets then buckets[dec] else []) + [c]], cs + [c])
  {
    var dec := Decada(c.anio);
    var b2 := buckets[dec := (if dec in buckets then buckets[dec] else []) + [c]];
    forall d ensures d in b2 <==> TieneCubeta(cs + [c], d) {
      if TieneCubeta(cs + [c], d) && d != dec {
        var x :| x in cs + [c] && Decada(x.anio) == d;
        assert x in cs;
      }
      if TieneCubeta(cs, d) {
        var x :| x in cs && Decada(x.anio) == d;
        assert x in cs + [c];
      }
    }
    forall d | d in b2 ensures b2[d] == Cubeta(cs + [c], d) {
      FiltrarConcat(cs, [c], DeDecada(d));
      FiltrarUno(c, DeDecada(d));
      if d == dec && dec !in buckets {
        SinCubeta(cs, d);
      }
    }
  }

  /** A decade no candidate falls in has an empty bucket. */
  lemma SinCubeta(cs: seq<Candidato>, d: int)
    requires !TieneCubeta(cs, d)
    ensures Cubeta(cs, d) == []
  {
    if Cubeta(cs, d) != [] {
      FiltrarMiembro(cs, DeDecada(d), Cubeta(cs, d)[0]);
    }
  }

  /** Every candidate of a bucket belongs to its decade, and every candidate of the decade is in it. */
  lemma CubetaMiembro(cs: seq<Candidato>, d: int, c: Candidato)
    ensures c in Cubeta(cs, d) <==> c in cs && Decada(c.anio) == d
  {
    FiltrarMiembro(cs, DeDecada(d), c);
    if c in cs && Decada(c.anio) == d {
      var i :| 0 <= i < |cs| && cs[i] == c;
      assert DeDecada(d)(cs[i]) == Some(c);
    }
  }

  // ---------------------------------------------------------------------
  // Ordering inside a decade (lines 188-189) and the decade list (192)
  // ---------------------------------------------------------------------

  /** A string as its code points: Python compares `str` values code point by code point. */
  function Codigos(s: string): (r: seq<int>)
    ensures |r| == |s| && forall i :: 0 <= i < |s| ==> r[i] == s[i] as int
  {
    seq(|s|, i requires 0 <= i < |s| => s[i] as int)
  }

  /** The key `(-votes, -rating, title)`. */
  function ClaveCandidato(c: Candidato): seq<int> {
    Desc(c.votos) + Desc(c.decimas) + Codigos(c.titulo)
  }

  /** The key orders by votes (most first), then by rating (best first), then by title. */
  lemma ClaveCandidatoOrden(a: Candidato, b: Candidato)
    ensures LexMenorIgual(ClaveCandidato(a), ClaveCandidato(b)) <==>
      a.votos > b.votos || (a.votos == b.votos &&
        (a.decimas > b.decimas || (a.decimas == b.decimas && LexMenorIgual(Codigos(a.titulo), Codigos(b.titulo)))))
  {
    var ka, kb := ClaveCandidato(a), ClaveCandidato(b);
    assert ka[0] == -a.votos && kb[0] == -b.votos;
    assert ka[1..] == [-a.decimas] + Codigos(a.titulo);
    assert kb[1..] == [-b.decimas] + Codigos(b.titulo);
    assert ka[1..][1..] == Codigos(a.titulo) && kb[1..][1..] == Codigos(b.titulo);
  }

  /** Codes of different strings differ, so two titles compare as equal only when they are equal. */
  lemma CodigosInyectiva(s: string, t: string)
    requires Codigos(s) == Codigos(t)
    ensures s == t
  {
    assert |s| == |t|;
    forall i | 0 <= i < |s| ensures s[i] == t[i] {
      assert Codigos(s)[i] == Codigos(t)[i];
    }
  }

  /** The buckets are sorted in place, one decade at a time, in no particular order of decades. */
  method OrdenarCubetas(buckets: map<int, seq<Candidato>>) returns (ordenadas: map<int, seq<Candidato>>)
    ensures ordenadas.Keys == buckets.Keys
    ensures forall d :: d in buckets ==> ordenadas[d] == Ordenar(buckets[d], ClaveCandidato)
  {
    ordenadas := buckets;
    var pendientes := buckets.Keys;
    while pendientes != {}
      invariant pendientes <= buckets.Keys && ordenadas.Keys == buckets.Keys
      invariant forall d :: d in pendientes ==> ordenadas[d] == buckets[d]
      invariant forall d :: d in buckets && d !in pendientes ==> ordenadas[d] == Ordenar(buckets[d], ClaveCandidato)
      decreases |pendientes|
    {
      ConElemento(pendientes);
      var dec :| dec in pendientes;
      ordenadas := ordenadas[dec := Ordenar(ordenadas[dec], ClaveCandidato)];
      pendientes := pendientes - {dec};
    }
  }

  /** Every sorted bucket holds the same candidates, ordered by votes, rating and title, ties in file order. */
  lemma CubetaOrdenada(b: seq<Candidato>, i: int, j: int)
    requires 0 <= i < j < |b|
    ensures var o := Ordenar(b, ClaveCandidato);
      multiset(o) == multiset(b) &&
      (o[i].votos > o[j].votos || (o[i].votos == o[j].votos &&
        (o[i].decimas > o[j].decimas ||
         (o[i].decimas == o[j].decimas && LexMenorIgual(Codigos(o[i].titulo), Codigos(o[j].titulo))))))
  {
    var o := Ordenar(b, ClaveCandidato);
    ClaveCandidatoOrden(o[i], o[j]);
  }

  predicate Creciente(s: seq<int>) {
    forall i, j :: 0 <= i < j < |s| ==> s[i] < s[j]
  }

  function Unitaria(d: int): seq<int> {
    [d]
  }

  /** `sorted(buckets.keys())`: every decade once, in increasing order. */
  method ListarDecadas(buckets: map<int, seq<Candidato>>) returns (decades: seq<int>)
    ensures Creciente(decades)
    ensures forall d :: d in decades <==> d in buckets
  {
    var claves: seq<int> := [];
    var pendientes := buckets.Keys;
    while pendientes != {}
      invariant pendientes <= buckets.Keys
      invariant forall d :: d in claves <==> d in buckets && d !in pendientes
      invariant forall i, j :: 0 <= i < j < |claves| ==> claves[i] != claves[j]
      decreases |pendientes|
    {
      ConElemento(pendientes);
      var dec :| dec in pendientes;
      claves := claves + [dec];
      pendientes := pendientes - {dec};
    }
    decades := Ordenar(claves, Unitaria);
    forall d ensures d in decades <==> d in claves {
      assert d in decades <==> d in multiset(decades);
      assert d in claves <==> d in multiset(claves);
    }
    DistintosOrdenados(claves, decades);
  }

  /** Sorting distinct decades orders them strictly. */
  lemma DistintosOrdenados(claves: seq<int>, decades: seq<int>)
    requires forall i, j :: 0 <= i < j < |claves| ==> claves[i] != claves[j]
    requires decades == Ordenar(claves, Unitaria)
    ensures Creciente(decades)
  {
    forall i, j | 0 <= i < j < |decades| ensures decades[i] < decades[j] {
      LexUnitario(decades[i], decades[j]);
      if decades[i] == decades[j] {
        MultiplicidadDos(decades, i, j);
        SinRepetidos(claves, decades[i]);
      }
    }
  }

  /** A value at two positions occurs at least twice. */
  lemma MultiplicidadDos(s: seq<int>, i: int, j: int)
    requires 0 <= i < j < |s| && s[i] == s[j]
    ensures multiset(s)[s[i]] >= 2
  {
    assert s == s[..i] + [s[i]] + s[i + 1..j] + [s[j]] + s[j + 1..];
    assert multiset(s) == multiset(s[..i]) + multiset([s[i]]) + multiset(s[i + 1..j]) + multiset([s[j]]) + multiset(s[j + 1..]);
  }

  /** A sequence without repetitions holds each value at most once. */
  lemma SinRepetidos(s: seq<int>, x: int)
    requires forall i, j :: 0 <= i < j < |s| ==> s[i] != s[j]
    ensures multiset(s)[x] <= 1
    decreases |s|
  {
    if |s| > 0 {
      var t := s[1..];
      assert s == [s[0]] + t;
      assert forall i, j :: 0 <= i < j < |t| ==> t[i] != t[j] by {
        forall i, j | 0 <= i < j < |t| ensures t[i] != t[j] {
          assert t[i] == s[i + 1] && t[j] == s[j + 1];
        }
      }
      SinRepetidos(t, x);
      if s[0] == x {
        assert x !in t by {
          forall k | 0 <= k < |t| ensures t[k] != x {
            assert t[k] == s[k + 1];
          }
        }
      }
    }
  }
}
