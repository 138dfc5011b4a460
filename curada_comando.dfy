/**
 * `handle` of the `imdb_curated_seed` command
 * (`moviegame/management/commands/imdb_curated_seed.py`, lines 183-264):
 * filter and bucket, stop when nothing is left, sort the buckets,
 * set and lend the quotas, select, fill, and cut to `--top`.
 */
module CuradaComando {
  import opened Base
  import opened Ordenacion
  import opened SemillaCurada
  import opened CuradaCupos
  import opened CuradaSeleccion
  import SemillaImdb

  /** `sys.exit(1)` after "No hay candidatos tras filtros". */
  datatype ErrorCurado = SinCandidatos

  /** The rows the command writes, or the error when no basics row passes the filter. */
  method Curar(filas: seq<Fila>, ratings: map<string, Calificacion>, f: Filtro, topN: int, strict: bool)
    returns (r: Result<seq<Eleccion>, ErrorCurado>)
    ensures r.Err? <==> Filtrar(filas, Admitir(ratings, f)) == []
    ensures r.Ok? && topN >= 0 ==> |r.value| <= topN
    ensures r.Ok? ==> forall e :: e in r.value ==>
      e.decada == Decada(e.anio) && exists c :: c in Filtrar(filas, Admitir(ratings, f)) && e == Elegida(c, Decada(c.anio))
  {
    var buckets, kept := Clasificar(filas, ratings, f);
    ghost var cs := Filtrar(filas, Admitir(ratings, f));
    if kept == 0 {
      return Err(SinCandidatos);
    }
    var ordenadas := OrdenarCubetas(buckets);
    OrdenadasNoVacias(buckets, cs, ordenadas);
    var decades := ListarDecadas(ordenadas);
    var targets := MetasIniciales(ordenadas, decades, topN);
    targets := Redistribuir(ordenadas, decades, targets, topN, strict);
    var results := Seleccionar(ordenadas, decades, targets);
    ghost var elegidas := results;
    results := Rellenar(ordenadas, decades, results, topN, strict);
    results := SemillaImdb.PrefijoPy(results, topN);
    forall e | e in results
      ensures e.decada == Decada(e.anio) && exists c :: c in cs && e == Elegida(c, Decada(c.anio))
    {
      OrigenResultado(cs, ordenadas, decades, targets, elegidas, topN, strict, e);
    }
    return Ok(results);
  }

  /** Every sorted bucket holds the candidates of its decade and is not empty. */
  lemma OrdenadasNoVacias(buckets: map<int, seq<Candidato>>, cs: seq<Candidato>, ordenadas: map<int, seq<Candidato>>)
    requires SonCubetas(buckets, cs)
    requires ordenadas.Keys == buckets.Keys
    requires forall d :: d in buckets ==> ordenadas[d] == Ordenar(buckets[d], ClaveCandidato)
    ensures forall d :: d in ordenadas ==> |ordenadas[d]| > 0
    ensures forall d, c :: d in ordenadas && c in ordenadas[d] ==> c in cs && Decada(c.anio) == d
  {
    forall d | d in ordenadas ensures |ordenadas[d]| > 0 {
      assert TieneCubeta(cs, d);
      var c :| c in cs && Decada(c.anio) == d;
      CubetaMiembro(cs, d, c);
    }
    forall d, c | d in ordenadas && c in ordenadas[d] ensures c in cs && Decada(c.anio) == d {
      assert c in multiset(ordenadas[d]);
      CubetaMiembro(cs, d, c);
    }
  }

  /** A written row is a selected or filled-in candidate, so it passed the filter. */
  lemma OrigenResultado(cs: seq<Candidato>, ordenadas: map<int, seq<Candidato>>,
                        decades: seq<int>, targets: map<int, int>, elegidas: seq<Eleccion>, topN: int, strict: bool, e: Eleccion)
    requires forall d, c :: d in ordenadas && c in ordenadas[d] ==> c in cs && Decada(c.anio) == d
    requires forall d :: d in decades ==> d in ordenadas && d in targets
    requires elegidas == Seleccion(ordenadas, decades, targets)
    requires e in SemillaImdb.PrefijoPy(
      if |elegidas| < topN && !strict
      then elegidas + RellenoFinal(Juntar(ordenadas, decades), Claves(elegidas), topN - |elegidas|)
      else elegidas, topN)
    ensures e.decada == Decada(e.anio) && exists c :: c in cs && e == Elegida(c, Decada(c.anio))
  {
    var todas := if |elegidas| < topN && !strict
      then elegidas + RellenoFinal(Juntar(ordenadas, decades), Claves(elegidas), topN - |elegidas|)
      else elegidas;
    assert e in todas;
    if e in elegidas {
      SeleccionOrigen(ordenadas, decades, targets, e);
      var c :| c in ordenadas[e.decada] && e == Elegida(c, e.decada);
    } else {
      var pool := Juntar(ordenadas, decades);
      RellenoFinalNuevo(pool, Claves(elegidas), topN - |elegidas|, e);
      var c :| c in pool && e == Elegida(c, Decada(c.anio));
      JuntarMiembro(ordenadas, decades, c);
      var d :| d in decades && c in ordenadas[d];
    }
  }
}
