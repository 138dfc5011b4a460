/**
 * The `imdb_make_seed` command (`moviegame/management/commands/imdb_make_seed.py`):
 * from IMDb's ratings rows it keeps the `oversample` most voted ids, then
 * walks the basics rows in file order and takes the first `top` non-adult
 * movies among those ids, with their title and year. The rows arrive as
 * already-parsed dictionaries; a column that is missing is `None`.
 */
module SemillaImdb {
  import opened Base
  import opened Texto
  import opened Ordenacion

  // ---------------------------------------------------------------------
  // Ratings rows (lines 74-87)
  // ---------------------------------------------------------------------

  /** A row of `title.ratings.tsv.gz`, as far as the command reads it. */
  datatype FilaVotos = FilaVotos(tconst: Option<string>, numVotes: Option<string>)

  /** The two characters `\N` with which IMDb marks a missing value. */
  const Nulo: string := "\\N"

  /** A row gives its id and vote count, unless the id is missing, the count missing or `\N`, or `int()` rejects it. */
  function Voto(r: FilaVotos): (v: Option<(string, int)>)
    ensures v.Some? ==> r.tconst == Some(v.value.0) && v.value.0 != ""
    ensures v.Some? ==> r.numVotes.Some? && r.numVotes.value != Nulo && PyInt(r.numVotes.value) == Some(v.value.1)
  {
    if r.tconst.None? || r.tconst.value == "" || r.numVotes.None? || r.numVotes.value == ""
       || r.numVotes.value == Nulo then None
    else match PyInt(r.numVotes.value)
      case None => None
      case Some(n) => Some((r.tconst.value, n))
  }

  /** Neither an empty count nor `\N` is something `int()` reads. */
  lemma Ilegibles()
    ensures PyInt("").None? && PyInt(Nulo).None?
  {
    assert Recortada(Nulo) by {
      assert Nulo[0] == '\\' && Nulo[|Nulo| - 1] == 'N';
    }
    RecortarFijo(Nulo);
    RecortarFijo("");
    assert !EsDigito(Nulo[0]);
  }

  /** A row whose count `int()` reads, with an id, is never skipped. */
  lemma VotoLeido(r: FilaVotos, n: int)
    requires r.tconst.Some? && r.tconst.value != "" && r.numVotes.Some? && PyInt(r.numVotes.value) == Some(n)
    ensures Voto(r) == Some((r.tconst.value, n))
  {
    Ilegibles();
  }

  /** The loop over the ratings rows. */
  method LeerVotos(filas: seq<FilaVotos>) returns (votos: seq<(string, int)>)
    ensures votos == Filtrar(filas, Voto)
  {
    votos := [];
    for i := 0 to |filas|
      invariant votos == Filtrar(filas[..i], Voto)
    {
      FiltrarAnadir(filas, i, Voto);
      var v := Voto(filas[i]);
      if v.Some? {
        votos := votos + [v.value];
      }
    }
    assert filas[..|filas|] == filas;
  }

  /** `s[:k]` for any integer `k`: a negative `k` drops that many elements from the end. */
  function PrefijoPy<T>(s: seq<T>, k: int): (r: seq<T>)
    ensures |r| == (if k >= 0 then Min(k, |s|) else Max(0, |s| + k))
    ensures r == s[..|r|]
  {
    if k >= 0 then s[..Min(k, |s|)] else s[..Max(0, |s| + k)]
  }

  function ClaveVotos(v: (string, int)): seq<int> {
    Desc(v.1)
  }

  /** The votes sorted by count, most first (`sort(key=..., reverse=True)`). */
  function PorVotos(votos: seq<(string, int)>): seq<(string, int)> {
    Ordenar(votos, ClaveVotos)
  }

  function Ids(s: seq<(string, int)>): set<string> {
    set v | v in s :: v.0
  }

  /** `top_pool`: the ids of the first `oversample` entries after the sort. */
  function Pool(votos: seq<(string, int)>, oversample: int): (r: set<string>)
    ensures |r| <= |votos|
    ensures oversample >= 0 ==> |r| <= oversample
  {
    IdsCardinal(PrefijoPy(PorVotos(votos), oversample));
    Ids(PrefijoPy(PorVotos(votos), oversample))
  }

  lemma {:induction false} IdsCardinal(s: seq<(string, int)>)
    ensures |Ids(s)| <= |s|
    decreases |s|
  {
    if |s| > 0 {
      var n := |s| - 1;
      IdsCardinal(s[..n]);
      assert Ids(s) == Ids(s[..n]) + {s[n].0} by {
        forall t | t in Ids(s) ensures t in Ids(s[..n]) + {s[n].0} {
          var v :| v in s && v.0 == t;
          var i :| 0 <= i < |s| && s[i] == v;
          if i < n {
            assert s[..n][i] == v;
          }
        }
        forall t | t in Ids(s[..n]) ensures t in Ids(s) {
          var v :| v in s[..n] && v.0 == t;
          var i :| 0 <= i < n && s[..n][i] == v;
          assert s[i] == v;
        }
      }
    }
  }

  /**
   * The pool holds no more ids than entries it was cut from (at most
   * `oversample` of them), each with a vote, and every entry that made the
   * cut has at least as many votes as every entry that did not.
   */
  lemma PoolMasVotados(votos: seq<(string, int)>, oversample: int)
    ensures |Pool(votos, oversample)| <= |votos|
    ensures oversample >= 0 ==> |Pool(votos, oversample)| <= oversample
    ensures forall t :: t in Pool(votos, oversample) ==> exists v :: v in votos && v.0 == t
    ensures var o := PorVotos(votos); var p := PrefijoPy(o, oversample);
      forall i, j :: 0 <= i < |p| <= j < |o| ==> o[i].1 >= o[j].1
  {
    var o := PorVotos(votos);
    var p := PrefijoPy(o, oversample);
    IdsCardinal(p);
    forall t | t in Pool(votos, oversample) ensures exists v :: v in votos && v.0 == t {
      var v :| v in p && v.0 == t;
      var i :| 0 <= i < |p| && p[i] == v;
      assert o[i] == v;
      assert v in multiset(o);
      assert multiset(o) == multiset(votos);
      assert v in votos;
    }
    forall i, j | 0 <= i < |p| <= j < |o| ensures o[i].1 >= o[j].1 {
      assert LexMenorIgual(ClaveVotos(o[i]), ClaveVotos(o[j]));
      DescOrden(o[i].1, o[j].1);
    }
  }

  // ---------------------------------------------------------------------
  // Basics rows (lines 95-122)
  // ---------------------------------------------------------------------

  /** A row of `title.basics.tsv.gz`, as far as the command reads it. */
  datatype FilaBasica = FilaBasica(
    tconst: Option<string>, titleType: Option<string>, isAdult: Option<string>,
    primaryTitle: Option<string>, originalTitle: Option<string>, startYear: Option<string>)

  /** `isAdult in ("0", 0, None)`; the rows hold text, so only "0" or a missing column passes. */
  predicate NoAdulta(b: FilaBasica) {
    b.isAdult.None? || b.isAdult.value == "0"
  }

  predicate Presente(x: Option<string>) {
    x.Some? && x.value != ""
  }

  /** `primaryTitle or originalTitle or ""`. */
  function Titulo(b: FilaBasica): (t: string)
    ensures t != "" ==>
      (Presente(b.primaryTitle) && t == b.primaryTitle.value) || (Presente(b.originalTitle) && t == b.originalTitle.value)
    ensures t == "" <==> !Presente(b.primaryTitle) && !Presente(b.originalTitle)
  {
    if Presente(b.primaryTitle) then b.primaryTitle.value
    else if Presente(b.originalTitle) then b.originalTitle.value
    else ""
  }

  /** The (title, year) a basics row contributes, or `None` when one of the `continue`s skips it. */
  function Entrada(b: FilaBasica, pool: set<string>): (e: Option<(string, int)>)
    ensures e.Some? ==> b.tconst.Some? && b.tconst.value in pool
    ensures e.Some? ==> b.titleType == Some("movie") && NoAdulta(b)
    ensures e.Some? ==> e.value.0 == Titulo(b) && e.value.0 != ""
    ensures e.Some? ==> b.startYear.Some? && PyInt(b.startYear.value) == Some(e.value.1)
  {
    if b.tconst.None? || b.tconst.value !in pool then None
    else if b.titleType != Some("movie") then None
    else if !NoAdulta(b) then None
    else if Titulo(b) == "" then None
    else if !Presente(b.startYear) || b.startYear.value == Nulo then None
    else match PyInt(b.startYear.value)
      case None => None
      case Some(y) => Some((Titulo(b), y))
  }

  /** A non-adult movie in the pool with a title and a year `int()` reads is never skipped. */
  lemma EntradaAdmitida(b: FilaBasica, pool: set<string>, y: int)
    requires b.tconst.Some? && b.tconst.value in pool
    requires b.titleType == Some("movie") && NoAdulta(b) && Titulo(b) != ""
    requires b.startYear.Some? && PyInt(b.startYear.value) == Some(y)
    ensures Entrada(b, pool) == Some((Titulo(b), y))
  {
    Ilegibles();
  }

  /** The per-row test of the loop, for a given pool. */
  function Tomar(pool: set<string>): FilaBasica -> Option<(string, int)> {
    b => Entrada(b, pool)
  }

  /** Every row the loop could take, in file order. */
  function Coincidencias(basics: seq<FilaBasica>, pool: set<string>): seq<(string, int)> {
    Filtrar(basics, Tomar(pool))
  }

  /** How many the loop takes: it checks `len(results) >= top_n` after each append, so at least one. */
  function Cupo(topN: int): nat {
    Max(1, topN) as nat
  }

  /** The loop over the basics rows, which stops once it holds `top_n` results. */
  method ArmarTop(basics: seq<FilaBasica>, pool: set<string>, topN: int) returns (results: seq<(string, int)>)
    ensures var m := Coincidencias(basics, pool); results == m[..Min(|m|, Cupo(topN))]
  {
    var f := Tomar(pool);
    results := [];
    var i := 0;
    while i < |basics|
      invariant 0 <= i <= |basics|
      invariant results == Filtrar(basics[..i], f)
      invariant |results| < Cupo(topN)
    {
      FiltrarAnadir(basics, i, f);
      var e := f(basics[i]);
      if e.Some? {
        results := results + [e.value];
        if |results| >= topN {
          CorteLleno(basics, i + 1, f, Cupo(topN));
          return;
        }
      }
      i := i + 1;
    }
    assert basics[..i] == basics;
    CorteCompleto(basics, f, Cupo(topN));
  }

  /** Stopping once `c` values are collected leaves the first `c` values of the whole. */
  lemma CorteLleno<A, B>(s: seq<A>, i: nat, f: A -> Option<B>, c: nat)
    requires i <= |s| && |Filtrar(s[..i], f)| == c
    ensures Filtrar(s[..i], f) == Filtrar(s, f)[..Min(|Filtrar(s, f)|, c)]
  {
    FiltrarPrefijo(s, i, f);
  }

  /** Running to the end with fewer than `c` values leaves all of them. */
  lemma CorteCompleto<A, B>(s: seq<A>, f: A -> Option<B>, c: nat)
    requires |Filtrar(s, f)| < c
    ensures Filtrar(s, f) == Filtrar(s, f)[..Min(|Filtrar(s, f)|, c)]
  {
  }

  datatype ErrorSemilla = SinResultados

  /** What the command writes: the first `Cupo(top)` matches, or an error exit when there are none. */
  function Semilla(basics: seq<FilaBasica>, pool: set<string>, topN: int): (r: Result<seq<(string, int)>, ErrorSemilla>)
    ensures r.Err? <==> Coincidencias(basics, pool) == []
    ensures r.Ok? ==> 1 <= |r.value| <= Cupo(topN)
    ensures r.Ok? ==> |r.value| <= |Coincidencias(basics, pool)| && r.value == Coincidencias(basics, pool)[..|r.value|]
  {
    var m := Coincidencias(basics, pool);
    var res := m[..Min(|m|, Cupo(topN))];
    if res == [] then Err(SinResultados) else Ok(res)
  }

  /** `handle`, from the parsed rows of both files to the seed list. */
  method Construir(ratings: seq<FilaVotos>, basics: seq<FilaBasica>, topN: int, oversample: int)
    returns (r: Result<seq<(string, int)>, ErrorSemilla>)
    ensures r == Semilla(basics, Pool(Filtrar(ratings, Voto), oversample), topN)
  {
    var votos := LeerVotos(ratings);
    var pool := Pool(votos, oversample);
    var results := ArmarTop(basics, pool, topN);
    if results == [] {
      r := Err(SinResultados);
    } else {
      r := Ok(results);
    }
  }

  /** The command fails exactly when no basics row passes the filter. */
  lemma SemillaVacia(basics: seq<FilaBasica>, pool: set<string>, topN: int)
    ensures Semilla(basics, pool, topN).Err? <==> forall i :: 0 <= i < |basics| ==> Entrada(basics[i], pool).None?
  {
    var f := Tomar(pool);
    var m := Coincidencias(basics, pool);
    if m != [] {
      FiltrarMiembro(basics, f, m[0]);
      var i :| 0 <= i < |basics| && f(basics[i]) == Some(m[0]);
      assert Entrada(basics[i], pool).Some?;
    }
    if exists i :: 0 <= i < |basics| && Entrada(basics[i], pool).Some? {
      var i :| 0 <= i < |basics| && Entrada(basics[i], pool).Some?;
      FiltrarMiembro(basics, f, Entrada(basics[i], pool).value);
    }
  }

  /**
   * On success the list has between one and `Cupo(top)` entries, each from a
   * non-adult movie of the pool with its title and year, and when there
   * are enough matches it has exactly `Cupo(top)`.
   */
  lemma SemillaResultado(basics: seq<FilaBasica>, pool: set<string>, topN: int)
    requires Semilla(basics, pool, topN).Ok?
    ensures var res := Semilla(basics, pool, topN).value;
      && 1 <= |res| <= Cupo(topN)
      && (|Coincidencias(basics, pool)| >= Cupo(topN) ==> |res| == Cupo(topN))
      && (forall k :: 0 <= k < |res| ==> exists i :: 0 <= i < |basics| && Entrada(basics[i], pool) == Some(res[k]))
  {
    var f := Tomar(pool);
    var m := Coincidencias(basics, pool);
    var res := Semilla(basics, pool, topN).value;
    forall k | 0 <= k < |res| ensures exists i :: 0 <= i < |basics| && Entrada(basics[i], pool) == Some(res[k]) {
      assert res[k] == m[k];
      FiltrarMiembro(basics, f, m[k]);
    }
  }

  /** The results keep the order of the basics file: the matches of an earlier block of rows come first. */
  lemma CoincidenciasOrden(a: seq<FilaBasica>, b: seq<FilaBasica>, pool: set<string>)
    ensures Coincidencias(a + b, pool) == Coincidencias(a, pool) + Coincidencias(b, pool)
  {
    FiltrarConcat(a, b, Tomar(pool));
  }

  /** A ratings entry is kept exactly when some row gives it. */
  lemma VotosMiembro(filas: seq<FilaVotos>, v: (string, int))
    ensures v in Filtrar(filas, Voto) <==> exists i :: 0 <= i < |filas| && Voto(filas[i]) == Some(v)
  {
    FiltrarMiembro(filas, Voto, v);
  }
}
