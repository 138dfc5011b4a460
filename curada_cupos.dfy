/**
 * The decade quotas of the `imdb_curated_seed` command
 * (`moviegame/management/commands/imdb_curated_seed.py`, lines 191-228):
 * each decade first gets its rounded share of `--top`, clipped to the size of
 * its bucket; then, unless `--strict`, the quota left unfilled is lent one
 * place at a time, round-robin, to the decades with spare candidates,
 * the ones with the most spare first.
 */
module CuradaCupos {
  import opened Base
  import opened Ordenacion
  import opened SemillaCurada

  // ---------------------------------------------------------------------
  // The initial shares (lines 196-211)
  // ---------------------------------------------------------------------

  /** `DEFAULT_DECADE_TARGETS.get(d, 0)`. */
  function MetaBase(d: int): (n: int)
    ensures n >= 0
  {
    if d == 1970 then 40
    else if d == 1980 then 50
    else if d == 1990 then 50
    else if d == 2000 then 140
    else if d == 2010 then 120
    else if d == 2020 then 100
    else 0
  }

  /** Python's `round`: to the nearest integer, halves to the even one. */
  function Redondear(x: real): (r: int)
    ensures r as real - 0.5 <= x <= r as real + 0.5
    ensures x - x.Floor as real == 0.5 ==> r % 2 == 0
  {
    var f := x.Floor;
    var resto := x - f as real;
    if resto < 0.5 then f
    else if resto > 0.5 then f + 1
    else if f % 2 == 0 then f
    else f + 1
  }

  /** A whole number rounds to itself. */
  lemma RedondearEntero(n: int)
    ensures Redondear(n as real) == n
  {
    assert (n as real).Floor == n;
  }

  /** The size of each decade's bucket. */
  function Tamano(buckets: map<int, seq<Candidato>>): int -> int {
    d => if d in buckets then |buckets[d]| else 0
  }

  /** The decades, each with a non-empty bucket, as `buckets` leaves them. */
  predicate ConCubetas(buckets: map<int, seq<Candidato>>, decades: seq<int>) {
    forall d :: d in decades ==> d in buckets && |buckets[d]| > 0
  }

  /** The exact share of decade `d`: by the default weights, or by bucket size when no listed decade has one. */
  function Exacta(buckets: map<int, seq<Candidato>>, decades: seq<int>, topN: int, d: int): real
    requires ConCubetas(buckets, decades) && d in decades
  {
    var baseTotal := Suma(decades, MetaBase);
    if baseTotal == 0 then
      TotalPositivo(buckets, decades, d);
      (|buckets[d]| as real / Suma(decades, Tamano(buckets)) as real) * topN as real
    else
      MetaBase(d) as real * (topN as real / baseTotal as real)
  }

  /** `take`: the exact share, rounded as Python rounds it. */
  function Toma(buckets: map<int, seq<Candidato>>, decades: seq<int>, topN: int, d: int): (t: int)
    requires ConCubetas(buckets, decades) && d in decades
    ensures t as real - 0.5 <= Exacta(buckets, decades, topN, d) <= t as real + 0.5
  {
    Redondear(Exacta(buckets, decades, topN, d))
  }

  /** There are candidates in total when a listed decade has some. */
  lemma TotalPositivo(buckets: map<int, seq<Candidato>>, decades: seq<int>, d: int)
    requires ConCubetas(buckets, decades) && d in decades
    ensures Suma(decades, Tamano(buckets)) >= |buckets[d]| > 0
  {
    var k :| 0 <= k < |decades| && decades[k] == d;
    SumaCota(decades, Tamano(buckets), k);
  }

  /** Each decade's share of a zero total is zero. */
  lemma TomaCero(buckets: map<int, seq<Candidato>>, decades: seq<int>, d: int)
    requires ConCubetas(buckets, decades) && d in decades
    ensures Toma(buckets, decades, 0, d) == 0
  {
    RedondearEntero(0);
  }

  /** The quota of each decade as a map. */
  function MetaDe(targets: map<int, int>): int -> int {
    d => if d in targets then targets[d] else 0
  }

  /** `sum(targets.values())`, the keys being the decades. */
  function SumaMetas(targets: map<int, int>, decades: seq<int>): int {
    Suma(decades, MetaDe(targets))
  }

  /** The loop that fills `targets`: each decade's share, but never more than its bucket holds. */
  method MetasIniciales(buckets: map<int, seq<Candidato>>, decades: seq<int>, topN: int)
    returns (targets: map<int, int>)
    requires ConCubetas(buckets, decades)
    ensures forall d :: d in targets <==> d in decades
    ensures forall d :: d in decades ==> targets[d] == Min(Toma(buckets, decades, topN, d), |buckets[d]|)
    ensures forall d :: d in decades ==> targets[d] <= |buckets[d]|
  {
    targets := map[];
    for i := 0 to |decades|
      invariant forall d :: d in targets <==> d in decades[..i]
      invariant forall d :: d in targets ==> targets[d] == Min(Toma(buckets, decades, topN, d), |buckets[d]|)
    {
      var d := decades[i];
      targets := targets[d := Min(Toma(buckets, decades, topN, d), |buckets[d]|)];
      assert decades[..i + 1] == decades[..i] + [d];
    }
    assert decades[..|decades|] == decades;
  }

  // ---------------------------------------------------------------------
  // Lending the unfilled quota (lines 213-228)
  // ---------------------------------------------------------------------

  /** `stock` before sorting: each decade with the candidates its quota leaves over. */
  function Existencias(buckets: map<int, seq<Candidato>>, decades: seq<int>, targets: map<int, int>): seq<(int, int)>
    requires forall d :: d in decades ==> d in buckets && d in targets
    decreases |decades|
  {
    if decades == [] then []
    else
      var d := decades[0];
      [(d, |buckets[d]| - targets[d])] + Existencias(buckets, decades[1..], targets)
  }

  function Sobrante(e: (int, int)): int {
    e.1
  }

  /** The spare candidates one decade holds in an entry of `stock`. */
  function SobranteDe(d: int): ((int, int)) -> int {
    (e: (int, int)) => if e.0 == d then e.1 else 0
  }

  /** `key=lambda x: x[1], reverse=True`. */
  function ClaveSobrante(e: (int, int)): seq<int> {
    Desc(e.1)
  }

  /** The candidates the quotas leave over, all decades together. */
  function Holgura(buckets: map<int, seq<Candidato>>, decades: seq<int>, targets: map<int, int>): int
    requires forall d :: d in decades ==> d in buckets && d in targets
  {
    Suma(Existencias(buckets, decades, targets), Sobrante)
  }

  /** How many places the loop lends: what is missing from `top_n`, as far as spare candidates reach. */
  function Prestamo(buckets: map<int, seq<Candidato>>, decades: seq<int>, targets: map<int, int>, topN: int, strict: bool): (r: int)
    requires forall d :: d in decades ==> d in buckets && d in targets
    ensures strict || SumaMetas(targets, decades) >= topN ==> r == 0
    ensures r <= Max(0, topN - SumaMetas(targets, decades)) && r <= Max(0, Holgura(buckets, decades, targets))
  {
    var total := SumaMetas(targets, decades);
    if total < topN && !strict then Min(topN - total, Holgura(buckets, decades, targets)) else 0
  }

  lemma ExistenciasMiembro(buckets: map<int, seq<Candidato>>, decades: seq<int>, targets: map<int, int>, e: (int, int))
    requires forall d :: d in decades ==> d in buckets && d in targets
    requires e in Existencias(buckets, decades, targets)
    ensures e.0 in decades && e.1 == |buckets[e.0]| - targets[e.0]
    decreases |decades|
  {
    if e != (decades[0], |buckets[decades[0]]| - targets[decades[0]]) {
      ExistenciasMiembro(buckets, decades[1..], targets, e);
    }
  }

  /** Each decade appears once in `stock`, with its spare candidates. */
  lemma {:induction false} ExistenciasDe(buckets: map<int, seq<Candidato>>, decades: seq<int>, targets: map<int, int>, d: int)
    requires forall x :: x in decades ==> x in buckets && x in targets
    requires Creciente(decades) && d in decades
    ensures Suma(Existencias(buckets, decades, targets), SobranteDe(d)) == |buckets[d]| - targets[d]
    decreases |decades|
  {
    var resto := Existencias(buckets, decades[1..], targets);
    assert Creciente(decades[1..]);
    if decades[0] == d {
      forall k | 0 <= k < |resto| ensures SobranteDe(d)(resto[k]) == 0 {
        ExistenciasMiembro(buckets, decades[1..], targets, resto[k]);
      }
      SumaNula(resto, SobranteDe(d));
    } else {
      ExistenciasDe(buckets, decades[1..], targets, d);
    }
    assert Existencias(buckets, decades, targets)[1..] == resto;
  }

  /** Raising one decade's quota by one raises the total by one. */
  lemma {:induction false} SumaMetasIncrementar(targets: map<int, int>, decades: seq<int>, d: int)
    requires Creciente(decades) && d in decades && d in targets
    ensures SumaMetas(targets[d := targets[d] + 1], decades) == SumaMetas(targets, decades) + 1
    decreases |decades|
  {
    var t2 := targets[d := targets[d] + 1];
    assert Creciente(decades[1..]);
    if decades[0] == d {
      SumaIgual(decades[1..], MetaDe(t2), MetaDe(targets));
    } else {
      SumaMetasIncrementar(targets, decades[1..], d);
    }
  }

  /** How many steps of `i` it takes to reach the entry `p` of a ring of `n`. */
  function Distancia(p: int, i: nat, n: nat): int {
    if n == 0 then 0
    else
      var j := i % n;
      if p >= j then p - j else p - j + n
  }

  lemma MulCota(a: int, n: int)
    requires a >= 1 && n > 0
    ensures a * n >= n
  {
    assert a * n == (a - 1) * n + n;
  }

  /** The quotient and remainder of a division are unique. */
  lemma ModUnico(a: int, n: int, q: int, r: int)
    requires n > 0 && a == q * n + r && 0 <= r < n
    ensures a % n == r
  {
    var q2, r2 := a / n, a % n;
    assert a == q2 * n + r2;
    assert (q - q2) * n == r2 - r by {
      assert q * n - q2 * n == (q - q2) * n;
    }
    if q > q2 {
      MulCota(q - q2, n);
    } else if q < q2 {
      MulCota(q2 - q, n);
    }
  }

  /** `i % len(stock)` walks round the ring one entry at a time. */
  lemma ModSiguiente(i: nat, n: nat)
    requires n > 0
    ensures (i + 1) % n == if i % n + 1 == n then 0 else i % n + 1
  {
    var q := i / n;
    assert i == q * n + i % n;
    if i % n + 1 == n {
      ModUnico(i + 1, n, q + 1, 0);
    } else {
      ModUnico(i + 1, n, q, i % n + 1);
    }
  }

  lemma DistanciaPaso(p: int, i: nat, n: nat)
    requires 0 <= p < n && i % n != p
    ensures 0 <= Distancia(p, i + 1, n) < Distancia(p, i, n)
  {
    ModSiguiente(i, n);
  }

  /** The `if picked_total < top_n and not strict` block. */
  method Redistribuir(buckets: map<int, seq<Candidato>>, decades: seq<int>, targets: map<int, int>, topN: int, strict: bool)
    returns (metas: map<int, int>)
    requires Creciente(decades)
    requires forall d :: d in targets <==> d in decades
    requires forall d :: d in decades ==> d in buckets && targets[d] <= |buckets[d]|
    ensures metas.Keys == targets.Keys
    ensures forall d :: d in decades ==> targets[d] <= metas[d] <= |buckets[d]|
    ensures SumaMetas(metas, decades) == SumaMetas(targets, decades) + Prestamo(buckets, decades, targets, topN, strict)
    ensures Prestamo(buckets, decades, targets, topN, strict) == 0 ==> metas == targets
  {
    metas := targets;
    var total := SumaMetas(targets, decades);
    if total < topN && !strict {
      var inicial := Existencias(buckets, decades, targets);
      var stock := Ordenar(inicial, ClaveSobrante);
      EstadoInicial(buckets, decades, targets, inicial, stock);
      metas := Prestar(buckets, decades, targets, stock, topN - total);
      if Prestamo(buckets, decades, targets, topN, strict) == 0 {
        IgualesPorSuma(targets, metas, decades);
      }
    }
  }

  /** `any(s > 0 for _, s in stock)`. */
  predicate HayStock(stock: seq<(int, int)>) {
    exists k :: 0 <= k < |stock| && stock[k].1 > 0
  }

  lemma ElegirPositivo(stock: seq<(int, int)>) returns (p: nat)
    requires HayStock(stock)
    ensures p < |stock| && stock[p].1 > 0
  {
    var k :| 0 <= k < |stock| && stock[k].1 > 0;
    p := k;
  }

  /** The `while` loop: one place at a time from `stock[i % len(stock)]`, skipping entries with no spare. */
  method Prestar(buckets: map<int, seq<Candidato>>, decades: seq<int>, targets: map<int, int>,
                 stock0: seq<(int, int)>, short0: int)
    returns (metas: map<int, int>)
    requires Creciente(decades) && Reparto(buckets, decades, targets, targets, stock0) && short0 >= 0
    ensures metas.Keys == targets.Keys
    ensures forall d :: d in decades ==> targets[d] <= metas[d] <= |buckets[d]|
    ensures SumaMetas(metas, decades) == SumaMetas(targets, decades) + Min(short0, Suma(stock0, Sobrante))
  {
    metas := targets;
    var stock := stock0;
    var short := short0;
    ghost var total, holgura := SumaMetas(targets, decades), Suma(stock0, Sobrante);
    ghost var puestas, resto := total, holgura;
    var i: nat := 0;
    ghost var p: nat := 0;
    if HayStock(stock) {
      p := ElegirPositivo(stock);
    }
    while short > 0 && HayStock(stock)
      invariant Reparto(buckets, decades, targets, metas, stock)
      invariant puestas == SumaMetas(metas, decades) && resto == Suma(stock, Sobrante)
      invariant puestas + resto == total + holgura && puestas + short == total + short0 && short >= 0
      invariant HayStock(stock) ==> p < |stock| && stock[p].1 > 0
      decreases resto, Distancia(p, i, |stock|)
    {
      SumaNoNegativa(stock, Sobrante);
      var k := i % |stock|;
      if stock[k].1 > 0 {
        metas, stock := PrestarUno(buckets, decades, targets, metas, stock, k);
        short := short - 1;
        puestas, resto := puestas + 1, resto - 1;
        if HayStock(stock) {
          p := ElegirPositivo(stock);
        }
      } else {
        DistanciaPaso(p, i, |stock|);
      }
      i := i + 1;
    }
    Cierre(buckets, decades, targets, stock, metas);
    SumaNoNegativa(stock, Sobrante);
    if short > 0 {
      forall k | 0 <= k < |stock| ensures Sobrante(stock[k]) == 0 {
      }
      SumaNula(stock, Sobrante);
    }
    CuentaFinal(puestas, resto, short, total, holgura, short0);
  }

  /** One lending step: `targets[d] += 1` and the entry's spare goes down by one. */
  method PrestarUno(buckets: map<int, seq<Candidato>>, decades: seq<int>, targets: map<int, int>,
                    metas: map<int, int>, stock: seq<(int, int)>, k: nat)
    returns (metas2: map<int, int>, stock2: seq<(int, int)>)
    requires Creciente(decades) && Reparto(buckets, decades, targets, metas, stock)
    requires k < |stock| && stock[k].1 > 0
    ensures Reparto(buckets, decades, targets, metas2, stock2) && |stock2| == |stock|
    ensures SumaMetas(metas2, decades) == SumaMetas(metas, decades) + 1
    ensures Suma(stock2, Sobrante) == Suma(stock, Sobrante) - 1
    ensures metas2 == metas[stock[k].0 := metas[stock[k].0] + 1]
    ensures stock2 == stock[k := (stock[k].0, stock[k].1 - 1)]
  {
    var (d, s) := stock[k];
    PasoReparto(buckets, decades, targets, metas, stock, k);
    metas2 := metas[d := metas[d] + 1];
    s := s - 1;
    stock2 := stock[k := (d, s)];
  }

  /** When the loop stops, either the missing places or the spare candidates have run out. */
  lemma CuentaFinal(puestas: int, resto: int, short: int, total: int, holgura: int, short0: int)
    requires puestas + resto == total + holgura && puestas + short == total + short0
    requires resto >= 0 && short >= 0 && (short == 0 || resto == 0)
    ensures puestas == total + Min(short0, holgura)
  {
  }

  /** Quotas that only grow and keep their total are unchanged. */
  lemma {:induction false} IgualesPorSuma(targets: map<int, int>, metas: map<int, int>, decades: seq<int>)
    requires Creciente(decades) && metas.Keys == targets.Keys
    requires forall d :: d in targets <==> d in decades
    requires forall d :: d in decades ==> targets[d] <= metas[d]
    requires SumaMetas(metas, decades) == SumaMetas(targets, decades)
    ensures metas == targets
  {
    forall d | d in decades ensures metas[d] == targets[d] {
      var k :| 0 <= k < |decades| && decades[k] == d;
      SumaDominada(targets, metas, decades, k);
    }
    assert forall d :: d in metas ==> metas[d] == targets[d];
  }

  /** If every quota of `metas` is at least that of `targets`, the sum exceeds by at least any one difference. */
  lemma {:induction false} SumaDominada(targets: map<int, int>, metas: map<int, int>, decades: seq<int>, k: nat)
    requires forall j :: 0 <= j < |decades| ==> decades[j] in targets && decades[j] in metas && targets[decades[j]] <= metas[decades[j]]
    requires k < |decades|
    ensures SumaMetas(metas, decades) - SumaMetas(targets, decades) >= metas[decades[k]] - targets[decades[k]]
    decreases |decades|
  {
    var resto := decades[1..];
    assert forall j :: 0 <= j < |resto| ==> resto[j] == decades[j + 1];
    assert SumaMetas(metas, decades) == metas[decades[0]] + SumaMetas(metas, resto);
    assert SumaMetas(targets, decades) == targets[decades[0]] + SumaMetas(targets, resto);
    if k == 0 {
      SumaDominada0(targets, metas, resto);
    } else {
      SumaDominada(targets, metas, resto, k - 1);
    }
  }

  lemma {:induction false} SumaDominada0(targets: map<int, int>, metas: map<int, int>, decades: seq<int>)
    requires forall j :: 0 <= j < |decades| ==> decades[j] in targets && decades[j] in metas && targets[decades[j]] <= metas[decades[j]]
    ensures SumaMetas(metas, decades) >= SumaMetas(targets, decades)
    decreases |decades|
  {
    if decades != [] {
      var resto := decades[1..];
      assert forall j :: 0 <= j < |resto| ==> resto[j] == decades[j + 1];
      assert SumaMetas(metas, decades) == metas[decades[0]] + SumaMetas(metas, resto);
      assert SumaMetas(targets, decades) == targets[decades[0]] + SumaMetas(targets, resto);
      SumaDominada0(targets, metas, resto);
    }
  }

  /** The sorted `stock` still holds every decade's spare candidates, none negative. */
  lemma EstadoInicial(buckets: map<int, seq<Candidato>>, decades: seq<int>, targets: map<int, int>, inicial: seq<(int, int)>, stock: seq<(int, int)>)
    requires Creciente(decades)
    requires forall d :: d in targets <==> d in decades
    requires forall d :: d in decades ==> d in buckets && targets[d] <= |buckets[d]|
    requires inicial == Existencias(buckets, decades, targets) && stock == Ordenar(inicial, ClaveSobrante)
    ensures |stock| == |decades|
    ensures forall k :: 0 <= k < |stock| ==> stock[k].0 in decades && stock[k].1 >= 0
    ensures forall d :: d in decades ==> targets[d] + Suma(stock, SobranteDe(d)) == |buckets[d]|
    ensures Suma(stock, Sobrante) == Holgura(buckets, decades, targets)
  {
    LargoExistencias(buckets, decades, targets);
    forall k | 0 <= k < |stock| ensures stock[k].0 in decades && stock[k].1 >= 0 {
      assert stock[k] in multiset(inicial);
      ExistenciasMiembro(buckets, decades, targets, stock[k]);
    }
    forall d | d in decades ensures targets[d] + Suma(stock, SobranteDe(d)) == |buckets[d]| {
      SumaPermutacion(inicial, stock, SobranteDe(d));
      ExistenciasDe(buckets, decades, targets, d);
    }
    SumaPermutacion(inicial, stock, Sobrante);
  }

  lemma LargoExistencias(buckets: map<int, seq<Candidato>>, decades: seq<int>, targets: map<int, int>)
    requires forall d :: d in decades ==> d in buckets && d in targets
    ensures |Existencias(buckets, decades, targets)| == |decades|
    decreases |decades|
  {
    if decades != [] {
      LargoExistencias(buckets, decades[1..], targets);
    }
  }

  /** Taking one spare candidate from entry `k` lowers that decade's spare, and the total, by one. */
  lemma Descontar(stock: seq<(int, int)>, k: nat, d: int)
    requires k < |stock| && stock[k].0 == d
    ensures Suma(stock[k := (d, stock[k].1 - 1)], Sobrante) == Suma(stock, Sobrante) - 1
    ensures forall x ::
      Suma(stock[k := (d, stock[k].1 - 1)], SobranteDe(x)) == Suma(stock, SobranteDe(x)) - (if x == d then 1 else 0)
  {
    SumaActualizar(stock, k, (d, stock[k].1 - 1), Sobrante);
    forall x ensures Suma(stock[k := (d, stock[k].1 - 1)], SobranteDe(x)) ==
      Suma(stock, SobranteDe(x)) - (if x == d then 1 else 0) {
      SumaActualizar(stock, k, (d, stock[k].1 - 1), SobranteDe(x));
    }
  }

  /** What the lending loop keeps: every decade's quota plus its spare candidates is its bucket's size. */
  ghost predicate Reparto(buckets: map<int, seq<Candidato>>, decades: seq<int>, targets: map<int, int>,
                    metas: map<int, int>, stock: seq<(int, int)>)
  {
    && |stock| == |decades|
    && metas.Keys == targets.Keys
    && (forall d :: d in targets <==> d in decades)
    && (forall d :: d in decades ==> d in buckets)
    && (forall k :: 0 <= k < |stock| ==> stock[k].0 in decades && stock[k].1 >= 0)
    && (forall d :: d in decades ==> targets[d] <= metas[d])
    && (forall d :: d in decades ==> metas[d] + Suma(stock, SobranteDe(d)) == |buckets[d]|)
  }

  /** Lending one place from entry `k` keeps the balance, adds one to the quotas and takes one from the spare. */
  lemma PasoReparto(buckets: map<int, seq<Candidato>>, decades: seq<int>, targets: map<int, int>,
                    metas: map<int, int>, stock: seq<(int, int)>, k: nat)
    requires Creciente(decades) && Reparto(buckets, decades, targets, metas, stock)
    requires k < |stock| && stock[k].1 > 0
    ensures var d := stock[k].0;
      && Reparto(buckets, decades, targets, metas[d := metas[d] + 1], stock[k := (d, stock[k].1 - 1)])
      && SumaMetas(metas[d := metas[d] + 1], decades) == SumaMetas(metas, decades) + 1
      && Suma(stock[k := (d, stock[k].1 - 1)], Sobrante) == Suma(stock, Sobrante) - 1
  {
    var d := stock[k].0;
    SumaMetasIncrementar(metas, decades, d);
    Descontar(stock, k, d);
  }

  /** No decade ends up with a quota past its bucket. */
  lemma Cierre(buckets: map<int, seq<Candidato>>, decades: seq<int>, targets: map<int, int>, stock: seq<(int, int)>, metas: map<int, int>)
    requires Reparto(buckets, decades, targets, metas, stock)
    ensures forall d :: d in decades ==> metas[d] <= |buckets[d]|
  {
    forall d | d in decades ensures metas[d] <= |buckets[d]| {
      SumaNoNegativa(stock, SobranteDe(d));
    }
  }
}
