/**
 * The game's tables as an in-memory store, and attempt registration: the
 * game of the day is fetched or created, a finished game is refused, the
 * attempt is numbered, the limit is enforced, the guess is scored against
 * the game's secret movie, and the game and the player's streaks are
 * updated.
 *
 * Row ids are positions: game `p` is `partidas[p]`, attempt `k` is
 * `intentos[k]`. The tables are first described as values (`Tablas`), with
 * the invariant the store keeps (`Juego`) and the effect of each operation
 * as a function; the class `BaseDeDatos` then performs the operations in
 * place and is tied to those functions.
 */
module Almacen {
  import opened Base
  import opened Texto
  import opened Modelos
  import opened ServicioJuego

  datatype Tablas = Tablas(
    catalogo: seq<Pelicula>,
    jugadores: map<nat, Jugador>,
    partidas: seq<Partida>,
    intentos: seq<Intento>,
    feedbacks: seq<Feedback>)

  // ---------------------------------------------------------------------
  // The schema's constraints and the invariant registration keeps
  // ---------------------------------------------------------------------

  /** The catalogue as `order_by("id")` returns it: strictly increasing primary keys. */
  predicate CatalogoPorId(c: seq<Pelicula>) {
    forall i, j :: 0 <= i < j < |c| ==> c[i].id < c[j].id
  }

  /** `titulo` is unique, and so is `imdb_id` where it is set. */
  predicate CatalogoUnico(c: seq<Pelicula>) {
    forall i, j :: 0 <= i < j < |c| ==>
      c[i].titulo != c[j].titulo && (c[i].imdbId.Some? ==> c[i].imdbId != c[j].imdbId)
  }

  /** Foreign keys resolve, and one game per player and day. */
  predicate Esquema(t: Tablas) {
    && CatalogoPorId(t.catalogo)
    && CatalogoUnico(t.catalogo)
    && (forall p :: 0 <= p < |t.partidas| ==>
          t.partidas[p].jugador in t.jugadores && t.partidas[p].secreta in t.catalogo)
    && UnaPartidaPorDia(t.partidas)
    && (forall k :: 0 <= k < |t.intentos| ==>
          t.intentos[k].partida < |t.partidas| && t.intentos[k].adivinada in t.catalogo)
  }

  /** Positions of the attempts of game `p`, oldest first (`partida.intentos`). */
  function Indices(intentos: seq<Intento>, p: nat): (r: seq<nat>)
    ensures forall k :: 0 <= k < |r| ==> r[k] < |intentos| && intentos[r[k]].partida == p
    ensures forall k, l :: 0 <= k < l < |r| ==> r[k] < r[l]
    ensures forall i :: 0 <= i < |intentos| && intentos[i].partida == p ==> i in r
    decreases |intentos|
  {
    if |intentos| == 0 then []
    else
      var n := |intentos| - 1;
      Indices(intentos[..n], p) + (if intentos[n].partida == p then [n] else [])
  }

  /** `partida.intentos.count()`. */
  function Cuenta(intentos: seq<Intento>, p: nat): nat
  {
    |Indices(intentos, p)|
  }

  lemma IndicesAnadir(intentos: seq<Intento>, x: Intento, p: nat)
    ensures Indices(intentos + [x], p) == Indices(intentos, p) + (if x.partida == p then [|intentos|] else [])
  {
    assert (intentos + [x])[..|intentos|] == intentos;
  }

  lemma IndicesSinPartida(intentos: seq<Intento>, p: nat)
    requires forall k :: 0 <= k < |intentos| ==> intentos[k].partida != p
    ensures Indices(intentos, p) == []
  {
  }

  /** Attempt `k` was judged correct. */
  predicate Acierto(feedbacks: seq<Feedback>, k: nat) {
    k < |feedbacks| && feedbacks[k].esCorrecto
  }

  /** One attempt of a game as the invariant sees it: its number and whether it was correct. */
  datatype Paso = Paso(numero: nat, acierto: bool)

  /** Game `p`'s attempts in order, each with its number and verdict. */
  function Historial(intentos: seq<Intento>, feedbacks: seq<Feedback>, p: nat): seq<Paso>
  {
    var ix := Indices(intentos, p);
    seq(|ix|, k requires 0 <= k < |ix| => Paso(intentos[ix[k]].numero, Acierto(feedbacks, ix[k])))
  }

  /** A new attempt extends its own game's history by one step and leaves the others' alone. */
  lemma HistorialAnadir(intentos: seq<Intento>, feedbacks: seq<Feedback>, x: Intento, f: Feedback, p: nat)
    requires |feedbacks| == |intentos|
    ensures Historial(intentos + [x], feedbacks + [f], p)
         == Historial(intentos, feedbacks, p) + (if x.partida == p then [Paso(x.numero, f.esCorrecto)] else [])
  {
    IndicesAnadir(intentos, x, p);
    var h := Historial(intentos, feedbacks, p);
    var h2 := Historial(intentos + [x], feedbacks + [f], p);
    HistorialPrefijo(intentos, feedbacks, x, f, p);
    if x.partida == p {
      var ix2 := Indices(intentos + [x], p);
      assert ix2[|h|] == |intentos|;
      assert h2[|h|] == Paso(x.numero, f.esCorrecto);
      assert h2 == h + [Paso(x.numero, f.esCorrecto)];
    } else {
      assert h2 == h;
    }
  }

  lemma HistorialPrefijo(intentos: seq<Intento>, feedbacks: seq<Feedback>, x: Intento, f: Feedback, p: nat)
    requires |feedbacks| == |intentos|
    requires Indices(intentos + [x], p) == Indices(intentos, p) + (if x.partida == p then [|intentos|] else [])
    ensures var h := Historial(intentos, feedbacks, p);
      var h2 := Historial(intentos + [x], feedbacks + [f], p);
      |h| <= |h2| && forall k :: 0 <= k < |h| ==> h2[k] == h[k]
  {
    var ix := Indices(intentos, p);
    var h := Historial(intentos, feedbacks, p);
    var h2 := Historial(intentos + [x], feedbacks + [f], p);
    forall k | 0 <= k < |h| ensures h2[k] == h[k] {
      var i := ix[k];
      assert (intentos + [x])[i] == intentos[i];
      assert Acierto(feedbacks + [f], i) == Acierto(feedbacks, i);
    }
  }

  /**
   * What registration keeps true of a game's history: its attempts are
   * numbered 1, 2, … in order; there are at most `intentos_maximos`; a game
   * in progress has no correct attempt and room for another one (unless it
   * allows none); a won game ends with its only correct attempt; a lost game
   * used them all and has none.
   */
  predicate HistorialCoherente(g: Partida, h: seq<Paso>) {
    && (forall k :: 0 <= k < |h| ==> h[k].numero == k + 1)
    && |h| <= g.intentosMaximos
    && (g.estado == EnCurso ==> |h| == 0 || |h| < g.intentosMaximos)
    && (g.estado != Ganada ==> forall k :: 0 <= k < |h| ==> !h[k].acierto)
    && (g.estado == Ganada ==>
          && |h| > 0 && h[|h| - 1].acierto
          && forall k :: 0 <= k < |h| - 1 ==> !h[k].acierto)
    && (g.estado == Perdida ==> |h| == g.intentosMaximos)
  }

  predicate PartidaCoherente(g: Partida, intentos: seq<Intento>, feedbacks: seq<Feedback>, p: nat) {
    HistorialCoherente(g, Historial(intentos, feedbacks, p))
  }

  /** A feedback row holds these colours and their verdict. */
  predicate FeedbackCoincide(f: Feedback, c: Colores) {
    && f.colorAnio == c.anio && f.colorGenero == c.genero
    && f.colorDireccion == c.direccion && f.colorActores == c.actores
    && f.esCorrecto == EsCorrecto(c)
  }

  function FeedbackDe(id: nat, c: Colores): (f: Feedback)
    ensures FeedbackCoincide(f, c) && f.intento == id
  {
    Feedback(id, c.anio, c.genero, c.direccion, c.actores, EsCorrecto(c))
  }

  /** Attempt `k` has feedback row `k`: attempts and their feedback are created together. */
  predicate FeedbacksCoherentes(intentos: seq<Intento>, feedbacks: seq<Feedback>) {
    && |feedbacks| == |intentos|
    && forall k :: 0 <= k < |feedbacks| ==> feedbacks[k].intento == k
  }

  predicate RachasCoherentes(jugadores: map<nat, Jugador>) {
    forall j :: j in jugadores ==> jugadores[j].rachaActual <= jugadores[j].rachaMaxima
  }

  predicate TodasCoherentes(partidas: seq<Partida>, intentos: seq<Intento>, feedbacks: seq<Feedback>) {
    forall p :: 0 <= p < |partidas| ==> PartidaCoherente(partidas[p], intentos, feedbacks, p)
  }

  /** The store's invariant. */
  predicate Juego(t: Tablas) {
    && Esquema(t)
    && FeedbacksCoherentes(t.intentos, t.feedbacks)
    && TodasCoherentes(t.partidas, t.intentos, t.feedbacks)
    && RachasCoherentes(t.jugadores)
  }

  /** The numbering gives the `(partida, numero_intento)` uniqueness, and the feedback rows the one-to-one link. */
  lemma JuegoCumpleUnicidad(t: Tablas)
    requires Juego(t)
    ensures NumeroUnicoPorPartida(t.intentos)
    ensures FeedbackUnoAUno(|t.intentos|, t.feedbacks)
  {
    forall i, j | 0 <= i < j < |t.intentos| && t.intentos[i].partida == t.intentos[j].partida
      ensures t.intentos[i].numero != t.intentos[j].numero
    {
      var p := t.intentos[i].partida;
      var ix := Indices(t.intentos, p);
      var h := Historial(t.intentos, t.feedbacks, p);
      assert PartidaCoherente(t.partidas[p], t.intentos, t.feedbacks, p);
      assert i in ix && j in ix;
      var a :| 0 <= a < |ix| && ix[a] == i;
      var b :| 0 <= b < |ix| && ix[b] == j;
      assert a != b && h[a].numero == t.intentos[i].numero && h[b].numero == t.intentos[j].numero;
    }
  }

  /** A game has at most one correct attempt, and none after it. */
  lemma AciertoUnico(t: Tablas, p: nat, k: nat, l: nat)
    requires Juego(t) && p < |t.partidas|
    requires k < l < |Indices(t.intentos, p)|
    ensures !Acierto(t.feedbacks, Indices(t.intentos, p)[k])
  {
    assert PartidaCoherente(t.partidas[p], t.intentos, t.feedbacks, p);
    assert Historial(t.intentos, t.feedbacks, p)[k].acierto == Acierto(t.feedbacks, Indices(t.intentos, p)[k]);
  }

  // ---------------------------------------------------------------------
  // get_or_create
  // ---------------------------------------------------------------------

  /** The player's game of that date, if there is one. */
  function BuscarPartida(partidas: seq<Partida>, jugador: nat, fecha: Fecha): (r: Option<nat>)
    ensures r.Some? ==> r.value < |partidas| && partidas[r.value].jugador == jugador && partidas[r.value].fecha == fecha
    ensures r.None? ==> forall i :: 0 <= i < |partidas| ==> partidas[i].jugador != jugador || partidas[i].fecha != fecha
  {
    if |partidas| == 0 then None
    else
      var n := |partidas| - 1;
      if partidas[n].jugador == jugador && partidas[n].fecha == fecha then Some(n)
      else BuscarPartida(partidas[..n], jugador, fecha)
  }

  /**
   * `Partida.objects.get_or_create(jugador=…, fecha=…, defaults=…)`: the
   * existing game of the day, or a new one in progress with the given secret
   * and limit. Returns the tables afterwards and the game's position.
   */
  function ObtenerOCrear(t: Tablas, jugador: nat, fecha: Fecha, secreta: Pelicula, maximos: nat): (r: (Tablas, nat))
    ensures r.1 < |r.0.partidas|
    ensures r.0.partidas[r.1].jugador == jugador && r.0.partidas[r.1].fecha == fecha
    ensures r.0.catalogo == t.catalogo && r.0.jugadores == t.jugadores
    ensures r.0.intentos == t.intentos && r.0.feedbacks == t.feedbacks
  {
    match BuscarPartida(t.partidas, jugador, fecha)
    case Some(p) => (t, p)
    case None => (t.(partidas := t.partidas + [PartidaNueva(jugador, secreta, fecha, maximos)]), |t.partidas|)
  }

  /**
   * get_or_create changes nothing but the games, and only by adding a fresh
   * game in progress when the player has none that day; asking again returns
   * the same game.
   */
  lemma ObtenerOCrearEfecto(t: Tablas, jugador: nat, fecha: Fecha, secreta: Pelicula, maximos: nat)
    requires UnaPartidaPorDia(t.partidas)
    ensures var (t1, p) := ObtenerOCrear(t, jugador, fecha, secreta, maximos);
      && t1.catalogo == t.catalogo && t1.jugadores == t.jugadores
      && t1.intentos == t.intentos && t1.feedbacks == t.feedbacks
      && (p < |t.partidas| ==> t1 == t)
      && (p == |t.partidas| ==> t1.partidas == t.partidas + [PartidaNueva(jugador, secreta, fecha, maximos)])
      && (forall q :: 0 <= q < |t.partidas| && t.partidas[q].jugador == jugador && t.partidas[q].fecha == fecha ==> p == q)
      && ObtenerOCrear(t1, jugador, fecha, secreta, maximos) == (t1, p)
  {
    var (t1, p) := ObtenerOCrear(t, jugador, fecha, secreta, maximos);
    if BuscarPartida(t.partidas, jugador, fecha).None? {
      BuscarUltima(t.partidas, PartidaNueva(jugador, secreta, fecha, maximos));
    }
  }

  lemma BuscarUltima(partidas: seq<Partida>, g: Partida)
    requires BuscarPartida(partidas, g.jugador, g.fecha).None?
    ensures BuscarPartida(partidas + [g], g.jugador, g.fecha) == Some(|partidas|)
  {
  }

  lemma EsquemaNuevaPartida(t: Tablas, g: Partida)
    requires Esquema(t) && g.jugador in t.jugadores && g.secreta in t.catalogo
    requires BuscarPartida(t.partidas, g.jugador, g.fecha).None?
    ensures Esquema(t.(partidas := t.partidas + [g]))
  {
    var ps := t.partidas + [g];
    assert forall q :: 0 <= q < |t.partidas| ==> ps[q] == t.partidas[q];
  }

  lemma CoherentesNuevaPartida(partidas: seq<Partida>, intentos: seq<Intento>, feedbacks: seq<Feedback>, g: Partida)
    requires forall k :: 0 <= k < |intentos| ==> intentos[k].partida < |partidas|
    requires TodasCoherentes(partidas, intentos, feedbacks)
    requires g.estado == EnCurso
    ensures TodasCoherentes(partidas + [g], intentos, feedbacks)
  {
    var n := |partidas|;
    IndicesSinPartida(intentos, n);
    assert Historial(intentos, feedbacks, n) == [];
    forall q | 0 <= q < n + 1 ensures PartidaCoherente((partidas + [g])[q], intentos, feedbacks, q) {
      if q < n {
        assert (partidas + [g])[q] == partidas[q];
      }
    }
  }

  lemma ObtenerOCrearPreserva(t: Tablas, jugador: nat, fecha: Fecha, secreta: Pelicula, maximos: nat)
    requires Juego(t) && jugador in t.jugadores && secreta in t.catalogo
    ensures Juego(ObtenerOCrear(t, jugador, fecha, secreta, maximos).0)
  {
    ObtenerOCrearCasos(t, jugador, fecha, secreta, maximos);
    if BuscarPartida(t.partidas, jugador, fecha).None? {
      NuevaPartidaPreserva(t, PartidaNueva(jugador, secreta, fecha, maximos));
    }
  }

  lemma NuevaPartidaPreserva(t: Tablas, g: Partida)
    requires Juego(t) && g.jugador in t.jugadores && g.secreta in t.catalogo && g.estado == EnCurso
    requires BuscarPartida(t.partidas, g.jugador, g.fecha).None?
    ensures Juego(t.(partidas := t.partidas + [g]))
  {
    var t1 := t.(partidas := t.partidas + [g]);
    EsquemaNuevaPartida(t, g);
    CoherentesNuevaPartida(t.partidas, t.intentos, t.feedbacks, g);
    JuegoPartes(t1);
  }

  lemma ObtenerOCrearCasos(t: Tablas, jugador: nat, fecha: Fecha, secreta: Pelicula, maximos: nat)
    ensures BuscarPartida(t.partidas, jugador, fecha).Some? ==> ObtenerOCrear(t, jugador, fecha, secreta, maximos).0 == t
    ensures BuscarPartida(t.partidas, jugador, fecha).None? ==>
      ObtenerOCrear(t, jugador, fecha, secreta, maximos).0 == t.(partidas := t.partidas + [PartidaNueva(jugador, secreta, fecha, maximos)])
  {
  }

  lemma JuegoPartes(t: Tablas)
    requires Esquema(t)
    requires FeedbacksCoherentes(t.intentos, t.feedbacks)
    requires TodasCoherentes(t.partidas, t.intentos, t.feedbacks)
    requires RachasCoherentes(t.jugadores)
    ensures Juego(t)
  {
  }

  // ---------------------------------------------------------------------
  // registrar_intento
  // ---------------------------------------------------------------------

  /** `max(0, intentos_maximos - num)`. */
  function Restantes(maximos: nat, num: nat): nat
  {
    var r := Max(0, maximos - num);
    r as nat
  }

  /**
   * The resolution step: the game's state and the player's profile after
   * attempt `num` of `maximos`, correct or not.
   */
  function Resolver(j: Jugador, ok: bool, num: nat, maximos: nat): (r: (EstadoPartida, Jugador))
    ensures r.0 == Ganada <==> ok
    ensures r.0 == Perdida <==> !ok && num >= maximos
    ensures ok ==> r.1.rachaActual == j.rachaActual + 1
                   && r.1.rachaMaxima >= r.1.rachaActual && r.1.rachaMaxima >= j.rachaMaxima
                   && (r.1.rachaMaxima == j.rachaMaxima || r.1.rachaMaxima == r.1.rachaActual)
    ensures !ok && num >= maximos ==> r.1 == j.(rachaActual := 0)
    ensures !ok && num < maximos ==> r.1 == j
  {
    if ok then
      var actual := j.rachaActual + 1;
      var maxima := Max(j.rachaMaxima, actual);
      (Ganada, Jugador(actual, maxima as nat))
    else if num >= maximos then (Perdida, j.(rachaActual := 0))
    else (EnCurso, j)
  }

  /** Resolution keeps the current streak within the best one, and the best one never drops. */
  lemma ResolverRachas(j: Jugador, ok: bool, num: nat, maximos: nat)
    requires j.rachaActual <= j.rachaMaxima
    ensures var (e, j2) := Resolver(j, ok, num, maximos);
      && j2.rachaActual <= j2.rachaMaxima
      && j2.rachaMaxima >= j.rachaMaxima
      && (e == EnCurso <==> !ok && num < maximos)
  {
  }

  /** The registration step on the game at position `p`, once it has been fetched or created. */
  function Jugada(t: Tablas, p: nat, jugador: nat, adivinada: Pelicula): (Tablas, Result<ResultadoIntento, ErrorJuego>)
    requires p < |t.partidas| && jugador in t.jugadores
  {
    JugadaCon(t, p, jugador, adivinada, Evaluar(adivinada, t.partidas[p].secreta))
  }

  /** The registration step when the guess scores the colours `c` against the game's secret movie. */
  function JugadaCon(t: Tablas, p: nat, jugador: nat, adivinada: Pelicula, c: Colores): (r: (Tablas, Result<ResultadoIntento, ErrorJuego>))
    requires p < |t.partidas| && jugador in t.jugadores
    ensures r.1 == Err(PartidaFinalizada) <==> t.partidas[p].estado != EnCurso
    ensures r.1 == Err(MaximoAlcanzado) <==>
      t.partidas[p].estado == EnCurso && Cuenta(t.intentos, p) + 1 > t.partidas[p].intentosMaximos
    ensures r.0.catalogo == t.catalogo && |r.0.partidas| == |t.partidas|
    ensures r.1.Err? ==> r.0.jugadores == t.jugadores && r.0.intentos == t.intentos && r.0.feedbacks == t.feedbacks
    ensures r.1.Ok? ==>
      var num := Cuenta(t.intentos, p) + 1;
      && num <= t.partidas[p].intentosMaximos
      && r.0.intentos == t.intentos + [Intento(p, adivinada, num)]
      && r.0.feedbacks == t.feedbacks + [FeedbackDe(|t.intentos|, c)]
      && r.1.value.intentoId == |t.intentos| && r.1.value.numeroIntento == num
      && r.1.value.esCorrecto == EsCorrecto(c)
      && r.0.partidas[p].estado == r.1.value.estadoPartida
  {
    var g := t.partidas[p];
    if g.estado != EnCurso then (t, Err(PartidaFinalizada))
    else
      var num := Cuenta(t.intentos, p) + 1;
      if num > g.intentosMaximos then
        (t.(partidas := t.partidas[p := g.(estado := Perdida)]), Err(MaximoAlcanzado))
      else
        var id := |t.intentos|;
        var ok := EsCorrecto(c);
        var (estado, j) := Resolver(t.jugadores[jugador], ok, num, g.intentosMaximos);
        var t2 := Tablas(t.catalogo, t.jugadores[jugador := j], t.partidas[p := g.(estado := estado)],
                         t.intentos + [Intento(p, adivinada, num)], t.feedbacks + [FeedbackDe(id, c)]);
        (t2, Ok(ResultadoIntento(id, num, c.genero, c.anio, c.direccion, c.actores, ok, estado,
                                 Restantes(g.intentosMaximos, num))))
  }

  /**
   * `registrar_intento(jugador, pelicula_adivinada)` on date `fecha`, whose
   * digest is `h`; the tables afterwards and the result or the error raised.
   * This is the behaviour the code evidently intends: the PERDIDA written on
   * the limit error is kept (see `RegistroAtomico` for the code as written).
   */
  function Registro(t: Tablas, jugador: nat, adivinada: Pelicula, fecha: Fecha, h: nat): (r: (Tablas, Result<ResultadoIntento, ErrorJuego>))
    requires jugador in t.jugadores
    ensures r.1 == Err(SinPeliculas) <==> t.catalogo == []
    ensures r.0.catalogo == t.catalogo
    ensures r.1.Err? ==> r.0.jugadores == t.jugadores && r.0.intentos == t.intentos && r.0.feedbacks == t.feedbacks
    ensures r.1.Ok? ==> |r.0.intentos| == |t.intentos| + 1 && |r.0.feedbacks| == |t.feedbacks| + 1
  {
    match SeleccionarPeliculaDiaria(t.catalogo, h)
    case Err(e) => (t, Err(e))
    case Ok(secreta) =>
      var (t1, p) := ObtenerOCrear(t, jugador, fecha, secreta, IntentosMaximosPorDefecto);
      Jugada(t1, p, jugador, adivinada)
  }

  // --- the invariant is kept ---

  lemma EsquemaMismasClaves(t: Tablas, p: nat, g2: Partida)
    requires Esquema(t) && p < |t.partidas|
    requires g2.jugador == t.partidas[p].jugador && g2.fecha == t.partidas[p].fecha && g2.secreta == t.partidas[p].secreta
    ensures Esquema(t.(partidas := t.partidas[p := g2]))
  {
  }

  lemma CoherentesCambioPartida(partidas: seq<Partida>, intentos: seq<Intento>, feedbacks: seq<Feedback>, p: nat, g2: Partida)
    requires p < |partidas|
    requires TodasCoherentes(partidas, intentos, feedbacks)
    requires PartidaCoherente(g2, intentos, feedbacks, p)
    ensures TodasCoherentes(partidas[p := g2], intentos, feedbacks)
  {
    var ps := partidas[p := g2];
    forall q | 0 <= q < |ps| ensures PartidaCoherente(ps[q], intentos, feedbacks, q) {
      if q != p {
        assert ps[q] == partidas[q];
      }
    }
  }

  /** Reaching the limit on a game in progress: the game is lost with exactly its limit of attempts. */
  lemma LimiteCoherente(g: Partida, intentos: seq<Intento>, feedbacks: seq<Feedback>, p: nat)
    requires PartidaCoherente(g, intentos, feedbacks, p)
    requires g.estado == EnCurso && Cuenta(intentos, p) + 1 > g.intentosMaximos
    ensures PartidaCoherente(g.(estado := Perdida), intentos, feedbacks, p)
  {
    assert |Historial(intentos, feedbacks, p)| == Cuenta(intentos, p);
  }

  lemma LimitePreserva(t: Tablas, p: nat)
    requires Juego(t) && p < |t.partidas|
    requires t.partidas[p].estado == EnCurso && Cuenta(t.intentos, p) + 1 > t.partidas[p].intentosMaximos
    ensures Juego(t.(partidas := t.partidas[p := t.partidas[p].(estado := Perdida)]))
  {
    var g2 := t.partidas[p].(estado := Perdida);
    LimiteCoherente(t.partidas[p], t.intentos, t.feedbacks, p);
    EsquemaMismasClaves(t, p, g2);
    CoherentesCambioPartida(t.partidas, t.intentos, t.feedbacks, p, g2);
    JuegoPartes(t.(partidas := t.partidas[p := g2]));
  }

  /** One more step numbered `|h| + 1` keeps a history coherent once the game takes the resolved state. */
  lemma PasoCoherente(g: Partida, h: seq<Paso>, ok: bool, estado: EstadoPartida)
    requires HistorialCoherente(g, h) && g.estado == EnCurso
    requires |h| + 1 <= g.intentosMaximos
    requires estado == (if ok then Ganada else if |h| + 1 >= g.intentosMaximos then Perdida else EnCurso)
    ensures HistorialCoherente(g.(estado := estado), h + [Paso(|h| + 1, ok)])
  {
    var h2 := h + [Paso(|h| + 1, ok)];
    assert forall k :: 0 <= k < |h| ==> h2[k] == h[k];
  }

  lemma ExitoPreserva(t: Tablas, p: nat, jugador: nat, adivinada: Pelicula)
    requires Juego(t) && p < |t.partidas| && jugador in t.jugadores && adivinada in t.catalogo
    requires t.partidas[p].estado == EnCurso && Cuenta(t.intentos, p) + 1 <= t.partidas[p].intentosMaximos
    ensures Juego(Jugada(t, p, jugador, adivinada).0)
  {
    ExitoPreservaCon(t, p, jugador, adivinada, Evaluar(adivinada, t.partidas[p].secreta));
  }

  lemma ExitoPreservaCon(t: Tablas, p: nat, jugador: nat, adivinada: Pelicula, c: Colores)
    requires Juego(t) && p < |t.partidas| && jugador in t.jugadores && adivinada in t.catalogo
    requires t.partidas[p].estado == EnCurso && Cuenta(t.intentos, p) + 1 <= t.partidas[p].intentosMaximos
    ensures Juego(JugadaCon(t, p, jugador, adivinada, c).0)
  {
    var g := t.partidas[p];
    var num := Cuenta(t.intentos, p) + 1;
    var f := FeedbackDe(|t.intentos|, c);
    var (estado, j) := Resolver(t.jugadores[jugador], EsCorrecto(c), num, g.intentosMaximos);
    ResolverRachas(t.jugadores[jugador], EsCorrecto(c), num, g.intentosMaximos);
    AnadirPreserva(t, p, jugador, j, estado, Intento(p, adivinada, num), f);
  }

  /** Appending attempt `x` of game `p` with its feedback `f`, resolved to `estado`, keeps the invariant. */
  lemma AnadirPreserva(t: Tablas, p: nat, jugador: nat, j: Jugador, estado: EstadoPartida, x: Intento, f: Feedback)
    requires Juego(t) && p < |t.partidas| && jugador in t.jugadores
    requires x.partida == p && x.adivinada in t.catalogo && f.intento == |t.intentos|
    requires t.partidas[p].estado == EnCurso && x.numero == Cuenta(t.intentos, p) + 1 <= t.partidas[p].intentosMaximos
    requires estado == (if f.esCorrecto then Ganada else if x.numero >= t.partidas[p].intentosMaximos then Perdida else EnCurso)
    requires j.rachaActual <= j.rachaMaxima
    ensures Juego(Tablas(t.catalogo, t.jugadores[jugador := j], t.partidas[p := t.partidas[p].(estado := estado)],
                         t.intentos + [x], t.feedbacks + [f]))
  {
    var g := t.partidas[p];
    var g2 := g.(estado := estado);
    var t2 := Tablas(t.catalogo, t.jugadores[jugador := j], t.partidas[p := g2], t.intentos + [x], t.feedbacks + [f]);
    var h := Historial(t.intentos, t.feedbacks, p);
    assert |h| == Cuenta(t.intentos, p);
    assert PartidaCoherente(g, t.intentos, t.feedbacks, p);
    PasoCoherente(g, h, f.esCorrecto, estado);
    CoherentesExito(t.partidas, t.intentos, t.feedbacks, p, g2, x, f);
    EsquemaExito(t, p, jugador, j, g2, x, f);
    FeedbacksExito(t.intentos, t.feedbacks, x, f);
    JuegoPartes(t2);
  }

  lemma CoherentesExito(partidas: seq<Partida>, intentos: seq<Intento>, feedbacks: seq<Feedback>,
                        p: nat, g2: Partida, x: Intento, f: Feedback)
    requires |feedbacks| == |intentos| && p < |partidas| && x.partida == p
    requires TodasCoherentes(partidas, intentos, feedbacks)
    requires HistorialCoherente(g2, Historial(intentos, feedbacks, p) + [Paso(x.numero, f.esCorrecto)])
    ensures TodasCoherentes(partidas[p := g2], intentos + [x], feedbacks + [f])
  {
    var ps := partidas[p := g2];
    forall q | 0 <= q < |ps| ensures PartidaCoherente(ps[q], intentos + [x], feedbacks + [f], q) {
      HistorialAnadir(intentos, feedbacks, x, f, q);
      if q != p {
        assert ps[q] == partidas[q];
        assert PartidaCoherente(partidas[q], intentos, feedbacks, q);
      }
    }
  }

  lemma EsquemaExito(t: Tablas, p: nat, jugador: nat, j: Jugador, g2: Partida, x: Intento, f: Feedback)
    requires Esquema(t) && p < |t.partidas| && jugador in t.jugadores
    requires g2.jugador == t.partidas[p].jugador && g2.fecha == t.partidas[p].fecha && g2.secreta == t.partidas[p].secreta
    requires x.partida < |t.partidas| && x.adivinada in t.catalogo
    ensures Esquema(Tablas(t.catalogo, t.jugadores[jugador := j], t.partidas[p := g2], t.intentos + [x], t.feedbacks + [f]))
  {
    EsquemaMismasClaves(t, p, g2);
    var is2 := t.intentos + [x];
    assert forall k :: 0 <= k < |t.intentos| ==> is2[k] == t.intentos[k];
  }

  lemma FeedbacksExito(intentos: seq<Intento>, feedbacks: seq<Feedback>, x: Intento, f: Feedback)
    requires FeedbacksCoherentes(intentos, feedbacks) && f.intento == |intentos|
    ensures FeedbacksCoherentes(intentos + [x], feedbacks + [f])
  {
  }

  lemma JugadaPreserva(t: Tablas, p: nat, jugador: nat, adivinada: Pelicula)
    requires Juego(t) && p < |t.partidas| && jugador in t.jugadores && adivinada in t.catalogo
    ensures Juego(Jugada(t, p, jugador, adivinada).0)
  {
    var g := t.partidas[p];
    if g.estado == EnCurso {
      if Cuenta(t.intentos, p) + 1 > g.intentosMaximos {
        LimitePreserva(t, p);
      } else {
        ExitoPreserva(t, p, jugador, adivinada);
      }
    }
  }

  /** Registration keeps every invariant of the store. */
  lemma RegistroPreserva(t: Tablas, jugador: nat, adivinada: Pelicula, fecha: Fecha, h: nat)
    requires Juego(t) && jugador in t.jugadores && adivinada in t.catalogo
    ensures Juego(Registro(t, jugador, adivinada, fecha, h).0)
  {
    var sel := SeleccionarPeliculaDiaria(t.catalogo, h);
    if sel.Ok? {
      ObtenerOCrearPreserva(t, jugador, fecha, sel.value, IntentosMaximosPorDefecto);
      var (t1, p) := ObtenerOCrear(t, jugador, fecha, sel.value, IntentosMaximosPorDefecto);
      JugadaPreserva(t1, p, jugador, adivinada);
    }
  }

  // --- what one registration does ---

  /** With no movies the error is raised and nothing changes. */
  lemma RegistroSinCatalogo(t: Tablas, jugador: nat, adivinada: Pelicula, fecha: Fecha, h: nat)
    requires jugador in t.jugadores && t.catalogo == []
    ensures Registro(t, jugador, adivinada, fecha, h) == (t, Err(SinPeliculas))
  {
  }

  /** With one game per player and day, the lookup finds the game of that date. */
  lemma BuscarUnica(partidas: seq<Partida>, p: nat)
    requires UnaPartidaPorDia(partidas) && p < |partidas|
    ensures BuscarPartida(partidas, partidas[p].jugador, partidas[p].fecha) == Some(p)
  {
  }

  /** A finished game of the day refuses the attempt and nothing changes. */
  lemma RegistroFinalizada(t: Tablas, p: nat, adivinada: Pelicula, h: nat)
    requires UnaPartidaPorDia(t.partidas) && p < |t.partidas| && t.partidas[p].jugador in t.jugadores
    requires t.catalogo != [] && t.partidas[p].estado != EnCurso
    ensures Registro(t, t.partidas[p].jugador, adivinada, t.partidas[p].fecha, h) == (t, Err(PartidaFinalizada))
  {
    BuscarUnica(t.partidas, p);
  }

  /** On a game in progress with no attempt left, the game is lost and the error raised; nothing else changes. */
  lemma JugadaLimite(t: Tablas, p: nat, jugador: nat, adivinada: Pelicula)
    requires Juego(t) && p < |t.partidas| && jugador in t.jugadores
    requires t.partidas[p].estado == EnCurso && Cuenta(t.intentos, p) + 1 > t.partidas[p].intentosMaximos
    ensures var (t2, r) := Jugada(t, p, jugador, adivinada);
      && r == Err(MaximoAlcanzado)
      && t2.partidas[p].estado == Perdida
      && t2 == t.(partidas := t.partidas[p := t2.partidas[p]])
      && Cuenta(t.intentos, p) == t.partidas[p].intentosMaximos == 0
  {
    assert PartidaCoherente(t.partidas[p], t.intentos, t.feedbacks, p);
    assert |Historial(t.intentos, t.feedbacks, p)| == Cuenta(t.intentos, p);
  }

  /**
   * A successful attempt is the next number of its game, gets the next id,
   * and is stored with a feedback row holding the colours of the guess
   * against the game's secret movie; the result reports those colours, the
   * verdict and the attempts left.
   */
  lemma JugadaExito(t: Tablas, p: nat, jugador: nat, adivinada: Pelicula)
    requires p < |t.partidas| && jugador in t.jugadores
    requires t.partidas[p].estado == EnCurso && Cuenta(t.intentos, p) + 1 <= t.partidas[p].intentosMaximos
    ensures var (t2, r) := Jugada(t, p, jugador, adivinada);
      var c := Evaluar(adivinada, t.partidas[p].secreta);
      ExitoInforma(t, t2, r, p, adivinada, c)
  {
    ExitoCon(t, p, jugador, adivinada, Evaluar(adivinada, t.partidas[p].secreta));
  }

  predicate ExitoInforma(t: Tablas, t2: Tablas, r: Result<ResultadoIntento, ErrorJuego>, p: nat, adivinada: Pelicula, c: Colores)
    requires p < |t.partidas| && p < |t2.partidas|
  {
    var num := Cuenta(t.intentos, p) + 1;
    && r.Ok?
    && r.value.intentoId == |t.intentos| && r.value.numeroIntento == num
    && t2.intentos == t.intentos + [Intento(p, adivinada, num)]
    && |t2.feedbacks| == |t.feedbacks| + 1
    && t2.feedbacks == t.feedbacks + [t2.feedbacks[|t.feedbacks|]]
    && FeedbackCoincide(t2.feedbacks[|t.feedbacks|], c) && t2.feedbacks[|t.feedbacks|].intento == |t.intentos|
    && r.value.colorAnio == c.anio && r.value.colorGenero == c.genero
    && r.value.colorDireccion == c.direccion && r.value.colorActores == c.actores
    && r.value.esCorrecto == EsCorrecto(c)
    && r.value.intentosRestantes == t.partidas[p].intentosMaximos - num
    && r.value.estadoPartida == t2.partidas[p].estado
    && Cuenta(t2.intentos, p) == num
  }

  lemma ExitoCon(t: Tablas, p: nat, jugador: nat, adivinada: Pelicula, c: Colores)
    requires p < |t.partidas| && jugador in t.jugadores
    requires t.partidas[p].estado == EnCurso && Cuenta(t.intentos, p) + 1 <= t.partidas[p].intentosMaximos
    ensures var (t2, r) := JugadaCon(t, p, jugador, adivinada, c);
      |t2.partidas| == |t.partidas| && |t2.feedbacks| == |t.feedbacks| + 1 && ExitoInforma(t, t2, r, p, adivinada, c)
  {
    IndicesAnadir(t.intentos, Intento(p, adivinada, Cuenta(t.intentos, p) + 1), p);
  }

  /**
   * The attempt decides the game: won exactly when correct, lost exactly
   * when wrong and the last allowed; the player's streak grows on a win and
   * drops to zero on a loss, the best streak following it up. The other
   * games, the other players and the catalogue are as they were.
   */
  lemma JugadaResuelve(t: Tablas, p: nat, jugador: nat, adivinada: Pelicula)
    requires p < |t.partidas| && jugador in t.jugadores
    requires t.partidas[p].estado == EnCurso && Cuenta(t.intentos, p) + 1 <= t.partidas[p].intentosMaximos
    ensures var t2 := Jugada(t, p, jugador, adivinada).0;
      Resuelve(t, t2, p, jugador, EsCorrecto(Evaluar(adivinada, t.partidas[p].secreta)))
  {
    ResuelveCon(t, p, jugador, adivinada, Evaluar(adivinada, t.partidas[p].secreta));
  }

  predicate Resuelve(t: Tablas, t2: Tablas, p: nat, jugador: nat, ok: bool)
    requires p < |t.partidas| && jugador in t.jugadores
  {
    var g := t.partidas[p];
    var num := Cuenta(t.intentos, p) + 1;
    var j := t.jugadores[jugador];
    && |t2.partidas| == |t.partidas| && jugador in t2.jugadores
    && (t2.partidas[p].estado == Ganada <==> ok)
    && (t2.partidas[p].estado == Perdida <==> !ok && num == g.intentosMaximos)
    && t2.partidas[p] == g.(estado := t2.partidas[p].estado)
    && (ok ==> t2.jugadores[jugador] == Jugador(j.rachaActual + 1, Max(j.rachaMaxima, j.rachaActual + 1) as nat))
    && (!ok && num == g.intentosMaximos ==> t2.jugadores[jugador] == Jugador(0, j.rachaMaxima))
    && (!ok && num < g.intentosMaximos ==> t2.jugadores[jugador] == j)
    && (forall q :: 0 <= q < |t.partidas| && q != p ==> t2.partidas[q] == t.partidas[q])
    && t2.jugadores.Keys == t.jugadores.Keys
    && (forall k :: k in t.jugadores && k != jugador ==> t2.jugadores[k] == t.jugadores[k])
    && t2.catalogo == t.catalogo
  }

  lemma ResuelveCon(t: Tablas, p: nat, jugador: nat, adivinada: Pelicula, c: Colores)
    requires p < |t.partidas| && jugador in t.jugadores
    requires t.partidas[p].estado == EnCurso && Cuenta(t.intentos, p) + 1 <= t.partidas[p].intentosMaximos
    ensures Resuelve(t, JugadaCon(t, p, jugador, adivinada, c).0, p, jugador, EsCorrecto(c))
  {
  }

  /** A guess can only be correct when the secret lists a genre and two distinct actors, whatever the guess. */
  lemma JugadaSinAcierto(t: Tablas, p: nat, jugador: nat, adivinada: Pelicula)
    requires p < |t.partidas| && jugador in t.jugadores
    requires var s := t.partidas[p].secreta; ListaGeneros(s) == [] || |Normalizados(ListaActores(s))| < 2
    ensures var r := Jugada(t, p, jugador, adivinada).1; r.Ok? ==> !r.value.esCorrecto
  {
    var s := t.partidas[p].secreta;
    var c := Evaluar(adivinada, s);
    VeredictoCon(t, p, jugador, adivinada, c);
    if EsCorrecto(c) {
      ColorGeneroCasos(adivinada, s);
      ColorActoresCasos(adivinada, s);
      assert ActoresComunes(adivinada, s) <= Normalizados(ListaActores(s));
      SubconjuntoCardinal(ActoresComunes(adivinada, s), Normalizados(ListaActores(s)));
    }
  }

  /** The verdict a successful step reports is the verdict of its colours. */
  lemma VeredictoCon(t: Tablas, p: nat, jugador: nat, adivinada: Pelicula, c: Colores)
    requires p < |t.partidas| && jugador in t.jugadores
    ensures var r := JugadaCon(t, p, jugador, adivinada, c).1; r.Ok? ==> r.value.esCorrecto == EsCorrecto(c)
  {
  }

  lemma SubconjuntoCardinal<T>(a: set<T>, b: set<T>)
    requires a <= b
    ensures |a| <= |b|
  {
    assert b == a + (b - a);
  }

  // --- several registrations ---

  /** The game registration plays: the one of that date, made with the day's movie if missing. */
  function PartidaJugada(t: Tablas, jugador: nat, fecha: Fecha, h: nat): (Tablas, nat)
    requires t.catalogo != []
  {
    ObtenerOCrear(t, jugador, fecha, SeleccionarPeliculaDiaria(t.catalogo, h).value, IntentosMaximosPorDefecto)
  }

  lemma RegistroEsJugada(t: Tablas, jugador: nat, adivinada: Pelicula, fecha: Fecha, h: nat)
    requires jugador in t.jugadores && t.catalogo != []
    ensures var (t1, p) := PartidaJugada(t, jugador, fecha, h);
      Registro(t, jugador, adivinada, fecha, h) == JugadaCon(t1, p, jugador, adivinada, Evaluar(adivinada, t1.partidas[p].secreta))
  {
  }

  /** get_or_create keeps one game per player and day. */
  lemma UnicaObtenerOCrear(t: Tablas, jugador: nat, fecha: Fecha, secreta: Pelicula, maximos: nat)
    requires UnaPartidaPorDia(t.partidas)
    ensures UnaPartidaPorDia(ObtenerOCrear(t, jugador, fecha, secreta, maximos).0.partidas)
  {
    ObtenerOCrearCasos(t, jugador, fecha, secreta, maximos);
  }

  lemma UnicaMismasClaves(partidas: seq<Partida>, nuevas: seq<Partida>, p: nat)
    requires UnaPartidaPorDia(partidas) && p < |partidas| && |nuevas| == |partidas|
    requires nuevas[p].jugador == partidas[p].jugador && nuevas[p].fecha == partidas[p].fecha
    requires forall q :: 0 <= q < |partidas| && q != p ==> nuevas[q] == partidas[q]
    ensures UnaPartidaPorDia(nuevas)
  {
  }

  /** The step keeps the game's identity, the catalogue and the set of players; an ended game reports its end. */
  lemma JugadaConFin(t: Tablas, p: nat, jugador: nat, adivinada: Pelicula, c: Colores)
    requires p < |t.partidas| && jugador in t.jugadores
    ensures var (t2, r) := JugadaCon(t, p, jugador, adivinada, c);
      && |t2.partidas| == |t.partidas|
      && t2.partidas[p] == t.partidas[p].(estado := t2.partidas[p].estado)
      && (forall q :: 0 <= q < |t.partidas| && q != p ==> t2.partidas[q] == t.partidas[q])
      && t2.catalogo == t.catalogo && t2.jugadores.Keys == t.jugadores.Keys
      && (r == Err(MaximoAlcanzado) ==> t2.partidas[p].estado == Perdida)
      && (r.Ok? ==> r.value.estadoPartida == t2.partidas[p].estado)
      && (r == Err(PartidaFinalizada) <==> t.partidas[p].estado != EnCurso)
      && (r == Err(PartidaFinalizada) ==> t2 == t)
  {
  }

  /**
   * Once a registration ends the day's game (won, lost, or the limit
   * reached), every later attempt that day is refused and changes nothing.
   */
  lemma RegistroTrasFin(t: Tablas, jugador: nat, a: Pelicula, b: Pelicula, fecha: Fecha, h: nat)
    requires UnaPartidaPorDia(t.partidas) && jugador in t.jugadores
    requires var r := Registro(t, jugador, a, fecha, h).1;
      r == Err(MaximoAlcanzado) || (r.Ok? && r.value.estadoPartida != EnCurso)
    ensures var t2 := Registro(t, jugador, a, fecha, h).0;
      jugador in t2.jugadores && Registro(t2, jugador, b, fecha, h) == (t2, Err(PartidaFinalizada))
  {
    RegistroEsJugada(t, jugador, a, fecha, h);
    var (t1, p) := PartidaJugada(t, jugador, fecha, h);
    UnicaObtenerOCrear(t, jugador, fecha, SeleccionarPeliculaDiaria(t.catalogo, h).value, IntentosMaximosPorDefecto);
    var (t2, r) := JugadaCon(t1, p, jugador, a, Evaluar(a, t1.partidas[p].secreta));
    TrasFinCon(t1, p, jugador, a, Evaluar(a, t1.partidas[p].secreta));
    RegistroFinalizada(t2, p, b, h);
  }

  lemma TrasFinCon(t: Tablas, p: nat, jugador: nat, a: Pelicula, c: Colores)
    requires UnaPartidaPorDia(t.partidas) && p < |t.partidas| && jugador in t.jugadores && t.partidas[p].jugador == jugador
    requires var r := JugadaCon(t, p, jugador, a, c).1;
      r == Err(MaximoAlcanzado) || (r.Ok? && r.value.estadoPartida != EnCurso)
    ensures var t2 := JugadaCon(t, p, jugador, a, c).0;
      && UnaPartidaPorDia(t2.partidas) && p < |t2.partidas| && t2.partidas[p].jugador in t2.jugadores
      && t2.catalogo == t.catalogo && t2.partidas[p].estado != EnCurso
      && t2.partidas[p].jugador == t.partidas[p].jugador && t2.partidas[p].fecha == t.partidas[p].fecha
  {
    JugadaConFin(t, p, jugador, a, c);
    var t2 := JugadaCon(t, p, jugador, a, c).0;
    UnicaMismasClaves(t.partidas, t2.partidas, p);
  }

  /** Reaching the limit does not depend on the guess. */
  lemma LimiteSinAdivinada(t: Tablas, p: nat, jugador: nat, a: Pelicula, b: Pelicula, c: Colores, d: Colores)
    requires p < |t.partidas| && jugador in t.jugadores
    requires JugadaCon(t, p, jugador, a, c).1 == Err(MaximoAlcanzado)
    ensures JugadaCon(t, p, jugador, b, d) == JugadaCon(t, p, jugador, a, c)
  {
  }

  // ---------------------------------------------------------------------
  // The atomic block as written
  // ---------------------------------------------------------------------

  /**
   * `registrar_intento` as written: the whole call runs in one transaction,
   * so when it raises, everything it wrote is rolled back, the PERDIDA
   * saved just before the limit error included.
   */
  function RegistroAtomico(t: Tablas, jugador: nat, adivinada: Pelicula, fecha: Fecha, h: nat): (r: (Tablas, Result<ResultadoIntento, ErrorJuego>))
    requires jugador in t.jugadores
    ensures r.1 == Registro(t, jugador, adivinada, fecha, h).1
    ensures r.1.Err? ==> r.0 == t
    ensures r.1.Ok? ==> r.0 == Registro(t, jugador, adivinada, fecha, h).0
  {
    var (t2, r) := Registro(t, jugador, adivinada, fecha, h);
    if r.Err? then (t, r) else (t2, r)
  }

  /**
   * As written, the limit error leaves the game in progress and the tables
   * untouched, so every later attempt that day raises the limit error again
   * instead of finding the game lost.
   */
  lemma AtomicoLimiteSeRepite(t: Tablas, jugador: nat, a: Pelicula, b: Pelicula, fecha: Fecha, h: nat)
    requires jugador in t.jugadores
    requires Registro(t, jugador, a, fecha, h).1 == Err(MaximoAlcanzado)
    ensures RegistroAtomico(t, jugador, a, fecha, h) == (t, Err(MaximoAlcanzado))
    ensures RegistroAtomico(t, jugador, b, fecha, h) == (t, Err(MaximoAlcanzado))
  {
    RegistroEsJugada(t, jugador, a, fecha, h);
    RegistroEsJugada(t, jugador, b, fecha, h);
    var (t1, p) := PartidaJugada(t, jugador, fecha, h);
    LimiteSinAdivinada(t1, p, jugador, a, b, Evaluar(a, t1.partidas[p].secreta), Evaluar(b, t1.partidas[p].secreta));
  }

  /** Outside the limit error the two agree: the other errors write nothing to roll back. */
  lemma AtomicoFueraDelLimite(t: Tablas, jugador: nat, adivinada: Pelicula, fecha: Fecha, h: nat)
    requires jugador in t.jugadores
    requires Registro(t, jugador, adivinada, fecha, h).1 != Err(MaximoAlcanzado)
    ensures RegistroAtomico(t, jugador, adivinada, fecha, h) == Registro(t, jugador, adivinada, fecha, h)
  {
    if t.catalogo != [] {
      RegistroEsJugada(t, jugador, adivinada, fecha, h);
      var secreta := SeleccionarPeliculaDiaria(t.catalogo, h).value;
      var (t1, p) := PartidaJugada(t, jugador, fecha, h);
      FinalizadaSinCambios(t, jugador, fecha, secreta, adivinada, Evaluar(adivinada, t1.partidas[p].secreta));
    }
  }

  /** The only errors of the step are the two about the game, and a refused game is one that already existed. */
  lemma FinalizadaSinCambios(t: Tablas, jugador: nat, fecha: Fecha, secreta: Pelicula, adivinada: Pelicula, c: Colores)
    requires jugador in t.jugadores
    ensures var (t1, p) := ObtenerOCrear(t, jugador, fecha, secreta, IntentosMaximosPorDefecto);
      var (t2, r) := JugadaCon(t1, p, jugador, adivinada, c);
      && (r == Err(PartidaFinalizada) ==> t2 == t)
      && (r.Err? ==> r == Err(PartidaFinalizada) || r == Err(MaximoAlcanzado))
  {
    ObtenerOCrearCasos(t, jugador, fecha, secreta, IntentosMaximosPorDefecto);
    var (t1, p) := ObtenerOCrear(t, jugador, fecha, secreta, IntentosMaximosPorDefecto);
    JugadaConFin(t1, p, jugador, adivinada, c);
  }

  /** A store with one movie and one game, which allows no attempts, as an administrator may set it. */
  function Escenario(m: Pelicula, fecha: Fecha): Tablas
  {
    Tablas([m], map[0 := JugadorNuevo], [Partida(0, m, fecha, EnCurso, 0)], [], [])
  }

  lemma EscenarioValido(m: Pelicula, fecha: Fecha)
    ensures Juego(Escenario(m, fecha))
  {
    var t := Escenario(m, fecha);
    assert Indices(t.intentos, 0) == [];
    assert Historial(t.intentos, t.feedbacks, 0) == [];
  }

  /** On that store, the code as written keeps the game in progress where the intended behaviour loses it. */
  lemma EscenarioRollback(m: Pelicula, fecha: Fecha, h: nat)
    ensures var t := Escenario(m, fecha);
      && 0 in t.jugadores && t.partidas[0].estado == EnCurso
      && Registro(t, 0, m, fecha, h) == (t.(partidas := [t.partidas[0].(estado := Perdida)]), Err(MaximoAlcanzado))
      && RegistroAtomico(t, 0, m, fecha, h) == (t, Err(MaximoAlcanzado))
  {
    var t := Escenario(m, fecha);
    EscenarioPartida(m, fecha, h);
    RegistroEsJugada(t, 0, m, fecha, h);
    EscenarioJugada(m, fecha, Evaluar(m, m));
  }

  /** The scenario's only game is the one registration plays. */
  lemma EscenarioPartida(m: Pelicula, fecha: Fecha, h: nat)
    ensures PartidaJugada(Escenario(m, fecha), 0, fecha, h) == (Escenario(m, fecha), 0)
  {
    var t := Escenario(m, fecha);
    assert BuscarPartida(t.partidas, 0, fecha) == Some(0);
  }

  /** Whatever the colours, the first attempt on the scenario's game hits the limit and marks it lost. */
  lemma EscenarioJugada(m: Pelicula, fecha: Fecha, c: Colores)
    ensures var t := Escenario(m, fecha);
      JugadaCon(t, 0, 0, m, c) == (t.(partidas := [Partida(0, m, fecha, Perdida, 0)]), Err(MaximoAlcanzado))
  {
    var t := Escenario(m, fecha);
    assert Indices(t.intentos, 0) == [];
    assert t.partidas[0 := t.partidas[0].(estado := Perdida)] == [Partida(0, m, fecha, Perdida, 0)];
  }

  // ---------------------------------------------------------------------
  // game_view
  // ---------------------------------------------------------------------

  /** Giving a user a fresh profile keeps the store invariant. */
  lemma PerfilNuevoPreserva(t: Tablas, usuario: nat)
    requires Juego(t)
    ensures Juego(t.(jugadores := t.jugadores[usuario := JugadorNuevo]))
  {
  }

  /** What `game_view` answers. */
  datatype Pagina =
    | SinPerfil              // `request.user.jugador` raises: the user has no profile
    | AlPanel                // a staff user is sent to the admin dashboard
    | PaginaJuego(guessNow: nat)

  /**
   * `game_view` for a logged-in user: `request.user.jugador` fails for a
   * user without a profile, a staff user is redirected, and otherwise, with
   * movies, the game of the day is fetched or created with the limit
   * `maximos` and `guess_now` is the number its next attempt will take;
   * with none it is 1.
   */
  function Vista(t: Tablas, jugador: nat, staff: bool, fecha: Fecha, h: nat, maximos: nat): (r: (Tablas, Pagina))
    ensures r.1 == SinPerfil <==> jugador !in t.jugadores
    ensures r.1 == AlPanel <==> jugador in t.jugadores && staff
    ensures !r.1.PaginaJuego? ==> r.0 == t
    ensures r.1.PaginaJuego? ==> r.1.guessNow >= 1
    ensures r.0.catalogo == t.catalogo && r.0.jugadores == t.jugadores
    ensures r.0.intentos == t.intentos && r.0.feedbacks == t.feedbacks
  {
    if jugador !in t.jugadores then (t, SinPerfil)
    else if staff then (t, AlPanel)
    else
      match SeleccionarPeliculaDiaria(t.catalogo, h)
      case Err(_) => (t, PaginaJuego(1))
      case Ok(secreta) =>
        var (t1, p) := ObtenerOCrear(t, jugador, fecha, secreta, maximos);
        (t1, PaginaJuego(Cuenta(t1.intentos, p) + 1))
  }

  lemma VistaPreserva(t: Tablas, jugador: nat, staff: bool, fecha: Fecha, h: nat, maximos: nat)
    requires Juego(t)
    ensures Juego(Vista(t, jugador, staff, fecha, h, maximos).0)
  {
    var sel := SeleccionarPeliculaDiaria(t.catalogo, h);
    if jugador in t.jugadores && !staff && sel.Ok? {
      ObtenerOCrearPreserva(t, jugador, fecha, sel.value, maximos);
    }
  }

  /**
   * With movies, a player with a profile who is not staff sees their game
   * of that date, and `guess_now` follows its attempts.
   */
  lemma VistaPartida(t: Tablas, jugador: nat, fecha: Fecha, h: nat, maximos: nat)
    requires UnaPartidaPorDia(t.partidas) && t.catalogo != [] && jugador in t.jugadores
    ensures var (t1, pg) := Vista(t, jugador, false, fecha, h, maximos);
      var p := BuscarPartida(t1.partidas, jugador, fecha);
      && UnaPartidaPorDia(t1.partidas)
      && p.Some? && pg == PaginaJuego(Cuenta(t1.intentos, p.value) + 1)
  {
    var secreta := SeleccionarPeliculaDiaria(t.catalogo, h).value;
    UnicaObtenerOCrear(t, jugador, fecha, secreta, maximos);
    var (t1, p) := ObtenerOCrear(t, jugador, fecha, secreta, maximos);
    BuscarUnica(t1.partidas, p);
  }

  /**
   * The `guess_now` shown is the number the next successful registration
   * that day takes, on the same game.
   */
  lemma VistaAnuncia(t: Tablas, jugador: nat, fecha: Fecha, h: nat, maximos: nat, a: Pelicula)
    requires UnaPartidaPorDia(t.partidas) && jugador in t.jugadores
    ensures var (t1, pg) := Vista(t, jugador, false, fecha, h, maximos);
      var r := Registro(t1, jugador, a, fecha, h).1;
      pg.PaginaJuego? && (r.Ok? ==> r.value.numeroIntento == pg.guessNow)
  {
    var (t1, pg) := Vista(t, jugador, false, fecha, h, maximos);
    if t.catalogo != [] {
      VistaPartida(t, jugador, fecha, h, maximos);
      var p := BuscarPartida(t1.partidas, jugador, fecha).value;
      RegistroEsJugada(t1, jugador, a, fecha, h);
      assert PartidaJugada(t1, jugador, fecha, h) == (t1, p);
      VeredictoNumero(t1, p, jugador, a, Evaluar(a, t1.partidas[p].secreta));
    }
  }

  /** A successful step takes the next number of its game. */
  lemma VeredictoNumero(t: Tablas, p: nat, jugador: nat, adivinada: Pelicula, c: Colores)
    requires p < |t.partidas| && jugador in t.jugadores
    ensures var r := JugadaCon(t, p, jugador, adivinada, c).1; r.Ok? ==> r.value.numeroIntento == Cuenta(t.intentos, p) + 1
  {
  }

  /** What the invariant says of one game's count of attempts. */
  lemma CuentaAcotada(t: Tablas, p: nat)
    requires Juego(t) && p < |t.partidas|
    ensures Cuenta(t.intentos, p) <= t.partidas[p].intentosMaximos
    ensures t.partidas[p].estado == EnCurso ==> Cuenta(t.intentos, p) == 0 || Cuenta(t.intentos, p) < t.partidas[p].intentosMaximos
  {
    assert PartidaCoherente(t.partidas[p], t.intentos, t.feedbacks, p);
    assert |Historial(t.intentos, t.feedbacks, p)| == Cuenta(t.intentos, p);
  }

  /** While the game shown is in progress, `guess_now` is within its limit (a game allowing none shows 1). */
  lemma VistaCota(t: Tablas, jugador: nat, fecha: Fecha, h: nat, maximos: nat)
    requires Juego(t) && t.catalogo != [] && jugador in t.jugadores
    ensures var (t1, pg) := Vista(t, jugador, false, fecha, h, maximos);
      var p := BuscarPartida(t1.partidas, jugador, fecha);
      p.Some? && pg.PaginaJuego? &&
      (t1.partidas[p.value].estado == EnCurso ==> pg.guessNow <= t1.partidas[p.value].intentosMaximos || pg.guessNow == 1)
  {
    VistaPreserva(t, jugador, false, fecha, h, maximos);
    VistaPartida(t, jugador, fecha, h, maximos);
    var (t1, pg) := Vista(t, jugador, false, fecha, h, maximos);
    CuentaAcotada(t1, BuscarPartida(t1.partidas, jugador, fecha).value);
  }

  lemma AtomicoCasos(t: Tablas, jugador: nat, adivinada: Pelicula, fecha: Fecha, h: nat)
    requires jugador in t.jugadores
    ensures var (t2, r) := Registro(t, jugador, adivinada, fecha, h);
      RegistroAtomico(t, jugador, adivinada, fecha, h) == if r.Err? then (t, r) else (t2, r)
  {
  }

  /** The four answers of the page, in the order the view tries them. */
  lemma VistaCasos(t: Tablas, jugador: nat, staff: bool, fecha: Fecha, h: nat, maximos: nat)
    ensures jugador !in t.jugadores ==> Vista(t, jugador, staff, fecha, h, maximos) == (t, SinPerfil)
    ensures jugador in t.jugadores && staff ==> Vista(t, jugador, staff, fecha, h, maximos) == (t, AlPanel)
    ensures jugador in t.jugadores && !staff && t.catalogo == [] ==>
      Vista(t, jugador, staff, fecha, h, maximos) == (t, PaginaJuego(1))
    ensures jugador in t.jugadores && !staff && t.catalogo != [] ==>
      var (t1, p) := ObtenerOCrear(t, jugador, fecha, t.catalogo[IndiceDiario(h, |t.catalogo|)], maximos);
      Vista(t, jugador, staff, fecha, h, maximos) == (t1, PaginaJuego(Cuenta(t1.intentos, p) + 1))
  {
  }

  // ---------------------------------------------------------------------
  // The store, updated in place
  // ---------------------------------------------------------------------

  /** The database: each table a field, the operations methods that update them. */
  class BaseDeDatos {
    var catalogo: seq<Pelicula>
    var jugadores: map<nat, Jugador>
    var partidas: seq<Partida>
    var intentos: seq<Intento>
    var feedbacks: seq<Feedback>

    function Contenido(): Tablas
      reads this
    {
      Tablas(catalogo, jugadores, partidas, intentos, feedbacks)
    }

    ghost predicate Valid()
      reads this
    {
      Juego(Contenido())
    }

    /** An empty database over a catalogue that meets its constraints. */
    constructor(catalogo: seq<Pelicula>)
      requires CatalogoPorId(catalogo) && CatalogoUnico(catalogo)
      ensures Valid() && Contenido() == Tablas(catalogo, map[], [], [], [])
    {
      this.catalogo := catalogo;
      jugadores := map[];
      partidas := [];
      intentos := [];
      feedbacks := [];
    }

    /** `crear_perfil_jugador`: a user just created gets a fresh profile. */
    method CrearPerfil(usuario: nat, creado: bool)
      modifies this
      requires Valid() && (creado ==> usuario !in jugadores)
      ensures Valid()
      ensures Contenido() == if creado then old(Contenido()).(jugadores := old(jugadores)[usuario := JugadorNuevo]) else old(Contenido())
    {
      PerfilNuevoPreserva(Contenido(), usuario);
      if creado {
        jugadores := jugadores[usuario := JugadorNuevo];
      }
    }

    /** `Partida.objects.get_or_create`: the position of the player's game of that date. */
    method ObtenerOCrearPartida(jugador: nat, fecha: Fecha, secreta: Pelicula, maximos: nat) returns (p: nat)
      modifies this
      requires Valid() && jugador in jugadores && secreta in catalogo
      ensures Valid()
      ensures (Contenido(), p) == ObtenerOCrear(old(Contenido()), jugador, fecha, secreta, maximos)
    {
      ObtenerOCrearPreserva(Contenido(), jugador, fecha, secreta, maximos);
      var encontrada := BuscarPartida(partidas, jugador, fecha);
      match encontrada {
        case Some(q) =>
          p := q;
        case None =>
          p := |partidas|;
          partidas := partidas + [PartidaNueva(jugador, secreta, fecha, maximos)];
      }
    }

    /**
     * `registrar_intento(jugador, pelicula_adivinada)` on date `fecha` with
     * digest `h`, keeping the PERDIDA it writes before the limit error.
     */
    method RegistrarIntento(jugador: nat, adivinada: Pelicula, fecha: Fecha, h: nat) returns (r: Result<ResultadoIntento, ErrorJuego>)
      modifies this
      requires Valid() && jugador in jugadores && adivinada in catalogo
      ensures Valid()
      ensures (Contenido(), r) == Registro(old(Contenido()), jugador, adivinada, fecha, h)
    {
      RegistroPreserva(Contenido(), jugador, adivinada, fecha, h);
      if |catalogo| == 0 {
        return Err(SinPeliculas);
      }
      ghost var t0 := Contenido();
      RegistroEsJugada(t0, jugador, adivinada, fecha, h);
      var secreta := catalogo[IndiceDiario(h, |catalogo|)];
      var p := ObtenerOCrearPartida(jugador, fecha, secreta, IntentosMaximosPorDefecto);
      var c := Evaluar(adivinada, partidas[p].secreta);
      r := Jugar(p, jugador, adivinada, c);
    }

    /** The registration step on game `p`, the guess scoring `c`: refuse, enforce the limit, or store the attempt. */
    method Jugar(p: nat, jugador: nat, adivinada: Pelicula, c: Colores) returns (r: Result<ResultadoIntento, ErrorJuego>)
      modifies this
      requires p < |partidas| && jugador in jugadores
      ensures (Contenido(), r) == JugadaCon(old(Contenido()), p, jugador, adivinada, c)
    {
      var g := partidas[p];
      if g.estado != EnCurso {
        return Err(PartidaFinalizada);
      }
      var num := Cuenta(intentos, p) + 1;
      if num > g.intentosMaximos {
        partidas := partidas[p := g.(estado := Perdida)];
        return Err(MaximoAlcanzado);
      }
      var id := |intentos|;
      intentos := intentos + [Intento(p, adivinada, num)];
      var ok := EsCorrecto(c);
      feedbacks := feedbacks + [FeedbackDe(id, c)];
      var estado := EnCurso;
      if ok {
        estado := Ganada;
        var j := jugadores[jugador];
        var actual := j.rachaActual + 1;
        var maxima := Max(j.rachaMaxima, actual);
        jugadores := jugadores[jugador := Jugador(actual, maxima as nat)];
      } else if num >= g.intentosMaximos {
        estado := Perdida;
        jugadores := jugadores[jugador := jugadores[jugador].(rachaActual := 0)];
      } else {
        assert jugadores[jugador := jugadores[jugador]] == jugadores;
      }
      partidas := partidas[p := g.(estado := estado)];
      r := Ok(ResultadoIntento(id, num, c.genero, c.anio, c.direccion, c.actores, ok, estado,
                               Restantes(g.intentosMaximos, num)));
    }

    /**
     * `registrar_intento` as written: inside the transaction, an error
     * restores every table as it was before the call.
     */
    method RegistrarIntentoAtomico(jugador: nat, adivinada: Pelicula, fecha: Fecha, h: nat) returns (r: Result<ResultadoIntento, ErrorJuego>)
      modifies this
      requires Valid() && jugador in jugadores && adivinada in catalogo
      ensures Valid()
      ensures (Contenido(), r) == RegistroAtomico(old(Contenido()), jugador, adivinada, fecha, h)
    {
      AtomicoCasos(Contenido(), jugador, adivinada, fecha, h);
      var copia := Contenido();
      assert Juego(copia);
      r := RegistrarIntento(jugador, adivinada, fecha, h);
      if r.Err? {
        Restaurar(copia);
      }
    }

    /** Put every table back as `copia` holds it. */
    method Restaurar(copia: Tablas)
      modifies this
      ensures Contenido() == copia
    {
      catalogo, jugadores, partidas := copia.catalogo, copia.jugadores, copia.partidas;
      intentos, feedbacks := copia.intentos, copia.feedbacks;
    }

    /** `game_view` on date `fecha` with digest `h`, for a user who is `staff` or not. */
    method VistaJuego(jugador: nat, staff: bool, fecha: Fecha, h: nat, maximos: nat) returns (pagina: Pagina)
      modifies this
      requires Valid()
      ensures Valid()
      ensures (Contenido(), pagina) == Vista(old(Contenido()), jugador, staff, fecha, h, maximos)
    {
      ghost var t := Contenido();
      VistaCasos(t, jugador, staff, fecha, h, maximos);
      if jugador !in jugadores {
        return SinPerfil;
      }
      if staff {
        return AlPanel;
      }
      if |catalogo| == 0 {
        return PaginaJuego(1);
      }
      var secreta := catalogo[IndiceDiario(h, |catalogo|)];
      var p := ObtenerOCrearPartida(jugador, fecha, secreta, maximos);
      pagina := PaginaJuego(Cuenta(intentos, p) + 1);
    }
  }
}
