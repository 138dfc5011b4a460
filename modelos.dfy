/**
 * The game's records: movies, players, daily games, attempts and their
 * feedback, with the field defaults and the uniqueness constraints the
 * database enforces on them.
 */
module Modelos {
  import opened Base
  import opened Texto

  datatype ColorCategoria = Verde | Amarillo | Gris

  datatype EstadoPartida = EnCurso | Ganada | Perdida

  /** A calendar date; the core only compares dates for equality. */
  datatype Fecha = Fecha(anio: int, mes: int, dia: int)

  /** A catalogue row. `genero` and `actores` are comma-separated lists ("Action, Drama"). */
  datatype Pelicula = Pelicula(
    id: nat,
    titulo: string,
    anio: nat,
    genero: string,
    director: string,
    actores: string,
    imdbId: Option<string>,
    posterUrl: string)

  // ---------------------------------------------------------------------
  // The comma-list helpers and __str__
  // ---------------------------------------------------------------------

  /** Keep the stripped pieces that are not empty, in order. */
  function Limpiar(partes: seq<string>): seq<string>
  {
    if |partes| == 0 then []
    else
      var p := Recortar(partes[0]);
      (if p != "" then [p] else []) + Limpiar(partes[1..])
  }

  /** `[x.strip() for x in s.split(",") if x.strip()]`, the body of both list helpers. */
  function Piezas(s: string): (r: seq<string>)
    ensures TodasLimpias(r)
    ensures |r| <= |Separar(s, ',')|
  {
    LimpiarLimpias(Separar(s, ','));
    Limpiar(Separar(s, ','))
  }

  /** Cleaning pieces without commas leaves only clean items, and never more than there were pieces. */
  lemma {:induction false} LimpiarLimpias(partes: seq<string>)
    requires forall j :: 0 <= j < |partes| ==> ',' !in partes[j]
    ensures |Limpiar(partes)| <= |partes|
    ensures TodasLimpias(Limpiar(partes))
    decreases |partes|
  {
    if |partes| > 0 {
      var p := Recortar(partes[0]);
      RecortarAusente(partes[0], ',');
      var cola := partes[1..];
      forall j | 0 <= j < |cola| ensures ',' !in cola[j] { assert cola[j] == partes[j + 1]; }
      LimpiarLimpias(cola);
      var c := if p != "" then [p] else [];
      assert Limpiar(partes) == c + Limpiar(cola);
      assert TodasLimpias(c);
      TodasLimpiasConcat(c, Limpiar(cola));
    }
  }

  predicate TodasLimpias(xs: seq<string>) {
    forall i :: 0 <= i < |xs| ==> Limpia(xs[i])
  }

  lemma TodasLimpiasConcat(a: seq<string>, b: seq<string>)
    requires TodasLimpias(a) && TodasLimpias(b)
    ensures TodasLimpias(a + b)
  {
    forall i | 0 <= i < |a + b| ensures Limpia((a + b)[i]) {
      if i >= |a| { assert (a + b)[i] == b[i - |a|]; }
    }
  }

  /** Every listed genre or actor is non-empty, stripped and free of commas. */
  lemma PiezasLimpias(s: string)
    ensures TodasLimpias(Piezas(s))
  {
    LimpiarLimpias(Separar(s, ','));
  }

  /** The movie's genres: clean items, none exactly when the field is only commas and whitespace. */
  function ListaGeneros(p: Pelicula): (r: seq<string>)
    ensures TodasLimpias(r)
    ensures r == [] <==> ComasYEspacios(p.genero)
  {
    PiezasVacias(p.genero);
    Piezas(p.genero)
  }

  /** The movie's actors: clean items, none exactly when the field is only commas and whitespace. */
  function ListaActores(p: Pelicula): (r: seq<string>)
    ensures TodasLimpias(r)
    ensures r == [] <==> ComasYEspacios(p.actores)
  {
    PiezasVacias(p.actores);
    Piezas(p.actores)
  }

  lemma {:induction false} LimpiarConcat(a: seq<string>, b: seq<string>)
    ensures Limpiar(a + b) == Limpiar(a) + Limpiar(b)
    decreases |a|
  {
    if |a| == 0 {
      assert a + b == b;
    } else {
      var p := Recortar(a[0]);
      var cabeza := if p != "" then [p] else [];
      assert (a + b)[0] == a[0] && (a + b)[1..] == a[1..] + b;
      LimpiarConcat(a[1..], b);
      var x, y := Limpiar(a[1..]), Limpiar(b);
      assert Limpiar(a + b) == cabeza + (x + y);
      assert Limpiar(a) == cabeza + x;
      Asociativa(cabeza, x, y);
    }
  }

  /** A comma splits the list: the pieces of `a,b` are those of `a` followed by those of `b`. */
  lemma PiezasConcat(a: string, b: string)
    ensures Piezas(a + [','] + b) == Piezas(a) + Piezas(b)
  {
    SepararConcat(a, ',', b);
    LimpiarConcat(Separar(a, ','), Separar(b, ','));
  }

  /** Without a comma there is one piece, the stripped string, unless it is blank. */
  lemma PiezasSinComa(s: string)
    requires ',' !in s
    ensures Piezas(s) == if Recortar(s) == "" then [] else [Recortar(s)]
  {
    SepararSinSeparador(s, ',');
    LimpiarUno(s);
  }

  lemma LimpiarUno(x: string)
    ensures Limpiar([x]) == if Recortar(x) == "" then [] else [Recortar(x)]
  {
    assert [x][1..] == [];
  }

  lemma {:induction false} LimpiarVacia(partes: seq<string>)
    ensures Limpiar(partes) == [] <==> PiezasEnBlanco(partes)
    decreases |partes|
  {
    if |partes| > 0 {
      LimpiarVacia(partes[1..]);
      RecortarVacia(partes[0]);
      PiezasEnBlancoCons(partes[0], partes[1..]);
      CabezaCola(partes);
    }
  }

  lemma SoloEspaciosCons(c: char, t: string)
    ensures SoloEspacios([c] + t) <==> EsEspacio(c) && SoloEspacios(t)
  {
    var s := [c] + t;
    if SoloEspacios(s) {
      assert EsEspacio(s[0]);
      forall i | 0 <= i < |t| ensures EsEspacio(t[i]) { assert t[i] == s[i + 1]; }
    }
    if EsEspacio(c) && SoloEspacios(t) {
      forall i | 0 <= i < |s| ensures EsEspacio(s[i]) { if i > 0 { assert s[i] == t[i - 1]; } }
    }
  }

  /** Every character is a comma or whitespace. */
  predicate ComasYEspacios(s: string) {
    forall i :: 0 <= i < |s| ==> s[i] == ',' || EsEspacio(s[i])
  }

  predicate PiezasEnBlanco(partes: seq<string>) {
    forall j :: 0 <= j < |partes| ==> SoloEspacios(partes[j])
  }

  lemma ComasYEspaciosCons(c: char, t: string)
    ensures ComasYEspacios([c] + t) <==> (c == ',' || EsEspacio(c)) && ComasYEspacios(t)
  {
    var s := [c] + t;
    if ComasYEspacios(s) {
      assert s[0] == c;
      forall i | 0 <= i < |t| ensures t[i] == ',' || EsEspacio(t[i]) { assert t[i] == s[i + 1]; }
    }
    if (c == ',' || EsEspacio(c)) && ComasYEspacios(t) {
      forall i | 0 <= i < |s| ensures s[i] == ',' || EsEspacio(s[i]) { if i > 0 { assert s[i] == t[i - 1]; } }
    }
  }

  lemma PiezasEnBlancoCons(p: string, rest: seq<string>)
    ensures PiezasEnBlanco([p] + rest) <==> SoloEspacios(p) && PiezasEnBlanco(rest)
  {
    var s := [p] + rest;
    if PiezasEnBlanco(s) {
      assert s[0] == p;
      forall j | 0 <= j < |rest| ensures SoloEspacios(rest[j]) { assert rest[j] == s[j + 1]; }
    }
    if SoloEspacios(p) && PiezasEnBlanco(rest) {
      forall j | 0 <= j < |s| ensures SoloEspacios(s[j]) { if j > 0 { assert s[j] == rest[j - 1]; } }
    }
  }

  lemma {:induction false} PiezasSoloEspacios(s: string)
    ensures PiezasEnBlanco(Separar(s, ',')) <==> ComasYEspacios(s)
    decreases |s|
  {
    if |s| > 0 {
      PiezasSoloEspacios(s[1..]);
      var resto := Separar(s[1..], ',');
      ComasYEspaciosCons(s[0], s[1..]);
      assert [s[0]] + s[1..] == s;
      if s[0] == ',' {
        PiezasEnBlancoCons("", resto);
      } else {
        assert resto == [resto[0]] + resto[1..];
        PiezasEnBlancoCons(resto[0], resto[1..]);
        PiezasEnBlancoCons([s[0]] + resto[0], resto[1..]);
        SoloEspaciosCons(s[0], resto[0]);
      }
    }
  }

  /** A list helper returns nothing exactly when the field holds only commas and whitespace. */
  lemma PiezasVacias(s: string)
    ensures Piezas(s) == [] <==> ComasYEspacios(s)
  {
    LimpiarVacia(Separar(s, ','));
    PiezasSoloEspacios(s);
  }

  /** A clean list item: non-empty, stripped, without commas. */
  predicate Limpia(x: string) {
    x != "" && ',' !in x && Recortada(x)
  }

  lemma RecortarEspacioInicial(p: string)
    ensures Recortar([' '] + p) == Recortar(p)
  {
    Delante(' ', p);
  }

  /** Joining clean items with ", " (the stored format) and splitting again gives the items back. */
  lemma {:induction false} PiezasUnir(xs: seq<string>)
    requires TodasLimpias(xs)
    ensures Piezas(Unir(xs, ", ")) == xs
    decreases |xs|
  {
    if |xs| == 0 {
      assert Separar("", ',') == [""];
    } else {
      var x := xs[0];
      assert Limpia(x);
      PiezasSinComa(x);
      RecortarFijo(x);
      assert Piezas(x) == [x];
      if |xs| > 1 {
        var resto := Unir(xs[1..], ", ");
        assert Unir(xs, ", ") == x + ", " + resto;
        DosDelante(x, ',', ' ', resto);
        PiezasConcat(x, [' '] + resto);
        PiezasEspacioInicial(resto);
        TodasLimpiasCola(xs);
        PiezasUnir(xs[1..]);
        assert Piezas(Unir(xs, ", ")) == [x] + xs[1..];
      }
      CabezaCola(xs);
    }
  }

  lemma TodasLimpiasCola(xs: seq<string>)
    requires |xs| > 0 && TodasLimpias(xs)
    ensures TodasLimpias(xs[1..])
  {
    forall i | 0 <= i < |xs| - 1 ensures Limpia(xs[1..][i]) { assert xs[1..][i] == xs[i + 1]; }
  }

  lemma LimpiarCabeza(p: string, q: string, resto: seq<string>)
    requires Recortar(p) == Recortar(q)
    ensures Limpiar([p] + resto) == Limpiar([q] + resto)
  {
    Delante(p, resto);
    Delante(q, resto);
  }

  lemma PiezasEspacioInicial(s: string)
    ensures Piezas([' '] + s) == Piezas(s)
  {
    var r := Separar(s, ',');
    Delante(' ', s);
    assert Separar([' '] + s, ',') == [[' '] + r[0]] + r[1..];
    RecortarEspacioInicial(r[0]);
    LimpiarCabeza([' '] + r[0], r[0], r[1..]);
    CabezaCola(r);
  }

  /** The unit test's movie: "Action, Sci-Fi, Horror" lists as [Action, Sci-Fi, Horror]. */
  lemma EjemploGeneros()
    ensures Piezas("Action, Sci-Fi, Horror") == ["Action", "Sci-Fi", "Horror"]
  {
    var xs := ["Action", "Sci-Fi", "Horror"];
    UnirEjemplo();
    LimpiasEjemplo();
    PiezasUnir(xs);
  }

  lemma UnirEjemplo()
    ensures Unir(["Action", "Sci-Fi", "Horror"], ", ") == "Action, Sci-Fi, Horror"
  {
    var xs := ["Action", "Sci-Fi", "Horror"];
    assert xs[1..] == ["Sci-Fi", "Horror"] && xs[1..][1..] == ["Horror"];
    assert Unir(xs, ", ") == "Action" + ", " + ("Sci-Fi" + ", " + "Horror");
  }

  lemma LimpiasEjemplo()
    ensures TodasLimpias(["Action", "Sci-Fi", "Horror"])
  {
  }

  /** `f"{titulo} ({anio})"`. */
  function Mostrar(p: Pelicula): (r: string)
    ensures |r| == |p.titulo| + |MostrarNat(p.anio)| + 3
    ensures r[..|p.titulo|] == p.titulo && r[|r| - 1] == ')'
  {
    p.titulo + " (" + MostrarNat(p.anio) + ")"
  }

  /** The display string starts with the title and carries the year, which reads back with `int`. */
  lemma MostrarPartes(p: Pelicula)
    ensures var s := Mostrar(p);
      && |s| == |p.titulo| + |MostrarNat(p.anio)| + 3
      && s[..|p.titulo|] == p.titulo
      && s[|p.titulo|..|p.titulo| + 2] == " ("
      && s[|s| - 1] == ')'
      && PyInt(s[|p.titulo| + 2..|s| - 1]) == Some(p.anio as int)
  {
    Cuatro(p.titulo, " (", MostrarNat(p.anio), ")");
    PyIntMostrar(p.anio);
  }

  lemma EjemploMostrar(p: Pelicula)
    requires p.titulo == "Aliens" && p.anio == 1986
    ensures Mostrar(p) == "Aliens (1986)"
  {
    assert MostrarNat(1986) == "1986" by {
      assert MostrarNat(1) == "1";
      assert MostrarNat(19) == "19";
      assert MostrarNat(198) == "198";
    }
  }

  // ---------------------------------------------------------------------
  // Player, daily game, attempt, feedback
  // ---------------------------------------------------------------------

  /** A player's profile; both streak counters are non-negative. */
  datatype Jugador = Jugador(rachaActual: nat, rachaMaxima: nat)

  /** The profile created with each account: both streaks at 0. */
  const JugadorNuevo: Jugador := Jugador(0, 0)

  /** The model default of `intentos_maximos`. */
  const IntentosMaximosPorDefecto: nat := 6

  datatype Partida = Partida(
    jugador: nat,
    secreta: Pelicula,
    fecha: Fecha,
    estado: EstadoPartida,
    intentosMaximos: nat)

  /** A game created with the field defaults: in progress, with the given limit. */
  function PartidaNueva(jugador: nat, secreta: Pelicula, fecha: Fecha, maximos: nat): (p: Partida)
    ensures p.estado == EnCurso && p.intentosMaximos == maximos
    ensures p.jugador == jugador && p.fecha == fecha && p.secreta == secreta
  {
    Partida(jugador, secreta, fecha, EnCurso, maximos)
  }

  datatype Intento = Intento(partida: nat, adivinada: Pelicula, numero: nat)

  datatype Feedback = Feedback(
    intento: nat,
    colorAnio: ColorCategoria,
    colorGenero: ColorCategoria,
    colorDireccion: ColorCategoria,
    colorActores: ColorCategoria,
    esCorrecto: bool)

  /** `unique_together (jugador, fecha)`: at most one game per player and day. */
  predicate UnaPartidaPorDia(partidas: seq<Partida>) {
    forall i, j :: 0 <= i < j < |partidas| ==>
      partidas[i].jugador != partidas[j].jugador || partidas[i].fecha != partidas[j].fecha
  }

  /** `unique_together (partida, numero_intento)`. */
  predicate NumeroUnicoPorPartida(intentos: seq<Intento>) {
    forall i, j :: 0 <= i < j < |intentos| && intentos[i].partida == intentos[j].partida ==>
      intentos[i].numero != intentos[j].numero
  }

  /** The one-to-one link: every feedback row names an existing attempt, and no two name the same one. */
  predicate FeedbackUnoAUno(nIntentos: nat, feedbacks: seq<Feedback>) {
    && (forall i :: 0 <= i < |feedbacks| ==> feedbacks[i].intento < nIntentos)
    && (forall i, j :: 0 <= i < j < |feedbacks| ==> feedbacks[i].intento != feedbacks[j].intento)
  }
}
