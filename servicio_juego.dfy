/**
 * The daily guessing engine's pure part: name normalisation, the choice of
 * the movie of the day, and the four colour comparators that score a guess
 * against the secret movie.
 */
module ServicioJuego {
  import opened Base
  import opened Texto
  import opened Modelos

  // ---------------------------------------------------------------------
  // Normalisation: NFKD, drop what is not ASCII, strip, lower
  // ---------------------------------------------------------------------

  predicate EsAscii(c: char) {
    c as int < 0x80
  }

  predicate TodoAscii(s: string) {
    forall i :: 0 <= i < |s| ==> EsAscii(s[i])
  }

  /** No ASCII capital letter: what lowering leaves. */
  predicate SinMayusculas(s: string) {
    forall i :: 0 <= i < |s| ==> !('A' <= s[i] <= 'Z')
  }

  /**
   * One character after NFKD decomposition with every non-ASCII code point
   * dropped, for U+0000..U+00FF: accented letters keep their base letter,
   * compatibility characters keep their ASCII part (U+00A0 and the spacing
   * diacritics become a space, ordinals a letter, superscripts and vulgar
   * fractions their digits), and the rest (controls, symbols, Æ, Ð, Ø, Þ,
   * ß and their lower-case forms, µ) vanish. Characters above U+00FF are
   * dropped.
   */
  function PlegarChar(c: char): (r: string)
    ensures TodoAscii(r)
    ensures EsAscii(c) ==> r == [c]
    ensures |r| <= 2
  {
    var n := c as int;
    if n < 0x80 then [c]
    else if n == 0xA0 || n == 0xA8 || n == 0xAF || n == 0xB4 || n == 0xB8 then " "
    else if n == 0xAA then "a"
    else if n == 0xBA then "o"
    else if n == 0xB2 then "2"
    else if n == 0xB3 then "3"
    else if n == 0xB9 then "1"
    else if n == 0xBC then "14"
    else if n == 0xBD then "12"
    else if n == 0xBE then "34"
    else if 0xC0 <= n <= 0xC5 then "A"
    else if n == 0xC7 then "C"
    else if 0xC8 <= n <= 0xCB then "E"
    else if 0xCC <= n <= 0xCF then "I"
    else if n == 0xD1 then "N"
    else if 0xD2 <= n <= 0xD6 then "O"
    else if 0xD9 <= n <= 0xDC then "U"
    else if n == 0xDD then "Y"
    else if 0xE0 <= n <= 0xE5 then "a"
    else if n == 0xE7 then "c"
    else if 0xE8 <= n <= 0xEB then "e"
    else if 0xEC <= n <= 0xEF then "i"
    else if n == 0xF1 then "n"
    else if 0xF2 <= n <= 0xF6 then "o"
    else if 0xF9 <= n <= 0xFC then "u"
    else if n == 0xFD || n == 0xFF then "y"
    else ""
  }

  /** `normalize("NFKD", s).encode("ascii", "ignore").decode("ascii")`. */
  function Plegar(s: string): (r: string)
    ensures TodoAscii(r)
    ensures TodoAscii(s) ==> r == s
  {
    if |s| == 0 then ""
    else
      var r := PlegarChar(s[0]) + Plegar(s[1..]);
      assert TodoAscii(s) ==> TodoAscii(s[1..]) by {
        if TodoAscii(s) {
          forall i | 0 <= i < |s[1..]| ensures EsAscii(s[1..][i]) { assert s[1..][i] == s[i + 1]; }
        }
      }
      assert TodoAscii(s) ==> r == s by {
        if TodoAscii(s) { assert [s[0]] + s[1..] == s; }
      }
      r
  }

  /** `_norm`: folded to ASCII, stripped and lower-cased. */
  function Norm(s: string): (r: string)
    ensures TodoAscii(r) && Recortada(r) && SinMayusculas(r)
  {
    var t := Recortar(Plegar(s));
    RecortarAscii(Plegar(s));
    MinusculasLimpias(t);
    Minusculas(t)
  }

  lemma RecortarAscii(s: string)
    requires TodoAscii(s)
    ensures TodoAscii(Recortar(s))
  {
    var t := Recortar(s);
    forall i | 0 <= i < |t| ensures EsAscii(t[i]) {
      RecortarSubcadena(s, t[i]);
    }
  }

  lemma EspacioMinuscula(c: char)
    ensures EsEspacio(MinusculaChar(c)) <==> EsEspacio(c)
  {
  }

  /** Lowering a stripped ASCII string keeps it stripped and ASCII, and leaves no capital. */
  lemma MinusculasLimpias(t: string)
    requires TodoAscii(t) && Recortada(t)
    ensures var m := Minusculas(t); TodoAscii(m) && Recortada(m) && SinMayusculas(m)
  {
    if |t| > 0 {
      EspacioMinuscula(t[0]);
      EspacioMinuscula(t[|t| - 1]);
    }
  }

  /** Normalising a normalised name changes nothing. */
  lemma NormIdempotente(s: string)
    ensures Norm(Norm(s)) == Norm(s)
  {
    var n := Norm(s);
    assert Plegar(n) == n;
    RecortarFijo(n);
    MinusculasFijo(n);
  }

  /** Lowering a string without capitals leaves it as it is. */
  lemma MinusculasFijo(s: string)
    requires SinMayusculas(s)
    ensures Minusculas(s) == s
  {
    forall i | 0 <= i < |s| ensures Minusculas(s)[i] == s[i] {
      assert !('A' <= s[i] <= 'Z');
    }
  }

  lemma MinusculasConcat(a: string, b: string)
    ensures Minusculas(a + b) == Minusculas(a) + Minusculas(b)
  {
  }

  lemma {:induction false} PlegarMinusculas(s: string)
    ensures Minusculas(Plegar(Minusculas(s))) == Minusculas(Plegar(s))
    decreases |s|
  {
    if |s| > 0 {
      var m := Minusculas(s);
      assert m[1..] == Minusculas(s[1..]);
      PlegarMinusculas(s[1..]);
      MinusculasConcat(PlegarChar(m[0]), Plegar(m[1..]));
      MinusculasConcat(PlegarChar(s[0]), Plegar(s[1..]));
    }
  }

  /** `_norm` ignores the case of ASCII letters. */
  lemma NormIgnoraMayusculas(a: string, b: string)
    requires Minusculas(a) == Minusculas(b)
    ensures Norm(a) == Norm(b)
  {
    PlegarMinusculas(a);
    PlegarMinusculas(b);
    MinusculasRecortar(Plegar(a));
    MinusculasRecortar(Plegar(b));
  }

  /** Accents and case do not count: "Ó" and "o" normalise alike. */
  lemma EjemploNormAcento()
    ensures Norm("Ó") == Norm("o") == "o"
  {
    assert PlegarChar('Ó') == "O";
    assert Plegar("Ó") == "O" by {
      assert "Ó"[1..] == "";
    }
    assert Recortada("O") && Recortada("o");
    RecortarFijo("O");
    RecortarFijo("o");
    assert Minusculas("O") == "o";
    assert Minusculas("o") == "o";
  }

  /** `_apellido`: the last word of the normalised name, or "" when there is none. */
  function Apellido(nombre: string): (r: string)
    ensures SinEspacios(r)
    ensures |r| <= |Norm(nombre)| && r == Norm(nombre)[|Norm(nombre)| - |r|..]
    ensures r == "" <==> Norm(nombre) == ""
    ensures |r| == |Norm(nombre)| || EsEspacio(Norm(nombre)[|Norm(nombre)| - |r| - 1])
  {
    UltimaDeRecortada(Norm(nombre))
  }

  /** `split()[-1]` of a stripped string, or "" when it has no word. */
  function UltimaDeRecortada(n: string): (r: string)
    requires Recortada(n)
    ensures SinEspacios(r)
    ensures |r| <= |n| && r == n[|n| - |r|..]
    ensures r == "" <==> n == ""
    ensures |r| == |n| || EsEspacio(n[|n| - |r| - 1])
  {
    var partes := Palabras(n);
    PalabrasVacia(n);
    if partes == [] then ""
    else
      UltimaRecortada(n);
      partes[|partes| - 1]
  }

  /** The last word of a stripped, non-empty string is its final run of non-whitespace. */
  lemma UltimaRecortada(n: string)
    requires Recortada(n) && Palabras(n) != []
    ensures var w := Palabras(n)[|Palabras(n)| - 1];
      SinEspacios(w) && w != "" && |w| <= |n| && w == n[|n| - |w|..]
      && (|w| == |n| || EsEspacio(n[|n| - |w| - 1]))
  {
    UltimaEsToken(n);
    TokenDeRecortada(n);
  }

  lemma UltimaEsToken(n: string)
    requires Recortada(n) && Palabras(n) != []
    ensures Palabras(n)[|Palabras(n)| - 1] == TokenFinal(n)
  {
    UltimaDePalabras(n);
    QuitarDerRecortada(n);
  }

  /** The final token of a string that ends in a non-space is a whole, non-empty word. */
  lemma TokenDeRecortada(n: string)
    requires n != [] && !EsEspacio(n[|n| - 1])
    ensures TokenFinal(n) != ""
    ensures |TokenFinal(n)| == |n| || EsEspacio(n[|n| - |TokenFinal(n)| - 1])
  {
    TokenFinalMaximo(n);
  }

  lemma ApellidoFinal(nombre: string)
    ensures Apellido(nombre) == TokenFinal(Norm(nombre))
  {
    var n := Norm(nombre);
    if n != "" {
      ApellidoUltimaPalabra(nombre);
      QuitarDerRecortada(n);
    }
  }

  lemma QuitarDerRecortada(n: string)
    requires Recortada(n)
    ensures QuitarDer(n) == n
  {
  }

  // ---------------------------------------------------------------------
  // The movie of the day
  // ---------------------------------------------------------------------

  datatype ErrorJuego = SinPeliculas | PartidaFinalizada | MaximoAlcanzado

  /** `h % n`: the position in the id-ordered catalogue picked by the date's hash. */
  function IndiceDiario(h: nat, n: nat): (i: nat)
    requires n > 0
    ensures i < n
  {
    h % n
  }

  /**
   * `seleccionar_pelicula_diaria`, given the catalogue ordered by id and the
   * date's SHA-256 digest `h` read as an integer.
   */
  function SeleccionarPeliculaDiaria(catalogo: seq<Pelicula>, h: nat): (r: Result<Pelicula, ErrorJuego>)
    ensures r.Err? <==> catalogo == []
    ensures r.Err? ==> r.error == SinPeliculas
    ensures r.Ok? ==> r.value in catalogo
    ensures r.Ok? ==> r.value == catalogo[h % |catalogo|]
  {
    if |catalogo| == 0 then Err(SinPeliculas)
    else Ok(catalogo[IndiceDiario(h, |catalogo|)])
  }

  /** Every movie of the catalogue is the movie of the day for some digest. */
  lemma SeleccionCubreCatalogo(catalogo: seq<Pelicula>, k: nat)
    requires k < |catalogo|
    ensures SeleccionarPeliculaDiaria(catalogo, k) == Ok(catalogo[k])
  {
    assert k % |catalogo| == k;
  }

  // ---------------------------------------------------------------------
  // The four comparators
  // ---------------------------------------------------------------------

  /** `_color_anio`. */
  function ColorAnio(adivinada: Pelicula, secreta: Pelicula): (c: ColorCategoria)
    ensures c == Verde <==> adivinada.anio == secreta.anio
    ensures c == Amarillo <==> 1 <= Abs(adivinada.anio - secreta.anio) <= 2
    ensures c == Gris <==> Abs(adivinada.anio - secreta.anio) > 2
  {
    if adivinada.anio == secreta.anio then Verde
    else if Abs(adivinada.anio - secreta.anio) <= 2 then Amarillo
    else Gris
  }

  function Abs(x: int): (r: nat)
    ensures r == x || r == -x
  {
    if x < 0 then -x else x
  }

  lemma ColorAnioSimetrico(a: Pelicula, s: Pelicula)
    ensures ColorAnio(a, s) == ColorAnio(s, a)
  {
  }

  /** `set(map(_norm, xs))`. */
  function Normalizados(xs: seq<string>): set<string>
  {
    set x | x in xs :: Norm(x)
  }

  /** `_color_genero`. */
  function ColorGenero(adivinada: Pelicula, secreta: Pelicula): (c: ColorCategoria)
    ensures var ga := ListaGeneros(adivinada); var gs := ListaGeneros(secreta);
      && (c == Gris <==> ga == [] || gs == [] || Normalizados(ga) * Normalizados(gs) == {})
      && (c == Verde <==> ga != [] && gs != [] && Minusculas(ga[0]) == Minusculas(gs[0]))
  {
    ColorGeneros(ListaGeneros(adivinada), ListaGeneros(secreta))
  }

  /** The genre rule on the two genre lists. */
  function ColorGeneros(ga: seq<string>, gs: seq<string>): (c: ColorCategoria)
    ensures c == Gris <==> ga == [] || gs == [] || Normalizados(ga) * Normalizados(gs) == {}
    ensures c == Verde <==> ga != [] && gs != [] && Minusculas(ga[0]) == Minusculas(gs[0])
  {
    if ga == [] || gs == [] then Gris
    else if Minusculas(ga[0]) == Minusculas(gs[0]) then PrimerosComunes(ga, gs); Verde
    else if Normalizados(ga) * Normalizados(gs) != {} then Amarillo
    else Gris
  }

  /**
   * The genre colour: GRIS when a list is empty or no normalised genre is
   * shared, VERDE when the first genres agree ignoring case, AMARILLO when
   * they do not but a normalised genre is shared.
   */
  lemma ColorGeneroCasos(a: Pelicula, s: Pelicula)
    ensures var ga := ListaGeneros(a); var gs := ListaGeneros(s);
      && (ColorGenero(a, s) == Gris <==> ga == [] || gs == [] || Normalizados(ga) * Normalizados(gs) == {})
      && (ColorGenero(a, s) == Verde <==> ga != [] && gs != [] && Minusculas(ga[0]) == Minusculas(gs[0]))
      && (ColorGenero(a, s) == Amarillo <==>
            ga != [] && gs != [] && Minusculas(ga[0]) != Minusculas(gs[0])
            && Normalizados(ga) * Normalizados(gs) != {})
  {
    ColorGenerosCasos(ListaGeneros(a), ListaGeneros(s));
  }

  lemma ColorGenerosCasos(ga: seq<string>, gs: seq<string>)
    ensures && (ColorGeneros(ga, gs) == Gris <==> ga == [] || gs == [] || Normalizados(ga) * Normalizados(gs) == {})
      && (ColorGeneros(ga, gs) == Verde <==> ga != [] && gs != [] && Minusculas(ga[0]) == Minusculas(gs[0]))
      && (ColorGeneros(ga, gs) == Amarillo <==>
            ga != [] && gs != [] && Minusculas(ga[0]) != Minusculas(gs[0])
            && Normalizados(ga) * Normalizados(gs) != {})
  {
    if ga != [] && gs != [] && Minusculas(ga[0]) == Minusculas(gs[0]) {
      PrimerosComunes(ga, gs);
    }
  }

  /** First genres equal up to case share their normalised form. */
  lemma PrimerosComunes(ga: seq<string>, gs: seq<string>)
    requires ga != [] && gs != [] && Minusculas(ga[0]) == Minusculas(gs[0])
    ensures Normalizados(ga) * Normalizados(gs) != {}
  {
    NormIgnoraMayusculas(ga[0], gs[0]);
    var n := Norm(ga[0]);
    assert n in Normalizados(ga);
    assert n in Normalizados(gs);
    assert n in Normalizados(ga) * Normalizados(gs);
  }

  lemma ColorGeneroSimetrico(a: Pelicula, s: Pelicula)
    ensures ColorGenero(a, s) == ColorGenero(s, a)
  {
    ColorGenerosSimetrico(ListaGeneros(a), ListaGeneros(s));
  }

  lemma ColorGenerosSimetrico(ga: seq<string>, gs: seq<string>)
    ensures ColorGeneros(ga, gs) == ColorGeneros(gs, ga)
  {
    InterseccionConmuta(Normalizados(ga), Normalizados(gs));
  }

  /** A movie with at least one genre is VERDE on genre against itself. */
  lemma ColorGeneroPropio(p: Pelicula)
    ensures ColorGenero(p, p) == Verde <==> ListaGeneros(p) != []
  {
  }

  /** `_color_director`. */
  function ColorDirector(adivinada: Pelicula, secreta: Pelicula): (c: ColorCategoria)
    ensures c == Verde <==> Norm(adivinada.director) == Norm(secreta.director)
    ensures c == Amarillo ==> Norm(adivinada.director) != "" && Norm(secreta.director) != ""
  {
    if Norm(adivinada.director) == Norm(secreta.director) then Verde
    else if Apellido(adivinada.director) != "" && Apellido(adivinada.director) == Apellido(secreta.director) then Amarillo
    else Gris
  }

  /**
   * The director colour: VERDE exactly when the normalised names agree;
   * AMARILLO exactly when they differ, both are non-empty, and their last
   * words agree; GRIS otherwise.
   */
  lemma ColorDirectorCasos(a: Pelicula, s: Pelicula)
    ensures var na := Norm(a.director); var ns := Norm(s.director);
      && (ColorDirector(a, s) == Verde <==> na == ns)
      && (ColorDirector(a, s) == Amarillo <==>
            na != ns && na != "" && ns != "" && UltimaPalabra(na) == UltimaPalabra(ns))
  {
    ColorDirectorAmarillo(a, s);
  }

  lemma ColorDirectorAmarillo(a: Pelicula, s: Pelicula)
    ensures var na := Norm(a.director); var ns := Norm(s.director);
      ColorDirector(a, s) == Amarillo <==>
        na != ns && na != "" && ns != "" && UltimaPalabra(na) == UltimaPalabra(ns)
  {
    var na, ns := Norm(a.director), Norm(s.director);
    var pa, ps := Apellido(a.director), Apellido(s.director);
    ApellidoUltimaPalabra(a.director);
    ApellidoUltimaPalabra(s.director);
    assert pa == "" <==> na == "";
    assert ps == "" <==> ns == "";
    assert ColorDirector(a, s) == if na == ns then Verde else if pa != "" && pa == ps then Amarillo else Gris;
  }

  /** `split()[-1]` of a non-empty normalised name is its last word. */
  lemma ApellidoUltimaPalabra(nombre: string)
    ensures Norm(nombre) != "" ==> Apellido(nombre) == UltimaPalabra(Norm(nombre))
  {
    var n := Norm(nombre);
    if n != "" {
      PalabrasVacia(n);
      UltimaDePalabras(n);
    }
  }

  lemma ColorDirectorSimetrico(a: Pelicula, s: Pelicula)
    ensures ColorDirector(a, s) == ColorDirector(s, a)
  {
  }

  /** `_color_actores`: how many normalised names the casts share. */
  function ColorActores(adivinada: Pelicula, secreta: Pelicula): (c: ColorCategoria)
    ensures c == Verde <==> |ActoresComunes(adivinada, secreta)| >= 2
    ensures c == Gris <==> ActoresComunes(adivinada, secreta) == {}
  {
    var comun := Normalizados(ListaActores(adivinada)) * Normalizados(ListaActores(secreta));
    if |comun| >= 2 then Verde
    else if |comun| == 1 then Amarillo
    else Gris
  }

  /** Actors shared, under normalisation, by the two casts. */
  function ActoresComunes(a: Pelicula, s: Pelicula): set<string>
  {
    Normalizados(ListaActores(a)) * Normalizados(ListaActores(s))
  }

  lemma ColorActoresCasos(a: Pelicula, s: Pelicula)
    ensures ColorActores(a, s) == Verde <==> |ActoresComunes(a, s)| >= 2
    ensures ColorActores(a, s) == Amarillo <==> |ActoresComunes(a, s)| == 1
    ensures ColorActores(a, s) == Gris <==> ActoresComunes(a, s) == {}
    ensures ColorActores(a, s) == Amarillo ==>
      exists x, y :: x in ListaActores(a) && y in ListaActores(s) && Norm(x) == Norm(y)
  {
    if ColorActores(a, s) == Amarillo {
      ActorComun(ListaActores(a), ListaActores(s));
    }
  }

  /** A shared normalised name comes from an actor of each cast. */
  lemma ActorComun(xa: seq<string>, xs: seq<string>)
    requires Normalizados(xa) * Normalizados(xs) != {}
    ensures exists x, y :: x in xa && y in xs && Norm(x) == Norm(y)
  {
    var z :| z in Normalizados(xa) * Normalizados(xs);
    var x := OrigenNormalizado(xa, z);
    var y := OrigenNormalizado(xs, z);
    assert x in xa && y in xs && Norm(x) == Norm(y);
  }

  /** A normalised name comes from some name of the list. */
  lemma OrigenNormalizado(xs: seq<string>, z: string) returns (x: string)
    requires z in Normalizados(xs)
    ensures x in xs && Norm(x) == z
  {
    x :| x in xs && Norm(x) == z;
  }

  lemma ColorActoresSimetrico(a: Pelicula, s: Pelicula)
    ensures ColorActores(a, s) == ColorActores(s, a)
  {
    InterseccionConmuta(Normalizados(ListaActores(a)), Normalizados(ListaActores(s)));
  }

  // ---------------------------------------------------------------------
  // A whole evaluation
  // ---------------------------------------------------------------------

  datatype Colores = Colores(anio: ColorCategoria, genero: ColorCategoria, direccion: ColorCategoria, actores: ColorCategoria)

  /** The four colours of a guess against the secret movie. */
  function Evaluar(adivinada: Pelicula, secreta: Pelicula): (r: Colores)
    ensures EsCorrecto(r) <==>
      && adivinada.anio == secreta.anio
      && ListaGeneros(adivinada) != [] && ListaGeneros(secreta) != []
      && Minusculas(ListaGeneros(adivinada)[0]) == Minusculas(ListaGeneros(secreta)[0])
      && Norm(adivinada.director) == Norm(secreta.director)
      && |ActoresComunes(adivinada, secreta)| >= 2
  {
    Colores(ColorAnio(adivinada, secreta), ColorGenero(adivinada, secreta),
            ColorDirector(adivinada, secreta), ColorActores(adivinada, secreta))
  }

  /** `es_correcto`: all four colours VERDE. */
  predicate EsCorrecto(c: Colores) {
    c.anio == Verde && c.genero == Verde && c.direccion == Verde && c.actores == Verde
  }

  lemma EvaluarSimetrico(a: Pelicula, s: Pelicula)
    ensures Evaluar(a, s) == Evaluar(s, a)
  {
    ColorAnioSimetrico(a, s);
    ColorGeneroSimetrico(a, s);
    ColorDirectorSimetrico(a, s);
    ColorActoresSimetrico(a, s);
  }

  /** The colours read only the year, genre, director and cast fields. */
  lemma EvaluarSoloCampos(a: Pelicula, b: Pelicula, s: Pelicula)
    requires a.anio == b.anio && a.genero == b.genero && a.director == b.director && a.actores == b.actores
    ensures Evaluar(a, s) == Evaluar(b, s)
  {
    GeneroSoloCampos(a, b, s);
    ActoresSoloCampos(a, b, s);
    DirectorSoloCampos(a, b, s);
  }

  lemma GeneroSoloCampos(a: Pelicula, b: Pelicula, s: Pelicula)
    requires a.genero == b.genero
    ensures ColorGenero(a, s) == ColorGenero(b, s)
  {
    assert ListaGeneros(a) == ListaGeneros(b);
  }

  lemma ActoresSoloCampos(a: Pelicula, b: Pelicula, s: Pelicula)
    requires a.actores == b.actores
    ensures ColorActores(a, s) == ColorActores(b, s)
  {
    assert ListaActores(a) == ListaActores(b);
  }

  lemma DirectorSoloCampos(a: Pelicula, b: Pelicula, s: Pelicula)
    requires a.director == b.director
    ensures ColorDirector(a, s) == ColorDirector(b, s)
  {
  }

  /**
   * Guessing the secret movie itself is correct only when it lists a genre
   * and at least two distinct normalised actors.
   */
  lemma CorrectoConsigoMisma(p: Pelicula)
    ensures EsCorrecto(Evaluar(p, p)) <==> ListaGeneros(p) != [] && |Normalizados(ListaActores(p))| >= 2
  {
    assert ActoresComunes(p, p) == Normalizados(ListaActores(p));
  }

  /**
   * A different movie with the same year, genres, director and cast is
   * judged correct too: correctness is not identity of the movies.
   */
  lemma CorrectoSinSerLaMisma(p: Pelicula, id: nat, titulo: string)
    requires ListaGeneros(p) != [] && |Normalizados(ListaActores(p))| >= 2
    ensures var q := p.(id := id, titulo := titulo);
      EsCorrecto(Evaluar(q, p)) && (id != p.id ==> q != p)
  {
    CorrectoConsigoMisma(p);
    EvaluarSoloCampos(p.(id := id, titulo := titulo), p, p);
  }

  /** What one registration returns. */
  datatype ResultadoIntento = ResultadoIntento(
    intentoId: nat,
    numeroIntento: nat,
    colorGenero: ColorCategoria,
    colorAnio: ColorCategoria,
    colorDireccion: ColorCategoria,
    colorActores: ColorCategoria,
    esCorrecto: bool,
    estadoPartida: EstadoPartida,
    intentosRestantes: nat)
}
