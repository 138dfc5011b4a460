/**
 * The OMDb field parsers and the mapping of an OMDb record to the fields of
 * a movie (`moviegame/services/omdb.py`). OMDb sends every field as text,
 * with "N/A" for a missing value; each parser turns that text into a number
 * or a fallback, and the mapping assembles the ten attributes the catalogue
 * stores. A JSON field that is absent is `None`.
 */
module Omdb {
  import opened Base
  import opened Texto

  /** `not value or value == "N/A"`: absent, empty, or OMDb's placeholder. */
  predicate NoDisponible(v: Option<string>) {
    v.None? || v.value == "" || v.value == "N/A"
  }

  /** The en dash OMDb writes in year ranges such as "2010–2014". */
  const GuionLargo: char := '\U{2013}'

  /** A text that opens with a digit is not the placeholder. */
  lemma NoEsNA(s: string)
    requires |s| > 0 && EsDigito(s[0])
    ensures s != "N/A"
  {
    assert "N/A"[0] == 'N';
  }

  lemma DigitosSin(s: string, c: char)
    requires forall i :: 0 <= i < |s| ==> EsDigito(s[i])
    requires !EsDigito(c)
    ensures c !in s
  {
  }

  /** Cutting at `sep` keeps a prefix that has no `sep`. */
  lemma {:induction false} AntesDeConserva(s: string, a: string, sep: char)
    requires sep !in a && |a| <= |s| && s[..|a|] == a
    ensures |AntesDe(s, sep)| >= |a|
    decreases |a|
  {
    if |a| > 0 {
      assert s[0] == a[0] && a[0] in a;
      assert s[1..][..|a| - 1] == a[1..];
      AntesDeConserva(s[1..], a[1..], sep);
    }
  }

  // ---------------------------------------------------------------------
  // _int_year, _parse_runtime_min, _parse_int
  // ---------------------------------------------------------------------

  /** `_int_year`: the integer before the first en dash, then before the first hyphen; 0 when missing or unreadable. */
  function IntYear(v: Option<string>): (r: int)
    ensures r >= 0
  {
    if NoDisponible(v) then 0
    else
      var pieza := AntesDe(AntesDe(v.value, GuionLargo), '-');
      PyIntNegativo(pieza);
      match PyInt(pieza)
      case Some(n) => n
      case None => 0
  }

  /** A year written alone reads as that year. */
  lemma IntYearSolo(y: nat)
    ensures IntYear(Some(MostrarNat(y))) == y
  {
    var d := MostrarNat(y);
    DigitosSin(d, GuionLargo);
    DigitosSin(d, '-');
    NoEsNA(d);
    PyIntMostrar(y);
    AntesDeAusente(d, GuionLargo);
    AntesDeAusente(d, '-');
  }

  /** A year opening a range ("2010–2014", "1999-"), with an en dash or a hyphen, reads as that year. */
  lemma IntYearRango(y: nat, c: char, resto: string)
    requires c == GuionLargo || c == '-'
    ensures IntYear(Some(MostrarNat(y) + [c] + resto)) == y
  {
    var d := MostrarNat(y);
    var s := d + [c] + resto;
    DigitosSin(d, GuionLargo);
    DigitosSin(d, '-');
    assert s[0] == d[0];
    assert s[..|d|] == d && s[|d|] == c;
    if c == GuionLargo {
      CorteGuionLargo(s, d);
    } else {
      CorteGuion(s, d);
    }
    IntYearCorte(s, y);
  }

  lemma IntYearCorte(s: string, y: nat)
    requires |s| > 0 && EsDigito(s[0])
    requires AntesDe(AntesDe(s, GuionLargo), '-') == MostrarNat(y)
    ensures IntYear(Some(s)) == y
  {
    NoEsNA(s);
    PyIntMostrar(y);
  }

  lemma CorteGuionLargo(s: string, d: string)
    requires GuionLargo !in d && '-' !in d && |d| < |s| && s[..|d|] == d && s[|d|] == GuionLargo
    ensures AntesDe(AntesDe(s, GuionLargo), '-') == d
  {
    AntesDePrefijo(s, d, GuionLargo);
    AntesDeAusente(d, '-');
  }

  lemma CorteGuion(s: string, d: string)
    requires GuionLargo !in d && '-' !in d && |d| < |s| && s[..|d|] == d && s[|d|] == '-'
    ensures AntesDe(AntesDe(s, GuionLargo), '-') == d
  {
    var a := s[..|d| + 1];
    assert a == d + ['-'];
    assert GuionLargo !in a;
    AntesDeConserva(s, a, GuionLargo);
    var t := AntesDe(s, GuionLargo);
    assert t[..|d|] == d && t[|d|] == '-';
    AntesDePrefijo(t, d, '-');
  }

  /** `_parse_runtime_min`: the first whitespace-separated token as an integer; 0 when missing or unreadable. */
  function RuntimeMin(v: Option<string>): (r: int)
    ensures NoDisponible(v) ==> r == 0
    ensures r != 0 ==> !NoDisponible(v) && Palabras(v.value) != [] && PyInt(Palabras(v.value)[0]) == Some(r)
  {
    if NoDisponible(v) then 0
    else
      var palabras := Palabras(v.value);
      if palabras == [] then 0
      else match PyInt(palabras[0])
        case Some(n) => n
        case None => 0
  }

  /** "136 min" reads as 136: a number followed by whitespace and anything, or alone. */
  lemma RuntimeMinutos(n: nat, resto: string)
    requires resto == [] || EsEspacio(resto[0])
    ensures RuntimeMin(Some(MostrarNat(n) + resto)) == n
  {
    PyIntMostrar(n);
    RuntimeNumero(MostrarNat(n), resto, n);
  }

  /** A number `int` reads as `v`, followed by whitespace or nothing, reads as `v` minutes. */
  lemma RuntimeNumero(d: string, resto: string, v: int)
    requires EsNumero(d) && PyInt(d) == Some(v) && (resto == [] || EsEspacio(resto[0]))
    ensures RuntimeMin(Some(d + resto)) == v
  {
    var s := d + resto;
    PrimeraPalabraNumero(d, resto);
    NoEsNA(s);
    assert !NoDisponible(Some(s));
    var ps := Palabras(s);
    assert ps != [] && ps[0] == d;
    assert PyInt(ps[0]) == Some(v);
  }

  /** A number followed by whitespace or nothing is the first word. */
  lemma PrimeraPalabraNumero(d: string, resto: string)
    requires EsNumero(d) && (resto == [] || EsEspacio(resto[0]))
    ensures |d + resto| > 0 && EsDigito((d + resto)[0])
    ensures Palabras(d + resto) != [] && Palabras(d + resto)[0] == d
  {
    NumeroSinEspacios(d);
    var s := d + resto;
    assert s[0] == d[0];
    TokenPrefijo(d, resto);
    PalabrasPrimera(s);
  }

  lemma NumeroSinEspacios(d: string)
    requires EsNumero(d)
    ensures SinEspacios(d)
  {
    forall i | 0 <= i < |d| ensures !EsEspacio(d[i]) {
      assert EsDigito(d[i]);
    }
  }

  /** `_parse_int`: the integer once every comma is removed; `None` when missing or unreadable. */
  function ParseInt(v: Option<string>): (r: Option<int>)
    ensures NoDisponible(v) ==> r.None?
    ensures r.Some? ==> !NoDisponible(v) && PyInt(Quitar(v.value, ',')) == r
  {
    if NoDisponible(v) then None else PyInt(Quitar(v.value, ','))
  }

  lemma ValorUno(c: char)
    requires EsDigito(c)
    ensures ValorDigitos([c]) == ValorDigito(c)
  {
    assert [c][..0] == [];
  }

  lemma ValorTres(x: nat, y: nat, z: nat)
    requires x < 10 && y < 10 && z < 10
    ensures ValorDigitos([CharDigito(x), CharDigito(y), CharDigito(z)]) == 100 * x + 10 * y + z
  {
    var a, b, c := CharDigito(x), CharDigito(y), CharDigito(z);
    ValorUno(a);
    ValorUno(b);
    ValorUno(c);
    ValorDigitosConcat([a], [b]);
    ValorDigitosConcat([a, b], [c]);
    assert [a] + [b] == [a, b] && [a, b] + [c] == [a, b, c];
    assert Pot10(1) == 10;
  }

  lemma CifrasTres(k: nat)
    requires k < 1000
    ensures k / 100 < 10 && k / 10 % 10 < 10 && k == 100 * (k / 100) + 10 * (k / 10 % 10) + k % 10
  {
  }

  /** Three digits, with leading zeros: a group after a thousands separator. */
  function Tres(k: nat): (r: string)
    requires k < 1000
    ensures |r| == 3 && EsNumero(r) && ValorDigitos(r) == k
  {
    CifrasTres(k);
    ValorTres(k / 100, k / 10 % 10, k % 10);
    [CharDigito(k / 100), CharDigito(k / 10 % 10), CharDigito(k % 10)]
  }

  /** A comma followed by digits disappears from `replace(",", "")`, leaving the digits after what came before. */
  lemma QuitarComa(a: string, t: string)
    requires ',' !in t
    ensures Quitar(a + [','] + t, ',') == Quitar(a, ',') + t
  {
    var b := [','] + t;
    assert a + [','] + t == a + b;
    QuitarConcat(a, b, ',');
    assert b[1..] == t;
    QuitarAusente(t, ',');
  }

  lemma AgruparPaso(a: string, t: string, n: nat)
    requires |a| > 0 && EsDigito(a[0]) && EsNumero(Quitar(a, ',')) && ValorDigitos(Quitar(a, ',')) == n / 1000
    requires |t| == 3 && EsNumero(t) && ValorDigitos(t) == n % 1000
    ensures var r := a + [','] + t; |r| > 0 && EsDigito(r[0])
    ensures var r := a + [','] + t; EsNumero(Quitar(r, ',')) && ValorDigitos(Quitar(r, ',')) == n
  {
    var q := Quitar(a, ',');
    DigitosSin(t, ',');
    QuitarComa(a, t);
    ValorDigitosConcat(q, t);
    assert Pot10(3) == 1000;
    assert EsNumero(q + t);
  }

  /** A natural number written with comma thousands separators, as OMDb writes vote counts ("1,234,567"). */
  function Agrupar(n: nat): (r: string)
    ensures |r| > 0 && EsDigito(r[0])
    ensures EsNumero(Quitar(r, ',')) && ValorDigitos(Quitar(r, ',')) == n
  {
    if n < 1000 then
      var d := MostrarNat(n);
      DigitosSin(d, ',');
      QuitarAusente(d, ',');
      ValorMostrarNat(n);
      d
    else
      var a := Agrupar(n / 1000);
      var t := Tres(n % 1000);
      AgruparPaso(a, t, n);
      a + [','] + t
  }

  /** Vote counts with thousands separators read back as their value. */
  lemma ParseIntAgrupar(n: nat)
    ensures ParseInt(Some(Agrupar(n))) == Some(n)
  {
    NoEsNA(Agrupar(n));
    PyIntNumero(Quitar(Agrupar(n), ','));
  }

  // ---------------------------------------------------------------------
  // _parse_decimal
  // ---------------------------------------------------------------------

  /**
   * A value of Python's `Decimal`: a finite number keeps its sign, its
   * coefficient and its exponent ("8.70" is 870 × 10^-2); the infinities;
   * the NaNs (quiet or signalling, with any payload) as one value.
   */
  datatype Decimal = Finito(negativo: bool, coeficiente: nat, exponente: int) | Infinito(negativo: bool) | NoNumero

  /** The exact value of a finite decimal. */
  function Valor(d: Decimal): real
    requires d.Finito?
  {
    var m := if d.negativo then -(d.coeficiente as real) else d.coeficiente as real;
    if d.exponente >= 0 then m * (Pot10(d.exponente) as real) else m / (Pot10(-d.exponente) as real)
  }

  predicate DigitosOVacio(s: string) {
    s == [] || EsNumero(s)
  }

  /** The exponent after `e`: an optional sign, then digits. */
  function LeerExponente(s: string): Option<int>
  {
    if |s| > 0 && (s[0] == '+' || s[0] == '-') then
      if EsNumero(s[1..]) then Some(if s[0] == '-' then -(ValorDigitos(s[1..]) as int) else ValorDigitos(s[1..]))
      else None
    else if EsNumero(s) then Some(ValorDigitos(s))
    else None
  }

  /** A finite decimal without its sign: digits with an optional point (not alone), then an optional exponent. */
  function LeerFinito(negativo: bool, r: string): Option<Decimal>
  {
    var mantisa := AntesDe(r, 'e');
    var exponente := if |mantisa| == |r| then Some(0) else LeerExponente(r[|mantisa| + 1..]);
    var entera := AntesDe(mantisa, '.');
    var fraccion := if |entera| == |mantisa| then "" else mantisa[|entera| + 1..];
    if exponente.Some? && DigitosOVacio(entera) && DigitosOVacio(fraccion) && (entera != "" || fraccion != "") then
      Some(Finito(negativo, ValorDigitos(entera + fraccion), exponente.value - |fraccion|))
    else None
  }

  /** The numeric-string grammar `Decimal` accepts, on lower-cased text with no underscores. */
  function LeerDecimal(u: string): Option<Decimal>
  {
    var negativo := |u| > 0 && u[0] == '-';
    var r := if |u| > 0 && (u[0] == '+' || u[0] == '-') then u[1..] else u;
    if r == "inf" || r == "infinity" then Some(Infinito(negativo))
    else if (|r| >= 3 && r[..3] == "nan" && DigitosOVacio(r[3..]))
         || (|r| >= 4 && r[..4] == "snan" && DigitosOVacio(r[4..])) then Some(NoNumero)
    else LeerFinito(negativo, r)
  }

  /**
   * `_parse_decimal`: `Decimal(value)`, which ignores surrounding whitespace
   * and underscores and reads letters in either case; `None` when missing or
   * when `Decimal` raises.
   */
  function ParseDecimal(v: Option<string>): (r: Option<Decimal>)
    ensures NoDisponible(v) ==> r.None?
  {
    if NoDisponible(v) then None
    else LeerDecimal(Minusculas(Quitar(Recortar(v.value), '_')))
  }

  lemma MinusculasFija(s: string)
    requires forall i :: 0 <= i < |s| ==> !('A' <= s[i] <= 'Z')
    ensures Minusculas(s) == s
  {
  }

  /** Digits and points need no cleaning: stripping, dropping underscores and lower-casing leave them as they are. */
  lemma Limpio(s: string)
    requires |s| > 0 && EsDigito(s[0]) && EsDigito(s[|s| - 1])
    requires forall i :: 0 <= i < |s| ==> EsDigito(s[i]) || s[i] == '.'
    ensures ParseDecimal(Some(s)) == LeerDecimal(s)
  {
    NoEsNA(s);
    RecortarFijo(s);
    QuitarAusente(s, '_');
    MinusculasFija(s);
  }

  /** Text opening with a digit has no sign and is neither an infinity nor a NaN, so it is read as a finite number. */
  lemma LeerDecimalDigito(u: string)
    requires |u| > 0 && EsDigito(u[0])
    ensures LeerDecimal(u) == LeerFinito(false, u)
  {
    assert "inf"[0] == 'i' && "infinity"[0] == 'i' && "nan"[0] == 'n' && "snan"[0] == 's';
    assert |u| >= 3 ==> u[..3][0] == u[0];
    assert |u| >= 4 ==> u[..4][0] == u[0];
  }

  /** Digits, a point and digits: no exponent, the integer and fractional digits around the point. */
  lemma LeerPunto(e: string, f: string)
    requires EsNumero(e) && EsNumero(f)
    ensures LeerFinito(false, e + "." + f) == Some(Finito(false, ValorDigitos(e + f), -|f|))
  {
    PuntoPartes(e, f);
    LeerFinitoPartes(e + "." + f, e, f);
  }

  /** "e.f" has no exponent, and its point splits it into `e` and `f`. */
  lemma PuntoPartes(e: string, f: string)
    requires EsNumero(e) && EsNumero(f)
    ensures var s := e + "." + f;
      AntesDe(s, 'e') == s && AntesDe(s, '.') == e && |e| < |s| && s[|e| + 1..] == f
  {
    var s := e + "." + f;
    DigitosSin(e, 'e');
    DigitosSin(f, 'e');
    DigitosSin(e, '.');
    assert 'e' !in s;
    AntesDeAusente(s, 'e');
    assert s[..|e|] == e && s[|e|] == '.';
    AntesDePrefijo(s, e, '.');
    assert s[|e| + 1..] == f;
  }

  lemma LeerFinitoPartes(s: string, e: string, f: string)
    requires EsNumero(e) && EsNumero(f)
    requires AntesDe(s, 'e') == s && AntesDe(s, '.') == e && |e| < |s| && s[|e| + 1..] == f
    ensures LeerFinito(false, s) == Some(Finito(false, ValorDigitos(e + f), -|f|))
  {
  }

  /** "entera.fraccion" reads as the exact decimal with those digits and `|fraccion|` of them after the point. */
  lemma ParseDecimalPunto(e: string, f: string)
    requires EsNumero(e) && EsNumero(f)
    ensures ParseDecimal(Some(e + "." + f)) == Some(Finito(false, ValorDigitos(e + f), -|f|))
  {
    var s := e + "." + f;
    forall i | 0 <= i < |s| ensures EsDigito(s[i]) || s[i] == '.' {
      if i < |e| {
        assert s[i] == e[i];
      } else if i > |e| {
        assert s[i] == f[i - |e| - 1];
      }
    }
    assert s[0] == e[0] && s[|s| - 1] == f[|f| - 1];
    Limpio(s);
    LeerDecimalDigito(s);
    LeerPunto(e, f);
  }

  /** A finite decimal with a negative exponent is its coefficient over a power of ten. */
  lemma ValorFraccion(c: nat, k: nat)
    requires k > 0
    ensures Valor(Finito(false, c, -(k as int))) == (c as real) / (Pot10(k) as real)
  {
  }

  lemma DividirSuma(a: nat, p: nat, b: nat)
    requires p > 0
    ensures ((a * p + b) as real) / (p as real) == (a as real) + (b as real) / (p as real)
  {
    assert (a * p + b) as real == (a as real) * (p as real) + (b as real);
  }

  /** The value read from "entera.fraccion" is the integer part plus the fraction over `10^|fraccion|`. */
  lemma ValorPunto(e: string, f: string)
    requires EsNumero(e) && EsNumero(f)
    ensures Valor(Finito(false, ValorDigitos(e + f), -|f|))
         == (ValorDigitos(e) as real) + (ValorDigitos(f) as real) / (Pot10(|f|) as real)
  {
    ValorDigitosConcat(e, f);
    ValorFraccion(ValorDigitos(e + f), |f|);
    DividirSuma(ValorDigitos(e), Pot10(|f|), ValorDigitos(f));
  }

  // ---------------------------------------------------------------------
  // mapear_a_pelicula_dict
  // ---------------------------------------------------------------------

  /** The OMDb fields the mapping reads. */
  datatype OmdbJson = OmdbJson(
    title: Option<string>, year: Option<string>, genre: Option<string>, director: Option<string>,
    actors: Option<string>, imdbID: Option<string>, poster: Option<string>, runtime: Option<string>,
    imdbRating: Option<string>, imdbVotes: Option<string>)

  /** The ten attributes `mapear_a_pelicula_dict` returns. */
  datatype PeliculaDict = PeliculaDict(
    titulo: string, anio: int, genero: string, director: string, actores: string,
    imdbId: Option<string>, posterUrl: string, duracionMin: int,
    imdbRating: Option<Decimal>, imdbVotes: Option<int>)

  /** `safe`: a missing value or "N/A" becomes the empty string. */
  function Seguro(x: Option<string>): (r: string)
    ensures r != "N/A"
    ensures r == "" <==> NoDisponible(x)
    ensures !NoDisponible(x) ==> r == x.value
  {
    if x.None? || x.value == "N/A" then "" else x.value
  }

  /** `mapear_a_pelicula_dict`. */
  function Mapear(j: OmdbJson): (r: PeliculaDict)
    ensures Recortada(r.titulo) && r.anio >= 0
    ensures r.genero != "N/A" && r.director != "N/A" && r.actores != "N/A" && r.posterUrl != "N/A"
    ensures r.imdbId.None? <==> NoDisponible(j.imdbID)
  {
    IdDisponible(j.imdbID);
    PeliculaDict(
      Recortar(Seguro(j.title)),
      IntYear(j.year),
      Seguro(j.genre),
      Seguro(j.director),
      Seguro(j.actors),
      if Seguro(j.imdbID) == "" then None else Some(Seguro(j.imdbID)),
      Seguro(j.poster),
      RuntimeMin(j.runtime),
      ParseDecimal(j.imdbRating),
      ParseInt(j.imdbVotes))
  }

  /**
   * The mapped title is stripped, the year is never negative, no text field
   * keeps the placeholder, and the id is kept exactly when it is available.
   */
  lemma MapearLimpio(j: OmdbJson)
    ensures var r := Mapear(j);
      && Recortada(r.titulo) && r.anio >= 0
      && r.genero != "N/A" && r.director != "N/A" && r.actores != "N/A" && r.posterUrl != "N/A"
      && (r.imdbId.None? <==> NoDisponible(j.imdbID))
      && (r.imdbId.Some? ==> r.imdbId == j.imdbID)
  {
    IdDisponible(j.imdbID);
  }

  lemma IdDisponible(x: Option<string>)
    ensures var id := if Seguro(x) == "" then None else Some(Seguro(x));
      && (id.None? <==> NoDisponible(x))
      && (id.Some? ==> id == x)
  {
  }

  /** A record OMDb could send for these attributes: the year and runtime as numbers, the votes grouped, the rating with a point. */
  predicate Representable(d: PeliculaDict) {
    && Recortada(d.titulo) && d.titulo != "N/A"
    && d.genero != "N/A" && d.director != "N/A" && d.actores != "N/A" && d.posterUrl != "N/A"
    && (d.imdbId.Some? ==> !NoDisponible(d.imdbId))
    && d.anio >= 0 && d.duracionMin >= 0
    && (d.imdbRating.Some? ==>
          d.imdbRating.value.Finito? && !d.imdbRating.value.negativo && d.imdbRating.value.exponente == -1)
    && (d.imdbVotes.Some? ==> d.imdbVotes.value >= 0)
  }

  /** The text OMDb sends for a rating of `c` tenths: "8.7". */
  function MostrarDecima(c: nat): string
  {
    MostrarNat(c / 10) + "." + [CharDigito(c % 10)]
  }

  /** The OMDb record for a movie's attributes, "N/A" standing for each missing value. */
  function AJson(d: PeliculaDict): OmdbJson
    requires Representable(d)
  {
    OmdbJson(
      Some(d.titulo), Some(MostrarNat(d.anio as nat)), Some(d.genero), Some(d.director), Some(d.actores),
      if d.imdbId.Some? then d.imdbId else Some("N/A"),
      Some(d.posterUrl), Some(MostrarNat(d.duracionMin as nat) + " min"),
      if d.imdbRating.Some? then Some(MostrarDecima(d.imdbRating.value.coeficiente)) else Some("N/A"),
      if d.imdbVotes.Some? then Some(Agrupar(d.imdbVotes.value as nat)) else Some("N/A"))
  }

  /** A rating written with one decimal reads back as that many tenths. */
  lemma ParseDecima(c: nat)
    ensures ParseDecimal(Some(MostrarDecima(c))) == Some(Finito(false, c, -1))
  {
    var e := MostrarNat(c / 10);
    var f := [CharDigito(c % 10)];
    assert MostrarDecima(c) == e + "." + f;
    ParseDecimalPunto(e, f);
    ValorDecima(e, c);
  }

  lemma ValorDecima(e: string, c: nat)
    requires e == MostrarNat(c / 10)
    ensures ValorDigitos(e + [CharDigito(c % 10)]) == c
  {
    var f := [CharDigito(c % 10)];
    ValorDigitosConcat(e, f);
    ValorMostrarNat(c / 10);
    assert ValorDigitos(f) == c % 10 by {
      assert f[..0] == [];
    }
    assert Pot10(1) == 10;
  }

  /** A present text other than the placeholder passes `safe` unchanged. */
  lemma SeguroPresente(x: string)
    requires x != "N/A"
    ensures Seguro(Some(x)) == x
  {
  }

  /** A missing, empty or "N/A" value reads as 0 for the year and the runtime, and as `None` for the votes and the rating. */
  lemma SinValor(v: Option<string>)
    requires NoDisponible(v)
    ensures IntYear(v) == 0 && RuntimeMin(v) == 0 && ParseInt(v).None? && ParseDecimal(v).None?
  {
  }

  lemma FaltaNA()
    ensures NoDisponible(Some("N/A")) && Seguro(Some("N/A")) == ""
    ensures ParseDecimal(Some("N/A")).None? && ParseInt(Some("N/A")).None?
  {
  }

  /** Mapping the record OMDb would send for a movie's attributes gives back those attributes. */
  lemma MapearAJson(d: PeliculaDict)
    requires Representable(d)
    ensures Mapear(AJson(d)) == d
  {
    TextosDeVuelta(d);
    NumerosDeVuelta(d);
    IdDeVuelta(d.imdbId);
    NotaDeVuelta(d.imdbRating);
    VotosDeVuelta(d.imdbVotes);
    MapearCampos(AJson(d), d);
  }

  lemma TextosDeVuelta(d: PeliculaDict)
    requires Representable(d)
    ensures var j := AJson(d);
      && Recortar(Seguro(j.title)) == d.titulo
      && Seguro(j.genre) == d.genero && Seguro(j.director) == d.director && Seguro(j.actors) == d.actores
      && Seguro(j.poster) == d.posterUrl
  {
    RecortarFijo(d.titulo);
  }

  lemma NumerosDeVuelta(d: PeliculaDict)
    requires Representable(d)
    ensures IntYear(AJson(d).year) == d.anio && RuntimeMin(AJson(d).runtime) == d.duracionMin
  {
    IntYearSolo(d.anio as nat);
    RuntimeMinutos(d.duracionMin as nat, " min");
  }

  /** `mapear_a_pelicula_dict` field by field. */
  lemma MapearCampos(j: OmdbJson, d: PeliculaDict)
    requires Recortar(Seguro(j.title)) == d.titulo && IntYear(j.year) == d.anio
    requires Seguro(j.genre) == d.genero && Seguro(j.director) == d.director && Seguro(j.actors) == d.actores
    requires (if Seguro(j.imdbID) == "" then None else Some(Seguro(j.imdbID))) == d.imdbId
    requires Seguro(j.poster) == d.posterUrl && RuntimeMin(j.runtime) == d.duracionMin
    requires ParseDecimal(j.imdbRating) == d.imdbRating && ParseInt(j.imdbVotes) == d.imdbVotes
    ensures Mapear(j) == d
  {
  }

  /** The id OMDb sends, "N/A" when there is none, reads back as the id. */
  lemma IdDeVuelta(id: Option<string>)
    requires id.Some? ==> !NoDisponible(id)
    ensures var x := if id.Some? then id else Some("N/A");
      (if Seguro(x) == "" then None else Some(Seguro(x))) == id
  {
    FaltaNA();
  }

  /** The rating OMDb sends, "N/A" when there is none, reads back as the rating. */
  lemma NotaDeVuelta(nota: Option<Decimal>)
    requires nota.Some? ==> nota.value.Finito? && !nota.value.negativo && nota.value.exponente == -1
    ensures ParseDecimal(if nota.Some? then Some(MostrarDecima(nota.value.coeficiente)) else Some("N/A")) == nota
  {
    FaltaNA();
    if nota.Some? {
      ParseDecima(nota.value.coeficiente);
    }
  }

  /** The vote count OMDb sends, "N/A" when there is none, reads back as the count. */
  lemma VotosDeVuelta(votos: Option<int>)
    requires votos.Some? ==> votos.value >= 0
    ensures ParseInt(if votos.Some? then Some(Agrupar(votos.value as nat)) else Some("N/A")) == votos
  {
    FaltaNA();
    if votos.Some? {
      ParseIntAgrupar(votos.value as nat);
    }
  }
}
