/**
 * One line of the title file read by the `omdb_seed` command
 * (`moviegame/management/commands/omdb_seed.py`): either an IMDb id
 * ("tt6751668"), or "Title;Year", or a bare title; blank lines and comments
 * give an empty title. The year is kept only when it is written in digits.
 */
module SemillaOmdb {
  import opened Base
  import opened Texto

  /** What `parse_line` returns: the text to look up and the year, if any. */
  datatype Linea = Linea(texto: string, anio: Option<nat>)

  predicate EmpiezaPorTt(s: string) {
    |s| >= 2 && s[0] == 't' && s[1] == 't'
  }

  /** `parse_line`. */
  function ParseLine(linea: string): (r: Linea)
    ensures Recortada(r.texto)
    ensures r.anio.Some? ==> ';' !in r.texto && ';' in linea
  {
    var l := Recortar(linea);
    if l == [] || l[0] == '#' then Linea("", None)
    else if EmpiezaPorTt(l) then Linea(l, None)
    else if ';' in l then
      RecortarSubcadena(linea, ';');
      Dividir(l)
    else Linea(l, None)
  }

  /** `line.split(";", 1)`, then both halves stripped; the year kept only when it is all digits. */
  function Dividir(l: string): (r: Linea)
    requires ';' in l
    ensures Recortada(r.texto)
    ensures r.anio.Some? ==> ';' !in r.texto
  {
    var t := AntesDe(l, ';');
    var y := Recortar(l[|t| + 1..]);
    Linea(Recortar(t), if EsNumero(y) then Some(ValorDigitos(y)) else None)
  }

  /** Blank lines and comment lines are skipped: they give an empty title and no year. */
  lemma ParseLineOmitida(linea: string)
    requires Recortar(linea) == [] || Recortar(linea)[0] == '#'
    ensures ParseLine(linea) == Linea("", None)
  {
  }

  /** A line that opens with "tt" is an IMDb id and is kept whole, even when it has a ';'. */
  lemma ParseLineId(linea: string)
    requires EmpiezaPorTt(Recortar(linea))
    ensures ParseLine(linea) == Linea(Recortar(linea), None)
  {
  }

  /** Any other line without ';' is a title with no year. */
  lemma ParseLineTitulo(linea: string)
    requires var l := Recortar(linea); l != [] && l[0] != '#' && !EmpiezaPorTt(l) && ';' !in l
    ensures ParseLine(linea) == Linea(Recortar(linea), None)
  {
  }

  /** A year that is not all digits is dropped, while the title before the ';' is kept. */
  lemma ParseLineSinAnio(linea: string)
    requires var l := Recortar(linea); l != [] && l[0] != '#' && !EmpiezaPorTt(l) && ';' in l
    requires var l := Recortar(linea); !EsNumero(Recortar(l[|AntesDe(l, ';')| + 1..]))
    ensures ParseLine(linea) == Linea(Recortar(AntesDe(Recortar(linea), ';')), None)
  {
  }

  /** "Title;Year" reads back as that title and year: the line splits at its first ';'. */
  lemma ParseLineTituloAnio(titulo: string, anio: nat)
    requires titulo != [] && Recortada(titulo) && ';' !in titulo
    requires titulo[0] != '#' && !EmpiezaPorTt(titulo)
    ensures ParseLine(titulo + ";" + MostrarNat(anio)) == Linea(titulo, Some(anio))
  {
    var d := MostrarNat(anio);
    var s := titulo + ";" + d;
    assert s[0] == titulo[0] && EmpiezaPorTt(s) == EmpiezaPorTt(titulo);
    assert s[|s| - 1] == d[|d| - 1] && EsDigito(d[|d| - 1]);
    assert s[|titulo|] == ';';
    ParseLineFija(s);
    DividirTituloAnio(titulo, anio);
  }

  /** A stripped line with a ';' that is neither a comment nor an id is split at the ';'. */
  lemma ParseLineFija(s: string)
    requires Recortada(s) && s != [] && s[0] != '#' && !EmpiezaPorTt(s) && ';' in s
    ensures ParseLine(s) == Dividir(s)
  {
    RecortarFijo(s);
  }

  lemma DividirTituloAnio(titulo: string, anio: nat)
    requires Recortada(titulo) && ';' !in titulo
    ensures Dividir(titulo + ";" + MostrarNat(anio)) == Linea(titulo, Some(anio))
  {
    var d := MostrarNat(anio);
    var s := titulo + ";" + d;
    assert s[..|titulo|] == titulo && s[|titulo|] == ';';
    AntesDePrefijo(s, titulo, ';');
    assert s[|titulo| + 1..] == d;
    RecortarFijo(titulo);
    MostrarRecortado(anio);
    DividirTitulo(s, titulo);
    DividirAnio(s, titulo, d, Recortar(d));
  }

  /** `str(n).strip()` is still the digits of `n`. */
  lemma MostrarRecortado(n: nat)
    ensures EsNumero(Recortar(MostrarNat(n))) && ValorDigitos(Recortar(MostrarNat(n))) == n
  {
    var d := MostrarNat(n);
    assert EsDigito(d[0]) && EsDigito(d[|d| - 1]);
    RecortarFijo(d);
    ValorMostrarNat(n);
  }

  lemma DividirTitulo(s: string, titulo: string)
    requires ';' in s && AntesDe(s, ';') == titulo && Recortar(titulo) == titulo
    ensures Dividir(s).texto == titulo
  {
  }

  lemma DividirAnio(s: string, titulo: string, d: string, e: string)
    requires ';' in s && AntesDe(s, ';') == titulo && s[|titulo| + 1..] == d
    requires Recortar(d) == e && EsNumero(e)
    ensures Dividir(s).anio == Some(ValorDigitos(e))
  {
  }
}
