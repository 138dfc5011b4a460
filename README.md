# Movie-guessing game: a Dafny model of its core

The application is a daily movie-guessing game. Every day each player has
to guess a secret movie picked from the catalogue by a hash of the date.
Each guess is scored on four attributes (year, genre, director, cast) as
VERDE, AMARILLO or GRIS. Guesses are numbered and limited per game, and
winning or losing updates the player's streaks. Around this engine sit:

- parsers for the OMDb movie API and for seed files;
- two commands that build seed lists from the IMDb datasets;
- the search-box autocomplete.

This project models that core and proves what the code promises about it.

| file | module | models |
|---|---|---|
| `base.dfy` | `Base` | `Option`/`Result`, min/max, an order-keeping filter, sums |
| `texto.dfy` | `Texto` | the Python `str` operations the code uses: `strip`, `split(",")`, `split()`, `replace`, ASCII `lower`, `int()` |
| `ordenacion.dfy` | `Ordenacion` | Python's stable `sort(key=…)`, as an insertion sort on lexicographic integer keys |
| `modelos.dfy` | `Modelos` | the records, enums, defaults and uniqueness constraints; `lista_generos`, `lista_actores`, `__str__` |
| `servicio_juego.dfy` | `ServicioJuego` | `_norm`, `_apellido`, the daily selection, the four colour comparators, `es_correcto`, `ResultadoIntento` |
| `almacen.dfy` | `Almacen` | the database tables as a store with an invariant; `get_or_create`; `registrar_intento`; `game_view` (the missing-profile error, the staff redirect and `guess_now`); the class `BaseDeDatos`, which does all of these in place |
| `omdb.dfy` | `Omdb` | `_int_year`, `_parse_runtime_min`, `_parse_int`, `_parse_decimal`, `mapear_a_pelicula_dict` |
| `semilla_omdb.dfy` | `SemillaOmdb` | `parse_line` of the seed-file importer |
| `semilla_imdb.dfy` | `SemillaImdb` | `imdb_make_seed`: vote parsing, the top pool, the truncated result list |
| `semilla_curada.dfy` | `SemillaCurada` | `imdb_curated_seed`: `_decade`, the candidate filter, the buckets and their ordering |
| `curada_cupos.dfy` | `CuradaCupos` | `imdb_curated_seed`: the decade quotas and the loop that lends spare places |
| `curada_seleccion.dfy` | `CuradaSeleccion` | `imdb_curated_seed`: the genre-capped pass, the top-up pass and the final fill |
| `curada_comando.dfy` | `CuradaComando` | `imdb_curated_seed`: `handle` from the filter to the cut at `--top` |
| `autocompletar.dfy` | `Autocompletar` | the `api_autocomplete` merge rule |

The code comes in two styles, and the model keeps both:

- **Pure code is written as functions with lemmas.** This covers the name
  normalisation, the comparators, the parsers, the list helpers and the
  query expressions.
- **Code that works by mutation is written as methods with loop
  invariants.** Each method is proved equal to a specification function,
  and the properties are proved about that function.
  - In `registrar_intento`, the game, the player and the attempt tables are
    updated in place. They are fields of the `BaseDeDatos` class.
  - The IMDb commands build their lists and counters in place with `for`
    and `while` loops. These become methods.

Row ids are positions in the tables. The date's SHA-256 digest and the
current date are parameters.

## Model

| member | source | states |
|---|---|---|
| ServicioJuego.Norm | moviegame/services/game_service.py:26-29 | the normalised name is ASCII, stripped and has no capital letter |
| ServicioJuego.NormIdempotente | moviegame/services/game_service.py:26-29 | normalising a normalised name changes nothing |
| ServicioJuego.NormIgnoraMayusculas | moviegame/services/game_service.py:26-29 | two names that differ only in ASCII letter case normalise alike |
| ServicioJuego.EjemploNormAcento | moviegame/services/game_service.py:28 | the NFKD fold drops accents: "Ó" and "o" both normalise to "o" |
| ServicioJuego.Apellido | moviegame/services/game_service.py:31-33 | the surname has no whitespace; it is a suffix of the normalised name, preceded by whitespace unless it is the whole name; it is empty exactly when the normalised name is empty |
| ServicioJuego.ApellidoFinal | moviegame/services/game_service.py:31-33 | the surname is the final run of non-whitespace characters of the normalised name |
| ServicioJuego.UltimaDeRecortada | moviegame/services/game_service.py:31-33 | on a stripped name, the last word is a whitespace-free suffix, empty only for the empty name, and preceded by whitespace unless it is the whole name |
| ServicioJuego.ApellidoUltimaPalabra | moviegame/services/game_service.py:31-33 | for a non-empty normalised name, `split()[-1]` is its last word |
| ServicioJuego.IndiceDiario | moviegame/services/game_service.py:42-43 | for a non-empty catalogue, the digest modulo the catalogue size is a valid position |
| ServicioJuego.SeleccionarPeliculaDiaria | moviegame/services/game_service.py:36-44 | an empty catalogue is the error "no movies"; otherwise the movie is one of the catalogue; the date's digest alone decides it |
| ServicioJuego.SeleccionCubreCatalogo | moviegame/services/game_service.py:42-44 | every movie of the id-ordered catalogue is the movie of the day for some digest |
| ServicioJuego.ColorAnio | moviegame/services/game_service.py:46-51 | VERDE iff the years are equal; AMARILLO iff they differ by 1 or 2; GRIS iff they differ by more than 2 |
| ServicioJuego.ColorAnioSimetrico | moviegame/services/game_service.py:46-51 | the year colour does not depend on which movie is the guess |
| ServicioJuego.Plegar | moviegame/services/game_service.py:28 | the NFKD fold yields only ASCII characters and leaves ASCII text unchanged |
| ServicioJuego.ColorGenero | moviegame/services/game_service.py:53-62 | GRIS iff a genre list is empty or no normalised genre is shared; VERDE iff both lists are non-empty and the first genres agree ignoring case |
| ServicioJuego.ColorGeneros | moviegame/services/game_service.py:56-62 | the same two facts, stated on the two genre lists |
| ServicioJuego.ColorDirector | moviegame/services/game_service.py:64-69 | VERDE iff the normalised names are equal; AMARILLO only when both normalised names are non-empty |
| ServicioJuego.ColorActores | moviegame/services/game_service.py:71-79 | VERDE iff at least two normalised actors are shared; GRIS iff none is |
| ServicioJuego.Evaluar | moviegame/services/game_service.py:105-115 | a guess is correct iff it has the secret's year, both movies list a genre and their first genres agree ignoring case, the normalised directors are equal, and at least two normalised actors are shared |
| ServicioJuego.EsCorrecto | moviegame/services/game_service.py:110-115 | definition only: `es_ok` holds when all four colours are VERDE; what that means for the two movies is the contract of `Evaluar`, and `CorrectoConsigoMisma` and `CorrectoSinSerLaMisma` apply it |
| ServicioJuego.ColorGeneroCasos | moviegame/services/game_service.py:53-62 | GRIS iff a list is empty or no normalised genre is shared; VERDE iff both lists are non-empty and the first genres agree ignoring case; AMARILLO iff the first genres differ but a normalised genre is shared |
| ServicioJuego.ColorGenerosCasos | moviegame/services/game_service.py:55-62 | the same three cases, stated on the two genre lists |
| ServicioJuego.PrimerosComunes | moviegame/services/game_service.py:58-60 | first genres equal up to case share their normalised form, so VERDE never skips a shared genre |
| ServicioJuego.ColorGeneroSimetrico | moviegame/services/game_service.py:53-62 | the genre colour is symmetric |
| ServicioJuego.ColorGeneroPropio | moviegame/services/game_service.py:53-62 | a movie is VERDE on genre against itself iff it lists a genre |
| ServicioJuego.ColorDirectorCasos | moviegame/services/game_service.py:64-69 | VERDE iff the normalised names are equal; AMARILLO iff they differ, both are non-empty and their last words agree; GRIS otherwise |
| ServicioJuego.ColorDirectorSimetrico | moviegame/services/game_service.py:64-69 | the director colour is symmetric |
| ServicioJuego.ColorActoresCasos | moviegame/services/game_service.py:71-79 | VERDE iff at least two normalised actors are shared; AMARILLO iff exactly one is, and then some actor of each cast normalises alike; GRIS iff none is |
| ServicioJuego.ActorComun | moviegame/services/game_service.py:75-78 | a shared normalised actor comes from an actor of each cast whose names normalise alike |
| ServicioJuego.ColorActoresSimetrico | moviegame/services/game_service.py:71-79 | the cast colour is symmetric |
| ServicioJuego.EvaluarSimetrico | moviegame/services/game_service.py:105-108 | all four colours are symmetric in guess and secret |
| ServicioJuego.EvaluarSoloCampos | moviegame/services/game_service.py:105-108 | the colours read only year, genre, director and cast |
| ServicioJuego.CorrectoConsigoMisma | moviegame/services/game_service.py:110-115 | guessing the secret itself is correct iff it lists a genre and at least two distinct normalised actors |
| ServicioJuego.CorrectoSinSerLaMisma | moviegame/services/game_service.py:110-115 | a different movie (other id and title) with the same four fields is judged correct: correctness is not identity |
| Modelos.PiezasLimpias | moviegame/models.py:35-39 | every item `lista_generos` or `lista_actores` returns is non-empty, stripped and free of commas |
| Modelos.Piezas | moviegame/models.py:35-39 | every item is non-empty, stripped and free of commas, and there are never more items than comma-separated pieces |
| Modelos.ListaGeneros | moviegame/models.py:35-36 | every genre is non-empty, stripped and free of commas; there is none iff the field holds only commas and whitespace |
| Modelos.ListaActores | moviegame/models.py:38-39 | every actor is non-empty, stripped and free of commas; there is none iff the field holds only commas and whitespace |
| Modelos.LimpiarLimpias | moviegame/models.py:35-39 | `[x.strip() for x in parts if x.strip()]` keeps at most as many items, and each is non-empty and stripped |
| Modelos.PiezasConcat | moviegame/models.py:35-39 | the items of `a,b` are the items of `a` followed by those of `b`, in order |
| Modelos.PiezasSinComa | moviegame/models.py:35-39 | a field without a comma lists its stripped text, or nothing when it is blank |
| Modelos.PiezasVacias | moviegame/models.py:35-39 | a list helper returns nothing iff the field holds only commas and whitespace |
| Modelos.PiezasUnir | moviegame/models.py:35-39 | joining clean items with ", " and listing again gives back the same items |
| Modelos.EjemploGeneros | moviegame/tests/tests.py:19 | "Action, Sci-Fi, Horror" lists as Action, Sci-Fi, Horror |
| Modelos.MostrarPartes | moviegame/models.py:32-33 | `__str__` is the title, " (", the year's digits (which `int` reads back as the year) and ")" |
| Modelos.EjemploMostrar | moviegame/tests/tests.py:18 | the movie Aliens of 1986 shows as "Aliens (1986)" |
| Modelos.Mostrar | moviegame/models.py:32-33 | the display string is three characters longer than the title and the year's digits, starts with the title and ends with ")" |
| Modelos.PartidaNueva | moviegame/models.py:51-56 | a new game is EN_CURSO with the given limit, player, date and secret |
| Almacen.JuegoCumpleUnicidad | moviegame/models.py:74-82 | the store invariant implies that attempt numbers are unique within a game and that feedback rows map one-to-one onto attempts |
| Almacen.AciertoUnico | moviegame/services/game_service.py:91-126 | a game has at most one correct attempt, and it is the last one |
| Almacen.BuscarPartida | moviegame/models.py:60 | finds the player's game of that date, or reports that none exists |
| Almacen.ObtenerOCrear | moviegame/services/game_service.py:86-89 | the returned game belongs to that player and date, and the catalogue, players, attempts and feedback are untouched |
| Almacen.ObtenerOCrearEfecto | moviegame/services/game_service.py:86-89 | `get_or_create` touches only the games; it adds a new game in progress only when the player has none that day; asking again returns the same game |
| Almacen.ObtenerOCrearPreserva | moviegame/services/game_service.py:86-89 | `get_or_create` keeps the store invariant |
| Almacen.UnicaObtenerOCrear | moviegame/models.py:60 | `get_or_create` keeps at most one game per player and day |
| Almacen.RegistroPreserva | moviegame/services/game_service.py:81-146 | registration keeps the whole store invariant: keys resolve, one game per day, attempts numbered 1, 2, … up to the limit, feedback one-to-one, streaks ordered |
| Almacen.Registro | moviegame/services/game_service.py:81-146 | the "no movies" error happens iff the catalogue is empty; the catalogue never changes; an error adds no attempt or feedback and changes no player; a success adds exactly one attempt and one feedback row |
| Almacen.RegistroSinCatalogo | moviegame/services/game_service.py:38-40 | with no movies the registration fails and changes nothing |
| Almacen.RegistroFinalizada | moviegame/services/game_service.py:90-92 | a finished game of the day refuses the attempt, and nothing changes |
| Almacen.JugadaLimite | moviegame/services/game_service.py:94-99 | past the limit the game becomes PERDIDA and the limit error is raised; nothing else changes; under the invariant this happens only for a limit of 0 |
| Almacen.JugadaExito | moviegame/services/game_service.py:95-146 | a successful attempt is number count+1 and gets the next id; exactly one attempt and one feedback row are added, holding the colours of the guess against the game's stored secret; the result reports the colours, the verdict, the new state and `max - num` attempts left |
| Almacen.ExitoCon | moviegame/services/game_service.py:95-146 | for any colours, a successful step keeps the number of games, adds one feedback row and reports the attempt as in `JugadaExito` |
| Almacen.JugadaResuelve | moviegame/services/game_service.py:124-136 | GANADA iff correct, with streak + 1 and best = max(best, streak); PERDIDA iff wrong on the last attempt, with streak 0 and best unchanged; otherwise in progress with streaks untouched; other games and players unchanged |
| Almacen.ResolverRachas | moviegame/services/game_service.py:124-134 | resolution keeps the current streak within the best one, never lowers the best one, and leaves the game in progress iff the guess is wrong and attempts remain |
| Almacen.Resolver | moviegame/services/game_service.py:124-134 | GANADA iff correct, PERDIDA iff wrong at or past the limit; a win adds one to the streak and makes the best streak the larger of the old best and the new streak; a loss on the last attempt zeroes the streak; otherwise the player is unchanged |
| Almacen.JugadaSinAcierto | moviegame/services/game_service.py:110-115 | when the secret lists no genre, or fewer than two distinct actors, no guess can be correct |
| Almacen.VeredictoNumero | moviegame/services/game_service.py:95-140 | the reported attempt number is the game's count of attempts plus one |
| Almacen.CuentaAcotada | moviegame/services/game_service.py:94-99 | under the invariant a game never has more attempts than its limit, and a game in progress has room for one more unless it has a limit of 0 and no attempts |
| Almacen.JugadaConFin | moviegame/services/game_service.py:90-136 | the step keeps the game's identity, the catalogue and the players; it refuses exactly a game that is not in progress, and then changes nothing; the result reports the game's new state |
| Almacen.JugadaCon | moviegame/services/game_service.py:90-146 | the step refuses exactly a finished game and, for a game in progress, exactly an attempt past the limit; an error changes no player, attempt or feedback; a success appends attempt count+1, within the limit, and its feedback, and reports its id, number, verdict and the game's new state |
| Almacen.FinalizadaSinCambios | moviegame/services/game_service.py:86-99 | the only errors of the step are "finished" and "limit reached"; a refused game is one that already existed |
| Almacen.LimiteSinAdivinada | moviegame/services/game_service.py:94-99 | hitting the limit does not depend on the guess |
| Almacen.RegistroTrasFin | moviegame/services/game_service.py:90-136 | once a registration ends the day's game (won, lost, or the limit reached), every later attempt that day is refused and changes nothing |
| Almacen.AtomicoCasos | moviegame/services/game_service.py:81 | as written, an error leaves the tables as they were, and a success is the same as the intended behaviour |
| Almacen.RegistroAtomico | moviegame/services/game_service.py:81-146 | under `transaction.atomic`: the same answer as `Registro`; an error leaves every table as it was; a success leaves `Registro`'s tables |
| Almacen.AtomicoLimiteSeRepite | moviegame/services/game_service.py:96-99 | as written, the limit error leaves the game in progress, so every later attempt that day raises it again |
| Almacen.AtomicoFueraDelLimite | moviegame/services/game_service.py:81-92 | apart from the limit error, the code as written and the intended behaviour agree |
| Almacen.EscenarioRollback | moviegame/services/game_service.py:96-99 | on a store whose only game allows no attempts, the intended behaviour marks the game lost, while the code as written leaves every table as it was |
| Almacen.EscenarioValido | moviegame/services/game_service.py:96-99 | the store used to show the rollback satisfies the store invariant |
| Almacen.PerfilNuevoPreserva | moviegame/signals.py:6-9 | giving a new user a profile with zero streaks keeps the store invariant |
| Almacen.Vista | moviegame/views.py:55-86 | a user without a profile gets the error that reading `request.user.jugador` raises, and a staff user is redirected to the dashboard; neither changes anything; every other user sees the game page with a `guess_now` of at least 1; the catalogue, players, attempts and feedback are never touched |
| Almacen.VistaPartida | moviegame/views.py:80-86 | for a non-staff user with a profile and with movies, the page shows the player's game of that date, and `guess_now` is its count of attempts plus one |
| Almacen.VistaAnuncia | moviegame/views.py:86 | a non-staff user with a profile gets the game page, and its `guess_now` is the number that the next successful registration that day takes |
| Almacen.VistaCota | moviegame/views.py:86 | for a non-staff user with a profile, while that game is in progress, `guess_now` is within its limit, or 1 when the limit is 0 |
| Almacen.VistaCasos | moviegame/views.py:55-86 | the four cases: no profile (the error), staff (the redirect), no movies (`guess_now` 1 and no game created), and otherwise the game of the day fetched or created with the day's movie |
| Almacen.VistaPreserva | moviegame/views.py:55-86 | the game page keeps the store invariant, for staff and non-staff users alike |
| Almacen.BaseDeDatos.constructor | moviegame/models.py:19-90 | an empty database over a catalogue with increasing ids and unique titles and IMDb ids |
| Almacen.BaseDeDatos.CrearPerfil | moviegame/signals.py:6-9 | a newly created user gets a profile with zero streaks; the invariant is kept |
| Almacen.BaseDeDatos.ObtenerOCrearPartida | moviegame/services/game_service.py:86-89 | in place `get_or_create`, equal to `ObtenerOCrear`; the invariant is kept |
| Almacen.BaseDeDatos.RegistrarIntento | moviegame/services/game_service.py:81-146 | in place registration, equal to the intended `Registro`; the invariant is kept |
| Almacen.BaseDeDatos.RegistrarIntentoAtomico | moviegame/services/game_service.py:81-146 | in place registration as written, which rolls back on error, equal to `RegistroAtomico`; the invariant is kept |
| Almacen.BaseDeDatos.Jugar | moviegame/services/game_service.py:91-146 | the in place steps from the finished check to the result, equal to `JugadaCon` |
| Almacen.BaseDeDatos.Restaurar | moviegame/services/game_service.py:81 | the rollback of `transaction.atomic` puts back the tables as they were on entry |
| Almacen.BaseDeDatos.VistaJuego | moviegame/views.py:55-86 | in place `game_view`, which returns the page (the missing-profile error, the redirect or the game page with `guess_now`), equal to `Vista`; the invariant is kept |
| Omdb.IntYear | moviegame/services/omdb.py:51-60 | the year is never negative |
| Omdb.IntYearSolo | moviegame/services/omdb.py:51-60 | a year written alone reads as that year |
| Omdb.IntYearRango | moviegame/services/omdb.py:53-58 | a year that opens a range with an en dash or a hyphen ("2010–", "1999-2001") reads as that year |
| Omdb.SinValor | moviegame/services/omdb.py:51-93 | a missing, empty or "N/A" value reads as 0 for year and runtime, and as None for votes and rating |
| Omdb.FaltaNA | moviegame/services/omdb.py:51-110 | "N/A" is not available: `safe` gives "", and it reads as no votes and no rating |
| Omdb.RuntimeMinutos | moviegame/services/omdb.py:62-71 | "136 min" reads as 136: a number followed by whitespace or by nothing reads as that number |
| Omdb.RuntimeMin | moviegame/services/omdb.py:62-71 | a missing, empty or "N/A" runtime is 0; a non-zero runtime is what `int` reads from the first word |
| Omdb.ParseIntAgrupar | moviegame/services/omdb.py:73-82 | a count written with comma thousands separators ("1,234,567") reads back as its value |
| Omdb.ParseInt | moviegame/services/omdb.py:73-82 | a missing, empty or "N/A" count is None; a count that is read is what `int` reads once every comma is removed |
| Omdb.Agrupar | moviegame/services/omdb.py:73-82 | writing a count with thousands separators gives a string that starts with a digit and whose digits, once the commas are removed, have that value |
| Omdb.ParseDecimalPunto | moviegame/services/omdb.py:84-93 | "digits.digits" reads as the exact decimal with those digits and that many places after the point |
| Omdb.ValorPunto | moviegame/services/omdb.py:84-93 | the value read is the integer part plus the fraction over a power of ten |
| Omdb.ParseDecima | moviegame/services/omdb.py:84-93 | a rating written with one decimal ("7.8") reads as that many tenths |
| Omdb.ParseDecimal | moviegame/services/omdb.py:84-93 | a missing, empty or "N/A" rating is None; the values read are stated by `ParseDecimalPunto` and `ParseDecima` |
| Omdb.Seguro | moviegame/services/omdb.py:109-110 | `safe` is empty iff the value is missing, empty or "N/A", and otherwise is the value itself |
| Omdb.MapearLimpio | moviegame/services/omdb.py:112-125 | the mapped title is stripped; the year is non-negative; no text field keeps "N/A"; the IMDb id is None iff it is not available, and otherwise is kept |
| Omdb.Mapear | moviegame/services/omdb.py:112-125 | the mapped title is stripped; the year is non-negative; no text field keeps "N/A"; the IMDb id is None iff it is not available |
| Omdb.MapearAJson | moviegame/services/omdb.py:99-125 | mapping the record OMDb would send for a movie's ten attributes gives back exactly those attributes |
| SemillaOmdb.ParseLine | moviegame/management/commands/omdb_seed.py:20-30 | the text is always stripped; a year comes only from a line with a ';', and then the text has none |
| SemillaOmdb.ParseLineOmitida | moviegame/management/commands/omdb_seed.py:21-23 | blank and comment lines give ("", None) |
| SemillaOmdb.ParseLineId | moviegame/management/commands/omdb_seed.py:24-25 | a line that opens with "tt" is kept whole with no year, even when it has a ';' |
| SemillaOmdb.ParseLineTitulo | moviegame/management/commands/omdb_seed.py:30 | any other line without a ';' is the stripped line with no year |
| SemillaOmdb.ParseLineSinAnio | moviegame/management/commands/omdb_seed.py:26-29 | when the year after the first ';' is not all digits, it is dropped and the title before it is kept |
| SemillaOmdb.ParseLineTituloAnio | moviegame/management/commands/omdb_seed.py:26-29 | "Title;Year" reads back as that title and year |
| SemillaOmdb.ParseLineFija | moviegame/management/commands/omdb_seed.py:26-29 | an already stripped "title;year" line is split at its first ';' |
| SemillaOmdb.Dividir | moviegame/management/commands/omdb_seed.py:26-29 | the title before the first ';' is stripped, and a year is only kept when the title has no ';' |
| SemillaImdb.Voto | moviegame/management/commands/imdb_make_seed.py:74-83 | a kept ratings row has an id and a count that is present, not `\N`, and read by `int` |
| SemillaImdb.VotoLeido | moviegame/management/commands/imdb_make_seed.py:77-83 | a row with an id and a readable count is never skipped |
| SemillaImdb.Ilegibles | moviegame/management/commands/imdb_make_seed.py:77-82 | an empty count and `\N` are not read |
| SemillaImdb.LeerVotos | moviegame/management/commands/imdb_make_seed.py:73-83 | the loop keeps exactly the readable rows, in file order |
| SemillaImdb.VotosMiembro | moviegame/management/commands/imdb_make_seed.py:73-83 | an entry is kept iff some row gives it |
| SemillaImdb.PrefijoPy | moviegame/management/commands/imdb_make_seed.py:87 | `s[:k]` is a prefix, of length min(k, len) for k ≥ 0 and len + k (at least 0) for k < 0 |
| SemillaImdb.PoolMasVotados | moviegame/management/commands/imdb_make_seed.py:86-87 | the pool has at most `oversample` ids, each with a vote; every entry that made the cut has at least as many votes as every entry that did not |
| SemillaImdb.Pool | moviegame/management/commands/imdb_make_seed.py:86-87 | the pool has no more ids than vote entries, and at most `oversample` of them |
| SemillaImdb.Titulo | moviegame/management/commands/imdb_make_seed.py:105 | the title is the primary title, else the original one, else "" |
| SemillaImdb.Entrada | moviegame/management/commands/imdb_make_seed.py:96-116 | a row enters only if its id is in the pool, it is a non-adult movie, the title is non-empty and `int` reads the year |
| SemillaImdb.EntradaAdmitida | moviegame/management/commands/imdb_make_seed.py:96-116 | a row that meets all of those conditions does enter, with its title and year |
| SemillaImdb.ArmarTop | moviegame/management/commands/imdb_make_seed.py:95-118 | the loop leaves the first max(1, top) matches in file order, or all of them when there are fewer |
| SemillaImdb.CorteLleno | moviegame/management/commands/imdb_make_seed.py:117-118 | once the loop holds the number it needs, it holds the first that many matches of the whole file |
| SemillaImdb.CorteCompleto | moviegame/management/commands/imdb_make_seed.py:95-118 | when there are fewer matches than needed, the result has all of them |
| SemillaImdb.Construir | moviegame/management/commands/imdb_make_seed.py:73-122 | `handle` from the parsed rows gives the seed list or the error exit |
| SemillaImdb.SemillaVacia | moviegame/management/commands/imdb_make_seed.py:120-122 | the command fails iff no basics row passes the filter |
| SemillaImdb.SemillaResultado | moviegame/management/commands/imdb_make_seed.py:95-118 | on success there are between 1 and max(1, top) entries, exactly max(1, top) when there are enough matches, each from an admitted row |
| SemillaImdb.Semilla | moviegame/management/commands/imdb_make_seed.py:95-122 | the command fails iff nothing matches; on success it writes between 1 and max(1, top) entries, the first matches in file order |
| SemillaImdb.CoincidenciasOrden | moviegame/management/commands/imdb_make_seed.py:95-116 | results keep the order of the basics file |
| SemillaCurada.Decada | moviegame/management/commands/imdb_curated_seed.py:74-75 | the decade is a multiple of 10, at most the year and within 10 of it |
| SemillaCurada.UmbralVotos | moviegame/management/commands/imdb_curated_seed.py:33-45 | every decade's vote threshold is at least 8000 |
| SemillaCurada.UmbralPorDefecto | moviegame/management/commands/imdb_curated_seed.py:151 | decades outside the table need 50000 votes |
| SemillaCurada.Generos | moviegame/management/commands/imdb_curated_seed.py:159-160 | no listed genre has a comma or surrounding whitespace |
| SemillaCurada.Criterio | moviegame/management/commands/imdb_curated_seed.py:124-180 | a kept candidate is a non-adult movie with a readable year in range, has a rating, meets the minimum rating and its decade's vote threshold, and has a non-empty title |
| SemillaCurada.CriterioAdmite | moviegame/management/commands/imdb_curated_seed.py:124-180 | a row that meets every condition is kept, with its year |
| SemillaCurada.Clasificar | moviegame/management/commands/imdb_curated_seed.py:119-181 | each decade that has candidates gets a bucket of exactly its candidates, in file order; `kept` counts them |
| SemillaCurada.CubetasAnadir | moviegame/management/commands/imdb_curated_seed.py:171 | appending a candidate to its decade's bucket keeps every bucket equal to the candidates of that decade, in order |
| SemillaCurada.CubetaMiembro | moviegame/management/commands/imdb_curated_seed.py:149-171 | a bucket holds exactly the candidates of its decade |
| SemillaCurada.ClaveCandidatoOrden | moviegame/management/commands/imdb_curated_seed.py:189 | the key orders by votes descending, then rating descending, then title |
| SemillaCurada.OrdenarCubetas | moviegame/management/commands/imdb_curated_seed.py:188-189 | every bucket is replaced by its stable sort on that key |
| SemillaCurada.CubetaOrdenada | moviegame/management/commands/imdb_curated_seed.py:188-189 | a sorted bucket is a permutation of the bucket, ordered by votes, then rating, then title |
| SemillaCurada.ListarDecadas | moviegame/management/commands/imdb_curated_seed.py:192 | the decades are the bucket keys, each once, in increasing order |
| SemillaCurada.DistintosOrdenados | moviegame/management/commands/imdb_curated_seed.py:192 | sorting distinct decades gives a strictly increasing list |
| Ordenacion.Ordenar | moviegame/management/commands/imdb_curated_seed.py:189 | the sort is a permutation, ordered by the key |
| Ordenacion.OrdenarEstable | moviegame/management/commands/imdb_curated_seed.py:189 | the sort is stable: the elements of one key keep their order |
| Ordenacion.OrdenarOrdenada | moviegame/management/commands/imdb_make_seed.py:86 | an ordered sequence is its own sort |
| Ordenacion.DescOrden | moviegame/management/commands/imdb_make_seed.py:86 | the descending key orders larger values first, as `reverse=True` does |
| CuradaCupos.MetaBase | moviegame/management/commands/imdb_curated_seed.py:47-55 | the default weight of each decade is never negative |
| CuradaCupos.Exacta | moviegame/management/commands/imdb_curated_seed.py:196-210 | definition only: the exact share of a decade, `frac * top_n` or `base * scale`; `Toma` is proved within one half of it |
| CuradaCupos.Redondear | moviegame/management/commands/imdb_curated_seed.py:203-210 | `round` is within one half of its argument and sends halves to the even integer |
| CuradaCupos.RedondearEntero | moviegame/management/commands/imdb_curated_seed.py:203-210 | `round` of an integer is that integer |
| CuradaCupos.Toma | moviegame/management/commands/imdb_curated_seed.py:196-210 | `take` is within one half of the decade's exact share, by weight or by bucket size |
| CuradaCupos.TomaCero | moviegame/management/commands/imdb_curated_seed.py:196-210 | with top 0 every share is 0 |
| CuradaCupos.MetasIniciales | moviegame/management/commands/imdb_curated_seed.py:193-211 | every decade's quota is min(take, bucket size), so it never exceeds the bucket |
| CuradaCupos.Redistribuir | moviegame/management/commands/imdb_curated_seed.py:213-228 | the lending terminates, only raises quotas, keeps each within its bucket, and adds min(short, total spare) places; without strict mode or a shortfall nothing changes |
| CuradaCupos.Prestamo | moviegame/management/commands/imdb_curated_seed.py:213-228 | nothing is lent in strict mode or when the quotas already reach `top`; never more than what is missing from `top`, nor more than the spare candidates |
| CuradaCupos.Prestar | moviegame/management/commands/imdb_curated_seed.py:220-228 | the `while` loop adds min(short, spare) to the total of the quotas and keeps each within its bucket |
| CuradaCupos.PrestarUno | moviegame/management/commands/imdb_curated_seed.py:222-227 | one lending step raises one decade's quota by one and lowers its spare by one |
| CuradaCupos.EstadoInicial | moviegame/management/commands/imdb_curated_seed.py:218-219 | the sorted stock lists every decade's spare candidates, none negative, adding up to the total spare |
| CuradaCupos.PasoReparto | moviegame/management/commands/imdb_curated_seed.py:222-227 | a step keeps each quota plus its spare equal to the bucket size |
| CuradaCupos.IgualesPorSuma | moviegame/management/commands/imdb_curated_seed.py:213-228 | quotas that only grew and have the same total are unchanged, so no lending means no change |
| CuradaSeleccion.Tope | moviegame/management/commands/imdb_curated_seed.py:234 | the cap is max(1, ⌊28·target/100⌋), so it is at least 1 |
| CuradaSeleccion.TopeCota | moviegame/management/commands/imdb_curated_seed.py:234 | the cap never exceeds max(1, target) |
| CuradaSeleccion.Voraz | moviegame/management/commands/imdb_curated_seed.py:239-257 | definition only: the greedy pass both loops share; its properties are `VorazCota`, `VorazOrigen`, `VorazLleno`, `VorazPrefijo` and `VorazMaximal` |
| CuradaSeleccion.VorazCota | moviegame/management/commands/imdb_curated_seed.py:239-241 | a pass never takes more than asked |
| CuradaSeleccion.VorazOrigen | moviegame/management/commands/imdb_curated_seed.py:239-257 | everything a pass appends comes from its input |
| CuradaSeleccion.VorazLleno | moviegame/management/commands/imdb_curated_seed.py:240-252 | once a pass has what it asks for, the rest of the bucket adds nothing, as the `break` says |
| CuradaSeleccion.VorazPrefijo | moviegame/management/commands/imdb_curated_seed.py:239-257 | what a pass took from a prefix of the bucket is a prefix of what it takes from the whole bucket |
| CuradaSeleccion.VorazMaximal | moviegame/management/commands/imdb_curated_seed.py:239-257 | an unfilled pass took every candidate its admission test accepted at that point |
| CuradaSeleccion.ConTope | moviegame/management/commands/imdb_curated_seed.py:239-247 | the capped pass never takes more than the decade's quota |
| CuradaSeleccion.ConTopeGenero | moviegame/management/commands/imdb_curated_seed.py:242-246 | in the capped pass no primary genre gets more than `cap` places |
| CuradaSeleccion.ConTopeMaximal | moviegame/management/commands/imdb_curated_seed.py:239-247 | an unfilled capped pass left out only candidates whose genre had reached the cap |
| CuradaSeleccion.PasadaConTope | moviegame/management/commands/imdb_curated_seed.py:237-247 | the capped loop, with its `Counter` and `break`, appends exactly the capped pass |
| CuradaSeleccion.Relleno | moviegame/management/commands/imdb_curated_seed.py:250-257 | the top-up never takes more than is missing from the quota |
| CuradaSeleccion.RellenoSinRepetir | moviegame/management/commands/imdb_curated_seed.py:250-257 | the top-up adds no row twice and none already chosen |
| CuradaSeleccion.RellenoCompleto | moviegame/management/commands/imdb_curated_seed.py:250-257 | an unfilled top-up has taken every candidate of the bucket |
| CuradaSeleccion.PasadaRelleno | moviegame/management/commands/imdb_curated_seed.py:250-257 | the uncapped loop appends exactly the top-up, with `taken` carried on from the capped pass |
| CuradaSeleccion.PorDecada | moviegame/management/commands/imdb_curated_seed.py:234-257 | definition only: one decade, the capped pass and then the top-up when short; its properties are `PorDecadaCota`, `PorDecadaCompleta` and `PorDecadaOrigen` |
| CuradaSeleccion.PorDecadaCota | moviegame/management/commands/imdb_curated_seed.py:237-257 | a decade only appends, and at most its quota |
| CuradaSeleccion.PorDecadaCompleta | moviegame/management/commands/imdb_curated_seed.py:249-257 | a decade that falls short of its quota has taken every candidate of its bucket |
| CuradaSeleccion.PorDecadaOrigen | moviegame/management/commands/imdb_curated_seed.py:245-256 | every row a decade adds is one of its own candidates, tagged with that decade |
| CuradaSeleccion.ElegirDecada | moviegame/management/commands/imdb_curated_seed.py:234-257 | the body of the decade loop computes `PorDecada` |
| CuradaSeleccion.Seleccion | moviegame/management/commands/imdb_curated_seed.py:231-257 | definition only: `results` after the decade loop; its properties are `SeleccionCota` and `SeleccionOrigen`, and `Seleccionar` computes it |
| CuradaSeleccion.Seleccionar | moviegame/management/commands/imdb_curated_seed.py:231-257 | the decade loop computes `Seleccion` |
| CuradaSeleccion.SeleccionCota | moviegame/management/commands/imdb_curated_seed.py:231-257 | the selection has at most the sum of the positive quotas |
| CuradaSeleccion.SeleccionOrigen | moviegame/management/commands/imdb_curated_seed.py:231-257 | every selected row comes from the bucket of its own decade |
| CuradaSeleccion.JuntarCubetas | moviegame/management/commands/imdb_curated_seed.py:262-264 | the pool is the buckets laid end to end in decade order |
| CuradaSeleccion.JuntarMiembro | moviegame/management/commands/imdb_curated_seed.py:262-264 | the pool holds exactly the candidates of the buckets |
| CuradaSeleccion.RellenoFinalNuevo | moviegame/management/commands/imdb_curated_seed.py:266-271 | the final fill adds only pool entries whose (title, year) was not chosen, tagged with `_decade` of their year |
| CuradaSeleccion.RellenoFinalCompleto | moviegame/management/commands/imdb_curated_seed.py:267-273 | an unfilled final fill has taken every pool entry that was not already chosen |
| CuradaSeleccion.RellenarDesde | moviegame/management/commands/imdb_curated_seed.py:267-273 | the pool loop, which stops at `top_n`, appends exactly the final fill |
| CuradaSeleccion.Rellenar | moviegame/management/commands/imdb_curated_seed.py:259-273 | the final fill runs only when short of `top_n` and not strict |
| CuradaComando.Curar | moviegame/management/commands/imdb_curated_seed.py:183-276 | `handle` fails iff no candidate passes the filter; otherwise it writes at most `top` rows, each a filtered candidate tagged with its decade |
| Autocompletar.Autocompletar | moviegame/views.py:313-341 | a blank query gives no results; with a query, a negative limit is the slicing error; otherwise at most `limit` results, each a playable movie whose title contains the query |
| Autocompletar.Consulta | moviegame/views.py:313 | the query is stripped, empty when `q` is missing, and never longer than it |
| Autocompletar.Limite | moviegame/views.py:314-317 | a `limit` that `int` reads is used as it is; a missing or unreadable one means 20 |
| Autocompletar.Candidatas | moviegame/views.py:327-339 | there are never more than `limit` suggestions |
| Autocompletar.LimiteAusente | moviegame/views.py:314-317 | a missing `limit`, or one `int` cannot read, means 20 |
| Autocompletar.CatalogoMiembro | moviegame/views.py:322-324 | the candidates are exactly the movies with votes and a rating |
| Autocompletar.CandidatasCota | moviegame/views.py:327-339 | there are never more than `limit` suggestions |
| Autocompletar.CandidatasOrigen | moviegame/views.py:322-339 | every suggestion is a playable movie whose title contains the query |
| Autocompletar.CandidatasDosTramos | moviegame/views.py:322-339 | the suggestions are the titles that start with the query, then titles that contain it without starting with it, each run ordered by votes descending |
| Autocompletar.CandidatasSinRepetir | moviegame/views.py:331-339 | no movie is suggested twice |
| Autocompletar.CandidatasCompleta | moviegame/views.py:327-339 | with fewer than `limit` suggestions, every playable movie containing the query is among them |
| Autocompletar.Resultados | moviegame/views.py:331-339 | copying `starts` and extending it with `contains` builds the suggestions |
| Autocompletar.AutocompletarSinRepetir | moviegame/views.py:313-341 | the JSON answer lists no id twice |

## Left out

- The OMDb HTTP client, the IMDb downloads are not modelled. So are the
  TSV and gzip readers, CSV writing, stdout/stderr, `time.sleep`,
  `sys.exit` and `--print-stats`. Commands take already-parsed rows and
  return their list or an error value.
- Building the `ratings` map in `imdb_curated_seed` (lines 103-114) is not
  modelled. The map is an input, with ratings in tenths.
- The Django ORM, transactions and locking are not modelled. The store is
  sequential. A rollback is modelled by restoring a copy of the tables,
  and concurrent `get_or_create` races are not modelled.
- SHA-256 is not modelled. The date's digest is the parameter `h`, and
  `timezone.localdate()` is the parameter `fecha`.
- ServicioJuego.Norm: NFKD folding is modelled exactly only for
  U+0000..U+00FF. Every character above U+00FF is dropped, although NFKD
  keeps the ASCII part of some of them.
- ServicioJuego.ColorGenero: `str.lower()` is modelled on ASCII letters
  only. This is exact after `_norm`, whose output is ASCII. It is not exact
  for the first-genre test on non-ASCII genre names.
- Autocompletar.Autocompletar: `istartswith`/`icontains` compare with ASCII
  lowering, not the database collation.
- Autocompletar.Autocompletar: the database's order for movies with equal
  vote counts is not modelled. The model keeps table order.
- Autocompletar.Autocompletar: a negative `limit` is modelled as an error,
  because Django refuses a negative queryset slice.
- Texto.PyInt: `int()` is modelled on ASCII digits, signs, surrounding
  whitespace and single underscores between digits. Python also accepts
  other Unicode decimal digits.
- SemillaOmdb.ParseLine: `str.isdigit` is modelled on ASCII digits only.
  Python's test also accepts the other Unicode decimal digits, so
  "Matrix;١٩٩٩" gives ("Matrix", 1999) there but keeps no year here. It
  also accepts digit-like characters such as "²", on which `int` raises
  outside any `try`, which stops the command; here the line gives ("X", None).
- SemillaOmdb.ParseLineSinAnio: "not all digits" is the ASCII test above.
  For a year written in non-ASCII digits the code keeps the year or raises,
  where the model drops it.
- SemillaOmdb.Dividir: the year test is the same ASCII stand-in for
  `str.isdigit`.
- Almacen.Vista: the `getattr`/`Jugador.objects.create` fallback in
  `game_view` (views.py lines 59-62) can never run, because line 55 has
  already raised for a user without a profile. The model therefore has no
  such branch; profiles come from `crear_perfil_jugador`.
- Omdb.ParseDecimal: every NaN is modelled as one value, ignoring payloads
  and signs. Non-ASCII digits are not modelled.
- Ratings are whole tenths, not binary floats. The threshold comparison
  and the sort key on ratings are exact for IMDb's one-decimal ratings.
- CuradaCupos.Toma: `round(frac * top_n)` is computed on exact rationals.
  Python rounds the binary float product, which can differ at exact
  halves.
- CuradaSeleccion.Tope: `int(t * 0.28)` is computed as
  ⌊28·t/100⌋. The double closest to 0.28 lies above 0.28, and rounding the
  product cannot go below an integer it exceeds, so the two agree for
  every non-negative target.
- CuradaCupos.Redistribuir: the contract gives the total lent and the
  per-decade bounds. It does not say which decades receive the places
  under the round-robin order, although the loop itself follows that
  order.
- CuradaCupos.MetasIniciales: the contract states each quota relative to
  `take`. It does not state the sum of the quotas, which rounding can push
  above or below `top_n`.
- Sorting is modelled on sequences as a function, not as the in-place
  `list.sort`; the in-place update is not modelled.
- `tasa_acierto`, `api_intentos`, statistics, templates, authentication,
  admin, URLs, reports and the other commands are not part of this model.
- `MAX_INTENTOS`, used by the game page, is defined outside the code modelled
  here. Its value is the parameter `maximos`; registration uses the field
  default 6.

## Findings

| source | as written | input that shows it | evidently intended | confidence | as-written member | corrected member |
|---|---|---|---|---|---|---|
| moviegame/services/game_service.py:81-99 | when the limit is reached, `registrar_intento` saves `estado = PERDIDA` and then raises `ValueError`. The function is `@transaction.atomic`, so the exception rolls the save back and the game stays EN_CURSO | a game in progress whose `intentos_maximos` is 0 (allowed by the `PositiveIntegerField`): every attempt raises "maximum reached" again, and the game never becomes PERDIDA | the game is saved as lost, and later attempts that day are refused as a finished game | not executed | Almacen.AtomicoLimiteSeRepite | Almacen.RegistroTrasFin |
