/**
 * The library service as the menu drives it: each mutating step changes the
 * state in memory and then asks for the files to be rewritten (the catalog
 * file after an add; the catalog file, then the ledger file, after a loan).
 * A write that fails is reported and ignored: memory is not rolled back.
 */
module Session {
  import opened Wrappers
  import opened Text
  import opened Dates
  import opened Model
  import opened Documents
  import opened Catalog
  import opened Codec

  /** A request to overwrite one of the two files with a document. */
  datatype Escritura = EscribirLibros(doc: Json) | EscribirPrestamos(doc: Json)

  /** The outcome of one step: the new state, the writes it asks for, and the refusal if any. */
  datatype Paso = Paso(estado: Biblioteca, escrituras: seq<Escritura>, error: Option<LoanError>)

  /** The two files: the catalog file and the ledger file. */
  datatype Disco = Disco(libros: Archivo, prestamos: Archivo)

  /** Menu option 1: add the book, then save the catalog. */
  function Agregar(b: Biblioteca, isbn: string, titulo: string, autor: string, genero: string, cantidad: int): (p: Paso)
    requires WellFormed(b)
    requires IsPromptText(isbn) && IsPromptText(titulo) && IsPromptText(autor) && IsPromptText(genero)
    requires 0 <= cantidad <= MaxInt32
    ensures p.error == None && WellFormed(p.estado)
    ensures p.estado == AgregarLibro(b, isbn, titulo, autor, genero, cantidad)
    ensures |p.escrituras| == 1 && p.escrituras[0].EscribirLibros?
    ensures DecodeLibros(p.escrituras[0].doc) == Ok(p.estado.libros)
  {
    var s := AgregarLibro(b, isbn, titulo, autor, genero, cantidad);
    LibrosRoundTrip(s.libros);
    Paso(s, [EscribirLibros(EncodeLibros(s.libros))], None)
  }

  /**
   * Menu option 3: a refused loan changes nothing and writes nothing; an
   * accepted one saves the catalog and then the ledger.
   */
  function Prestar(b: Biblioteca, isbn: string, usuario: string, fecha: Date): (p: Paso)
    requires WellFormed(b)
    requires IsPromptText(isbn) && IsPromptText(usuario) && ValidDate(fecha)
    ensures WellFormed(p.estado)
    ensures p.error == Some(LibroNoEncontrado) <==> isbn !in b.libros
    ensures p.error == Some(SinEjemplares) <==> isbn in b.libros && b.libros[isbn].cantidad <= 0
    ensures p.error.Some? ==> p.estado == b && p.escrituras == []
    ensures p.error.None? ==>
      && RegistrarPrestamo(b, isbn, usuario, fecha) == Ok(p.estado)
      && |p.escrituras| == 2
      && p.escrituras[0].EscribirLibros? && DecodeLibros(p.escrituras[0].doc) == Ok(p.estado.libros)
      && p.escrituras[1].EscribirPrestamos? && DecodePrestamos(p.escrituras[1].doc) == Ok(p.estado.prestamos)
  {
    match RegistrarPrestamo(b, isbn, usuario, fecha)
    case Err(e) => Paso(b, [], Some(e))
    case Ok(s) =>
      LibrosRoundTrip(s.libros);
      PrestamosRoundTrip(s.prestamos);
      Paso(s, [EscribirLibros(EncodeLibros(s.libros)), EscribirPrestamos(EncodePrestamos(s.prestamos))], None)
  }

  /** Carries out one write; a failed write leaves that file as it was. */
  function Escribir(d: Disco, w: Escritura, ok: bool): Disco {
    if !ok then d
    else match w
      case EscribirLibros(doc) => d.(libros := Contenido(doc))
      case EscribirPrestamos(doc) => d.(prestamos := Contenido(doc))
  }

  /** Carries out the writes in order; `oks[i]` tells whether write `i` succeeded. */
  function Aplicar(d: Disco, ws: seq<Escritura>, oks: seq<bool>): Disco
    requires |oks| == |ws|
    decreases |ws|
  {
    if |ws| == 0 then d else Aplicar(Escribir(d, ws[0], oks[0]), ws[1..], oks[1..])
  }

  /** Loading the two files into a fresh session would give `b`. */
  predicate Refleja(d: Disco, b: Biblioteca) {
    CargarLibros(map[], d.libros) == b.libros && CargarPrestamos([], d.prestamos) == b.prestamos
  }

  function AllTrue(n: nat): (oks: seq<bool>)
    ensures |oks| == n && forall i :: 0 <= i < n ==> oks[i]
  {
    seq(n, _ => true)
  }

  /** When every write succeeds, the files keep up with memory after an add. */
  lemma AgregarKeepsFilesInStep(d: Disco, b: Biblioteca, isbn: string, titulo: string, autor: string, genero: string, cantidad: int)
    requires WellFormed(b) && Refleja(d, b)
    requires IsPromptText(isbn) && IsPromptText(titulo) && IsPromptText(autor) && IsPromptText(genero)
    requires 0 <= cantidad <= MaxInt32
    ensures var p := Agregar(b, isbn, titulo, autor, genero, cantidad);
      Refleja(Aplicar(d, p.escrituras, AllTrue(1)), p.estado)
  {
  }

  /** Two successful writes, catalog then ledger, leave exactly those two documents on disk. */
  lemma AplicarBothWrites(d: Disco, libros: Json, prestamos: Json)
    ensures Aplicar(d, [EscribirLibros(libros), EscribirPrestamos(prestamos)], [true, true])
         == Disco(Contenido(libros), Contenido(prestamos))
  {
    var ws := [EscribirLibros(libros), EscribirPrestamos(prestamos)];
    var d1 := Escribir(d, ws[0], true);
    assert d1 == d.(libros := Contenido(libros));
    assert ws[1..] == [EscribirPrestamos(prestamos)] && ws[1..][1..] == [];
    assert Aplicar(d1, ws[1..], [true]) == Disco(Contenido(libros), Contenido(prestamos));
  }

  /** A successful catalog write followed by a failed ledger write changes the catalog file only. */
  lemma AplicarLedgerFails(d: Disco, libros: Json, prestamos: Json)
    ensures Aplicar(d, [EscribirLibros(libros), EscribirPrestamos(prestamos)], [true, false])
         == d.(libros := Contenido(libros))
  {
    var ws := [EscribirLibros(libros), EscribirPrestamos(prestamos)];
    var d1 := Escribir(d, ws[0], true);
    assert ws[1..] == [EscribirPrestamos(prestamos)] && ws[1..][1..] == [];
    assert Aplicar(d1, ws[1..], [false]) == d1;
  }

  /** Files holding documents that decode to `b`'s collections reflect `b`. */
  lemma ContenidoRefleja(libros: Json, prestamos: Json, b: Biblioteca)
    requires DecodeLibros(libros) == Ok(b.libros) && DecodePrestamos(prestamos) == Ok(b.prestamos)
    ensures Refleja(Disco(Contenido(libros), Contenido(prestamos)), b)
  {
    CargarLibrosDecoded(map[], libros, b.libros);
    CargarPrestamosDecoded([], prestamos, b.prestamos);
  }

  /** When every write succeeds, the files keep up with memory after a loan request. */
  lemma PrestarKeepsFilesInStep(d: Disco, b: Biblioteca, isbn: string, usuario: string, fecha: Date)
    requires WellFormed(b) && Refleja(d, b)
    requires IsPromptText(isbn) && IsPromptText(usuario) && ValidDate(fecha)
    ensures var p := Prestar(b, isbn, usuario, fecha);
      Refleja(Aplicar(d, p.escrituras, AllTrue(|p.escrituras|)), p.estado)
  {
    var p := Prestar(b, isbn, usuario, fecha);
    if p.error.None? {
      PrestarAcceptedKeepsFiles(d, b, isbn, usuario, fecha);
    } else {
      PrestarRefusedKeepsFiles(d, b, isbn, usuario, fecha);
    }
  }

  /** The refused case of `PrestarKeepsFilesInStep`: nothing changes and nothing is written. */
  lemma PrestarRefusedKeepsFiles(d: Disco, b: Biblioteca, isbn: string, usuario: string, fecha: Date)
    requires WellFormed(b) && Refleja(d, b)
    requires IsPromptText(isbn) && IsPromptText(usuario) && ValidDate(fecha)
    requires Prestar(b, isbn, usuario, fecha).error.Some?
    ensures var p := Prestar(b, isbn, usuario, fecha);
      Refleja(Aplicar(d, p.escrituras, AllTrue(|p.escrituras|)), p.estado)
  {
    assert Aplicar(d, [], []) == d;
  }

  /** The accepted case of `PrestarKeepsFilesInStep`: both documents land on disk and load back. */
  lemma PrestarAcceptedKeepsFiles(d: Disco, b: Biblioteca, isbn: string, usuario: string, fecha: Date)
    requires WellFormed(b)
    requires IsPromptText(isbn) && IsPromptText(usuario) && ValidDate(fecha)
    requires Prestar(b, isbn, usuario, fecha).error.None?
    ensures var p := Prestar(b, isbn, usuario, fecha);
      Refleja(Aplicar(d, p.escrituras, AllTrue(|p.escrituras|)), p.estado)
  {
    var p := Prestar(b, isbn, usuario, fecha);
    assert AllTrue(|p.escrituras|) == [true, true];
    var libros, prestamos := p.escrituras[0].doc, p.escrituras[1].doc;
    assert p.escrituras == [EscribirLibros(libros), EscribirPrestamos(prestamos)];
    AplicarBothWrites(d, libros, prestamos);
    ContenidoRefleja(libros, prestamos, p.estado);
  }

  /**
   * If the ledger write fails after an accepted loan, the files disagree:
   * the catalog file has the copy taken off while the ledger file lacks the
   * loan; memory holds the loan regardless.
   */
  lemma LedgerWriteFailureSplitsFiles(d: Disco, b: Biblioteca, isbn: string, usuario: string, fecha: Date)
    requires WellFormed(b) && Refleja(d, b)
    requires IsPromptText(isbn) && IsPromptText(usuario) && ValidDate(fecha)
    requires isbn in b.libros && b.libros[isbn].cantidad > 0
    ensures var p := Prestar(b, isbn, usuario, fecha);
      var d' := Aplicar(d, p.escrituras, [true, false]);
      && CargarLibros(map[], d'.libros) == p.estado.libros
      && CargarPrestamos([], d'.prestamos) == b.prestamos
      && p.estado.prestamos != b.prestamos
  {
    var p := Prestar(b, isbn, usuario, fecha);
    var libros, prestamos := p.escrituras[0].doc, p.escrituras[1].doc;
    assert p.escrituras == [EscribirLibros(libros), EscribirPrestamos(prestamos)];
    AplicarLedgerFails(d, libros, prestamos);
    CargarLibrosDecoded(map[], libros, p.estado.libros);
    assert |p.estado.prestamos| == |b.prestamos| + 1;
  }

  // ----- a whole session -----

  /** A menu action that changes the library. */
  datatype Comando =
    | AgregarCmd(isbn: string, titulo: string, autor: string, genero: string, cantidad: int)
    | PrestarCmd(isbn: string, usuario: string, fecha: Date)

  /** What the prompts guarantee about a command's inputs. */
  predicate ComandoOk(c: Comando) {
    match c
    case AgregarCmd(isbn, titulo, autor, genero, cantidad) =>
      IsPromptText(isbn) && IsPromptText(titulo) && IsPromptText(autor) && IsPromptText(genero)
      && 0 <= cantidad <= MaxInt32
    case PrestarCmd(isbn, usuario, fecha) =>
      IsPromptText(isbn) && IsPromptText(usuario) && ValidDate(fecha)
  }

  function Ejecutar(b: Biblioteca, c: Comando): (p: Paso)
    requires WellFormed(b) && ComandoOk(c)
    ensures WellFormed(p.estado)
    ensures |p.estado.prestamos| >= |b.prestamos| && p.estado.prestamos[..|b.prestamos|] == b.prestamos
  {
    match c
    case AgregarCmd(isbn, titulo, autor, genero, cantidad) => Agregar(b, isbn, titulo, autor, genero, cantidad)
    case PrestarCmd(isbn, usuario, fecha) => Prestar(b, isbn, usuario, fecha)
  }

  /** The state after running the commands in order. */
  function Correr(b: Biblioteca, cs: seq<Comando>): (r: Biblioteca)
    requires WellFormed(b) && forall i :: 0 <= i < |cs| ==> ComandoOk(cs[i])
    ensures WellFormed(r)
    ensures |r.prestamos| >= |b.prestamos| && r.prestamos[..|b.prestamos|] == b.prestamos
    decreases |cs|
  {
    if |cs| == 0 then b
    else
      var s := Ejecutar(b, cs[0]).estado;
      assert forall i :: 0 <= i < |cs[1..]| ==> ComandoOk(cs[1..][i]);
      var r := Correr(s, cs[1..]);
      assert r.prestamos[..|b.prestamos|] == r.prestamos[..|s.prestamos|][..|b.prestamos|];
      r
  }

  /** One step keeps a valid state valid. */
  lemma EjecutarPreservesValid(b: Biblioteca, c: Comando)
    requires Valid(b) && ComandoOk(c)
    ensures Valid(Ejecutar(b, c).estado)
  {
    match c
    case AgregarCmd(isbn, titulo, autor, genero, cantidad) =>
      assert Agregar(b, isbn, titulo, autor, genero, cantidad).estado == AgregarLibro(b, isbn, titulo, autor, genero, cantidad);
    case PrestarCmd(isbn, usuario, fecha) =>
      var r := RegistrarPrestamo(b, isbn, usuario, fecha);
      if r.Ok? {
        assert Prestar(b, isbn, usuario, fecha).estado == r.value;
      }
  }

  /** Every state a session reaches from a valid one is valid: no negative stock, no orphan loan. */
  lemma {:induction false} CorrerPreservesValid(b: Biblioteca, cs: seq<Comando>)
    requires Valid(b) && forall i :: 0 <= i < |cs| ==> ComandoOk(cs[i])
    ensures Valid(Correr(b, cs))
    decreases |cs|
  {
    if |cs| > 0 {
      EjecutarPreservesValid(b, cs[0]);
      CorrerPreservesValid(Ejecutar(b, cs[0]).estado, cs[1..]);
    }
  }

  // ----- start of a session -----

  /** The state a session starts in, as written: the files are never read. */
  function IniciarComoEscrito(d: Disco): (b: Biblioteca)
    ensures b.libros == map[] && b.prestamos == []
    ensures Valid(b)
  {
    Vacia
  }

  /** The state a session starts in once both files are loaded. */
  function Iniciar(d: Disco): (b: Biblioteca)
    ensures WellFormed(b)
  {
    Biblioteca(CargarLibros(map[], d.libros), CargarPrestamos([], d.prestamos))
  }

  /** The files one session leaves behind for state `s`. */
  function Guardado(s: Biblioteca): Disco
    requires WellFormed(s)
  {
    Disco(Contenido(EncodeLibros(s.libros)), Contenido(EncodePrestamos(s.prestamos)))
  }

  /** Loading at start-up restores the state the previous session saved. */
  lemma IniciarRestoresSavedState(s: Biblioteca)
    requires WellFormed(s)
    ensures Iniciar(Guardado(s)) == s
  {
    LibrosRoundTrip(s.libros);
    PrestamosRoundTrip(s.prestamos);
  }

  /**
   * As written, a book saved by an earlier session is lost: the next session
   * starts empty, and its first add rewrites the catalog file without it.
   */
  lemma StartupAsWrittenLosesBooks()
    ensures var s := Biblioteca(map["978-0" := Libro("978-0", "Dune", "Herbert", "SciFi", 2)], []);
      var p := Agregar(IniciarComoEscrito(Guardado(s)), "978-1", "Emma", "Austen", "Novel", 1);
      DecodeLibros(p.escrituras[0].doc).Ok? && "978-0" !in DecodeLibros(p.escrituras[0].doc).value
  {
  }

  /** Loading at start-up keeps the earlier session's book through the next add. */
  lemma StartupLoadingKeepsBooks(s: Biblioteca, isbn: string, titulo: string, autor: string, genero: string, cantidad: int)
    requires WellFormed(s)
    requires IsPromptText(isbn) && IsPromptText(titulo) && IsPromptText(autor) && IsPromptText(genero)
    requires 0 <= cantidad <= MaxInt32
    ensures var p := Agregar(Iniciar(Guardado(s)), isbn, titulo, autor, genero, cantidad);
      var saved := DecodeLibros(p.escrituras[0].doc);
      saved.Ok? && forall k :: k in s.libros && k != isbn ==> k in saved.value && saved.value[k] == s.libros[k]
  {
    IniciarRestoresSavedState(s);
  }

  // ----- the worked example -----

  /**
   * A book added with two copies supports two loans; the third request is
   * refused with no copy left, changes nothing and writes nothing.
   */
  lemma TwoCopiesScenario(b: Biblioteca, isbn: string, titulo: string, autor: string, genero: string,
                          u1: string, u2: string, u3: string, f1: Date, f2: Date, f3: Date)
    requires WellFormed(b)
    requires IsPromptText(isbn) && IsPromptText(titulo) && IsPromptText(autor) && IsPromptText(genero)
    requires IsPromptText(u1) && IsPromptText(u2) && IsPromptText(u3)
    requires ValidDate(f1) && ValidDate(f2) && ValidDate(f3)
    ensures var b0 := Agregar(b, isbn, titulo, autor, genero, 2).estado;
      var p1 := Prestar(b0, isbn, u1, f1);
      var p2 := Prestar(p1.estado, isbn, u2, f2);
      var p3 := Prestar(p2.estado, isbn, u3, f3);
      && p1.error == None && p1.estado.libros[isbn].cantidad == 1
      && p2.error == None && p2.estado.libros[isbn].cantidad == 0
      && p1.estado.prestamos == b.prestamos + [Prestamo(isbn, u1, f1)]
      && p2.estado.prestamos == p1.estado.prestamos + [Prestamo(isbn, u2, f2)]
      && p3.error == Some(SinEjemplares) && p3.estado == p2.estado && p3.escrituras == []
  {
  }
}
