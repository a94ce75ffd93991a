/**
 * The library's state: the catalog, a map from ISBN to book record, and the
 * loan ledger, a sequence of loans in the order they were registered.
 */
module Model {
  import opened Dates

  const MinInt32: int := -0x8000_0000
  const MaxInt32: int := 0x7FFF_FFFF

  /** A value a 32-bit `int` can hold. */
  predicate IsInt32(n: int) {
    MinInt32 <= n <= MaxInt32
  }

  /** A book record; `cantidad` is the number of copies available for loan. */
  datatype Libro = Libro(isbn: string, titulo: string, autor: string, genero: string, cantidad: int)

  /** A loan of the book `isbn` to `usuario` on `fecha`. */
  datatype Prestamo = Prestamo(isbn: string, usuario: string, fecha: Date)

  /** The catalog keyed by ISBN and the ledger of loans. */
  datatype Biblioteca = Biblioteca(libros: map<string, Libro>, prestamos: seq<Prestamo>)

  /** The state a session starts with. */
  const Vacia := Biblioteca(map[], [])

  /** The text fields a search or a listing can order by. */
  datatype Campo = Titulo | Autor | Genero

  function Valor(l: Libro, c: Campo): string {
    match c
    case Titulo => l.titulo
    case Autor => l.autor
    case Genero => l.genero
  }

  /** Every record is stored under its own ISBN. */
  predicate Keyed(libros: map<string, Libro>) {
    forall k :: k in libros ==> libros[k].isbn == k
  }

  /** Every record's count fits a 32-bit `int`. */
  predicate Bounded(libros: map<string, Libro>) {
    forall k :: k in libros ==> IsInt32(libros[k].cantidad)
  }

  /** What holds of any state, including one read back from files. */
  predicate WellFormed(b: Biblioteca) {
    && Keyed(b.libros)
    && Bounded(b.libros)
    && forall i :: 0 <= i < |b.prestamos| ==> ValidDate(b.prestamos[i].fecha)
  }

  /**
   * What holds of every state a session reaches from the empty one: no
   * count is negative, and every loan names a book of the catalog.
   */
  predicate Valid(b: Biblioteca) {
    && WellFormed(b)
    && (forall k :: k in b.libros ==> b.libros[k].cantidad >= 0)
    && forall i :: 0 <= i < |b.prestamos| ==> b.prestamos[i].isbn in b.libros
  }
}
