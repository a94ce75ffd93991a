/**
 * The two operations that change the library: adding a book and
 * registering a loan.  Inputs are what the prompts hand over: trimmed,
 * non-blank text, a count of at least zero, and a real date.
 */
module Catalog {
  import opened Wrappers
  import opened Text
  import opened Dates
  import opened Model

  /** Why a loan is refused. */
  datatype LoanError = LibroNoEncontrado | SinEjemplares

  /** Stores the record under its ISBN, replacing any earlier record whole. */
  function AgregarLibro(b: Biblioteca, isbn: string, titulo: string, autor: string, genero: string, cantidad: int): (r: Biblioteca)
    requires IsPromptText(isbn) && IsPromptText(titulo) && IsPromptText(autor) && IsPromptText(genero)
    requires 0 <= cantidad <= MaxInt32
    ensures isbn in r.libros && r.libros[isbn] == Libro(isbn, titulo, autor, genero, cantidad)
    ensures r.libros.Keys == b.libros.Keys + {isbn}
    ensures forall k :: k in b.libros && k != isbn ==> r.libros[k] == b.libros[k]
    ensures r.prestamos == b.prestamos
    ensures WellFormed(b) ==> WellFormed(r)
    ensures Valid(b) ==> Valid(r)
  {
    b.(libros := b.libros[isbn := Libro(isbn, titulo, autor, genero, cantidad)])
  }

  /**
   * Refuses an unknown ISBN, then a book with no copy left; otherwise
   * appends the loan to the ledger and takes one copy off that book.
   */
  function RegistrarPrestamo(b: Biblioteca, isbn: string, usuario: string, fecha: Date): (r: Result<Biblioteca, LoanError>)
    requires IsPromptText(isbn) && IsPromptText(usuario) && ValidDate(fecha)
    ensures r == Err(LibroNoEncontrado) <==> isbn !in b.libros
    ensures r == Err(SinEjemplares) <==> isbn in b.libros && b.libros[isbn].cantidad <= 0
    ensures r.Ok? ==>
      && r.value.prestamos == b.prestamos + [Prestamo(isbn, usuario, fecha)]
      && r.value.libros.Keys == b.libros.Keys
      && r.value.libros[isbn] == b.libros[isbn].(cantidad := b.libros[isbn].cantidad - 1)
      && forall k :: k in b.libros && k != isbn ==> r.value.libros[k] == b.libros[k]
    ensures r.Ok? && WellFormed(b) ==> WellFormed(r.value)
    ensures r.Ok? && Valid(b) ==> Valid(r.value)
  {
    if isbn !in b.libros then Err(LibroNoEncontrado)
    else
      var libro := b.libros[isbn];
      if libro.cantidad <= 0 then Err(SinEjemplares)
      else Ok(Biblioteca(b.libros[isbn := libro.(cantidad := libro.cantidad - 1)],
                         b.prestamos + [Prestamo(isbn, usuario, fecha)]))
  }
}
