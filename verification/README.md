# Biblioteca: catalog and loan ledger

This project models the core of a small library-management console program
written in C#. The `Biblioteca` class keeps two collections in memory:

- `libros`, a dictionary from ISBN to book record (`Libro`: ISBN, title, author,
  genre, available copies);
- `prestamos`, a list of loans (`Prestamo`: ISBN, borrower, date). Loans are
  only ever appended.

It offers four kinds of operation:

- adding a book, which overwrites any record with the same ISBN;
- registering a loan, which is refused for an unknown ISBN or a book with no
  copy left, and otherwise appends the loan and takes one copy off;
- listing every book by title;
- searching title, author or genre for a term, ignoring case.

After every change it writes the catalog, and after a loan also the ledger, to
two JSON files.

The model is functional. The state is a `Biblioteca` value holding a
`map<string, Libro>` and a `seq<Prestamo>`. Each operation returns a new state
or a `Result` error. Files are parsed JSON documents (`Documents.Json`), not
text.

Modules:

- `Text`: prompt text, ASCII lower-casing, substring search, and ordinal
  string order.
- `Dates`: the `yyyy-MM-dd` format and its exact parse.
- `Model`: entities and state invariants.
- `Ordering`: the stable sort `OrderBy` performs.
- `Catalog`: add and loan.
- `Queries`: listing and search.
- `Codec`: the catalog and ledger documents and loading them.
- `Session`: the service steps with their file writes, whole sessions, and
  start-up.

Two invariants are proved:

- `WellFormed` holds of every state, including one loaded from files. It says
  each record is stored under its own ISBN, counts fit 32 bits, and loan dates
  are real dates.
- `Valid` adds that no count is negative and every loan names a catalogued
  book. It holds of every state a session reaches from the empty one
  (`Session.CorrerPreservesValid`).

The service steps require `WellFormed`. Every state satisfies it, and the
encoder needs it: the source names each catalog property after the record's
own ISBN, and this matches the map key only for a keyed catalog.

The source's dictionary enumeration order is unspecified, so listing and search
take it as a parameter `orden`. `orden` lists every key exactly once. Ties in
the sort keep that order.

## Model

| member | source | states |
|---|---|---|
| Catalog.AgregarLibro | Program.cs:199-205 | the record stored under the ISBN is exactly the new one, replacing any earlier record whole; every other key and the whole ledger are unchanged; WellFormed and Valid are preserved |
| Catalog.RegistrarPrestamo | Program.cs:230-248 | refused with LibroNoEncontrado exactly when the ISBN is unknown, and with SinEjemplares exactly when the count is at most zero; otherwise one loan is appended at the end, that book's count drops by exactly one, the other records stay as they were, and the invariants are preserved |
| Session.Agregar | Program.cs:195-207 | an add never fails; it asks for exactly one write, of the catalog file, and that document decodes back to the new catalog |
| Session.Prestar | Program.cs:227-251 | a refused loan leaves the state unchanged and writes nothing; an accepted one writes the catalog file and then the ledger file, and each document decodes back to the new in-memory collection |
| Session.PrestarKeepsFilesInStep | Program.cs:247-250 | if the files reflected memory before a loan request and every write succeeds, they reflect memory afterwards |
| Session.AgregarKeepsFilesInStep | Program.cs:205-206 | if the files reflected memory before an add and the write succeeds, they reflect memory afterwards |
| Session.LedgerWriteFailureSplitsFiles | Program.cs:249-250 | when the ledger write fails after an accepted loan, the catalog file shows the copy taken while the ledger file lacks the loan; memory keeps the loan |
| Session.Correr | Program.cs:199-248 | running any sequence of adds and loans keeps the state well formed and only appends to the ledger |
| Session.EjecutarPreservesValid | Program.cs:203-248 | one add or loan keeps counts non-negative and every loan naming a catalogued book |
| Session.CorrerPreservesValid | Program.cs:203-248 | every state a session reaches from a valid one is valid: no negative count, no orphan loan |
| Session.TwoCopiesScenario | Program.cs:238-248 | a book added with two copies supports two loans, leaving counts one then zero; the third request is refused with SinEjemplares and changes and writes nothing |
| Text.IndexOf | Program.cs:260 | the first position where the term occurs, or -1 exactly when it occurs nowhere |
| Ordering.SortBy | Program.cs:219 | the result is a permutation of the input, ascending by the field, and books with equal field keep their input order |
| Ordering.SortByUnique | Program.cs:261 | any sequence that is sorted by the field and keeps the input order among equal fields is the result of SortBy |
| Queries.Filter | Program.cs:259-260 | keeps exactly the books whose lower-cased field contains the lower-cased term |
| Queries.FilterWithValue | Program.cs:259-260 | filtering keeps input order: for each field value, the result holds all the input's books with that value, in input order, when the value matches the term, and none of them otherwise |
| Queries.MostrarLibros | Program.cs:219 | every stored record appears, nothing else does, as many entries as records; ascending by title, with ties kept in enumeration order |
| Queries.Buscar | Program.cs:254-291 | a book is in the result exactly when it is stored and its field contains the term ignoring case; the result is a permutation of the matching books, ascending by the searched field, with ties kept in enumeration order |
| Queries.BuscarEmptyTerm | Program.cs:257-262 | an empty term returns every book sorted by the searched field; searching titles for it is the full listing |
| Queries.BuscarCharacterized | Program.cs:285-288 | the search result is the only sorted sequence that keeps the enumeration order among the matching books with equal field |
| Queries.SunriseExample | Program.cs:257-260 | searching titles for "sun" matches "The Sunrise" |
| Dates.ParseDate | Program.cs:183 | a parsed date is a real calendar date between years 1 and 9999, read from exactly ten characters |
| Dates.DateRoundTrip | Program.cs:160 | formatting a date as yyyy-MM-dd and parsing it back yields the same date |
| Dates.ParseDateCanonical | Program.cs:183 | the parser accepts only the canonical text of the date it returns, so any other layout is rejected |
| Dates.ParseDateLeapDay | Program.cs:90-91 | 29 February parses in a leap year and is rejected in a common year |
| Dates.ParseDateRejectsLayout | Program.cs:90-91 | an unpadded month and the year 0000 are rejected |
| Codec.EncodeLibros | Program.cs:105-114 | the catalog document has one property per ISBN, holding that record's titulo, autor, genero and cantidad |
| Codec.DecodeLibros | Program.cs:131-142 | a decoded catalog has the document's keys, stores every record under its own key, and holds 32-bit counts; a document that is not an object fails; an object decodes exactly when every one of its records does |
| Codec.IntField | Program.cs:141 | a count is read only when it fits a 32-bit int |
| Codec.DecodeLibro | Program.cs:136-142 | a record read from a property takes the property name as its ISBN and holds a 32-bit count |
| Codec.DecodeLibroFields | Program.cs:136-142 | a record is read exactly when its value is an object with string `titulo`, `autor` and `genero` and a 32-bit integer `cantidad`, and it then carries those four values; otherwise the record is bad |
| Codec.LibroRoundTrip | Program.cs:108-142 | a record's object, read under the record's ISBN, is the same record |
| Codec.LibrosRoundTrip | Program.cs:105-143 | encoding a well-formed catalog and decoding it gives the same map, field for field |
| Codec.LibrosDecodeEncode | Program.cs:133-142 | re-encoding a decoded catalog reproduces every record's four properties and the same keys |
| Codec.EncodePrestamos | Program.cs:157-161 | the ledger document is an array whose element `i` is the object of loan `i`: its `ISBN`, its `Usuario`, and its date as `yyyy-MM-dd` text in `Fecha` |
| Codec.DecodePrestamo | Program.cs:180-183 | a decoded loan carries a real date |
| Codec.DecodePrestamoFields | Program.cs:180-183 | a loan is read exactly when its value is an object with string `ISBN` and `Usuario` and a `Fecha` string that parses as a date, and it then carries those values; otherwise the loan is bad |
| Codec.DecodePrestamos | Program.cs:177-184 | JSON null reads as an empty ledger without error; a non-array fails; an array decodes exactly when every element does, and then loan `i` is element `i` read as a loan, with a real date |
| Codec.PrestamoRoundTrip | Program.cs:157-183 | a loan's object decodes to the same loan |
| Codec.PrestamosRoundTrip | Program.cs:157-184 | encoding the ledger and decoding it gives the same loans in the same order |
| Codec.PrestamosDecodeEncode | Program.cs:177-183 | re-encoding a decoded ledger writes back exactly the ISBN, user and date text it was read from |
| Codec.CargarLibros | Program.cs:124-150 | a missing file keeps the catalog in memory; an unreadable file or a document that is not an object empties it; otherwise the result is the file's whole catalog or, when any record is bad, empty, and it is always keyed with 32-bit counts |
| Codec.CargarPrestamos | Program.cs:170-191 | a missing file keeps the ledger in memory; an unreadable file, JSON null or a document that is neither null nor an array empties it; otherwise the result is the file's whole ledger or, when any loan is bad, empty, and every loan it holds has a real date |
| Codec.CargarLibrosSaved | Program.cs:124-143 | loading the file a catalog was saved to gives that catalog back, whatever was in memory |
| Codec.CargarLibrosBadRecord | Program.cs:134-149 | any one record that does not read, whatever its fault, empties the whole catalog |
| Codec.CargarLibrosBadCount | Program.cs:141-149 | one record without a 32-bit cantidad empties the whole catalog, good records included |
| Codec.CargarLibrosNotObject | Program.cs:131-149 | a catalog file holding anything but an object is a decode error and loads as empty |
| Codec.CargarPrestamosSaved | Program.cs:170-184 | loading the file a ledger was saved to gives that ledger back, whatever was in memory |
| Codec.CargarPrestamosBadRecord | Program.cs:179-190 | any one loan that does not read, whatever its fault, empties the whole ledger |
| Codec.CargarPrestamosBadDate | Program.cs:183-190 | one loan whose date text does not parse empties the whole ledger |
| Codec.CargarPrestamosNull | Program.cs:179-184 | a ledger file holding JSON null loads as an empty ledger, not as an error |
| Session.Iniciar | Program.cs:124-190 | a session started by loading both files is well formed, whatever the files hold |
| Session.IniciarRestoresSavedState | Program.cs:100-190 | loading at start-up restores exactly the state a previous session saved, for files holding the documents the save wrote |
| Session.IniciarComoEscrito | Program.cs:44-56 | as written, a session starts with an empty catalog and an empty ledger whatever the files hold |
| Session.StartupAsWrittenLosesBooks | Program.cs:44-56 | as written, a book saved by an earlier session is missing from the catalog file after the next session's first add |
| Session.StartupLoadingKeepsBooks | Program.cs:124-150 | with loading at start-up, every book of the earlier session other than the one re-added is still in the catalog file after the next add |

## Findings

| source | as written | input that shows it | evidently intended | confidence | as-written member | corrected member |
|---|---|---|---|---|---|---|
| Program.cs:44-56 | `CargarLibros` and `CargarPrestamos` are never called, so each session starts with an empty catalog and ledger, and its first save overwrites the files of earlier sessions | session 1 adds ("978-0", "Dune", "Herbert", "SciFi", 2) and saves; session 2 adds ("978-1", "Emma", "Austen", "Novel", 1); the catalog file then holds only 978-1 | the service loads both files when it starts | medium; not executed | Session.StartupAsWrittenLosesBooks | Session.IniciarRestoresSavedState |

The corrected start-up is `Session.Iniciar`. `Session.StartupLoadingKeepsBooks`
shows that the earlier session's books survive the next add with it.

## Left out

- Console prompting and validation loops (`LeerCadena`, `LeerEntero`, `LeerFecha`) are not modelled. What they guarantee becomes the preconditions of the operations: mandatory text is trimmed and not blank (`Text.IsPromptText`), the count is a non-negative 32-bit int, and the date is a real date.
- The menu loop, screen clearing, key waits and the printing of rows and messages are not modelled. This includes the "no books" message when the catalog is empty and the "not found" message after a search.
- File-system calls are left out: creating the directory, checking for the file, reading and writing. A file is an `Archivo` value: absent, unreadable (including text that is not JSON), or a parsed document.
- A failed write is modelled as leaving its file as it was. A file left half-written by a crash is not modelled.
- JSON text syntax and indentation are left out. An object is a map, so duplicate property names are assumed resolved by the parser, with the last one kept.
- Newtonsoft's default date detection while parsing is not modelled. It reads a string shaped like an ISO date-time, such as a title "2024-01-01T10:00:00", or like "/Date(...)/" as a date token. The `(string)` casts then return that date re-formatted in the current culture, so such a record does not round-trip in the source.
- Session.IniciarRestoresSavedState: text values come back verbatim only in the abstract document, since date detection is not modelled.
- Codec.LibrosRoundTrip: text values come back verbatim only in the abstract document, since date detection is not modelled.
- Codec.PrestamosRoundTrip: text values come back verbatim only in the abstract document, since date detection is not modelled.
- Codec.CargarLibrosSaved: text values come back verbatim only in the abstract document, since date detection is not modelled.
- Codec.CargarPrestamosSaved: text values come back verbatim only in the abstract document, since date detection is not modelled.
- Text fields decode differently. When `titulo`, `autor`, `genero`, `ISBN` or `Usuario` is missing or null, the source yields a null string; when it is a number or boolean, the source yields its text. The model has no null strings and rejects such a record.
- Count fields also decode differently. The source's `(int)` cast converts numeric text or a boolean (true to 1, false to 0) in `cantidad`; the model rejects such a record. JSON numbers with a fraction or an exponent cannot be expressed in `Documents.Json` at all, so a file holding one is outside the model; the source loads it, rounding the count. Out-of-range integers fail in both.
- Culture rules are abstracted. Lower-casing maps only ASCII letters, and trimming knows only ASCII white space. The default `OrderBy` string comparer is modelled as ordinal order by character code.
- `ToString("yyyy-MM-dd")` uses the current culture's calendar. The model assumes a Gregorian calendar; under another calendar the written year would differ.
- The default date `DateTime.Today` in the `Prestamo` constructor is left out because the loan path always supplies a date. The static constructor that sets the console encoding is also left out.
- The dictionary's enumeration order is a parameter of listing and search, and of nothing else. The catalog document is an unordered object.
