/**
 * Encoding the catalog and the ledger as documents, and decoding them back.
 * The catalog document is an object keyed by ISBN whose values carry
 * `titulo`, `autor`, `genero` and `cantidad`; the ledger document is an
 * array of objects with `ISBN`, `Usuario` and `Fecha`, the date written
 * as `yyyy-MM-dd`.
 */
module Codec {
  import opened Wrappers
  import opened Dates
  import opened Model
  import opened Documents

  /** Why a document could not be read as a catalog or a ledger. */
  datatype DecodeError = NotAnObject | NotAnArray | BadRecord

  /** A file as a load finds it. */
  datatype Archivo =
    | Ausente            // no file at that path
    | Ilegible           // the read failed, or the text is not JSON
    | Contenido(doc: Json)

  // ----- catalog -----

  /** The object a single record is written as; the ISBN is its key, not a property. */
  function LibroDoc(l: Libro): Json {
    JObj(map["titulo" := JStr(l.titulo), "autor" := JStr(l.autor),
             "genero" := JStr(l.genero), "cantidad" := JInt(l.cantidad)])
  }

  /**
   * One property per record, named by the record's ISBN.  The catalog is
   * keyed, so that name is the record's key in the map, and no two records
   * compete for one name.
   */
  function EncodeLibros(libros: map<string, Libro>): (d: Json)
    requires Keyed(libros)
    ensures d.JObj? && d.props.Keys == libros.Keys
    ensures forall k :: k in libros ==> libros[k].isbn == k && d.props[k] == LibroDoc(libros[k])
  {
    JObj(map k | k in libros :: LibroDoc(libros[k]))
  }

  /** `(string)token`: the model reads only string values as text. */
  function TextField(props: map<string, Json>, name: string): Option<string> {
    if name in props && props[name].JStr? then Some(props[name].s) else None
  }

  /** `(int)token`: an integer that fits 32 bits, or nothing. */
  function IntField(props: map<string, Json>, name: string): (r: Option<int>)
    ensures r.Some? ==> IsInt32(r.value)
  {
    if name in props && props[name].JInt? && IsInt32(props[name].n) then Some(props[name].n) else None
  }

  /** The record stored under `key`; its ISBN is the key itself. */
  function DecodeLibro(key: string, v: Json): (r: Result<Libro, DecodeError>)
    ensures r.Ok? ==> r.value.isbn == key && IsInt32(r.value.cantidad)
  {
    if !v.JObj? then Err(BadRecord)
    else
      var titulo := TextField(v.props, "titulo");
      var autor := TextField(v.props, "autor");
      var genero := TextField(v.props, "genero");
      var cantidad := IntField(v.props, "cantidad");
      if titulo.Some? && autor.Some? && genero.Some? && cantidad.Some?
      then Ok(Libro(key, titulo.value, autor.value, genero.value, cantidad.value))
      else Err(BadRecord)
  }

  /**
   * A record is read exactly when its value is an object whose three text
   * properties are strings and whose `cantidad` is a 32-bit integer; the
   * record then carries those values and the property name as its ISBN.
   */
  lemma DecodeLibroFields(key: string, v: Json)
    ensures var r := DecodeLibro(key, v);
      && (r.Ok? <==>
          && v.JObj?
          && "titulo" in v.props && v.props["titulo"].JStr?
          && "autor" in v.props && v.props["autor"].JStr?
          && "genero" in v.props && v.props["genero"].JStr?
          && "cantidad" in v.props && v.props["cantidad"].JInt? && IsInt32(v.props["cantidad"].n))
      && (r.Ok? ==>
          && r.value.isbn == key
          && v.props["titulo"] == JStr(r.value.titulo)
          && v.props["autor"] == JStr(r.value.autor)
          && v.props["genero"] == JStr(r.value.genero)
          && v.props["cantidad"] == JInt(r.value.cantidad))
      && (r.Err? ==> r == Err(BadRecord))
  {
  }

  /** The catalog a document holds; any bad record fails the whole document. */
  function DecodeLibros(d: Json): (r: Result<map<string, Libro>, DecodeError>)
    ensures r.Ok? ==> d.JObj? && r.value.Keys == d.props.Keys && Keyed(r.value) && Bounded(r.value)
    ensures !d.JObj? ==> r == Err(NotAnObject)
    ensures r.Ok? <==> d.JObj? && forall k :: k in d.props ==> DecodeLibro(k, d.props[k]).Ok?
  {
    if !d.JObj? then Err(NotAnObject)
    else if forall k :: k in d.props ==> DecodeLibro(k, d.props[k]).Ok?
    then Ok(map k | k in d.props :: DecodeLibro(k, d.props[k]).value)
    else Err(BadRecord)
  }

  /** A record's object reads back, under the record's ISBN, as the same record. */
  lemma LibroRoundTrip(l: Libro)
    requires IsInt32(l.cantidad)
    ensures DecodeLibro(l.isbn, LibroDoc(l)) == Ok(l)
  {
    var p := LibroDoc(l).props;
    assert TextField(p, "titulo") == Some(l.titulo);
    assert TextField(p, "autor") == Some(l.autor);
    assert TextField(p, "genero") == Some(l.genero);
    assert IntField(p, "cantidad") == Some(l.cantidad);
  }

  /** Every property of a written catalog reads back as the record stored under its key. */
  lemma EncodedRecordsDecode(libros: map<string, Libro>)
    requires Keyed(libros) && Bounded(libros)
    ensures var d := EncodeLibros(libros);
      forall k | k in d.props :: DecodeLibro(k, d.props[k]) == Ok(libros[k])
  {
    var d := EncodeLibros(libros);
    forall k | k in d.props
      ensures DecodeLibro(k, d.props[k]) == Ok(libros[k])
    {
      LibroRoundTrip(libros[k]);
    }
  }

  /** Writing a well-formed catalog and reading it back gives the same catalog. */
  lemma LibrosRoundTrip(libros: map<string, Libro>)
    requires Keyed(libros) && Bounded(libros)
    ensures DecodeLibros(EncodeLibros(libros)) == Ok(libros)
  {
    var d := EncodeLibros(libros);
    EncodedRecordsDecode(libros);
    var m := map k | k in d.props :: DecodeLibro(k, d.props[k]).value;
    assert m == libros;
  }

  /** The four properties a record is read from, as the record writes them back. */
  lemma LibroDecodeEncode(k: string, v: Json)
    requires DecodeLibro(k, v).Ok?
    ensures forall name :: name in LibroDoc(DecodeLibro(k, v).value).props ==>
      name in v.props && LibroDoc(DecodeLibro(k, v).value).props[name] == v.props[name]
  {
  }

  /**
   * Reading a document and writing the catalog back reproduces each
   * record's four properties; only unrelated properties are dropped.
   */
  lemma LibrosDecodeEncode(d: Json)
    requires DecodeLibros(d).Ok?
    ensures var e := EncodeLibros(DecodeLibros(d).value);
      e.props.Keys == d.props.Keys
      && forall k, name :: k in d.props && name in e.props[k].props ==>
           name in d.props[k].props && e.props[k].props[name] == d.props[k].props[name]
  {
    var m := DecodeLibros(d).value;
    var e := EncodeLibros(m);
    forall k | k in d.props
      ensures e.props[k] == LibroDoc(DecodeLibro(k, d.props[k]).value)
    {
    }
    forall k | k in d.props
      ensures DecodeLibro(k, d.props[k]).Ok?
    {
    }
    forall k | k in d.props
      ensures forall name :: name in e.props[k].props ==>
        name in d.props[k].props && e.props[k].props[name] == d.props[k].props[name]
    {
      LibroDecodeEncode(k, d.props[k]);
    }
  }

  /**
   * `CargarLibros`: a missing file keeps the catalog in memory; an unreadable
   * or malformed one empties it; otherwise the file's catalog replaces it.
   */
  function CargarLibros(actual: map<string, Libro>, f: Archivo): (r: map<string, Libro>)
    ensures f.Ausente? ==> r == actual
    ensures f.Ilegible? ==> r == map[]
    ensures f.Contenido? ==> r == map[] || DecodeLibros(f.doc) == Ok(r)
    ensures f.Contenido? && !f.doc.JObj? ==> r == map[]
    ensures !f.Ausente? ==> Keyed(r) && Bounded(r)
  {
    match f
    case Ausente => actual
    case Ilegible => map[]
    case Contenido(doc) =>
      match DecodeLibros(doc)
      case Ok(m) => m
      case Err(_) => map[]
  }

  /** A file holding a document that decodes to `m` loads as `m`. */
  lemma CargarLibrosDecoded(actual: map<string, Libro>, doc: Json, m: map<string, Libro>)
    requires DecodeLibros(doc) == Ok(m)
    ensures CargarLibros(actual, Contenido(doc)) == m
  {
  }

  // ----- ledger -----

  /** The object a loan is written as. */
  function PrestamoDoc(p: Prestamo): Json
    requires ValidDate(p.fecha)
  {
    JObj(map["ISBN" := JStr(p.isbn), "Usuario" := JStr(p.usuario), "Fecha" := JStr(FormatDate(p.fecha))])
  }

  /** The ledger as an array, one object per loan, in ledger order. */
  function EncodePrestamos(ps: seq<Prestamo>): (d: Json)
    requires forall i :: 0 <= i < |ps| ==> ValidDate(ps[i].fecha)
    ensures d.JArr? && |d.items| == |ps|
    ensures forall i :: 0 <= i < |ps| ==>
      d.items[i] == JObj(map["ISBN" := JStr(ps[i].isbn), "Usuario" := JStr(ps[i].usuario),
                             "Fecha" := JStr(FormatDate(ps[i].fecha))])
  {
    JArr(seq(|ps|, i requires 0 <= i < |ps| => PrestamoDoc(ps[i])))
  }

  /** One array element as a loan: an object whose date text parses exactly. */
  function DecodePrestamo(v: Json): (r: Result<Prestamo, DecodeError>)
    ensures r.Ok? ==> ValidDate(r.value.fecha)
  {
    if !v.JObj? then Err(BadRecord)
    else
      var isbn := TextField(v.props, "ISBN");
      var usuario := TextField(v.props, "Usuario");
      var fecha := TextField(v.props, "Fecha");
      if isbn.Some? && usuario.Some? && fecha.Some? && ParseDate(fecha.value).Some?
      then Ok(Prestamo(isbn.value, usuario.value, ParseDate(fecha.value).value))
      else Err(BadRecord)
  }

  /**
   * A loan is read exactly when its value is an object with string `ISBN`
   * and `Usuario` and a `Fecha` string that parses as a date; the loan then
   * carries those values.
   */
  lemma DecodePrestamoFields(v: Json)
    ensures var r := DecodePrestamo(v);
      && (r.Ok? <==>
          && v.JObj?
          && "ISBN" in v.props && v.props["ISBN"].JStr?
          && "Usuario" in v.props && v.props["Usuario"].JStr?
          && "Fecha" in v.props && v.props["Fecha"].JStr? && ParseDate(v.props["Fecha"].s).Some?)
      && (r.Ok? ==>
          && v.props["ISBN"] == JStr(r.value.isbn)
          && v.props["Usuario"] == JStr(r.value.usuario)
          && ParseDate(v.props["Fecha"].s) == Some(r.value.fecha))
      && (r.Err? ==> r == Err(BadRecord))
  {
  }

  /**
   * The ledger a document holds.  A JSON `null` reads as an empty ledger
   * without error; anything else that is not an array, or any bad element,
   * fails.
   */
  function DecodePrestamos(d: Json): (r: Result<seq<Prestamo>, DecodeError>)
    ensures d == JNull ==> r == Ok([])
    ensures !d.JArr? && d != JNull ==> r == Err(NotAnArray)
    ensures r.Ok? && d.JArr? ==> |r.value| == |d.items|
    ensures r.Ok? ==> forall i :: 0 <= i < |r.value| ==> ValidDate(r.value[i].fecha)
    ensures d.JArr? ==> (r.Ok? <==> forall i :: 0 <= i < |d.items| ==> DecodePrestamo(d.items[i]).Ok?)
    ensures r.Ok? && d.JArr? ==> forall i :: 0 <= i < |d.items| ==> r.value[i] == DecodePrestamo(d.items[i]).value
  {
    match d
    case JNull => Ok([])
    case JArr(items) =>
      if forall i :: 0 <= i < |items| ==> DecodePrestamo(items[i]).Ok?
      then Ok(seq(|items|, i requires 0 <= i < |items| => DecodePrestamo(items[i]).value))
      else Err(BadRecord)
    case _ => Err(NotAnArray)
  }

  /** A loan's object reads back as the same loan. */
  lemma PrestamoRoundTrip(p: Prestamo)
    requires ValidDate(p.fecha)
    ensures DecodePrestamo(PrestamoDoc(p)) == Ok(p)
  {
    DateRoundTrip(p.fecha);
  }

  /** Writing the ledger and reading it back gives the same loans in the same order. */
  lemma PrestamosRoundTrip(ps: seq<Prestamo>)
    requires forall i :: 0 <= i < |ps| ==> ValidDate(ps[i].fecha)
    ensures DecodePrestamos(EncodePrestamos(ps)) == Ok(ps)
  {
    var d := EncodePrestamos(ps);
    forall i | 0 <= i < |ps|
      ensures DecodePrestamo(d.items[i]) == Ok(ps[i])
    {
      PrestamoRoundTrip(ps[i]);
    }
    var r := seq(|d.items|, i requires 0 <= i < |d.items| => DecodePrestamo(d.items[i]).value);
    assert r == ps;
  }

  /** A ledger read from a document writes back the same date text it was read from. */
  lemma PrestamosDecodeEncode(d: Json)
    requires d.JArr? && DecodePrestamos(d).Ok?
    ensures var e := EncodePrestamos(DecodePrestamos(d).value);
      |e.items| == |d.items|
      && forall i, name :: 0 <= i < |d.items| && name in e.items[i].props ==>
           name in d.items[i].props && e.items[i].props[name] == d.items[i].props[name]
  {
    var ps := DecodePrestamos(d).value;
    forall i | 0 <= i < |d.items|
      ensures FormatDate(ps[i].fecha) == d.items[i].props["Fecha"].s
    {
      assert DecodePrestamo(d.items[i]).Ok?;
      ParseDateCanonical(d.items[i].props["Fecha"].s);
    }
  }

  /**
   * `CargarPrestamos`: a missing file keeps the ledger in memory; an
   * unreadable or malformed one empties it; otherwise the file's ledger replaces it.
   */
  function CargarPrestamos(actual: seq<Prestamo>, f: Archivo): (r: seq<Prestamo>)
    ensures f.Ausente? ==> r == actual
    ensures f.Ilegible? ==> r == []
    ensures f.Contenido? ==> r == [] || DecodePrestamos(f.doc) == Ok(r)
    ensures f.Contenido? && f.doc.JNull? ==> r == []
    ensures f.Contenido? && !f.doc.JNull? && !f.doc.JArr? ==> r == []
    ensures !f.Ausente? ==> forall i :: 0 <= i < |r| ==> ValidDate(r[i].fecha)
  {
    match f
    case Ausente => actual
    case Ilegible => []
    case Contenido(doc) =>
      match DecodePrestamos(doc)
      case Ok(ps) => ps
      case Err(_) => []
  }

  /** A file holding a document that decodes to `ps` loads as `ps`. */
  lemma CargarPrestamosDecoded(actual: seq<Prestamo>, doc: Json, ps: seq<Prestamo>)
    requires DecodePrestamos(doc) == Ok(ps)
    ensures CargarPrestamos(actual, Contenido(doc)) == ps
  {
  }

  // ----- loading -----

  /** Loading the file a catalog was saved to gives that catalog back, whatever was in memory. */
  lemma CargarLibrosSaved(actual: map<string, Libro>, libros: map<string, Libro>)
    requires Keyed(libros) && Bounded(libros)
    ensures CargarLibros(actual, Contenido(EncodeLibros(libros))) == libros
  {
    LibrosRoundTrip(libros);
  }

  /** One record without a 32-bit `cantidad` empties the whole catalog, good records included. */
  lemma CargarLibrosBadCount(actual: map<string, Libro>, d: Json, k: string)
    requires d.JObj? && k in d.props && d.props[k].JObj?
    requires IntField(d.props[k].props, "cantidad").None?
    ensures CargarLibros(actual, Contenido(d)) == map[]
  {
    assert DecodeLibro(k, d.props[k]).Err?;
  }

  /** Any record that does not read, whatever its fault, empties the whole catalog. */
  lemma CargarLibrosBadRecord(actual: map<string, Libro>, d: Json, k: string)
    requires d.JObj? && k in d.props && DecodeLibro(k, d.props[k]).Err?
    ensures CargarLibros(actual, Contenido(d)) == map[]
  {
  }

  /** Loading the file a ledger was saved to gives that ledger back, whatever was in memory. */
  lemma CargarPrestamosSaved(actual: seq<Prestamo>, ps: seq<Prestamo>)
    requires forall i :: 0 <= i < |ps| ==> ValidDate(ps[i].fecha)
    ensures CargarPrestamos(actual, Contenido(EncodePrestamos(ps))) == ps
  {
    PrestamosRoundTrip(ps);
  }

  /** One loan whose date text does not parse empties the whole ledger. */
  lemma CargarPrestamosBadDate(actual: seq<Prestamo>, d: Json, i: int)
    requires d.JArr? && 0 <= i < |d.items| && d.items[i].JObj?
    requires var f := TextField(d.items[i].props, "Fecha"); f.Some? && ParseDate(f.value).None?
    ensures CargarPrestamos(actual, Contenido(d)) == []
  {
    assert DecodePrestamo(d.items[i]).Err?;
  }

  /** Any loan that does not read, whatever its fault, empties the whole ledger. */
  lemma CargarPrestamosBadRecord(actual: seq<Prestamo>, d: Json, i: int)
    requires d.JArr? && 0 <= i < |d.items| && DecodePrestamo(d.items[i]).Err?
    ensures CargarPrestamos(actual, Contenido(d)) == []
  {
  }

  /** A ledger file holding JSON `null` loads as an empty ledger, not as an error. */
  lemma CargarPrestamosNull(actual: seq<Prestamo>)
    ensures CargarPrestamos(actual, Contenido(JNull)) == []
    ensures DecodePrestamos(JNull).Ok?
  {
  }

  /** A catalog file holding anything but an object is a decode error and loads as empty. */
  lemma CargarLibrosNotObject(actual: map<string, Libro>, d: Json)
    requires !d.JObj?
    ensures DecodeLibros(d) == Err(NotAnObject)
    ensures CargarLibros(actual, Contenido(d)) == map[]
  {
  }
}
