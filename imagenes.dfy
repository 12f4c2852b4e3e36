/** Evidence intake of routes/imagenes.js: multer's MIME whitelist, the `/subir` validation
    chain and the `nombreBase` file-name normalisation. The Cloudinary upload and the
    MongoDB save are given as their outcomes; the handler is a function from the request
    and those outcomes to the reply and the document saved, if any. */
module Imagenes {
  import opened Text
  import Acta
  import InformeService

  // ---------------------------------------------------------------- file filter

  /** `tiposPermitidos`. */
  const TiposPermitidos: seq<string> := ["image/jpeg", "image/png", "image/jpg"]

  /** multer's `fileFilter` for evidence photos. */
  predicate FiltroAcepta(mimetype: string) {
    mimetype in TiposPermitidos
  }

  /** The evidence filter accepts exactly three image types, every one of which the acta
      filter also accepts; PDFs and other image types are refused here. */
  lemma FiltroDentroDeActa(mimetype: string)
    ensures FiltroAcepta(mimetype) <==> mimetype == "image/jpeg" || mimetype == "image/png" || mimetype == "image/jpg"
    ensures FiltroAcepta(mimetype) ==> Acta.AcceptsFile(mimetype) && StartsWith(mimetype, "image/")
    ensures !FiltroAcepta("application/pdf") && Acta.AcceptsFile("application/pdf")
    ensures !FiltroAcepta("image/gif") && Acta.AcceptsFile("image/gif")
  {
    assert "image/gif"[..6] == "image/";
    if FiltroAcepta(mimetype) {
      assert mimetype[..6] == "image/";
    }
  }

  // ---------------------------------------------------------------- file names

  /** Node's posix `basename` without a suffix: the last path segment, trailing slashes ignored. */
  function Segmento(nombre: string): (seg: string)
    ensures '/' !in seg
  {
    AfterLast(DropTrailing(nombre, '/'), '/')
  }

  /** The position of the last `.` of `s`, if any. */
  function UltimoPunto(s: string): (r: Option<nat>)
    ensures r.Some? ==> r.value < |s| && s[r.value] == '.' && '.' !in s[r.value + 1..]
    ensures r.None? ==> '.' !in s
  {
    if s == [] then None
    else if s[|s| - 1] == '.' then Some(|s| - 1)
    else
      match UltimoPunto(s[..|s| - 1])
      case None => assert s == s[..|s| - 1] + [s[|s| - 1]]; None
      case Some(d) => assert s[d + 1..] == s[..|s| - 1][d + 1..] + [s[|s| - 1]]; Some(d)
  }

  /** Where Node's posix `extname` starts within a segment: at the last dot, unless that dot
      is the segment's first character or the segment is `..`. */
  function InicioExtension(seg: string): (r: Option<nat>)
    ensures r.Some? ==> 0 < r.value < |seg| && seg[r.value] == '.' && '.' !in seg[r.value + 1..]
    ensures r.None? ==> '.' !in seg || seg == ".." || (seg[0] == '.' && '.' !in seg[1..])
  {
    match UltimoPunto(seg)
    case None => None
    case Some(d) => if d == 0 || seg == ".." then None else Some(d)
  }

  /** `path.basename(name, path.extname(name))`: the last segment without its extension. */
  function Raiz(nombre: string): (r: string)
    // a prefix of the last segment, cut at a dot when it is cut at all
    ensures var seg := Segmento(nombre);
      |r| <= |seg| && r == seg[..|r|] && (|r| < |seg| ==> seg[|r|] == '.')
    ensures '/' !in r
  {
    var seg := Segmento(nombre);
    match InicioExtension(seg)
    case Some(d) => seg[..d]
    case None => seg
  }

  /** `.replace(/\s+/g, '_')`: every maximal run of whitespace becomes one underscore. */
  function ColapsarEspacios(s: string): (r: string)
    ensures forall i :: 0 <= i < |r| ==> !IsSpace(r[i])
    ensures forall i :: 0 <= i < |r| ==> r[i] == '_' || r[i] in s
    ensures |r| <= |s|
    decreases |s|
  {
    if s == [] then []
    else if IsSpace(s[0]) then
      var resto := TrimStart(s[1..]);
      var x := ColapsarEspacios(resto);
      Antepone('_', x, resto, s);
      ['_'] + x
    else
      var x := ColapsarEspacios(s[1..]);
      Antepone(s[0], x, s[1..], s);
      [s[0]] + x
  }

  /** One character ahead of a collapsed tail of `s`: still no whitespace, still only `_`
      and characters of `s`, still no longer than `s`. */
  lemma Antepone(c: char, x: string, t: string, s: string)
    requires s != [] && |t| < |s| && t == s[|s| - |t|..]
    requires !IsSpace(c) && (c == '_' || c == s[0])
    requires forall i :: 0 <= i < |x| ==> !IsSpace(x[i])
    requires forall i :: 0 <= i < |x| ==> x[i] == '_' || x[i] in t
    requires |x| <= |t|
    ensures forall i :: 0 <= i < |[c] + x| ==> !IsSpace(([c] + x)[i])
    ensures forall i :: 0 <= i < |[c] + x| ==> ([c] + x)[i] == '_' || ([c] + x)[i] in s
    ensures |[c] + x| <= |s|
  {
    forall i | 0 <= i < |x| && x[i] in t
      ensures x[i] in s
    {
      var j :| 0 <= j < |t| && t[j] == x[i];
      assert s[|s| - |t| + j] == x[i];
    }
  }

  /** A string without whitespace comes back unchanged. */
  lemma {:induction false} ColapsarSinEspacios(s: string)
    requires forall i :: 0 <= i < |s| ==> !IsSpace(s[i])
    ensures ColapsarEspacios(s) == s
    decreases |s|
  {
    if s != [] {
      ColapsarSinEspacios(s[1..]);
    }
  }

  /** A word, then a run of whitespace, then the rest: the word is kept and the whole run
      becomes a single `_`. */
  lemma {:induction false} ColapsarRun(w: string, sp: string, rest: string)
    requires forall i :: 0 <= i < |w| ==> !IsSpace(w[i])
    requires sp != [] && forall i :: 0 <= i < |sp| ==> IsSpace(sp[i])
    requires rest == [] || !IsSpace(rest[0])
    ensures ColapsarEspacios(w + sp + rest) == w + "_" + ColapsarEspacios(rest)
    decreases |w|
  {
    if w == [] {
      assert w + sp + rest == sp + rest;
      RunThenRest(sp, rest);
    } else {
      var x := ColapsarEspacios(rest);
      Cons3(w, sp, rest);
      Cons3(w, "_", x);
      ColapsarRun(w[1..], sp, rest);
      ColapsarCons(w[0], w[1..] + sp + rest);
    }
  }

  /** A non-space character is copied as it is. */
  lemma ColapsarCons(c: char, t: string)
    requires !IsSpace(c)
    ensures ColapsarEspacios([c] + t) == [c] + ColapsarEspacios(t)
  {
    assert ([c] + t)[1..] == t;
  }

  lemma Cons3(a: string, b: string, c: string)
    requires a != []
    ensures a + b + c == [a[0]] + (a[1..] + b + c)
  {
  }

  /** After a run of whitespace, `TrimStart` lands on the rest. */
  lemma {:induction false} RunThenRest(sp: string, rest: string)
    requires sp != [] && forall i :: 0 <= i < |sp| ==> IsSpace(sp[i])
    requires rest == [] || !IsSpace(rest[0])
    ensures ColapsarEspacios(sp + rest) == "_" + ColapsarEspacios(rest)
  {
    var s := sp + rest;
    assert s[0] == sp[0] && s[1..] == sp[1..] + rest;
    SpacesThenRest(sp[1..], rest);
  }

  lemma {:induction false} SpacesThenRest(sp: string, rest: string)
    requires forall i :: 0 <= i < |sp| ==> IsSpace(sp[i])
    requires rest == [] || !IsSpace(rest[0])
    ensures TrimStart(sp + rest) == rest
    decreases |sp|
  {
    if sp == [] {
      assert sp + rest == rest;
    } else {
      var s := sp + rest;
      assert s[0] == sp[0] && s[1..] == sp[1..] + rest;
      SpacesThenRest(sp[1..], rest);
    }
  }

  /** `.toLowerCase().trim().replace(/\s+/g, '_')`. */
  function Normalizar(s: string): (r: string)
    ensures forall i :: 0 <= i < |r| ==> !IsSpace(r[i]) && !IsUpperAscii(r[i])
  {
    var bajo := ToLower(s);
    var limpio := Trim(bajo);
    TrimChars(bajo);
    ColapsarEspacios(limpio)
  }

  /** Every character of `Trim(s)` comes from `s`. */
  lemma TrimChars(s: string)
    ensures forall c :: c in Trim(s) ==> c in s
  {
    var a := TrimStart(s);
    assert a == s[|s| - |a|..];
    var b := TrimEnd(a);
    assert b == a[..|b|];
  }

  /** `nombreBase`: the normalised file name without directory and extension. */
  function NombreBase(originalname: string): (r: string)
    ensures forall i :: 0 <= i < |r| ==> !IsSpace(r[i]) && !IsUpperAscii(r[i])
  {
    Normalizar(Raiz(originalname))
  }

  /** Normalising twice is normalising once. */
  lemma NormalizarIdempotente(s: string)
    ensures Normalizar(Normalizar(s)) == Normalizar(s)
  {
    YaNormalizado(Normalizar(s));
  }

  /** A name with no whitespace and no ASCII capital is its own normal form. */
  lemma YaNormalizado(n: string)
    requires forall i :: 0 <= i < |n| ==> !IsSpace(n[i]) && !IsUpperAscii(n[i])
    ensures Normalizar(n) == n
  {
    calc {
      Normalizar(n);
      ColapsarEspacios(Trim(ToLower(n)));
      { LowerOfNoUpper(n); }
      ColapsarEspacios(Trim(n));
      { TrimOfNoSpace(n); }
      ColapsarEspacios(n);
      { ColapsarSinEspacios(n); }
      n;
    }
  }

  lemma LowerOfNoUpper(n: string)
    requires forall i :: 0 <= i < |n| ==> !IsUpperAscii(n[i])
    ensures ToLower(n) == n
  {
  }

  lemma TrimOfNoSpace(n: string)
    requires forall i :: 0 <= i < |n| ==> !IsSpace(n[i])
    ensures Trim(n) == n
  {
    if n != [] {
      var a := TrimStart(n);
      assert !IsSpace(n[0]) && !IsSpace(n[|n| - 1]);
      assert |a| == |n|;
      assert a == n;
      var b := TrimEnd(a);
      assert |b| == |a|;
    }
  }

  /** A normalised name saved with any extension (no dots, no slashes) comes back as itself. */
  lemma NombreBaseRoundTrip(n: string, ext: string)
    requires n != [] && '/' !in n
    requires forall i :: 0 <= i < |n| ==> !IsSpace(n[i]) && !IsUpperAscii(n[i])
    requires '.' !in ext && '/' !in ext
    requires ext != [] || n != "."
    ensures NombreBase(n + "." + ext) == n
  {
    RaizTras(n, ext);
    YaNormalizado(n);
  }

  /** The stem of `<n>.<ext>` is `n`. */
  lemma RaizTras(n: string, ext: string)
    requires n != [] && '/' !in n
    requires '.' !in ext && '/' !in ext
    requires ext != [] || n != "."
    ensures Raiz(n + "." + ext) == n
  {
    var nombre := n + "." + ext;
    assert '/' !in nombre;
    SegmentoSinBarras(nombre);
    ExtensionTras(n, ext);
    assert nombre[..|n|] == n;
  }

  /** A name without slashes is its own segment. */
  lemma SegmentoSinBarras(nombre: string)
    requires '/' !in nombre
    ensures Segmento(nombre) == nombre
  {
    assert DropTrailing(nombre, '/') == nombre by {
      if nombre != [] {
        assert nombre[|nombre| - 1] in nombre;
      }
    }
    AfterLastAbsent(nombre, '/');
  }

  lemma {:induction false} AfterLastAbsent(s: string, c: char)
    requires c !in s
    ensures AfterLast(s, c) == s
    decreases |s|
  {
    if s != [] {
      assert s[|s| - 1] in s;
      assert forall x :: x in s[..|s| - 1] ==> x in s;
      AfterLastAbsent(s[..|s| - 1], c);
    }
  }

  /** In `<n>.<ext>` with a non-empty `n` and a dot-free `ext`, the extension starts at `|n|`. */
  lemma ExtensionTras(n: string, ext: string)
    requires n != [] && '.' !in ext
    requires ext != [] || n != "."
    ensures InicioExtension(n + "." + ext) == Some(|n|)
  {
    var s := n + "." + ext;
    assert s[|n|] == '.';
    assert s[|n| + 1..] == ext;
    assert forall j :: |n| < j < |s| ==> s[j] == ext[j - |n| - 1];
    var d := UltimoPunto(s).value;
    assert d == |n|;
    assert s != ".." by {
      if |s| == 2 {
        assert ext == [] && |n| == 1 && s[0] == n[0];
      }
    }
  }

  // ---------------------------------------------------------------- POST /subir

  /** The file multer hands over: the client's file name and the declared type. */
  datatype Archivo = Archivo(originalname: string, mimetype: string)

  /** The multipart request: the file field and the text fields, each possibly absent. */
  datatype Solicitud = Solicitud(
    imagen: Option<Archivo>,
    sesionId: Option<string>, tipo: Option<string>, ubicacion: Option<string>, observacion: Option<string>)

  /** The document the handler builds and saves. */
  datatype Documento = Documento(
    nombreOriginal: string, nombreArchivoOriginal: string, url: string,
    sesionId: string, tipo: InformeService.Tipo, ubicacion: string, observacion: string)

  datatype Respuesta = Respuesta(status: nat, mensaje: string, url: Option<string>)

  const MensajeFalta := "Falta imagen, sesionId, tipo o ubicaci\U{00F3}n"
  const MensajeTipo := "Tipo de imagen inv\U{00E1}lido. Debe ser \"previa\" o \"posterior\""
  const MensajeFiltro := "Formato de imagen no permitido"
  const MensajeError := "Error interno al subir imagen"
  const MensajeOk := "Imagen subida y registrada exitosamente"

  /** A form field JavaScript treats as false: absent or empty. */
  predicate Falta(v: Option<string>) {
    v.None? || v.value == ""
  }

  /** `['previa', 'posterior'].includes(tipo)`, as the stored enum. */
  function TipoDe(tipo: string): (r: Option<InformeService.Tipo>)
    ensures r == Some(InformeService.Previa) <==> tipo == "previa"
    ensures r == Some(InformeService.Posterior) <==> tipo == "posterior"
    ensures r.None? <==> tipo != "previa" && tipo != "posterior"
  {
    if tipo == "previa" then Some(InformeService.Previa)
    else if tipo == "posterior" then Some(InformeService.Posterior)
    else None
  }

  /** The label a type is stored and sent under (models/imagen.js:9). */
  function Etiqueta(t: InformeService.Tipo): string {
    match t
    case Previa => "previa"
    case Posterior => "posterior"
  }

  /** Label and type are inverse: each type's label is accepted as that type, and every
      accepted `tipo` is the label of the type it is stored as. */
  lemma TipoEtiqueta(t: InformeService.Tipo, tipo: string)
    ensures TipoDe(Etiqueta(t)) == Some(t)
    ensures TipoDe(tipo).Some? ==> Etiqueta(TipoDe(tipo).value) == tipo
  {
  }

  /** The schema's `required` fields, checked by Mongoose before the save. */
  predicate DocumentoValido(d: Documento) {
    d.nombreOriginal != "" && d.nombreArchivoOriginal != "" && d.url != "" && d.sesionId != ""
  }

  /** The request is turned away with 400 before anything is uploaded. */
  predicate Incompleta(req: Solicitud) {
    req.imagen.None? || Falta(req.sesionId) || Falta(req.tipo) || Falta(req.ubicacion)
  }

  /** The document built from a complete request with a valid `tipo` and an uploaded URL. */
  function Construir(req: Solicitud, url: string): (d: Documento)
    requires !Incompleta(req) && TipoDe(req.tipo.value).Some?
    ensures d.nombreOriginal == NombreBase(req.imagen.value.originalname)
    ensures d.nombreArchivoOriginal == req.imagen.value.originalname
    ensures d.url == url && d.sesionId == req.sesionId.value && d.ubicacion == req.ubicacion.value
    ensures (d.tipo == InformeService.Previa <==> req.tipo.value == "previa")
    ensures d.observacion == (if Falta(req.observacion) then "" else req.observacion.value)
  {
    Documento(
      NombreBase(req.imagen.value.originalname), req.imagen.value.originalname, url,
      req.sesionId.value, TipoDe(req.tipo.value).value, req.ubicacion.value,
      if Falta(req.observacion) then "" else req.observacion.value)
  }

  /** `POST /subir`: the reply and the document saved. `subida` is the Cloudinary
      `secure_url` or a failed upload; `guardadoOk` is whether the database accepted the
      write. A type the filter refuses never reaches the handler: Express answers 500, and
      `mensaje` is then the message of the filter's error. */
  function Subir(req: Solicitud, subida: Option<string>, guardadoOk: bool): (r: (Respuesta, Option<Documento>))
    // the filter runs first, while multer reads the file
    ensures req.imagen.Some? && !FiltroAcepta(req.imagen.value.mimetype) ==>
      r == (Respuesta(500, MensajeFiltro, None), None)
    // a missing file or field is reported before an invalid tipo
    ensures (req.imagen.None? || FiltroAcepta(req.imagen.value.mimetype)) && Incompleta(req) ==>
      r == (Respuesta(400, MensajeFalta, None), None)
    ensures (req.imagen.Some? && FiltroAcepta(req.imagen.value.mimetype) && !Incompleta(req)
      && TipoDe(req.tipo.value).None?) ==> r == (Respuesta(400, MensajeTipo, None), None)
    // 201 exactly when every step succeeded; the reply carries the URL that was saved
    ensures r.0.status == 201 <==>
      req.imagen.Some? && FiltroAcepta(req.imagen.value.mimetype) && !Incompleta(req)
      && TipoDe(req.tipo.value).Some? && subida.Some? && guardadoOk
      && DocumentoValido(Construir(req, subida.value))
    ensures r.0.status == 201 ==>
      r.1 == Some(Construir(req, subida.value)) && r.0.url == Some(r.1.value.url) && r.0.mensaje == MensajeOk
    // a valid request whose upload or save fails is answered with the generic 500
    ensures (req.imagen.Some? && FiltroAcepta(req.imagen.value.mimetype) && !Incompleta(req)
      && TipoDe(req.tipo.value).Some? && r.0.status != 201) ==> r.0 == Respuesta(500, MensajeError, None)
    // nothing is stored unless the reply is 201
    ensures r.0.status != 201 ==> r.1.None? && r.0.url.None?
    ensures r.0.status in {201, 400, 500}
  {
    if req.imagen.Some? && !FiltroAcepta(req.imagen.value.mimetype) then
      (Respuesta(500, MensajeFiltro, None), None)
    else if Incompleta(req) then (Respuesta(400, MensajeFalta, None), None)
    else if TipoDe(req.tipo.value).None? then (Respuesta(400, MensajeTipo, None), None)
    else if subida.None? then (Respuesta(500, MensajeError, None), None)
    else
      var doc := Construir(req, subida.value);
      if !guardadoOk || !DocumentoValido(doc) then (Respuesta(500, MensajeError, None), None)
      else (Respuesta(201, MensajeOk, Some(doc.url)), Some(doc))
  }

}
