/** The offline store import of scripts/migracion.js: every `.csv` file of the import
    folder is read row by row; each row yields a store record (name, regional, department,
    city) or is skipped; the records are upserted by name into the store collection.
    csv-parser's tokenisation is left out: a row is given as its list of (header, value)
    columns, in the order `Object.keys` returns them. */
module Migracion {
  import opened Text

  /** U+FEFF, the byte order mark spreadsheet tools put in front of a UTF-8 file. */
  const Bom: char := '\U{FEFF}'

  /** `rawText` once a leading byte order mark is removed. */
  function StripBom(raw: string): (t: string)
    // a suffix of the text, at most one character shorter
    ensures |raw| - 1 <= |t| <= |raw| && t == raw[|raw| - |t|..]
    // the text changes exactly when it starts with the mark
    ensures t != raw <==> StartsWith(raw, [Bom])
  {
    if |raw| > 0 && raw[0] == Bom then raw[1..] else raw
  }

  /** Only one mark is removed: a second one stays part of the text. */
  lemma StripBomOnce(s: string)
    ensures StripBom([Bom] + s) == s
    ensures StripBom([Bom, Bom] + s) == [Bom] + s
  {
    assert ([Bom] + s)[1..] == s;
    assert ([Bom, Bom] + s)[1..] == [Bom] + s;
  }

  /** `text.split('\n')[0]`: everything before the first line feed. */
  function FirstLine(text: string): (r: string)
    ensures |r| <= |text| && r == text[..|r|]
    ensures forall i :: 0 <= i < |r| ==> r[i] != '\n'
    ensures |r| < |text| ==> text[|r|] == '\n'
  {
    if text == [] || text[0] == '\n' then [] else [text[0]] + FirstLine(text[1..])
  }

  /** Some `;` comes before the first line feed of `s`. */
  predicate SemicolonFirst(s: string) {
    exists i :: 0 <= i < |s| && s[i] == ';' && forall j :: 0 <= j < i ==> s[j] != '\n'
  }

  lemma {:induction false} FirstLineSemicolon(s: string)
    ensures ';' in FirstLine(s) <==> SemicolonFirst(s)
  {
    var linea := FirstLine(s);
    if ';' in linea {
      var i :| 0 <= i < |linea| && linea[i] == ';';
      assert s[i] == ';' && forall j :: 0 <= j < i ==> s[j] != '\n';
    }
    if SemicolonFirst(s) {
      var i :| 0 <= i < |s| && s[i] == ';' && forall j :: 0 <= j < i ==> s[j] != '\n';
      assert |linea| < |s| ==> s[|linea|] == '\n';
      assert i < |linea|;
      assert linea[i] == ';';
    }
  }

  lemma {:induction false} SemicolonFirstAfterBom(raw: string)
    ensures SemicolonFirst(raw) <==> SemicolonFirst(StripBom(raw))
  {
    var t := StripBom(raw);
    if t == raw {
      return;
    }
    if SemicolonFirst(raw) {
      var i :| 0 <= i < |raw| && raw[i] == ';' && forall j :: 0 <= j < i ==> raw[j] != '\n';
      assert t[i - 1] == ';' && forall j :: 0 <= j < i - 1 ==> t[j] == raw[j + 1];
    }
    if SemicolonFirst(t) {
      var i :| 0 <= i < |t| && t[i] == ';' && forall j :: 0 <= j < i ==> t[j] != '\n';
      assert raw[i + 1] == ';' && forall j :: 1 <= j < i + 1 ==> raw[j] == t[j - 1];
    }
  }

  /** The separator handed to the CSV parser: `;` when the first line (a byte order mark
      aside) holds one, else `,`. */
  function Separador(raw: string): (c: char)
    ensures c == ';' || c == ','
    ensures c == ';' <==> SemicolonFirst(raw)
  {
    var text := StripBom(raw);
    FirstLineSemicolon(text);
    SemicolonFirstAfterBom(raw);
    if ';' in FirstLine(text) then ';' else ','
  }

  // ---------------------------------------------------------------- headers

  /** `String(key).replace(/[^a-zA-Z0-9]/g, '').toUpperCase()`. */
  function CleanKey(key: string): (r: string)
    ensures |r| <= |key|
    ensures forall i :: 0 <= i < |r| ==> IsUpperAscii(r[i]) || IsDigit(r[i])
  {
    if key == [] then []
    else (if IsAlnumAscii(key[0]) then [UpperChar(key[0])] else []) + CleanKey(key[1..])
  }

  /** Cleaning works character by character: it distributes over concatenation, so every
      ASCII letter and digit of the key is kept, upper-cased and in order. */
  lemma {:induction false} CleanKeyAppend(a: string, b: string)
    ensures CleanKey(a + b) == CleanKey(a) + CleanKey(b)
    decreases |a|
  {
    if a == [] {
      assert a + b == b;
    } else {
      assert (a + b)[0] == a[0] && (a + b)[1..] == a[1..] + b;
      CleanKeyAppend(a[1..], b);
    }
  }

  /** One character: a letter or digit is upper-cased, anything else is removed. */
  lemma CleanKeyChar(c: char)
    ensures CleanKey([c]) == if IsAlnumAscii(c) then [UpperChar(c)] else []
  {
    assert [c][1..] == [];
  }

  /** A key made only of ASCII letters and digits is just upper-cased. */
  lemma {:induction false} CleanKeyAlnum(s: string)
    requires forall i :: 0 <= i < |s| ==> IsAlnumAscii(s[i])
    ensures CleanKey(s) == ToUpper(s)
  {
    if s != [] {
      CleanKeyAlnum(s[1..]);
    }
  }

  /** Spaces between the words of a header vanish and the words are upper-cased: `Nombre Tienda`,
      `nombre tienda` and `NOMBRE TIENDA` all clean to `NOMBRETIENDA`. */
  lemma CleanKeyPalabras(a: string, b: string)
    requires forall i :: 0 <= i < |a| ==> IsAlnumAscii(a[i])
    requires forall i :: 0 <= i < |b| ==> IsAlnumAscii(b[i])
    ensures CleanKey(a + " " + b) == ToUpper(a) + ToUpper(b)
  {
    var rest := " " + b;
    calc {
      CleanKey(a + " " + b);
      { assert a + " " + b == a + rest; }
      CleanKey(a + rest);
      { CleanKeyAppend(a, rest); }
      CleanKey(a) + CleanKey(rest);
      { CleanKeySpace(b); }
      CleanKey(a) + CleanKey(b);
      { CleanKeyAlnum(a); CleanKeyAlnum(b); }
      ToUpper(a) + ToUpper(b);
    }
  }

  /** A space in front of a key is dropped. */
  lemma CleanKeySpace(b: string)
    ensures CleanKey(" " + b) == CleanKey(b)
  {
    var s := " " + b;
    assert s[0] == ' ' && s[1..] == b;
  }

  /** So a header whose last word is `Tienda`, in any case, feeds the name. */
  lemma TiendaConEspacioAlimenta(a: string, b: string)
    requires forall i :: 0 <= i < |a| ==> IsAlnumAscii(a[i])
    requires forall i :: 0 <= i < |b| ==> IsAlnumAscii(b[i])
    requires ToUpper(b) == "TIENDA"
    ensures Alimenta(CleanKey(a + " " + b), Nombre)
  {
    CleanKeyPalabras(a, b);
    AlimentaPorPalabra(ToUpper(a), "");
    assert ToUpper(a) + "TIENDA" + "" == ToUpper(a) + ToUpper(b);
  }

  /** A cleaned key comes back unchanged from a second cleaning. */
  lemma {:induction false} CleanKeyIdempotent(key: string)
    ensures CleanKey(CleanKey(key)) == CleanKey(key)
  {
    var r := CleanKey(key);
    CleanKeyFixed(r);
  }

  lemma {:induction false} CleanKeyFixed(s: string)
    requires forall i :: 0 <= i < |s| ==> IsUpperAscii(s[i]) || IsDigit(s[i])
    ensures CleanKey(s) == s
  {
    if s != [] {
      CleanKeyFixed(s[1..]);
    }
  }

  /** The three fields a column can feed. */
  datatype Campo = Nombre | Ciudad | Departamento

  /** Which field a cleaned header feeds: TIENDA the name, CIUDAD or MUNICIPIO the city,
      DEPARTAMENTO the department (one header can feed several). */
  predicate Alimenta(cleanKey: string, f: Campo) {
    match f
    case Nombre => Contains(cleanKey, "TIENDA")
    case Ciudad => Contains(cleanKey, "CIUDAD") || Contains(cleanKey, "MUNICIPIO")
    case Departamento => Contains(cleanKey, "DEPARTAMENTO")
  }

  datatype Columna = Columna(key: string, raw: string)

  /** A cleaned header feeds a field wherever its marker word occurs in it. */
  lemma AlimentaPorPalabra(p: string, q: string)
    ensures Alimenta(p + "TIENDA" + q, Nombre)
    ensures Alimenta(p + "CIUDAD" + q, Ciudad) && Alimenta(p + "MUNICIPIO" + q, Ciudad)
    ensures Alimenta(p + "DEPARTAMENTO" + q, Departamento)
  {
    PalabraEn(p, "TIENDA", q);
    PalabraEn(p, "CIUDAD", q);
    PalabraEn(p, "MUNICIPIO", q);
    PalabraEn(p, "DEPARTAMENTO", q);
  }

  lemma PalabraEn(p: string, w: string, q: string)
    ensures Contains(p + w + q, w)
  {
    assert (p + w + q)[|p|..|p| + |w|] == w;
    ContainsAt(p + w + q, w, |p|);
  }

  /** `row[key] ? row[key].trim().toUpperCase() : null`. */
  function Valor(raw: string): (v: Option<string>)
    // only the empty cell is null; a cell of whitespace gives the empty string
    ensures v.None? <==> raw == ""
    ensures v.Some? ==> (v.value == "" <==> forall i :: 0 <= i < |raw| ==> IsSpace(raw[i]))
    // no surrounding whitespace, no lower-case ASCII letter, never longer than the cell
    ensures v.Some? ==> v.value == [] || (!IsSpace(v.value[0]) && !IsSpace(v.value[|v.value| - 1]))
    ensures v.Some? ==> forall i :: 0 <= i < |v.value| ==> !IsLowerAscii(v.value[i])
    ensures v.Some? ==> |v.value| <= |raw|
  {
    if raw == "" then None
    else
      TrimEmpty(raw);
      UpperKeepsSpace(Trim(raw));
      Some(ToUpper(Trim(raw)))
  }

  /** `trim` leaves nothing exactly when the text is all whitespace, and never lengthens it. */
  lemma TrimEmpty(s: string)
    ensures Trim(s) == [] <==> forall i :: 0 <= i < |s| ==> IsSpace(s[i])
    ensures |Trim(s)| <= |s|
  {
    var a := TrimStart(s);
    assert a == [] || a[0] == s[|s| - |a|];
  }

  /** Upper-casing keeps whitespace where it was. */
  lemma UpperKeepsSpace(s: string)
    ensures |ToUpper(s)| == |s|
    ensures forall i :: 0 <= i < |s| ==> (IsSpace(ToUpper(s)[i]) <==> IsSpace(s[i]))
    ensures forall i :: 0 <= i < |s| ==> !IsLowerAscii(ToUpper(s)[i])
  {
  }

  /** A cell already trimmed and upper-cased is its own value, so reading a value twice
      changes nothing. */
  lemma {:induction false} ValorFijo(raw: string)
    requires raw != "" && !IsSpace(raw[0]) && !IsSpace(raw[|raw| - 1])
    requires forall i :: 0 <= i < |raw| ==> !IsLowerAscii(raw[i])
    ensures Valor(raw) == Some(raw)
  {
    TrimOfClean(raw);
    assert ToUpper(raw) == raw;
  }

  lemma ValorIdempotente(raw: string)
    requires Valor(raw).Some? && Valor(raw).value != ""
    ensures Valor(Valor(raw).value) == Valor(raw)
  {
    ValorFijo(Valor(raw).value);
  }

  /** A column with a header that feeds `f`. */
  predicate Alimentada(c: Columna, f: Campo) {
    c.key != "" && Alimenta(CleanKey(c.key), f)
  }

  /** The value of the LAST column (with a non-empty header) that feeds `f`, if any column does:
      each matching column overwrites what an earlier one set. */
  function UltimoValor(row: seq<Columna>, f: Campo): Option<Option<string>> {
    if row == [] then None
    else
      var c := row[|row| - 1];
      if Alimentada(c, f) then Some(Valor(c.raw))
      else UltimoValor(row[..|row| - 1], f)
  }

  /** One more column: it overwrites the fields it feeds and leaves the others alone. */
  lemma UltimoValorPaso(row: seq<Columna>, i: nat)
    requires i < |row|
    ensures forall f :: (UltimoValor(row[..i + 1], f)
      == if Alimentada(row[i], f) then Some(Valor(row[i].raw)) else UltimoValor(row[..i], f))
  {
    assert row[..i + 1][..i] == row[..i];
  }

  /** A field stays unset exactly when no column feeds it. */
  lemma {:induction false} UltimoValorNone(row: seq<Columna>, f: Campo)
    ensures UltimoValor(row, f).None? <==> forall i :: 0 <= i < |row| ==> !Alimentada(row[i], f)
    decreases |row|
  {
    if row != [] {
      var pre := row[..|row| - 1];
      UltimoValorNone(pre, f);
      assert forall i :: 0 <= i < |pre| ==> pre[i] == row[i];
    }
  }

  /** The field takes the value of the last column that feeds it, whatever came before. */
  lemma {:induction false} UltimoValorEs(row: seq<Columna>, f: Campo, i: nat)
    requires i < |row| && Alimentada(row[i], f)
    requires forall j :: i < j < |row| ==> !Alimentada(row[j], f)
    ensures UltimoValor(row, f) == Some(Valor(row[i].raw))
    decreases |row|
  {
    if i < |row| - 1 {
      var pre := row[..|row| - 1];
      assert pre[i] == row[i];
      assert forall j :: i < j < |pre| ==> pre[j] == row[j];
      UltimoValorEs(pre, f, i);
    }
  }

  /** `nombre`: null unless a name column set it. */
  function NombreDe(u: Option<Option<string>>): Option<string> {
    match u
    case None => None
    case Some(v) => v
  }

  /** `ciudad`: `DESCONOCIDO` unless a city column set a non-empty value. */
  function CiudadDe(u: Option<Option<string>>): (c: string)
    ensures c != ""
  {
    match u
    case Some(Some(v)) => if v != "" then v else "DESCONOCIDO"
    case _ => "DESCONOCIDO"
  }

  /** `departamento`: `''` unless a department column set a value. */
  function DepartamentoDe(u: Option<Option<string>>): string {
    match u
    case Some(Some(v)) => v
    case _ => ""
  }

  /** The loop over `Object.keys(row)`: each matching column overwrites the field it feeds. */
  method LeerCampos(row: seq<Columna>) returns (nombre: Option<string>, ciudad: string, departamento: string)
    ensures nombre == NombreDe(UltimoValor(row, Nombre))
    ensures ciudad == CiudadDe(UltimoValor(row, Ciudad))
    ensures departamento == DepartamentoDe(UltimoValor(row, Departamento))
  {
    nombre, ciudad, departamento := None, "DESCONOCIDO", "";
    for i := 0 to |row|
      invariant nombre == NombreDe(UltimoValor(row[..i], Nombre))
      invariant ciudad == CiudadDe(UltimoValor(row[..i], Ciudad))
      invariant departamento == DepartamentoDe(UltimoValor(row[..i], Departamento))
    {
      UltimoValorPaso(row, i);
      var key := row[i].key;
      if key == "" {
        continue;
      }
      var cleanKey := CleanKey(key);
      var value := Valor(row[i].raw);
      if Alimenta(cleanKey, Nombre) {
        nombre := value;
      }
      if Alimenta(cleanKey, Ciudad) {
        ciudad := if value.Some? && value.value != "" then value.value else "DESCONOCIDO";
      }
      if Alimenta(cleanKey, Departamento) {
        departamento := value.GetOr("");
      }
    }
    assert row[..|row|] == row;
  }

  // ---------------------------------------------------------------- rows

  /** A store record as the import writes it. */
  datatype TiendaCsv = TiendaCsv(nombre: string, regional: string, departamento: string, ciudad: string)

  /** The skip rule and the department autocompletion of lines 52-67. */
  function Completar(nombre: Option<string>, ciudad: string, departamento: string, regional: string)
    : (t: Option<TiendaCsv>)
    // a row is dropped exactly when it has no usable name
    ensures t.None? <==> nombre.None? || nombre.value == "" || nombre.value == "NAN"
    ensures t.Some? ==> t.value.nombre == nombre.value && t.value.regional == regional
    ensures t.Some? ==> t.value.departamento != "" && t.value.departamento != "NAN"
    // a usable department is kept together with the city
    ensures t.Some? && departamento != "" && departamento != "NAN" ==>
      t.value.departamento == departamento && t.value.ciudad == ciudad
    // Bogota first: by the city or by the store's name; the city is rewritten too
    ensures t.Some? && (departamento == "" || departamento == "NAN") ==>
      if Contains(ciudad, "BOGOT") || Contains(nombre.value, "BOG") then
        t.value.departamento == "BOGOTA" && t.value.ciudad == "BOGOTA"
      else if Contains(ciudad, "SOACHA") then
        t.value.departamento == "CUNDINAMARCA" && t.value.ciudad == ciudad
      else
        t.value.departamento == "DESCONOCIDO" && t.value.ciudad == ciudad
  {
    if nombre.None? || nombre.value == "" || nombre.value == "NAN" then None
    else
      var n := nombre.value;
      if departamento == "" || departamento == "NAN" then
        if Contains(ciudad, "BOGOT") || Contains(n, "BOG") then Some(TiendaCsv(n, regional, "BOGOTA", "BOGOTA"))
        else if Contains(ciudad, "SOACHA") then Some(TiendaCsv(n, regional, "CUNDINAMARCA", ciudad))
        else Some(TiendaCsv(n, regional, "DESCONOCIDO", ciudad))
      else Some(TiendaCsv(n, regional, departamento, ciudad))
  }

  /** Every record the import writes has a usable name, a city and a department. */
  predicate Completa(t: TiendaCsv) {
    t.nombre != "" && t.nombre != "NAN" && t.ciudad != "" && t.departamento != "" && t.departamento != "NAN"
  }

  /** The record one row yields, if any. */
  function FilaATienda(row: seq<Columna>, regional: string): (t: Option<TiendaCsv>)
    ensures t.Some? ==> Completa(t.value) && t.value.regional == regional
  {
    Completar(NombreDe(UltimoValor(row, Nombre)), CiudadDe(UltimoValor(row, Ciudad)),
              DepartamentoDe(UltimoValor(row, Departamento)), regional)
  }

  /** The `data` handler: read the fields, then skip or complete the row. */
  method ProcesarFila(row: seq<Columna>, regional: string) returns (t: Option<TiendaCsv>)
    ensures t == FilaATienda(row, regional)
  {
    var nombre, ciudad, departamento := LeerCampos(row);
    if nombre.None? || nombre.value == "" || nombre.value == "NAN" {
      return None;
    }
    var n := nombre.value;
    if departamento == "" || departamento == "NAN" {
      if Contains(ciudad, "BOGOT") || Contains(n, "BOG") {
        departamento := "BOGOTA";
        ciudad := "BOGOTA";
      } else if Contains(ciudad, "SOACHA") {
        departamento := "CUNDINAMARCA";
      } else {
        departamento := "DESCONOCIDO";
      }
    }
    t := Some(TiendaCsv(n, regional, departamento, ciudad));
  }

  /** The records of a file's rows, in row order. */
  function TiendasDe(rows: seq<seq<Columna>>, regional: string): (ts: seq<TiendaCsv>)
    ensures |ts| <= |rows|
    ensures forall i :: 0 <= i < |ts| ==> Completa(ts[i]) && ts[i].regional == regional
  {
    if rows == [] then []
    else
      TiendasDe(rows[..|rows| - 1], regional)
        + (match FilaATienda(rows[|rows| - 1], regional) case Some(t) => [t] case None => [])
  }

  /** The rows of two parts of a file give the records of each part, in order. */
  lemma {:induction false} TiendasDeAppend(a: seq<seq<Columna>>, b: seq<seq<Columna>>, regional: string)
    ensures TiendasDe(a + b, regional) == TiendasDe(a, regional) + TiendasDe(b, regional)
    decreases |b|
  {
    if b == [] {
      assert a + b == a;
    } else {
      var b' := b[..|b| - 1];
      assert (a + b)[..|a + b| - 1] == a + b';
      assert (a + b)[|a + b| - 1] == b[|b| - 1];
      TiendasDeAppend(a, b', regional);
    }
  }

  /** One row gives its record, or nothing when it is skipped. */
  lemma TiendasDeFila(row: seq<Columna>, regional: string)
    ensures TiendasDe([row], regional) == match FilaATienda(row, regional) case Some(t) => [t] case None => []
  {
    assert [row][..0] == [];
  }

  /** `procesarCSV` after tokenisation: one `push` per row that yields a record. */
  method ProcesarCsv(rows: seq<seq<Columna>>, regional: string) returns (tiendas: seq<TiendaCsv>)
    ensures tiendas == TiendasDe(rows, regional)
    ensures forall i :: 0 <= i < |tiendas| ==> Completa(tiendas[i]) && tiendas[i].regional == regional
  {
    tiendas := [];
    for i := 0 to |rows|
      invariant tiendas == TiendasDe(rows[..i], regional)
    {
      assert rows[..i + 1][..i] == rows[..i];
      var t := ProcesarFila(rows[i], regional);
      if t.Some? {
        tiendas := tiendas + [t.value];
      }
    }
    assert rows[..|rows|] == rows;
  }

  // ---------------------------------------------------------------- files

  /** Only files whose name ends in `.csv` are read. */
  predicate EsCsv(nombre: string) {
    EndsWith(nombre, ".csv")
  }

  /** The regional a file stands for: its name with the first `.csv` removed and trimmed,
      then the trimmed part after the last `-` when there is one. */
  function Regional(archivo: string): (r: string)
    ensures '-' !in r
    ensures r == [] || (!IsSpace(r[0]) && !IsSpace(r[|r| - 1]))
  {
    var limpio := Trim(RemoveFirst(archivo, ".csv"));
    ContainsChar(limpio, '-');
    if Contains(limpio, "-") then Trim(AfterLast(limpio, '-')) else limpio
  }

  lemma {:induction false} AfterLastSuffix(a: string, r: string, c: char)
    requires c !in r
    ensures AfterLast(a + [c] + r, c) == r
    decreases |r|
  {
    if r == [] {
      assert (a + [c] + r)[|a + [c] + r| - 1] == c;
    } else {
      var s := a + [c] + r;
      assert s[..|s| - 1] == a + [c] + r[..|r| - 1];
      AfterLastSuffix(a, r[..|r| - 1], c);
      assert r == r[..|r| - 1] + [r[|r| - 1]];
    }
  }

  /** Leading whitespace stops at the first non-space character, wherever it comes from. */
  lemma {:induction false} TrimStartKeepsSuffix(a: string, b: string)
    requires b != [] && !IsSpace(b[0])
    ensures TrimStart(a + b) == TrimStart(a) + b
    decreases |a|
  {
    if a == [] {
      assert a + b == b;
    } else {
      assert (a + b)[0] == a[0];
      if IsSpace(a[0]) {
        assert (a + b)[1..] == a[1..] + b;
        TrimStartKeepsSuffix(a[1..], b);
      }
    }
  }

  lemma {:induction false} TrimEndOfClean(s: string)
    requires s == [] || !IsSpace(s[|s| - 1])
    ensures TrimEnd(s) == s
  {
  }

  lemma {:induction false} TrimOfClean(s: string)
    requires s == [] || (!IsSpace(s[0]) && !IsSpace(s[|s| - 1]))
    ensures Trim(s) == s
  {
  }

  /** The first `.csv` of a name that has no other dot is its extension. */
  lemma {:induction false} IndexOfExtension(a: string)
    requires '.' !in a
    ensures IndexOf(a + ".csv", ".csv") == Some(|a|)
  {
    var s := a + ".csv";
    assert s[|a|..|a| + 4] == ".csv";
    ContainsAt(s, ".csv", |a|);
    assert StartsWith(s[|a|..], ".csv");
    assert forall j :: 0 <= j < |a| ==> s[j] == a[j] && s[j] != '.';
    var k := IndexOf(s, ".csv").value;
    assert s[k..k + 4][0] == s[k];
  }

  /** In a name without other dots, `replace(".csv", "")` strips exactly the extension. */
  lemma RemoveExtension(stem: string)
    requires '.' !in stem
    ensures RemoveFirst(stem + ".csv", ".csv") == stem
  {
    IndexOfExtension(stem);
    assert (stem + ".csv")[..|stem|] == stem;
    assert (stem + ".csv")[|stem| + 4..] == [];
  }

  /** Trimming `a + b`, where `b` neither starts nor ends with whitespace, only strips the
      leading whitespace of `a`. */
  lemma TrimKeepsCleanSuffix(a: string, b: string)
    requires b != [] && !IsSpace(b[0]) && !IsSpace(b[|b| - 1])
    ensures Trim(a + b) == TrimStart(a) + b
  {
    TrimStartKeepsSuffix(a, b);
    TrimEndOfCleanSuffix(TrimStart(a), b);
  }

  lemma TrimEndOfCleanSuffix(p: string, b: string)
    requires b != [] && !IsSpace(b[|b| - 1])
    ensures TrimEnd(p + b) == p + b
  {
    assert (p + b)[|p + b| - 1] == b[|b| - 1];
    TrimEndOfClean(p + b);
  }

  /** The cleaned stem of `<prefix><rest>.csv`, where `rest` neither starts nor ends with
      whitespace: the extension goes, then the prefix's leading whitespace. */
  lemma CleanStem(prefix: string, rest: string)
    requires '.' !in prefix && '.' !in rest
    requires rest != [] && !IsSpace(rest[0]) && !IsSpace(rest[|rest| - 1])
    ensures Trim(RemoveFirst(prefix + rest + ".csv", ".csv")) == TrimStart(prefix) + rest
  {
    assert '.' !in prefix + rest;
    RemoveExtension(prefix + rest);
    TrimKeepsCleanSuffix(prefix, rest);
  }

  /** The text after the dash of `<p>-<regional>`, trimmed, is the regional. */
  lemma AfterDash(p: string, regional: string)
    requires '-' !in regional
    requires regional == [] || (!IsSpace(regional[0]) && !IsSpace(regional[|regional| - 1]))
    ensures Contains(p + "-" + regional, "-")
    ensures Trim(AfterLast(p + "-" + regional, '-')) == regional
  {
    var limpio := p + "-" + regional;
    assert limpio[|p|] == '-';
    ContainsAt(limpio, "-", |p|);
    assert limpio == p + ['-'] + regional;
    AfterLastSuffix(p, regional, '-');
    TrimOfClean(regional);
  }

  lemma Associative(a: string, b: string, c: string)
    ensures a + (b + c) == a + b + c
  {
  }

  /** A file named `<prefix>-<regional>.csv` stands for `<regional>`, for every prefix and
      every regional without dots, without dashes in the regional and without surrounding
      whitespace. */
  lemma RegionalRoundTrip(prefix: string, regional: string)
    requires '.' !in prefix && '.' !in regional && '-' !in regional
    requires regional == [] || (!IsSpace(regional[0]) && !IsSpace(regional[|regional| - 1]))
    ensures Regional(prefix + "-" + regional + ".csv") == regional
  {
    var rest := "-" + regional;
    Associative(prefix, "-", regional);
    assert rest[0] == '-' && rest[|rest| - 1] == if regional == [] then '-' else regional[|regional| - 1];
    assert !IsSpace(rest[0]) && !IsSpace(rest[|rest| - 1]);
    assert '.' !in rest by {
      assert forall t :: 1 <= t < |rest| ==> rest[t] == regional[t - 1];
    }
    CleanStem(prefix, rest);
    Associative(TrimStart(prefix), "-", regional);
    AfterDash(TrimStart(prefix), regional);
  }

  // ---------------------------------------------------------------- upsert

  datatype Archivo = Archivo(nombre: string, filas: seq<seq<Columna>>)

  /** The `.csv` files of a listing, in listing order. */
  function CsvFiles(archivos: seq<Archivo>): (r: seq<Archivo>)
    ensures |r| <= |archivos|
    ensures forall a :: a in r <==> a in archivos && EsCsv(a.nombre)
  {
    if archivos == [] then []
    else (if EsCsv(archivos[0].nombre) then [archivos[0]] else []) + CsvFiles(archivos[1..])
  }

  /** The listing is filtered file by file, keeping listing order: the filter distributes
      over concatenation. */
  lemma {:induction false} CsvFilesAppend(a: seq<Archivo>, b: seq<Archivo>)
    ensures CsvFiles(a + b) == CsvFiles(a) + CsvFiles(b)
    decreases |a|
  {
    if a == [] {
      assert a + b == b;
    } else {
      assert (a + b)[0] == a[0] && (a + b)[1..] == a[1..] + b;
      CsvFilesAppend(a[1..], b);
    }
  }

  /** Every record the files yield, file after file. */
  function Emitidas(archivos: seq<Archivo>): seq<TiendaCsv> {
    if archivos == [] then []
    else Emitidas(archivos[..|archivos| - 1]) + Lote(archivos[|archivos| - 1])
  }

  /** The records one file yields, under the regional its name stands for. */
  function Lote(archivo: Archivo): seq<TiendaCsv> {
    TiendasDe(archivo.filas, Regional(archivo.nombre))
  }

  /** Processing one more file appends that file's records. */
  lemma EmitidasSnoc(archivos: seq<Archivo>, i: nat)
    requires i < |archivos|
    ensures Emitidas(archivos[..i + 1]) == Emitidas(archivos[..i]) + Lote(archivos[i])
  {
    assert archivos[..i + 1][..i] == archivos[..i];
  }

  /** `findOneAndUpdate({nombre}, {$set: tienda}, {upsert: true})` for each record in turn:
      every field is set, so the record keyed by the name is replaced. */
  function UpsertAll(m: map<string, TiendaCsv>, ts: seq<TiendaCsv>): map<string, TiendaCsv> {
    if ts == [] then m
    else
      var t := ts[|ts| - 1];
      UpsertAll(m, ts[..|ts| - 1])[t.nombre := t]
  }

  /** The upserts never remove a store, add exactly the names written, and file every
      written record under its own name. */
  lemma {:induction false} UpsertAllClaves(m: map<string, TiendaCsv>, ts: seq<TiendaCsv>)
    ensures m.Keys <= UpsertAll(m, ts).Keys
    ensures forall i :: 0 <= i < |ts| ==> ts[i].nombre in UpsertAll(m, ts)
    ensures forall k :: k in UpsertAll(m, ts) ==>
      (k in m && UpsertAll(m, ts)[k] == m[k]) || (UpsertAll(m, ts)[k] in ts && UpsertAll(m, ts)[k].nombre == k)
    decreases |ts|
  {
    if ts != [] {
      var pre := ts[..|ts| - 1];
      UpsertAllClaves(m, pre);
      assert forall i :: 0 <= i < |pre| ==> pre[i] == ts[i];
      assert forall x :: x in pre ==> x in ts;
    }
  }

  /** The last record in `ts` with the given name, if any. */
  function UltimoConNombre(ts: seq<TiendaCsv>, nombre: string): (r: Option<TiendaCsv>)
    ensures r.Some? ==> r.value in ts && r.value.nombre == nombre
    ensures r.None? ==> forall i :: 0 <= i < |ts| ==> ts[i].nombre != nombre
  {
    if ts == [] then None
    else if ts[|ts| - 1].nombre == nombre then Some(ts[|ts| - 1])
    else UltimoConNombre(ts[..|ts| - 1], nombre)
  }

  /** After the upserts, a name holds the last record written under it; names no record
      carries keep what they had, and no record is ever removed. */
  lemma {:induction false} UpsertAllSpec(m: map<string, TiendaCsv>, ts: seq<TiendaCsv>, nombre: string)
    ensures UltimoConNombre(ts, nombre).Some? ==>
      nombre in UpsertAll(m, ts) && UpsertAll(m, ts)[nombre] == UltimoConNombre(ts, nombre).value
    ensures UltimoConNombre(ts, nombre).None? ==>
      (nombre in UpsertAll(m, ts) <==> nombre in m) && (nombre in m ==> UpsertAll(m, ts)[nombre] == m[nombre])
  {
    if ts != [] {
      UpsertAllSpec(m, ts[..|ts| - 1], nombre);
    }
  }

  lemma {:induction false} UpsertAllAppend(m: map<string, TiendaCsv>, a: seq<TiendaCsv>, t: TiendaCsv)
    ensures UpsertAll(m, a + [t]) == UpsertAll(m, a)[t.nombre := t]
  {
    assert (a + [t])[..|a|] == a;
  }

  lemma {:induction false} UpsertAllConcat(m: map<string, TiendaCsv>, a: seq<TiendaCsv>, b: seq<TiendaCsv>)
    ensures UpsertAll(m, a + b) == UpsertAll(UpsertAll(m, a), b)
    decreases |b|
  {
    if b == [] {
      assert a + b == a;
    } else {
      var b' := b[..|b| - 1];
      assert (a + b)[..|a + b| - 1] == a + b';
      UpsertAllConcat(m, a, b');
    }
  }

  class Directorio {
    /** The `Tienda` collection, keyed by `nombre`. */
    var tiendas: map<string, TiendaCsv>

    constructor (tiendas0: map<string, TiendaCsv>)
      ensures tiendas == tiendas0
    {
      tiendas := tiendas0;
    }

    /** The inner loop of `sincronizarTiendas`: one upsert per record, each counted. */
    method Upsertar(ts: seq<TiendaCsv>) returns (n: nat)
      modifies this
      ensures tiendas == UpsertAll(old(tiendas), ts)
      ensures n == |ts|
    {
      n := 0;
      for j := 0 to |ts|
        invariant tiendas == UpsertAll(old(tiendas), ts[..j])
        invariant n == j
      {
        UpsertAllAppend(old(tiendas), ts[..j], ts[j]);
        assert ts[..j + 1] == ts[..j] + [ts[j]];
        tiendas := tiendas[ts[j].nombre := ts[j]];
        n := n + 1;
      }
      assert ts[..|ts|] == ts;
    }

    /** One file of `sincronizarTiendas`: read its records, then upsert each of them. */
    method SincronizarArchivo(archivo: Archivo) returns (leidas: nat, sincronizadas: nat)
      modifies this
      ensures tiendas == UpsertAll(old(tiendas), Lote(archivo))
      ensures leidas == sincronizadas == |Lote(archivo)|
    {
      var regional := Regional(archivo.nombre);
      var tiendasDelArchivo := ProcesarCsv(archivo.filas, regional);
      sincronizadas := Upsertar(tiendasDelArchivo);
      leidas := |tiendasDelArchivo|;
    }

    /** `sincronizarTiendas`: every `.csv` file is processed and its records upserted in
        order; the two counters both end at the number of records written. */
    method Sincronizar(listado: seq<Archivo>) returns (leidas: nat, sincronizadas: nat)
      modifies this
      ensures tiendas == UpsertAll(old(tiendas), Emitidas(CsvFiles(listado)))
      ensures leidas == sincronizadas == |Emitidas(CsvFiles(listado))|
    {
      var archivos := CsvFiles(listado);
      leidas, sincronizadas := 0, 0;
      ghost var hechas: seq<TiendaCsv> := [];
      for i := 0 to |archivos|
        invariant hechas == Emitidas(archivos[..i])
        invariant tiendas == UpsertAll(old(tiendas), hechas)
        invariant leidas == sincronizadas == |hechas|
      {
        EmitidasSnoc(archivos, i);
        UpsertAllConcat(old(tiendas), hechas, Lote(archivos[i]));
        var l, n := SincronizarArchivo(archivos[i]);
        hechas := hechas + Lote(archivos[i]);
        leidas, sincronizadas := leidas + l, sincronizadas + n;
      }
      assert archivos[..|archivos|] == archivos;
    }
  }
}
