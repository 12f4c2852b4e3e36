# Cubica photo app: field-evidence reports, modelled in Dafny

The backend of the Cubica photo app takes evidence photos of a store installation: "previa" photos from before the work and "posterior" photos from after. It also takes the signed delivery document (the "acta"). From these it builds a PDF report. Technicians log in with their national id number; one account, `admin`, may reach the administrative routes. An offline script loads the store directory from the regional CSV exports.

This project models the decision logic and the state changes of that backend. It also proves what they promise. The modules are:

- `Text` (text.dfy): the JavaScript string operations the handlers rely on.
  - `trim`, with JavaScript's whitespace set
  - ASCII `toUpperCase` and `toLowerCase`
  - `includes`, `startsWith`, `indexOf`
  - `replace` with a string pattern, which removes only the first occurrence
  - last-segment extraction
- `Acta` (acta.dfy): routes/acta.js. This is the process-local table `actasEnMemoria`, from a session id to its acta and supporting images. It is a class `ActaBuffer` with a `map` field that the four handlers update in place. The same table is also stated as a function of the old table.
- `InformeService` (informe_service.dfy): the report generator held in services/informeService.js.
  - the location line
  - the positional pairing of "previa" and "posterior" photos
  - the page-break rule
  - the `%PDF` check on the acta
  - the acta's consumption
  - `getPublicIdFromUrl`, as a leftmost regular-expression match with a greedy group
  - the Cloudinary cleanup loop
  - the report record
  - the two tables the handler changes (class `Generador`)
- `Migracion` (migracion.dfy): scripts/migracion.js.
  - detecting the byte order mark and the separator
  - key cleaning
  - the per-row field loop and department autocompletion
  - the regional derived from a file name
  - the upsert loop over every CSV file (class `Directorio`, whose map field is the store collection)
- `Imagenes` (imagenes.dfy): routes/imagenes.js.
  - multer's MIME whitelist
  - the validation chain of `POST /subir`
  - `nombreBase`, built from Node's posix `basename` and `extname` rules, lower-casing, trimming and whitespace collapsing
  - the document saved
- `Informes` (informes.dfy): routes/informes.js. This covers the query built from `search` and `userId`, the newest-first order, `skip`/`limit` paging, `total` and `totalPages`.
- `Auth` (auth.dfy): routes/auth.js. This covers the login decision chain and the session upsert keyed by the submitted login name (class `Sesiones`).
- `AdminOnly` (admin_only.dfy): middleware/adminOnly.js. This is the allow/deny decision of the admin gate, and a proof that it agrees with the sessions login writes.

The model takes no input from the outside world. Answers from Cloudinary, MongoDB, bcrypt and HTTP fetches are all parameters, given as their outcomes (`Lookup`, `Upload`, `Fetch`, booleans for "the call succeeded"). Clocks are parameters too.

The model follows the code where the code differs from the documented behaviour:

- routes/informes.js neither clamps `limit` to 100 nor raises `page` to at least 1. The model takes `page` and `limit` as given, and requires both to be at least 1.
- A failed evidence-photo fetch is not a silent skip. It happens inside an `async` promise executor (services/informeService.js:49-135). The outer promise never settles, and the executor's own rejection goes unhandled; on Node 15 and later that terminates the process. The model covers only fetches that succeed.
- services/informeService.js is read as the routes/pdf.js revision its line 1 names. Then `./acta` (line 11) is routes/acta.js, which exports `actasEnMemoria` (routes/acta.js:146). Loaded where it is stored, `./acta` would name services/acta.js, which is not part of this model. app.js (lines 8 and 18) mounts routes/pdf.js, not this file.

## Model

| member | source | states |
|---|---|---|
| Acta.Assets | routes/acta.js:75-83 | one `{url, public_id}` per upload, in upload order, each being what that upload returned |
| Acta.AcceptsFileTipos | routes/acta.js:11-16 | a PDF and every `image/` subtype pass; the only `application/` type that passes is `application/pdf` |
| Acta.AfterUpload | routes/acta.js:45-98 | a missing `sesionId`, or no file at all, gives 400 and leaves the table alone; otherwise the entry exists afterwards even on 500; 200 iff every upload succeeded; a new acta replaces the old one, while a failed acta upload or no acta keeps the stored one; images are appended in order; no other session changes |
| Acta.AfterUploadHeredada | routes/acta.js:25-84 | as written, for a session id naming an `Object.prototype` property: the table never gains the entry; an acta without images gets 200 but lands on the inherited value; any image gives 500 |
| Acta.ProtoActaPerdida | routes/acta.js:57-69 | for the session `__proto__`, the as-written upload answers 200 without storing the acta in the table, while `AfterUpload` stores it under the session |
| Acta.AfterRequest | routes/acta.js:11-98 | one file of a refused type gives 500 with the table unchanged; when every file passes, the handler's transition; no entry is created unless every file passed |
| Acta.RemoveById | routes/acta.js:129 | the filtered list holds exactly the images whose id differs, and never grows |
| Acta.RemoveByIdAppend | routes/acta.js:129 | the filter distributes over concatenation, so survivors keep their order across upload batches |
| Acta.RemoveByIdAbsent | routes/acta.js:129 | a list without the id is unchanged, so deleting twice is deleting once |
| Acta.AfterDeleteItem | routes/acta.js:116-137 | missing `public_id` or `tipo` gives 400; a failed destroy gives 500 with the table unchanged; on success the acta is cleared iff its id matches, and the images are exactly `RemoveById` of the old ones, so the others keep their order and repetitions; no entry is created, no other session changes |
| Acta.ActaBuffer.constructor | routes/acta.js:25 | the table starts empty |
| Acta.ActaBuffer.Subir | routes/acta.js:11-99 | the route's new table and reply are those of `AfterRequest`: the filter, then the handler |
| Acta.ActaBuffer.Ver | routes/acta.js:102-109 | the stored bundle, or `{acta: null, imagenes: []}` for an unknown session |
| Acta.ActaBuffer.EliminarItem | routes/acta.js:116-137 | the handler's new table and status are those of `AfterDeleteItem` |
| Acta.ActaBuffer.EliminarSesion | routes/acta.js:140-144 | the session's entry is removed, all others are kept, and an unknown id changes nothing |
| InformeService.Ubicacion | services/informeService.js:22-34 | a found store gives `nombre - departamento, ciudad`; otherwise the query value or `Sitio no especificado`; never empty |
| InformeService.OfTipo | services/informeService.js:78-79 | a photo is kept iff it is in the list and has the asked type; never longer than the list |
| InformeService.OfTipoAppend | services/informeService.js:78-79 | the filter distributes over concatenation, so the kept photos keep upload order and repetitions |
| InformeService.OfTipoPartition | services/informeService.js:78-79 | the "previa" and "posterior" filters together account for every photo |
| InformeService.Emparejar | services/informeService.js:78-84 | as many pairs as the shorter side; pair `i` is the i-th "previa" with the i-th "posterior"; at most half the photos are paired |
| InformeService.PageCount | services/informeService.js:127-130 | the page count is the least `p >= 1` with room for two pairs per page; a report without pairs is the cover page alone |
| InformeService.Paginar | services/informeService.js:92-131 | pair `i` is drawn on page `i / 2`, the last pair on the last page, and the loop opens `PageCount` pages |
| InformeService.PageCountMonotone | services/informeService.js:127-130 | more pairs never give fewer pages |
| InformeService.IsPdf | services/informeService.js:147 | true iff the data has at least four bytes and they are `%PDF` |
| InformeService.PdfPrefijo | services/informeService.js:147 | anything after the signature is a PDF; bytes appended after the first four never change the verdict |
| InformeService.DigitsEnd | services/informeService.js:204 | `\d+` stops at the first non-digit |
| InformeService.VersionEnd | services/informeService.js:204 | a match of `\/v\d+\/` starts with `/v` and ends with `/` |
| InformeService.LineEnd | services/informeService.js:204 | `.` stops at the first line terminator |
| InformeService.LastExt | services/informeService.js:204 | the greedy group ends at the last extension match of the line |
| InformeService.MatchFrom | services/informeService.js:204 | a captured public id is non-empty and has no line terminator |
| InformeService.MatchFromStep | services/informeService.js:204 | a match at the scan position is the answer; otherwise the scan moves one position on |
| InformeService.MatchFromNone | services/informeService.js:204 | the scan from `i` finds nothing iff no position from `i` on matches |
| InformeService.MatchFromFirst | services/informeService.js:204 | the scan from `i` returns the capture of the first position from `i` on that matches |
| InformeService.GetPublicIdFromUrl | services/informeService.js:203-206 | a returned public id is non-empty and lies on one line |
| InformeService.PublicIdNone | services/informeService.js:203-206 | null iff the expression matches at no position of the URL |
| InformeService.PublicIdLeftmost | services/informeService.js:203-206 | otherwise the capture of the leftmost matching position: from its version segment to the last extension on that line |
| InformeService.SkipPrefix | services/informeService.js:204 | a URL base with no `/v<digit>` segment cannot hold the leftmost match |
| InformeService.DigitsEndAt | services/informeService.js:204 | the digit run ends exactly at the first non-digit |
| InformeService.LineEndAtEnd | services/informeService.js:204 | a line with no terminator runs to the end of the URL |
| InformeService.LastExtIs | services/informeService.js:204 | the last extension position is the one the greedy group selects |
| InformeService.MatchOfLayout | services/informeService.js:203-206 | for a URL laid out as `<base>/v<digits>/<id>.<ext>`, the captured group is exactly the id |
| InformeService.PublicIdRoundTrip | services/informeService.js:203-206 | `getPublicIdFromUrl` recovers the public id of every delivery URL built from it |
| InformeService.ExtractableIds | services/informeService.js:182-191 | at most one public id per photo |
| InformeService.ExtractableIdsAppend | services/informeService.js:182-191 | the selection distributes over concatenation, so ids come in photo order |
| InformeService.ExtractableIdsPhoto | services/informeService.js:183-185 | one photo contributes its `getPublicIdFromUrl` result when there is one, and nothing otherwise |
| InformeService.Limpiar | services/informeService.js:182-191 | a destroy is attempted for exactly the extractable ids, in photo order; a failed destroy does not stop the loop |
| InformeService.GuardarAsWrittenNeverSaves | services/informeService.js:13 | with the name bound as line 13 binds it, nothing is ever saved; with the service bound, the report is |
| InformeService.Generador.constructor | services/informeService.js:11 | the acta table and the photo collection start as given |
| InformeService.Generador.ConsumirActa | services/informeService.js:141-158 | the entry is deleted in every case; the acta is merged iff it was fetched and starts with `%PDF`; the raw asset is destroyed whenever it was fetched; the step throws iff the fetch or the destroy failed |
| InformeService.Generador.Generar | services/informeService.js:19-200 | a failing photo query gives 500 iff the query fails, and 404 iff it answers with no photos, both with nothing touched; a session with photos gives 500 iff it had an acta entry whose fetch or destroy failed, and is generated otherwise; the acta entry is consumed in both cases; on success the pairs and pages are as specified, `includesActa` records whether an entry existed, the acta is merged iff it was fetched and starts with `%PDF`, the record `Informe técnico <sesionId>` is stored iff `guardarInforme` is the bound service and its writes succeed (so never as imported), the extractable ids are destroyed, and the photo collection loses exactly the session's key |
| Migracion.StripBom | scripts/migracion.js:18-20 | the result is a suffix at most one character shorter, and differs from the text iff the text starts with U+FEFF |
| Migracion.StripBomOnce | scripts/migracion.js:18-20 | only one mark is removed; a second one stays |
| Migracion.FirstLine | scripts/migracion.js:22 | the prefix before the first line feed |
| Migracion.FirstLineSemicolon | scripts/migracion.js:22-23 | the first line contains `;` iff a `;` comes before the first line feed |
| Migracion.SemicolonFirstAfterBom | scripts/migracion.js:17-23 | stripping the byte order mark never changes the detected separator |
| Migracion.Separador | scripts/migracion.js:22-23 | `;` iff the first line contains one, otherwise `,` |
| Migracion.CleanKey | scripts/migracion.js:44 | only upper-case ASCII letters and digits remain, and the key never grows |
| Migracion.CleanKeyAppend | scripts/migracion.js:44 | cleaning distributes over concatenation, so every letter and digit is kept in order |
| Migracion.CleanKeyChar | scripts/migracion.js:44 | one character is upper-cased when it is an ASCII letter or digit and removed otherwise |
| Migracion.CleanKeyAlnum | scripts/migracion.js:44 | a key of letters and digits is just upper-cased |
| Migracion.CleanKeyPalabras | scripts/migracion.js:44 | the space between two words vanishes and both words are upper-cased |
| Migracion.TiendaConEspacioAlimenta | scripts/migracion.js:44-47 | a header such as `Nombre Tienda`, in any case, feeds the name |
| Migracion.CleanKeyIdempotent | scripts/migracion.js:44 | cleaning a cleaned key changes nothing |
| Migracion.CleanKeyFixed | scripts/migracion.js:44 | a key already made of capitals and digits is its own cleaning |
| Migracion.AlimentaPorPalabra | scripts/migracion.js:47-49 | a cleaned header feeds the name, city or department wherever `TIENDA`, `CIUDAD`/`MUNICIPIO` or `DEPARTAMENTO` occurs in it |
| Migracion.Valor | scripts/migracion.js:45 | null iff the cell is empty; `''` iff the cell is all whitespace; otherwise no surrounding whitespace, no lower-case ASCII letter, never longer than the cell |
| Migracion.TrimEmpty | scripts/migracion.js:45 | `trim` gives `''` iff the text is all whitespace |
| Migracion.ValorFijo | scripts/migracion.js:45 | a cell already trimmed and upper-cased is its own value |
| Migracion.ValorIdempotente | scripts/migracion.js:45 | reading a non-empty value a second time changes nothing |
| Migracion.UltimoValorNone | scripts/migracion.js:41-50 | a field stays unset iff no column with a header feeds it |
| Migracion.UltimoValorPaso | scripts/migracion.js:41-50 | one more column overwrites exactly the fields it feeds |
| Migracion.UltimoValorEs | scripts/migracion.js:41-50 | a field takes the value of the last column that feeds it |
| Migracion.CiudadDe | scripts/migracion.js:38-48 | a row's city is never empty, even when no city column has a value |
| Migracion.LeerCampos | scripts/migracion.js:41-50 | each field is the value of the last column that feeds it |
| Migracion.Completar | scripts/migracion.js:52-67 | rows with no name or `NAN` are skipped; a missing department becomes BOGOTA (city too), CUNDINAMARCA or DESCONOCIDO by the city and name rules; a present one is kept |
| Migracion.FilaATienda | scripts/migracion.js:36-67 | every record yielded is complete and carries the file's regional |
| Migracion.ProcesarFila | scripts/migracion.js:36-68 | the `data` handler yields `FilaATienda` of the row |
| Migracion.TiendasDe | scripts/migracion.js:36-69 | at most one complete record per row, each under the file's regional |
| Migracion.TiendasDeAppend | scripts/migracion.js:31-69 | the records of two runs of rows are the records of each, in order |
| Migracion.TiendasDeFila | scripts/migracion.js:36-69 | one row gives its `FilaATienda` record, or nothing when it is skipped |
| Migracion.ProcesarCsv | scripts/migracion.js:11-72 | the pushed records are those of `TiendasDe`, in row order |
| Migracion.Regional | scripts/migracion.js:87-95 | the regional has no dash and no surrounding whitespace |
| Migracion.RemoveExtension | scripts/migracion.js:87 | in a name without other dots, `replace('.csv', '')` strips exactly the extension |
| Migracion.CleanStem | scripts/migracion.js:87 | the cleaned stem of `<prefix><rest>.csv` is the left-trimmed prefix followed by `rest` |
| Migracion.AfterDash | scripts/migracion.js:90-92 | the trimmed last dash-separated part of `<p>-<regional>` is the regional |
| Migracion.RegionalRoundTrip | scripts/migracion.js:87-95 | a file named `<prefix>-<regional>.csv` stands for `<regional>` |
| Migracion.CsvFiles | scripts/migracion.js:79 | a file is read iff it is listed and its name ends in `.csv` |
| Migracion.CsvFilesAppend | scripts/migracion.js:79 | the filter distributes over concatenation, so listing order is kept |
| Migracion.EmitidasSnoc | scripts/migracion.js:85-113 | processing one more file appends that file's records |
| Migracion.UltimoConNombre | scripts/migracion.js:104-110 | the last record written under a name, or none |
| Migracion.UpsertAllClaves | scripts/migracion.js:104-112 | no store is removed, every written name is present, and each store is an old one or a written record filed under its own name |
| Migracion.UpsertAllSpec | scripts/migracion.js:104-112 | after the upserts a name holds its last record, and names no record mentions keep their old value |
| Migracion.UpsertAllAppend | scripts/migracion.js:104-112 | one more upsert overwrites exactly its own name |
| Migracion.UpsertAllConcat | scripts/migracion.js:85-114 | upserting two batches in turn is upserting their concatenation |
| Migracion.Directorio.constructor | scripts/migracion.js:6 | the store collection starts as given |
| Migracion.Directorio.Upsertar | scripts/migracion.js:104-112 | the collection becomes `UpsertAll` of the records, and each record is counted once |
| Migracion.Directorio.SincronizarArchivo | scripts/migracion.js:85-113 | one file's records are upserted, read and synchronised counts equal |
| Migracion.Directorio.Sincronizar | scripts/migracion.js:77-122 | the collection becomes `UpsertAll` of every CSV file's records in listing order; both totals equal their number |
| Imagenes.FiltroDentroDeActa | routes/imagenes.js:20-27 | exactly JPEG, PNG and `image/jpg` pass, each also accepted by the acta filter; PDFs and GIFs are refused here though the acta route accepts them |
| Imagenes.Segmento | routes/imagenes.js:51 | the segment has no slash |
| Imagenes.UltimoPunto | routes/imagenes.js:51 | the last dot, with none after it, or none at all |
| Imagenes.InicioExtension | routes/imagenes.js:51 | no extension without a dot, for a leading-dot-only name, or for `..` |
| Imagenes.Raiz | routes/imagenes.js:51 | a prefix of the last path segment, cut at a dot if cut at all, and slash-free |
| Imagenes.ColapsarEspacios | routes/imagenes.js:54 | the result has no whitespace, holds only `_` and input characters, and is no longer |
| Imagenes.ColapsarSinEspacios | routes/imagenes.js:54 | a string without whitespace is unchanged |
| Imagenes.ColapsarRun | routes/imagenes.js:54 | a whole run of whitespace after a word becomes one `_` |
| Imagenes.RunThenRest | routes/imagenes.js:54 | a leading whitespace run becomes one `_` |
| Imagenes.Normalizar | routes/imagenes.js:51-54 | the normal form has no whitespace and no ASCII capital |
| Imagenes.NombreBase | routes/imagenes.js:51-54 | `nombreBase` has no whitespace and no ASCII capital |
| Imagenes.NormalizarIdempotente | routes/imagenes.js:51-54 | normalising twice is normalising once |
| Imagenes.YaNormalizado | routes/imagenes.js:51-54 | a name without whitespace or capitals is its own normal form |
| Imagenes.NombreBaseRoundTrip | routes/imagenes.js:51-54 | a normalised name saved as `<name>.<ext>` comes back as itself |
| Imagenes.RaizTras | routes/imagenes.js:51 | the stem of `<n>.<ext>` is `n` |
| Imagenes.SegmentoSinBarras | routes/imagenes.js:51 | a slash-free name is its own segment |
| Imagenes.ExtensionTras | routes/imagenes.js:51 | in `<n>.<ext>` the extension starts right after `n` |
| Imagenes.TipoEtiqueta | routes/imagenes.js:40-42 | each type's label is accepted as that type, and every accepted `tipo` is the label of the type stored |
| Imagenes.Construir | routes/imagenes.js:57-65 | the document carries `nombreBase`, the original name, the uploaded URL, the fields, and `''` for a missing observation |
| Imagenes.Subir | routes/imagenes.js:20-80 | filter rejection gives 500 with the filter error's message; a missing field gives 400 before the type check; a bad type gives 400; a failed upload or save gives the generic 500; 201 iff upload and save succeed, with the built document saved and its URL returned; nothing is saved otherwise |
| Informes.ConstruirConsulta | routes/informes.js:24-34 | a filter is set iff its parameter is non-empty, and then equals it |
| Informes.CoincideSinMayusculas | routes/informes.js:27-28 | upper- or lower-casing the search pattern changes no match |
| Informes.Filtrar | routes/informes.js:37-40 | a report is listed iff it is in the collection and matches the query |
| Informes.FiltrarAppend | routes/informes.js:37-40 | filtering distributes over concatenation, so collection order and repetitions are kept |
| Informes.SinFiltros | routes/informes.js:24-37 | with neither parameter every report matches, in collection order |
| Informes.Insertar | routes/informes.js:42 | inserting into a newest-first list keeps it newest first and adds exactly the report |
| Informes.Ordenar | routes/informes.js:42 | the result is newest first and a permutation of the input |
| Informes.Pagina | routes/informes.js:40-44 | at most `limit` reports, the window right after the `(page - 1) * limit` skipped ones, empty past the end |
| Informes.TotalPaginas | routes/informes.js:49 | `Math.ceil(total / limit)`: enough pages for every report and no empty last page |
| Informes.Listar | routes/informes.js:18-57 | a failing query gives 500; `page` defaults to 1 and `limit` to 10; `total` counts every match; `totalPages` is its ceiling; `data` is the page of the newest-first matches |
| Informes.DatosCoinciden | routes/informes.js:37-51 | every listed report is in the collection and matches the query, and the page is newest first |
| Informes.PaginaDeOrden | routes/informes.js:42-44 | a page holds only results, in their order |
| Informes.PaginasPrefijo | routes/informes.js:43-44 | pages `1..k` laid end to end are the first `k * limit` results |
| Informes.PaginasCubren | routes/informes.js:43-49 | the `totalPages` pages together are exactly the ordered result, none repeated or skipped, and the last one is non-empty |
| Auth.NombreMostrado | routes/auth.js:37 | the stored name, or `Técnico` when it is missing or empty |
| Auth.Upsert | routes/auth.js:28-32 | the session keyed by the submitted name gets the user's id and the admin flag; an existing one keeps `fechaInicio`, a new one takes the insertion time; other sessions are unchanged |
| Auth.AfterLogin | routes/auth.js:8-46 | an unknown user gives 404 and a wrong password 401, both with the table unchanged; a failure gives 500; 200 iff user found, password matches and the upsert succeeded; `isAdmin` iff the stored name is `admin` |
| Auth.LoginIdempotente | routes/auth.js:28-31 | logging in again later changes nothing further; the session keeps its first `fechaInicio` |
| Auth.Sesiones.constructor | models/sesion.js:3-7 | the session collection starts empty |
| Auth.Sesiones.Login | routes/auth.js:8-46 | the handler's new table and reply are those of `AfterLogin` |
| AdminOnly.SesionIdDe | middleware/adminOnly.js:7 | a non-empty query parameter wins, otherwise the header; no session id iff neither carries a non-empty value |
| AdminOnly.Verificar | middleware/adminOnly.js:4-25 | no session id gives 403 before any lookup; an unknown or userless session gives 403; a throwing query gives 500; passes iff the session is flagged or its user is `admin`; `adminUserId` is absent iff the user is not found |
| AdminOnly.BanderaSinUsuario | middleware/adminOnly.js:13-19 | a flagged session passes even when its user is gone, with no `adminUserId` |
| AdminOnly.LoginAbreCompuerta | middleware/adminOnly.js:10-19 | after a successful login, the gate with that name as session id passes iff the user is `admin`, and carries that user's id |
| AdminOnly.QueryAntesQueHeader | middleware/adminOnly.js:7 | a non-empty query parameter makes the header irrelevant |

## Left out

- PDF drawing, text metrics, image fitting, logos and merging (pdfkit, pdf-merger-js) are not modelled. Only the pairing, the page-break arithmetic and the `%PDF` check are. Dates and `toLocaleString` formatting are left out too.
- Temporary files (`writeFileSync`, `unlinkSync`, `res.download`) are left out. So is the failure of `fs.unlinkSync` after a successful save in routes/imagenes.js, which would turn a 201 into a 500 after the document is stored.
- Evidence-photo and logo fetch failures are left out. They leave the request unanswered, and the unhandled rejection terminates the process on Node 15 and later. Cloudinary, MongoDB, bcrypt and axios are represented only by their outcomes.
- InformeService.Generador.Generar: failures of `merger.add`, `merger.save`, `readFileSync` and `Imagen.deleteMany` (services/informeService.js:139, 160, 194) are not modelled. A failing `Imagen.find` (line 43) is.
- The values of `actasEnMemoria` are read by services/informeService.js as `{url, public_id}`, while routes/acta.js stores `{acta, imagenes}`. The model follows each file as written. With acta.js's shape the fetch fails, which is the `FetchFailed` case of `ConsumirActa`. The two files' tables are separate fields (`ActaBuffer.entries`, `Generador.actas`), not one shared object.
- multer's size and count limits, multipart parsing and the page Express's default error handler renders are left out. A filter rejection is modelled as a 500 before the handler, with nothing stored. `Imagenes.Subir` carries the filter error's message as `mensaje`.
- Acta.AfterUpload: session ids are taken to be names that are not `Object.prototype` properties (`constructor`, `toString`, `__proto__` and the like). For those names `actasEnMemoria[sesionId]` is truthy with no entry stored. The upload then follows `AfterUploadHeredada`. `GET /:sesionId` spreads the inherited value, `DELETE /:sesionId/item` throws at line 129 and gives 500, and services/informeService.js:141 sees an acta. None of these are modelled beyond the upload.
- Acta.AfterUpload: each request is one atomic transition. Interleaving across the `await`s is left out. For example, a `DELETE /:sesionId` between lines 57-59 and line 69 makes line 69 throw, which gives a 500 after the acta was uploaded.
- `Promise.all` concurrency is left out: uploads are a sequence of outcomes, and any failure fails the whole request.
- Mongoose details are left out: schema casting, strict-mode dropping of fields not in the schema (for example `isAdmin` in models/sesion.js), unique indexes, `populate` and `lean`. Stored fields are modelled as the routes write them.
- csv-parser tokenisation and quoting are left out. A row is given as its columns in `Object.keys` order.
- Migracion.Directorio.Sincronizar: a file that cannot be read or parsed, or an upsert that throws, is not modelled. The script then logs, exits with code 1 (scripts/migracion.js:118-120) and keeps the upserts already made. The model covers runs in which every file reads and every upsert succeeds.
- routes/pdf.js, routes/tiendas.js, app.js, db.js and the other scripts are not part of this model.
- Informes.Coincide: `search` is a regular expression in the source; the model treats it as a literal substring, matched ignoring ASCII case.
- Informes.Listar: `parseInt` of the query strings is not modelled. Page and limit arrive as integers of at least 1, and `NaN` or non-positive values are not covered.
- Informes.Ordenar: MongoDB leaves the order of reports with equal `createdAt` open. The model fixes one such order, and `PaginasCubren` assumes successive page queries see that same order.
- Text.ToLower: only ASCII letters are case-mapped; JavaScript's full Unicode case mapping is not modelled. The same holds for `ToUpper` in the CSV import.
- AdminOnly.Verificar: the user table is a map from id to user. That each user's `id` equals its key is not required.
- Auth.AfterLogin: the `usuario` field is a string, so an absent field (`undefined` in the query filter) is not modelled. The stored user is given as the lookup's answer, so query-side trimming by the schema is covered only through that answer.
- Imagenes.NombreBase: the rule is stated for all inputs. A concrete example such as `Foto Antes 1.JPG` becoming `foto_antes_1` is not given as its own lemma; `ColapsarRun` and `NombreBaseRoundTrip` state the rules it follows.

## Findings

| source | as written | input that shows it | evidently intended | confidence | as-written member | corrected member |
|---|---|---|---|---|---|---|
| services/informeService.js:13 | the file takes `guardarInforme` from the exports of `../services/informeService`. Read as the routes/pdf.js revision, that is services/informeService.js, whose only export is an Express router (line 208). Loaded in place, it is the file itself, whose exports are still empty while it loads. Either way the name is `undefined`, so the call at lines 165-170 throws a TypeError, which lines 171-173 swallow | any successful report generation | the report record is stored through the report service | medium, not executed | InformeService.GuardarAsWrittenNeverSaves | InformeService.Generador.Generar |
| routes/acta.js:57-69 | `actasEnMemoria` is a plain object, so line 57 finds an inherited property such as `__proto__` truthy and creates no entry. Line 69 then writes the acta onto `Object.prototype`, and the reply is 200 | `POST /subir` with `sesionId=__proto__` and one PDF | every session id gets its own entry, as with `Object.create(null)` or a `Map` | medium, not executed | Acta.ProtoActaPerdida | Acta.AfterUpload |
