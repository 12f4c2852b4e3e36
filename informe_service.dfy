/** Report generation, `GET /generar/:sesionId` as services/informeService.js holds it:
    the session's evidence photos are paired before/after by position, laid out two pairs
    to a page after a cover, merged with the session's acta when that is a PDF, and then
    the consumed evidence is destroyed in Cloudinary and deleted from the database.
    Drawing, fetching and merging are left out; what they decide is kept: which pairs,
    which page, whether the acta is merged, which remote assets are destroyed. */
module InformeService {
  import opened Text

  newtype byte = x: int | 0 <= x < 256

  /** The `tipo` enum of an evidence photo (models/imagen.js:9). */
  datatype Tipo = Previa | Posterior

  /** An `Imagen` document as this route reads it. */
  datatype Imagen = Imagen(url: string, tipo: Tipo, observacion: string)

  /** A `Tienda` document (models/tienda.js). */
  datatype Tienda = Tienda(nombre: string, departamento: string, ciudad: string)

  const DefaultUbicacion: string := "Sitio no especificado"

  /** The location line of the cover: the query's `ubicacion` or the default, replaced by
      the store's name, department and city when a `tiendaId` was given and the store was
      found; a failed lookup keeps the earlier value. */
  function Ubicacion(query: string, tiendaId: string, tienda: Lookup<Tienda>): (u: string)
    ensures |u| > 0
    ensures tiendaId != "" && tienda.Found? ==>
      u == tienda.doc.nombre + " - " + tienda.doc.departamento + ", " + tienda.doc.ciudad
    ensures tiendaId == "" || !tienda.Found? ==> u == (if query != "" then query else DefaultUbicacion)
  {
    var u0 := if query != "" then query else DefaultUbicacion;
    if tiendaId != "" then
      match tienda
      case Found(t) => t.nombre + " - " + t.departamento + ", " + t.ciudad
      case Missing => u0
      case LookupFailed => u0
    else u0
  }

  // ---------------------------------------------------------------- pairing

  /** `imagenes.filter(img => img.tipo === t)`. */
  function OfTipo(s: seq<Imagen>, t: Tipo): (r: seq<Imagen>)
    ensures |r| <= |s|
    ensures forall x :: x in r <==> x in s && x.tipo == t
  {
    if s == [] then [] else (if s[0].tipo == t then [s[0]] else []) + OfTipo(s[1..], t)
  }

  /** The filter keeps upload order and multiplicity: it works photo by photo and
      distributes over concatenation. */
  lemma {:induction false} OfTipoAppend(a: seq<Imagen>, b: seq<Imagen>, t: Tipo)
    ensures OfTipo(a + b, t) == OfTipo(a, t) + OfTipo(b, t)
    decreases |a|
  {
    if a == [] {
      assert a + b == b;
    } else {
      assert (a + b)[0] == a[0] && (a + b)[1..] == a[1..] + b;
      OfTipoAppend(a[1..], b, t);
    }
  }

  /** Every photo is either a `previa` or a `posterior`, so the two filters split the list. */
  lemma {:induction false} OfTipoPartition(s: seq<Imagen>)
    ensures |OfTipo(s, Previa)| + |OfTipo(s, Posterior)| == |s|
  {
    if s != [] {
      OfTipoPartition(s[1..]);
    }
  }

  datatype Par = Par(previa: Imagen, posterior: Imagen)

  /** Positional pairing: the i-th `previa` with the i-th `posterior`, in upload order;
      the surplus of the longer list is dropped. */
  method Emparejar(imagenes: seq<Imagen>) returns (pares: seq<Par>)
    ensures |pares| == Min(|OfTipo(imagenes, Previa)|, |OfTipo(imagenes, Posterior)|)
    ensures |pares| <= |imagenes| / 2
    ensures forall i :: 0 <= i < |pares| ==>
      pares[i].previa == OfTipo(imagenes, Previa)[i] && pares[i].posterior == OfTipo(imagenes, Posterior)[i]
    ensures forall i :: 0 <= i < |pares| ==> pares[i].previa.tipo == Previa && pares[i].posterior.tipo == Posterior
  {
    var previas := OfTipo(imagenes, Previa);
    var posteriores := OfTipo(imagenes, Posterior);
    OfTipoPartition(imagenes);
    pares := [];
    var minLength := Min(|previas|, |posteriores|);
    assert 0 <= minLength <= |previas| && minLength <= |posteriores|;
    for i := 0 to minLength
      invariant |pares| == i
      invariant forall j :: 0 <= j < i ==> pares[j] == Par(previas[j], posteriores[j])
    {
      pares := pares + [Par(previas[i], posteriores[i])];
    }
  }

  // ---------------------------------------------------------------- pages

  /** The page-break rule: a new page follows pair `i` of `n` when `i + 1` is even and
      `i` is not the last pair. */
  predicate SaltoTras(i: nat, n: nat) {
    (i + 1) % 2 == 0 && i != n - 1
  }

  /** Pages of a report with `n` pairs: the cover page holds the first two pairs. */
  function PageCount(n: nat): (p: nat)
    ensures p >= 1
    // at most two pairs per page ...
    ensures n <= 2 * p
    // ... and no page without a pair, except the cover of a report without pairs
    ensures n > 0 ==> 2 * (p - 1) < n
    // a report without pairs is the cover page alone
    ensures n == 0 ==> p == 1
  {
    if n == 0 then 1 else 1 + (n - 1) / 2
  }

  /** The layout loop, reduced to its page arithmetic: the page each pair is drawn on and
      the number of pages of the evidence document. */
  method Paginar(n: nat) returns (paginaDe: seq<nat>, paginas: nat)
    ensures |paginaDe| == n
    ensures forall i :: 0 <= i < n ==> paginaDe[i] == i / 2
    ensures paginas == PageCount(n)
    ensures n > 0 ==> paginaDe[n - 1] == paginas - 1
  {
    var pagina: nat := 0;
    paginaDe := [];
    for i := 0 to n
      invariant |paginaDe| == i
      invariant forall j :: 0 <= j < i ==> paginaDe[j] == j / 2
      invariant pagina == if i < n || n == 0 then i / 2 else (n - 1) / 2
    {
      paginaDe := paginaDe + [pagina];
      if SaltoTras(i, n) {
        pagina := pagina + 1;
      }
    }
    paginas := pagina + 1;
  }

  /** More pairs never make fewer pages. */
  lemma PageCountMonotone(n: nat, m: nat)
    requires n <= m
    ensures PageCount(n) <= PageCount(m)
  {
  }

  // ---------------------------------------------------------------- the acta

  /** "%PDF", the file header of ISO 32000-1 section 7.5.2. */
  const PdfSignature: seq<byte> := [0x25, 0x50, 0x44, 0x46]

  /** `data.slice(0, 4).toString() === '%PDF'`. */
  function IsPdf(data: seq<byte>): (b: bool)
    ensures b <==> |data| >= 4 && data[0] == 0x25 && data[1] == 0x50 && data[2] == 0x44 && data[3] == 0x46
  {
    |data| >= 4 && data[..4] == PdfSignature
  }

  /** Only the first four bytes decide: whatever follows the signature, the acta is a PDF,
      and bytes appended to a document of four or more bytes never change the verdict. */
  lemma PdfPrefijo(data: seq<byte>, rest: seq<byte>)
    ensures IsPdf(PdfSignature + rest)
    ensures |data| >= 4 ==> (IsPdf(data + rest) <==> IsPdf(data))
  {
    assert (PdfSignature + rest)[..4] == PdfSignature;
    if |data| >= 4 {
      assert (data + rest)[..4] == data[..4];
    }
  }

  /** A value of the shared acta table as this file reads it: `{url, public_id}`. */
  datatype ActaRef = ActaRef(url: string, publicId: string)

  /** The outcome of `axios.get(url)`. */
  datatype Fetch = Fetched(data: seq<byte>) | FetchFailed

  /** What the acta step did: whether an entry was there, whether it joined the merge,
      which raw asset a destroy was attempted for, and whether the step threw. */
  datatype ActaConsumo = ActaConsumo(hadActa: bool, merged: bool, destroyed: Option<string>, threw: bool)

  // ---------------------------------------------------------------- public ids

  predicate IsLineTerminator(c: char) {
    c == '\n' || c == '\r' || c == '\U{2028}' || c == '\U{2029}'
  }

  /** The end of the run of digits starting at `j`. */
  function DigitsEnd(url: string, j: nat): (k: nat)
    requires j <= |url|
    ensures j <= k <= |url|
    ensures forall t :: j <= t < k ==> IsDigit(url[t])
    ensures k < |url| ==> !IsDigit(url[k])
    decreases |url| - j
  {
    if j < |url| && IsDigit(url[j]) then DigitsEnd(url, j + 1) else j
  }

  /** `\/v\d+\/` matched at `i`: the position just after its closing slash. */
  function VersionEnd(url: string, i: nat): (r: Option<nat>)
    ensures r.Some? ==> i + 4 <= r.value <= |url| && url[i] == '/' && url[i + 1] == 'v' && url[r.value - 1] == '/'
  {
    if i + 1 < |url| && url[i] == '/' && url[i + 1] == 'v' then
      var k := DigitsEnd(url, i + 2);
      if k > i + 2 && k < |url| && url[k] == '/' then Some(k + 1) else None
    else None
  }

  /** `\.(jpg|png|jpeg)` matches at `p`. */
  predicate ExtAt(url: string, p: nat)
    requires p <= |url|
  {
    StartsWith(url[p..], ".jpg") || StartsWith(url[p..], ".png") || StartsWith(url[p..], ".jpeg")
  }

  /** Where the line that starts at `s` ends: `.` does not match a line terminator. */
  function LineEnd(url: string, s: nat): (e: nat)
    requires s <= |url|
    ensures s <= e <= |url|
    ensures forall t :: s <= t < e ==> !IsLineTerminator(url[t])
    ensures e < |url| ==> IsLineTerminator(url[e])
    decreases |url| - s
  {
    if s < |url| && !IsLineTerminator(url[s]) then LineEnd(url, s + 1) else s
  }

  /** The greedy `(.+)`: the LAST position in `[lo, hi)` where an extension matches. */
  function LastExt(url: string, lo: nat, hi: nat): (r: Option<nat>)
    requires hi <= |url|
    ensures r.Some? ==> lo <= r.value < hi && ExtAt(url, r.value)
    ensures r.Some? ==> forall q :: r.value < q < hi ==> !ExtAt(url, q)
    ensures r.None? ==> forall q :: lo <= q < hi ==> !ExtAt(url, q)
    decreases hi
  {
    if hi <= lo then None
    else if ExtAt(url, hi - 1) then Some(hi - 1)
    else LastExt(url, lo, hi - 1)
  }

  /** The leftmost match of `/\/v\d+\/(.+)\.(jpg|png|jpeg)/` at or after `i`, as its group 1. */
  function MatchFrom(url: string, i: nat): (r: Option<string>)
    ensures r.Some? ==> |r.value| > 0 && forall t :: 0 <= t < |r.value| ==> !IsLineTerminator(r.value[t])
    decreases |url| - i
  {
    if i >= |url| then None
    else match VersionEnd(url, i)
      case Some(s) =>
        (match LastExt(url, s + 1, LineEnd(url, s))
         case Some(p) => Some(url[s..p])
         case None => MatchFrom(url, i + 1))
      case None => MatchFrom(url, i + 1)
  }

  /** The regular expression matches with its leading `/` at `j`: a version segment ends
      there, and an extension follows later on the same line. */
  predicate MatchesAt(url: string, j: nat) {
    match VersionEnd(url, j)
    case Some(s) => LastExt(url, s + 1, LineEnd(url, s)).Some?
    case None => false
  }

  /** Group 1 of the match at `j`: from the end of the version segment to the last
      extension of the line. */
  function CaptureAt(url: string, j: nat): string
    requires MatchesAt(url, j)
  {
    var s := VersionEnd(url, j).value;
    url[s..LastExt(url, s + 1, LineEnd(url, s)).value]
  }

  /** `MatchFrom` finds nothing at or after `i` exactly when no position there matches. */
  lemma {:induction false} MatchFromNone(url: string, i: nat)
    ensures MatchFrom(url, i).None? <==> forall j :: i <= j < |url| ==> !MatchesAt(url, j)
    decreases |url| - i
  {
    if i < |url| {
      MatchFromNone(url, i + 1);
      MatchFromStep(url, i);
    }
  }

  /** One step of the scan: a match at `i` is the answer, otherwise the scan moves on. */
  lemma MatchFromStep(url: string, i: nat)
    requires i < |url|
    ensures MatchesAt(url, i) ==> MatchFrom(url, i) == Some(CaptureAt(url, i))
    ensures !MatchesAt(url, i) ==> MatchFrom(url, i) == MatchFrom(url, i + 1)
  {
    match VersionEnd(url, i)
    case None =>
    case Some(s) =>
      var e := LineEnd(url, s);
      match LastExt(url, s + 1, e)
      case None =>
      case Some(p) =>
        assert CaptureAt(url, i) == url[s..p];
  }

  /** `MatchFrom` answers with the capture of the first position at or after `i` that matches. */
  lemma {:induction false} MatchFromFirst(url: string, i: nat, j: nat)
    requires i <= j < |url| && MatchesAt(url, j)
    requires forall k :: i <= k < j ==> !MatchesAt(url, k)
    ensures MatchFrom(url, i) == Some(CaptureAt(url, j))
    decreases j - i
  {
    if i == j {
      MatchFromStep(url, i);
    } else {
      calc {
        MatchFrom(url, i);
        { assert !MatchesAt(url, i); MatchFromStep(url, i); }
        MatchFrom(url, i + 1);
        { MatchFromFirst(url, i + 1, j); }
        Some(CaptureAt(url, j));
      }
    }
  }

  /** `getPublicIdFromUrl`: the text between the version segment and the image extension of
      the leftmost match, or null when no position matches. */
  function GetPublicIdFromUrl(url: string): (r: Option<string>)
    ensures r.Some? ==> |r.value| > 0 && forall t :: 0 <= t < |r.value| ==> !IsLineTerminator(r.value[t])
  {
    MatchFrom(url, 0)
  }

  /** `getPublicIdFromUrl` answers null exactly when the expression matches nowhere. */
  lemma PublicIdNone(url: string)
    ensures GetPublicIdFromUrl(url).None? <==> forall j :: 0 <= j < |url| ==> !MatchesAt(url, j)
  {
    MatchFromNone(url, 0);
  }

  /** The public id is the capture of the leftmost position where the expression matches. */
  lemma PublicIdLeftmost(url: string, j: nat)
    requires j < |url| && MatchesAt(url, j)
    requires forall k :: 0 <= k < j ==> !MatchesAt(url, k)
    ensures GetPublicIdFromUrl(url) == Some(CaptureAt(url, j))
  {
    MatchFromFirst(url, 0, j);
  }

  /** A Cloudinary delivery URL: `<base>/v<version>/<publicId>.<ext>`. */
  function DeliveryUrl(base: string, version: string, publicId: string, ext: string): string {
    base + "/v" + version + "/" + publicId + "." + ext
  }

  predicate NoVersionMarker(base: string) {
    forall i :: 0 <= i < |base| - 1 ==> !(base[i] == '/' && base[i + 1] == 'v')
  }

  lemma {:induction false} SkipPrefix(url: string, base: string, i: nat)
    requires i <= |base| < |url| && NoVersionMarker(base)
    requires url[..|base|] == base && url[|base|] == '/'
    ensures MatchFrom(url, i) == MatchFrom(url, |base|)
    decreases |base| - i
  {
    if i < |base| {
      assert url[i] == base[i];
      assert VersionEnd(url, i).None? by {
        if i + 1 < |base| {
          assert url[i + 1] == base[i + 1];
        }
      }
      SkipPrefix(url, base, i + 1);
    }
  }

  lemma {:induction false} DigitsEndAt(url: string, j: nat, k: nat)
    requires j <= k < |url| && !IsDigit(url[k])
    requires forall t :: j <= t < k ==> IsDigit(url[t])
    ensures DigitsEnd(url, j) == k
    decreases k - j
  {
    if j < k {
      DigitsEndAt(url, j + 1, k);
    }
  }

  lemma {:induction false} LineEndAtEnd(url: string, s: nat)
    requires s <= |url|
    requires forall t :: s <= t < |url| ==> !IsLineTerminator(url[t])
    ensures LineEnd(url, s) == |url|
    decreases |url| - s
  {
    if s < |url| {
      LineEndAtEnd(url, s + 1);
    }
  }

  lemma {:induction false} LastExtIs(url: string, lo: nat, hi: nat, p: nat)
    requires lo <= p < hi <= |url| && ExtAt(url, p)
    requires forall q :: p < q < hi ==> !ExtAt(url, q)
    ensures LastExt(url, lo, hi) == Some(p)
    decreases hi
  {
    if hi - 1 != p {
      LastExtIs(url, lo, hi - 1, p);
    }
  }

  /** The match found in a URL laid out as `<base>/v<digits>/<id>.<ext>`, stated by positions. */
  lemma MatchOfLayout(url: string, base: string, s: nat, p: nat)
    requires |base| + 4 <= s < p < |url| && url[..|base|] == base && NoVersionMarker(base)
    requires url[|base|] == '/' && url[|base| + 1] == 'v' && url[s - 1] == '/'
    requires forall t :: |base| + 2 <= t < s - 1 ==> IsDigit(url[t])
    requires forall t :: s <= t < |url| ==> !IsLineTerminator(url[t])
    requires ExtAt(url, p) && forall q :: p < q < |url| ==> url[q] != '.'
    ensures GetPublicIdFromUrl(url) == Some(url[s..p])
  {
    assert VersionEnd(url, |base|) == Some(s) by {
      DigitsEndAt(url, |base| + 2, s - 1);
    }
    assert LineEnd(url, s) == |url| by {
      LineEndAtEnd(url, s);
    }
    assert LastExt(url, s + 1, |url|) == Some(p) by {
      forall q | p < q < |url|
        ensures !ExtAt(url, q)
      {
        assert url[q..][0] == url[q];
      }
      LastExtIs(url, s + 1, |url|, p);
    }
    assert MatchFrom(url, |base|) == Some(url[s..p]);
    SkipPrefix(url, base, 0);
  }

  /** The `<base>/v<version>/` part of a delivery URL, by positions. */
  lemma HeadLayout(base: string, version: string, rest: string)
    requires forall t :: 0 <= t < |version| ==> IsDigit(version[t])
    ensures var url := base + "/v" + version + "/" + rest;
      var s := |base| + |version| + 3;
      && url[..|base|] == base && url[|base|] == '/' && url[|base| + 1] == 'v' && url[s - 1] == '/'
      && (forall t :: |base| + 2 <= t < s - 1 ==> IsDigit(url[t]))
      && url[s..] == rest
  {
    var url := base + "/v" + version + "/" + rest;
    assert forall t :: |base| + 2 <= t < |base| + |version| + 2 ==> url[t] == version[t - |base| - 2];
  }

  /** The `<publicId>.<ext>` part of a delivery URL, by positions. */
  lemma TailLayout(publicId: string, ext: string)
    requires forall t :: 0 <= t < |publicId| ==> !IsLineTerminator(publicId[t])
    requires ext == "jpg" || ext == "png" || ext == "jpeg"
    ensures var rest := publicId + "." + ext;
      && (forall t :: 0 <= t < |rest| ==> !IsLineTerminator(rest[t]))
      && StartsWith(rest[|publicId|..], "." + ext)
      && (forall q :: |publicId| < q < |rest| ==> rest[q] != '.')
      && rest[..|publicId|] == publicId
  {
    var rest := publicId + "." + ext;
    assert rest[|publicId|..] == "." + ext;
    assert forall t :: |publicId| <= t < |rest| ==> rest[t] == ("." + ext)[t - |publicId|];
  }

  /** `getPublicIdFromUrl` recovers the public id of every delivery URL whose base has no
      `/v` of its own, for each of the three extensions. */
  lemma PublicIdRoundTrip(base: string, version: string, publicId: string, ext: string)
    requires NoVersionMarker(base)
    requires |version| > 0 && forall t :: 0 <= t < |version| ==> IsDigit(version[t])
    requires |publicId| > 0 && forall t :: 0 <= t < |publicId| ==> !IsLineTerminator(publicId[t])
    requires ext == "jpg" || ext == "png" || ext == "jpeg"
    ensures GetPublicIdFromUrl(DeliveryUrl(base, version, publicId, ext)) == Some(publicId)
  {
    var url := (base + "/v" + version + "/") + (publicId + "." + ext);
    var s := |base| + |version| + 3;
    DeliveryUrlSplit(base, version, publicId, ext);
    DeliveryLayout(base, version, publicId, ext);
    MatchOfLayout(url, base, s, s + |publicId|);
  }

  /** A delivery URL meets the layout `MatchOfLayout` reads. */
  lemma DeliveryLayout(base: string, version: string, publicId: string, ext: string)
    requires forall t :: 0 <= t < |version| ==> IsDigit(version[t])
    requires forall t :: 0 <= t < |publicId| ==> !IsLineTerminator(publicId[t])
    requires ext == "jpg" || ext == "png" || ext == "jpeg"
    ensures var url := (base + "/v" + version + "/") + (publicId + "." + ext);
      var s := |base| + |version| + 3;
      var p := s + |publicId|;
      && url[..|base|] == base && url[|base|] == '/' && url[|base| + 1] == 'v' && url[s - 1] == '/'
      && (forall t :: |base| + 2 <= t < s - 1 ==> IsDigit(url[t]))
      && (forall t :: s <= t < |url| ==> !IsLineTerminator(url[t]))
      && ExtAt(url, p) && (forall q :: p < q < |url| ==> url[q] != '.')
      && url[s..p] == publicId
  {
    var head := base + "/v" + version + "/";
    var rest := publicId + "." + ext;
    HeadLayout(base, version, rest);
    TailLayout(publicId, ext);
    Splice(head, rest, |publicId|);
  }

  lemma DeliveryUrlSplit(base: string, version: string, publicId: string, ext: string)
    ensures DeliveryUrl(base, version, publicId, ext) == (base + "/v" + version + "/") + (publicId + "." + ext)
  {
  }

  /** Positions in `head + rest` past `head` are positions in `rest`. */
  lemma Splice(head: string, rest: string, k: nat)
    requires k <= |rest|
    ensures forall t :: |head| <= t < |head + rest| ==> (head + rest)[t] == rest[t - |head|]
    ensures (head + rest)[|head|..|head| + k] == rest[..k]
    ensures (head + rest)[|head| + k..] == rest[k..]
  {
  }

  /** The public ids the cleanup loop can extract, in the order of the photos. */
  function ExtractableIds(imagenes: seq<Imagen>): (ids: seq<string>)
    ensures |ids| <= |imagenes|
  {
    if imagenes == [] then []
    else
      var last := imagenes[|imagenes| - 1];
      ExtractableIds(imagenes[..|imagenes| - 1])
        + (match GetPublicIdFromUrl(last.url) case Some(id) => [id] case None => [])
  }

  /** The selection keeps the photos' order: it distributes over concatenation. */
  lemma {:induction false} ExtractableIdsAppend(a: seq<Imagen>, b: seq<Imagen>)
    ensures ExtractableIds(a + b) == ExtractableIds(a) + ExtractableIds(b)
    decreases |b|
  {
    if b == [] {
      assert a + b == a;
    } else {
      var b' := b[..|b| - 1];
      assert (a + b)[..|a + b| - 1] == a + b';
      assert (a + b)[|a + b| - 1] == b[|b| - 1];
      ExtractableIdsAppend(a, b');
    }
  }

  /** One photo gives its public id when `getPublicIdFromUrl` finds one, and nothing otherwise. */
  lemma ExtractableIdsPhoto(x: Imagen)
    ensures ExtractableIds([x]) == match GetPublicIdFromUrl(x.url) case Some(id) => [id] case None => []
  {
    assert [x][..0] == [];
  }

  /** The cleanup loop: a destroy is attempted for every photo whose public id can be
      extracted, in order; a failed destroy is logged and the loop goes on. */
  method Limpiar(imagenes: seq<Imagen>) returns (destruidos: seq<string>)
    ensures destruidos == ExtractableIds(imagenes)
  {
    destruidos := [];
    for i := 0 to |imagenes|
      invariant destruidos == ExtractableIds(imagenes[..i])
    {
      assert imagenes[..i + 1][..i] == imagenes[..i];
      var publicId := GetPublicIdFromUrl(imagenes[i].url);
      if publicId.Some? {
        destruidos := destruidos + [publicId.value];
      }
    }
    assert imagenes[..|imagenes|] == imagenes;
  }

  // ---------------------------------------------------------------- persisting

  /** The report record handed to `guardarInforme`. */
  datatype Informe = Informe(title: string, includesActa: bool)

  /** What the name `guardarInforme` holds in this file. Line 13 takes it from the exports
      of `../services/informeService`. That module exports only an Express router (line 208),
      and when it is this very file its exports are still empty while it loads. Either way
      the name is `undefined`. */
  datatype Binding = Undefined | Service

  const GuardarAsImported: Binding := Undefined

  /** Calling `guardarInforme(...)` inside the try of lines 163-173: `undefined(...)` throws a
      TypeError, which is logged and swallowed; the service saves when its writes succeed. */
  function Guardar(guardar: Binding, informe: Informe, saveOk: bool): (saved: Option<Informe>)
    ensures saved.Some? <==> guardar == Service && saveOk
    ensures saved.Some? ==> saved.value == informe
  {
    if guardar == Service && saveOk then Some(informe) else None
  }

  /** As written, no report record is ever saved, whatever the service would do. */
  lemma GuardarAsWrittenNeverSaves(informe: Informe)
    ensures Guardar(GuardarAsImported, informe, true) == None
    ensures Guardar(Service, informe, true) == Some(informe)
  {
  }

  // ---------------------------------------------------------------- the handler

  datatype Generacion =
    | SinImagenes                              // 404: the session has no photos
    | FalloConsulta                            // 500: the photo query threw
    | Fallo(includesActa: bool)                // 500: the acta step threw
    | Generado(ubicacion: string, pares: seq<Par>, paginas: nat, includesActa: bool,
               actaMerged: bool, guardado: Option<Informe>, destruidos: seq<string>)

  class Generador {
    /** `actasEnMemoria`, with values read as `{url, public_id}`. */
    var actas: map<string, ActaRef>
    /** The `Imagen` collection, per session in upload order (`fechaSubida` ascending). */
    var evidencia: map<string, seq<Imagen>>

    constructor (actas0: map<string, ActaRef>, evidencia0: map<string, seq<Imagen>>)
      ensures actas == actas0 && evidencia == evidencia0
    {
      actas := actas0;
      evidencia := evidencia0;
    }

    /** Lines 141-158: consume the session's acta. The fetched bytes join the merge only when
        they start with "%PDF"; the raw asset is destroyed whenever the fetch succeeded; the
        entry is deleted in every case, also when the fetch or the destroy threw. */
    method ConsumirActa(sesionId: string, fetch: Fetch, destroyOk: bool) returns (c: ActaConsumo)
      modifies this`actas
      ensures actas == old(actas) - {sesionId}
      ensures c.hadActa == (sesionId in old(actas))
      ensures c.merged <==> c.hadActa && fetch.Fetched? && IsPdf(fetch.data)
      ensures c.destroyed.Some? <==> c.hadActa && fetch.Fetched?
      ensures c.destroyed.Some? ==> c.destroyed.value == old(actas)[sesionId].publicId
      ensures c.threw <==> c.hadActa && (fetch.FetchFailed? || !destroyOk)
    {
      var hadActa := sesionId in actas;
      c := ActaConsumo(hadActa, false, None, false);
      if hadActa {
        var ref := actas[sesionId];
        match fetch {
          case FetchFailed =>
            c := c.(threw := true);
          case Fetched(data) =>
            if IsPdf(data) {
              c := c.(merged := true);
            }
            c := c.(destroyed := Some(ref.publicId), threw := !destroyOk);
        }
        actas := actas - {sesionId};
      }
    }

    /** The whole handler. Remote outcomes are inputs: the store lookup, whether the photo
        query answers, the acta fetch and destroy, what the name `guardarInforme` is bound to
        and whether the report service's writes succeed. */
    method Generar(sesionId: string, tiendaId: string, ubicacionQuery: string, tienda: Lookup<Tienda>,
                   consultaOk: bool, actaFetch: Fetch, actaDestroyOk: bool, guardar: Binding, saveOk: bool)
      returns (g: Generacion)
      modifies this
      // a photo query that throws: 500 before anything is touched
      ensures !consultaOk ==> g == FalloConsulta && actas == old(actas) && evidencia == old(evidencia)
      // no photos: 404 before the acta table or any record is touched
      ensures consultaOk && (sesionId !in old(evidencia) || old(evidencia)[sesionId] == []) ==>
        g == SinImagenes && actas == old(actas) && evidencia == old(evidencia)
      // the 500 of the photo query and the 404 happen exactly in those cases and touch nothing
      ensures g.FalloConsulta? <==> !consultaOk
      ensures g.SinImagenes? <==> consultaOk && (sesionId !in old(evidencia) || old(evidencia)[sesionId] == [])
      ensures g.SinImagenes? || g.FalloConsulta? ==> actas == old(actas) && evidencia == old(evidencia)
      // a session with photos is never a 404: it is generated unless the acta step throws
      ensures consultaOk && sesionId in old(evidencia) && old(evidencia)[sesionId] != [] ==> g.Fallo? || g.Generado?
      ensures g.Fallo? <==>
        consultaOk && sesionId in old(evidencia) && old(evidencia)[sesionId] != []
        && sesionId in old(actas) && (actaFetch.FetchFailed? || !actaDestroyOk)
      // otherwise the acta entry is consumed whatever happens next
      ensures g.Fallo? || g.Generado? ==> consultaOk && actas == old(actas) - {sesionId}
      ensures g.Fallo? ==> g.includesActa && evidencia == old(evidencia)
      ensures g.Generado? ==>
        var imgs := old(evidencia)[sesionId];
        && imgs != []
        && g.ubicacion == Ubicacion(ubicacionQuery, tiendaId, tienda)
        && |g.pares| == Min(|OfTipo(imgs, Previa)|, |OfTipo(imgs, Posterior)|)
        && (forall i :: 0 <= i < |g.pares| ==>
              g.pares[i] == Par(OfTipo(imgs, Previa)[i], OfTipo(imgs, Posterior)[i]))
        && g.paginas == PageCount(|g.pares|)
        // includesActa records whether an entry existed, whether or not it was a PDF
        && g.includesActa == (sesionId in old(actas))
        && (g.actaMerged <==> g.includesActa && actaFetch.Fetched? && IsPdf(actaFetch.data))
        // the record is stored only through a bound service whose writes succeed
        && (g.guardado.Some? <==> guardar == Service && saveOk)
        && (g.guardado.Some? ==>
              g.guardado.value == Informe("Informe t\U{00E9}cnico " + sesionId, g.includesActa))
        && g.destruidos == ExtractableIds(imgs)
        // the session's photo records are deleted; no other session's are touched
        && evidencia == old(evidencia) - {sesionId}
      // with the name bound as line 13 binds it, no generation ever stores its record
      ensures guardar == GuardarAsImported && g.Generado? ==> g.guardado == None
    {
      var ubicacion := Ubicacion(ubicacionQuery, tiendaId, tienda);
      if !consultaOk {
        return FalloConsulta;
      }
      if sesionId !in evidencia || evidencia[sesionId] == [] {
        return SinImagenes;
      }
      var imagenes := evidencia[sesionId];
      var pares := Emparejar(imagenes);
      var paginaDe, paginas := Paginar(|pares|);
      var consumo := ConsumirActa(sesionId, actaFetch, actaDestroyOk);
      if consumo.threw {
        return Fallo(consumo.hadActa);
      }
      var informe := Informe("Informe t\U{00E9}cnico " + sesionId, consumo.hadActa);
      var guardado := Guardar(guardar, informe, saveOk);
      var destruidos := Limpiar(imagenes);
      evidencia := evidencia - {sesionId};
      g := Generado(ubicacion, pares, paginas, consumo.hadActa, consumo.merged, guardado, destruidos);
    }
  }
}
