/** The acta buffer of routes/acta.js: a process-local table `actasEnMemoria` from a
    session id to the signed document ("acta") and the supporting images uploaded for it.
    Cloudinary uploads and destroys are given as their outcomes; the table itself is the
    field `entries` of `ActaBuffer`, changed in place by the four handlers. */
module Acta {
  import opened Text

  /** `{url, public_id}` of an asset stored in Cloudinary. */
  datatype Asset = Asset(url: string, publicId: string)

  /** One value of `actasEnMemoria`: `{acta, imagenes}`. */
  datatype Bundle = Bundle(acta: Option<Asset>, imagenes: seq<Asset>)

  /** The value a new or unknown session starts from: `{acta: null, imagenes: []}`. */
  const Empty: Bundle := Bundle(None, [])

  /** The outcome of one `uploadBufferToCloudinary` call. */
  datatype Upload = Uploaded(asset: Asset) | UploadFailed

  /** HTTP status of a reply: 200, 400, 500. */
  datatype Status = Ok | BadRequest | ServerError

  /** The reply of `POST /subir`: on 200 it carries what THIS request uploaded. */
  datatype UploadReply = UploadReply(status: Status, acta: Option<Asset>, imagenes: seq<Asset>)

  /** multer's `fileFilter`: a PDF, or any type under `image/`. */
  predicate AcceptsFile(mimetype: string) {
    mimetype == "application/pdf" || StartsWith(mimetype, "image/")
  }

  /** The filter takes a PDF and every `image/` subtype; the only `application/` type it
      takes is `application/pdf`. */
  lemma AcceptsFileTipos(sub: string)
    ensures AcceptsFile("application/pdf")
    ensures AcceptsFile("image/" + sub)
    ensures AcceptsFile("application/" + sub) <==> sub == "pdf"
  {
    assert ("image/" + sub)[..6] == "image/";
    assert ("application/" + sub)[..6] == "applic";
    if "application/" + sub == "application/pdf" {
      assert sub == ("application/" + sub)[12..];
    }
  }

  /** `Promise.all` over the image uploads resolves only when every upload does. */
  predicate AllUploaded(us: seq<Upload>) {
    forall i :: 0 <= i < |us| ==> us[i].Uploaded?
  }

  /** `results.map(r => ({url, public_id}))`. */
  function Assets(us: seq<Upload>): (r: seq<Asset>)
    requires AllUploaded(us)
    ensures |r| == |us|
    ensures forall i :: 0 <= i < |us| ==> us[i] == Uploaded(r[i])
  {
    seq(|us|, i requires 0 <= i < |us| => us[i].asset)
  }

  /** The request is rejected with 400 before the table is touched. */
  predicate Rejected(sesionId: string, acta: Option<Upload>, imagenes: seq<Upload>) {
    sesionId == "" || (acta.None? && imagenes == [])
  }

  /** `POST /subir` as a transition of the whole table: the new table and the reply. */
  function AfterUpload(m: map<string, Bundle>, sesionId: string, acta: Option<Upload>, imagenes: seq<Upload>)
    : (r: (map<string, Bundle>, UploadReply))
    // a missing session id, or no file at all, changes nothing and answers 400
    ensures Rejected(sesionId, acta, imagenes) ==> r.0 == m && r.1.status == BadRequest
    // otherwise the entry exists afterwards, even when an upload failed with 500
    ensures !Rejected(sesionId, acta, imagenes) ==> r.0.Keys == m.Keys + {sesionId} && r.1.status != BadRequest
    // no other session is touched
    ensures forall k :: k in m && k != sesionId ==> k in r.0 && r.0[k] == m[k]
    ensures r.1.status == Ok <==>
      !Rejected(sesionId, acta, imagenes) && (acta.None? || acta.value.Uploaded?) && AllUploaded(imagenes)
    // an uploaded acta replaces the previous one: at most one per session
    ensures !Rejected(sesionId, acta, imagenes) && acta.Some? && acta.value.Uploaded? ==>
      r.0[sesionId].acta == Some(acta.value.asset)
    // no acta in the request, or a failed acta upload, leaves the stored one as it was
    ensures !Rejected(sesionId, acta, imagenes) && (acta.None? || acta.value.UploadFailed?) ==>
      r.0[sesionId].acta == (if sesionId in m then m[sesionId].acta else None)
    // uploaded images go after the ones already there, in upload order; a failed upload adds none
    ensures r.1.status == Ok ==>
      r.0[sesionId].imagenes == (if sesionId in m then m[sesionId].imagenes else []) + r.1.imagenes
      && |r.1.imagenes| == |imagenes|
      && forall i :: 0 <= i < |imagenes| ==> imagenes[i] == Uploaded(r.1.imagenes[i])
    ensures !Rejected(sesionId, acta, imagenes) && r.1.status != Ok ==>
      r.0[sesionId].imagenes == (if sesionId in m then m[sesionId].imagenes else [])
  {
    if Rejected(sesionId, acta, imagenes) then (m, UploadReply(BadRequest, None, []))
    else
      var m0 := if sesionId in m then m else m[sesionId := Empty];
      if acta.Some? && acta.value.UploadFailed? then (m0, UploadReply(ServerError, None, []))
      else
        var subida := if acta.Some? then Some(acta.value.asset) else None;
        var m1 := if acta.Some? then m0[sesionId := m0[sesionId].(acta := subida)] else m0;
        if !AllUploaded(imagenes) then (m1, UploadReply(ServerError, None, []))
        else (m1[sesionId := m1[sesionId].(imagenes := m1[sesionId].imagenes + Assets(imagenes))],
              UploadReply(Ok, subida, Assets(imagenes)))
  }

  /** The names every plain object inherits from `Object.prototype`. `actasEnMemoria` is such an
      object (line 25), so `actasEnMemoria[k]` is truthy for these names with no entry stored. */
  predicate Heredada(k: string) {
    k in {"constructor", "__proto__", "toString", "toLocaleString", "valueOf", "hasOwnProperty",
          "isPrototypeOf", "propertyIsEnumerable", "__defineGetter__", "__defineSetter__",
          "__lookupGetter__", "__lookupSetter__"}
  }

  /** Lines 45-98 as written, for a session id that names an inherited property. Line 57 finds
      the inherited value truthy and creates nothing. Line 69 writes the acta onto that value:
      a function, or `Object.prototype` itself for `__proto__`. Line 84 then reads `.imagenes`
      of that value, which is `undefined`, so any image ends in a TypeError and a 500. The third
      component is the acta written outside the table. */
  function AfterUploadHeredada(m: map<string, Bundle>, sesionId: string, acta: Option<Upload>, imagenes: seq<Upload>)
    : (r: (map<string, Bundle>, UploadReply, Option<Asset>))
    requires Heredada(sesionId)
    // the table never gains the session's entry
    ensures r.0 == m
    ensures r.1.status == BadRequest <==> acta.None? && imagenes == []
    // only an acta without images is answered 200, and it is then stored nowhere in the table
    ensures r.1.status == Ok <==> acta.Some? && acta.value.Uploaded? && imagenes == []
    ensures r.2.Some? <==> acta.Some? && acta.value.Uploaded?
    ensures r.2.Some? ==> r.2.value == acta.value.asset
  {
    if Rejected(sesionId, acta, imagenes) then (m, UploadReply(BadRequest, None, []), None)
    else if acta.Some? && acta.value.UploadFailed? then (m, UploadReply(ServerError, None, []), None)
    else
      var escrita := if acta.Some? then Some(acta.value.asset) else None;
      if imagenes != [] then (m, UploadReply(ServerError, None, []), escrita)
      else (m, UploadReply(Ok, escrita, []), escrita)
  }

  /** An acta uploaded for the session `__proto__` is answered 200 but never reaches the
      session's entry: as written it lands on `Object.prototype`, while the table modelled by
      `AfterUpload` keeps it under that session. */
  lemma ProtoActaPerdida(m: map<string, Bundle>, a: Asset)
    requires "__proto__" !in m
    ensures var w := AfterUploadHeredada(m, "__proto__", Some(Uploaded(a)), []);
      w.1.status == Ok && "__proto__" !in w.0 && w.2 == Some(a)
    ensures var c := AfterUpload(m, "__proto__", Some(Uploaded(a)), []);
      c.1.status == Ok && "__proto__" in c.0 && c.0["__proto__"].acta == Some(a)
  {
  }

  /** The whole route: multer's filter runs on every file (`tipos` are their declared types)
      before the handler. A refused type ends the request with Express's 500 before the
      handler runs, so no entry is created. */
  function AfterRequest(m: map<string, Bundle>, sesionId: string, tipos: seq<string>,
                        acta: Option<Upload>, imagenes: seq<Upload>): (r: (map<string, Bundle>, UploadReply))
    ensures (exists i :: 0 <= i < |tipos| && !AcceptsFile(tipos[i])) ==>
      r == (m, UploadReply(ServerError, None, []))
    ensures (forall i :: 0 <= i < |tipos| ==> AcceptsFile(tipos[i])) ==>
      r == AfterUpload(m, sesionId, acta, imagenes)
    // a request can only create the entry of its own session, and only once every file passed
    ensures r.0.Keys <= m.Keys + {sesionId}
    ensures r.0.Keys != m.Keys ==> forall i :: 0 <= i < |tipos| ==> AcceptsFile(tipos[i])
  {
    if forall i :: 0 <= i < |tipos| ==> AcceptsFile(tipos[i]) then AfterUpload(m, sesionId, acta, imagenes)
    else (m, UploadReply(ServerError, None, []))
  }

  /** `imagenes.filter(x => x.public_id !== publicId)`. */
  function RemoveById(s: seq<Asset>, publicId: string): (r: seq<Asset>)
    ensures |r| <= |s|
    ensures forall x :: x in r <==> x in s && x.publicId != publicId
  {
    if s == [] then [] else
      (if s[0].publicId == publicId then [] else [s[0]]) + RemoveById(s[1..], publicId)
  }

  /** The filter keeps the survivors' order: it distributes over concatenation. */
  lemma {:induction false} RemoveByIdAppend(a: seq<Asset>, b: seq<Asset>, publicId: string)
    ensures RemoveById(a + b, publicId) == RemoveById(a, publicId) + RemoveById(b, publicId)
    decreases |a|
  {
    if a == [] {
      assert a + b == b;
    } else {
      assert (a + b)[0] == a[0] && (a + b)[1..] == a[1..] + b;
      RemoveByIdAppend(a[1..], b, publicId);
    }
  }

  /** A list without the id comes back unchanged, so removing twice is removing once. */
  lemma {:induction false} RemoveByIdAbsent(s: seq<Asset>, publicId: string)
    requires forall i :: 0 <= i < |s| ==> s[i].publicId != publicId
    ensures RemoveById(s, publicId) == s
    ensures RemoveById(RemoveById(s, publicId), publicId) == RemoveById(s, publicId)
    decreases |s|
  {
    if s != [] {
      RemoveByIdAbsent(s[1..], publicId);
    }
  }

  /** `DELETE /:sesionId/item` as a transition of the whole table. */
  function AfterDeleteItem(m: map<string, Bundle>, sesionId: string, publicId: string, tipo: string, destroyed: bool)
    : (r: (map<string, Bundle>, Status))
    ensures publicId == "" || tipo == "" ==> r == (m, BadRequest)
    // the table changes only after the remote destroy succeeded
    ensures publicId != "" && tipo != "" && !destroyed ==> r == (m, ServerError)
    ensures publicId != "" && tipo != "" && destroyed ==> r.1 == Ok
    // no entry is created, and no other session is touched
    ensures r.0.Keys == m.Keys
    ensures forall k :: k in m && k != sesionId ==> r.0[k] == m[k]
    ensures r.1 == Ok && sesionId in m ==>
      // the acta is cleared exactly when its id is the one deleted
      && (r.0[sesionId].acta == None <==> m[sesionId].acta == None || m[sesionId].acta.value.publicId == publicId)
      && (r.0[sesionId].acta != None ==> r.0[sesionId].acta == m[sesionId].acta)
      // every image with that id goes, the others stay in their order (RemoveById, RemoveByIdAppend)
      && r.0[sesionId].imagenes == RemoveById(m[sesionId].imagenes, publicId)
  {
    if publicId == "" || tipo == "" then (m, BadRequest)
    else if !destroyed then (m, ServerError)
    else if sesionId in m then
      var data := m[sesionId];
      var acta := if data.acta.Some? && data.acta.value.publicId == publicId then None else data.acta;
      (m[sesionId := Bundle(acta, RemoveById(data.imagenes, publicId))], Ok)
    else (m, Ok)
  }

  class ActaBuffer {
    /** `actasEnMemoria`. */
    var entries: map<string, Bundle>

    constructor ()
      ensures entries == map[]
    {
      entries := map[];
    }

    /** `POST /subir` (routes/acta.js:39-99): the file filter, then the handler, which creates
        the entry, overwrites the acta and pushes the images. */
    method Subir(sesionId: string, tipos: seq<string>, acta: Option<Upload>, imagenes: seq<Upload>)
      returns (reply: UploadReply)
      modifies this
      ensures (entries, reply) == AfterRequest(old(entries), sesionId, tipos, acta, imagenes)
    {
      if exists i :: 0 <= i < |tipos| && !AcceptsFile(tipos[i]) {
        reply := UploadReply(ServerError, None, []);
        return;
      }
      if sesionId == "" || (acta.None? && imagenes == []) {
        reply := UploadReply(BadRequest, None, []);
        return;
      }
      if sesionId !in entries {
        entries := entries[sesionId := Empty];
      }
      var actaSubida: Option<Asset> := None;
      if acta.Some? {
        if acta.value.UploadFailed? {
          reply := UploadReply(ServerError, None, []);
          return;
        }
        actaSubida := Some(acta.value.asset);
        entries := entries[sesionId := entries[sesionId].(acta := actaSubida)];
      }
      var imagenesSubidas: seq<Asset> := [];
      if |imagenes| > 0 {
        if !AllUploaded(imagenes) {
          reply := UploadReply(ServerError, None, []);
          return;
        }
        imagenesSubidas := Assets(imagenes);
        var data := entries[sesionId];
        entries := entries[sesionId := data.(imagenes := data.imagenes + imagenesSubidas)];
      } else {
        assert Assets(imagenes) == [];
        assert entries[sesionId].imagenes + Assets(imagenes) == entries[sesionId].imagenes;
        assert entries == entries[sesionId := entries[sesionId].(imagenes := entries[sesionId].imagenes + Assets(imagenes))];
      }
      reply := UploadReply(Ok, actaSubida, imagenesSubidas);
    }

    /** `GET /:sesionId`: the stored bundle, or an empty one; nothing is created. */
    method Ver(sesionId: string) returns (b: Bundle)
      ensures sesionId in entries ==> b == entries[sesionId]
      ensures sesionId !in entries ==> b == Empty
    {
      if sesionId in entries {
        b := entries[sesionId];
      } else {
        b := Empty;
      }
    }

    /** `DELETE /:sesionId/item`: destroy remotely first, then drop the matching acta and images. */
    method EliminarItem(sesionId: string, publicId: string, tipo: string, destroyed: bool) returns (status: Status)
      modifies this
      ensures (entries, status) == AfterDeleteItem(old(entries), sesionId, publicId, tipo, destroyed)
    {
      if publicId == "" || tipo == "" {
        return BadRequest;
      }
      if !destroyed {
        return ServerError;
      }
      if sesionId in entries {
        var data := entries[sesionId];
        if data.acta.Some? && data.acta.value.publicId == publicId {
          data := data.(acta := None);
        }
        data := data.(imagenes := RemoveById(data.imagenes, publicId));
        entries := entries[sesionId := data];
      }
      status := Ok;
    }

    /** `DELETE /:sesionId`: drop the whole entry, locally only; repeating it changes nothing more. */
    method EliminarSesion(sesionId: string)
      modifies this
      ensures entries == old(entries) - {sesionId}
      ensures sesionId !in entries
      ensures sesionId !in old(entries) ==> entries == old(entries)
      ensures forall k :: k in old(entries) && k != sesionId ==> k in entries && entries[k] == old(entries)[k]
    {
      entries := entries - {sesionId};
    }
  }
}
