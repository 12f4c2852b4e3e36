/** The `adminOnly` middleware of middleware/adminOnly.js: find the session named by the
    request, then let the request through only for an admin. The two database lookups are
    read from the session table and the user table; whether each query succeeds is given.
    The writes to `req` are the decision's result. */
module AdminOnly {
  import opened Text
  import Auth

  /** `next()` with `req.isAdmin = true` and `req.adminUserId`, or a JSON error reply. */
  datatype Decision = Permitir(adminUserId: Option<string>) | Denegar(status: nat, error: string)

  const MensajeFaltaSesion := "Solo admin (falta sesionId)"
  const MensajeSoloAdmin := "Solo admin"
  const MensajeError := "Error de autorizaci\U{00F3}n"

  /** `req.query.sesionId || req.headers['x-sesion-id']`, with `""` for a missing value. */
  function SesionIdDe(query: Option<string>, header: Option<string>): (r: string)
    ensures query.Some? && query.value != "" ==> r == query.value
    ensures query.None? || query.value == "" ==> r == header.GetOr("")
    // no session id exactly when neither source carries a non-empty value
    ensures r == "" <==> (query.None? || query.value == "") && (header.None? || header.value == "")
  {
    if query.Some? && query.value != "" then query.value else header.GetOr("")
  }

  /** The user `findById` returns for the id, or `null`. */
  function Usuario(usuarios: map<string, Auth.Usuario>, id: string): Option<Auth.Usuario> {
    if id in usuarios then Some(usuarios[id]) else None
  }

  /** The flag the middleware computes once it has a session `s` and its user `u`. */
  predicate EsAdmin(s: Auth.Sesion, u: Option<Auth.Usuario>) {
    s.isAdmin || (u.Some? && u.value.usuario == Auth.Admin)
  }

  /** The middleware's decision. `sesionesOk` and `usuariosOk` say whether the session and
      the user query answer rather than throw. */
  function Verificar(query: Option<string>, header: Option<string>, sesiones: map<string, Auth.Sesion>,
                     usuarios: map<string, Auth.Usuario>, sesionesOk: bool, usuariosOk: bool): (d: Decision)
    // without a session id the answer is 403, whatever the database would say
    ensures SesionIdDe(query, header) == "" ==> d == Denegar(403, MensajeFaltaSesion)
    // an unknown session, or one with no user, is refused
    ensures var sid := SesionIdDe(query, header);
      sid != "" && sesionesOk && (sid !in sesiones || sesiones[sid].usuarioId.None?) ==>
        d == Denegar(403, MensajeSoloAdmin)
    // a query that throws answers 500 and the request goes no further
    ensures var sid := SesionIdDe(query, header);
      sid != "" && (!sesionesOk || (sid in sesiones && sesiones[sid].usuarioId.Some? && !usuariosOk)) ==>
        d == Denegar(500, MensajeError)
    // the request passes exactly when its session is flagged admin or belongs to `admin`
    ensures var sid := SesionIdDe(query, header);
      d.Permitir? <==>
        && sid != "" && sesionesOk && usuariosOk && sid in sesiones && sesiones[sid].usuarioId.Some?
        && EsAdmin(sesiones[sid], Usuario(usuarios, sesiones[sid].usuarioId.value))
    // `adminUserId` is the user's id, and is absent when the user is not found
    ensures var sid := SesionIdDe(query, header);
      d.Permitir? ==> (d.adminUserId ==
        (var u := Usuario(usuarios, sesiones[sid].usuarioId.value); if u.Some? then Some(u.value.id) else None))
    ensures d.Denegar? ==> d.status in {403, 500}
  {
    var sid := SesionIdDe(query, header);
    if sid == "" then Denegar(403, MensajeFaltaSesion)
    else if !sesionesOk then Denegar(500, MensajeError)
    else if sid !in sesiones || sesiones[sid].usuarioId.None? then Denegar(403, MensajeSoloAdmin)
    else if !usuariosOk then Denegar(500, MensajeError)
    else
      var s := sesiones[sid];
      var u := Usuario(usuarios, s.usuarioId.value);
      if !EsAdmin(s, u) then Denegar(403, MensajeSoloAdmin)
      else Permitir(if u.Some? then Some(u.value.id) else None)
  }

  /** A session flagged admin passes even when its user record is gone; no id is then set. */
  lemma BanderaSinUsuario(sid: string, s: Auth.Sesion, sesiones: map<string, Auth.Sesion>,
                          usuarios: map<string, Auth.Usuario>)
    requires sid != "" && sid in sesiones && sesiones[sid] == s
    requires s.isAdmin && s.usuarioId.Some? && s.usuarioId.value !in usuarios
    ensures Verificar(Some(sid), None, sesiones, usuarios, true, true) == Permitir(None)
  {
  }

  /** After a successful login under the name `usuario`, a request carrying that name as its
      session id passes the gate exactly when the user who logged in is `admin`, and then
      carries that user's id. */
  lemma LoginAbreCompuerta(m: map<string, Auth.Sesion>, usuario: string, u: Auth.Usuario,
                           ahora: int, usuarios: map<string, Auth.Usuario>, header: Option<string>)
    requires usuario != ""
    requires u.id in usuarios && usuarios[u.id] == u
    ensures var sesiones := Auth.AfterLogin(m, usuario, Found(u), Some(true), ahora, true).0;
      var d := Verificar(Some(usuario), header, sesiones, usuarios, true, true);
      && (d.Permitir? <==> u.usuario == Auth.Admin)
      && (d.Permitir? ==> d.adminUserId == Some(u.id))
  {
    var sesiones := Auth.AfterLogin(m, usuario, Found(u), Some(true), ahora, true).0;
    assert sesiones[usuario].usuarioId == Some(u.id);
    assert Usuario(usuarios, u.id) == Some(u);
  }

  /** The query parameter wins over the header whenever it is present and non-empty. */
  lemma QueryAntesQueHeader(q: string, header: Option<string>, sesiones: map<string, Auth.Sesion>,
                            usuarios: map<string, Auth.Usuario>, sesionesOk: bool, usuariosOk: bool)
    requires q != ""
    ensures Verificar(Some(q), header, sesiones, usuarios, sesionesOk, usuariosOk)
         == Verificar(Some(q), None, sesiones, usuarios, sesionesOk, usuariosOk)
  {
  }
}
