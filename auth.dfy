/** `POST /login` of routes/auth.js: look the user up, check the password, then create or
    refresh the session keyed by the submitted login name. The user lookup and the bcrypt
    comparison are given as their outcomes; the session collection is the field `tabla` of
    `Sesiones`, changed in place by `Login`. */
module Auth {
  import opened Text

  /** A stored `UsuarioUnico`: its id, its login name (a national id number or `admin`),
      the bcrypt hash, and the display name, which older records may lack. */
  datatype Usuario = Usuario(id: string, usuario: string, hash: string, nombre: Option<string>)

  /** A stored session: the user it refers to, the admin flag written at login, and when it
      was first created. Records written elsewhere may lack `usuarioId`. */
  datatype Sesion = Sesion(usuarioId: Option<string>, isAdmin: bool, fechaInicio: int)

  /** The JSON reply: a status, a message, and on 200 the display name, user id and flag. */
  datatype Respuesta = Respuesta(status: nat, mensaje: string, nombre: Option<string>,
                                 userId: Option<string>, isAdmin: Option<bool>)

  const Admin := "admin"
  const NombrePorDefecto := "T\U{00E9}cnico"
  const MensajeNoEncontrado := "Usuario no encontrado"
  const MensajeCredenciales := "Credenciales incorrectas"
  const MensajeConcedido := "Acceso concedido"
  const MensajeServidor := "Error en el servidor"

  function Fallo(status: nat, mensaje: string): Respuesta {
    Respuesta(status, mensaje, None, None, None)
  }

  /** `usuarioEncontrado.nombre || 'Técnico'`. */
  function NombreMostrado(nombre: Option<string>): (r: string)
    ensures r != ""
    ensures nombre.Some? && nombre.value != "" ==> r == nombre.value
    ensures nombre.None? || nombre.value == "" ==> r == NombrePorDefecto
  {
    if nombre.Some? && nombre.value != "" then nombre.value else NombrePorDefecto
  }

  /** The session stored for `usuario` after a successful login: only `usuarioId` and
      `isAdmin` are written, so an existing session keeps its `fechaInicio`, and a new one
      takes the insertion time. */
  function Upsert(m: map<string, Sesion>, usuario: string, u: Usuario, ahora: int): (r: map<string, Sesion>)
    ensures r.Keys == m.Keys + {usuario}
    ensures r[usuario].usuarioId == Some(u.id)
    ensures r[usuario].isAdmin <==> u.usuario == Admin
    ensures r[usuario].fechaInicio == if usuario in m then m[usuario].fechaInicio else ahora
    ensures forall k :: k in m && k != usuario ==> r[k] == m[k]
  {
    var previa := if usuario in m then m[usuario] else Sesion(None, false, ahora);
    m[usuario := previa.(usuarioId := Some(u.id), isAdmin := u.usuario == Admin)]
  }

  /** `POST /login` as a transition of the session table. `busqueda` is the answer of
      `findOne({ usuario })`, `coincide` that of `bcrypt.compare` (`None` when it throws),
      `ahora` the insertion time and `upsertOk` whether the upsert succeeded. */
  function AfterLogin(m: map<string, Sesion>, usuario: string, busqueda: Lookup<Usuario>,
                      coincide: Option<bool>, ahora: int, upsertOk: bool): (r: (map<string, Sesion>, Respuesta))
    // an unknown user answers 404 and touches nothing
    ensures busqueda.Missing? ==> r == (m, Fallo(404, MensajeNoEncontrado))
    // a wrong password answers 401 and touches nothing
    ensures busqueda.Found? && coincide == Some(false) ==> r == (m, Fallo(401, MensajeCredenciales))
    // a failing lookup, comparison or upsert answers 500
    ensures busqueda.LookupFailed? || (busqueda.Found? && (coincide.None? || (coincide == Some(true) && !upsertOk)))
      ==> r.1 == Fallo(500, MensajeServidor)
    ensures r.1.status == 200 <==> busqueda.Found? && coincide == Some(true) && upsertOk
    ensures r.1.status in {200, 401, 404, 500}
    // only a successful login writes, and only the session keyed by the submitted name
    ensures r.1.status != 200 ==> r.0 == m
    ensures r.1.status == 200 ==> r.0 == Upsert(m, usuario, busqueda.doc, ahora)
    ensures r.1.status == 200 ==>
      && r.1.mensaje == MensajeConcedido
      && r.1.isAdmin == Some(busqueda.doc.usuario == Admin)
      && r.1.userId == Some(busqueda.doc.id)
      && r.1.nombre == Some(NombreMostrado(busqueda.doc.nombre))
  {
    match busqueda
    case LookupFailed => (m, Fallo(500, MensajeServidor))
    case Missing => (m, Fallo(404, MensajeNoEncontrado))
    case Found(u) =>
      if coincide.None? then (m, Fallo(500, MensajeServidor))
      else if !coincide.value then (m, Fallo(401, MensajeCredenciales))
      else if !upsertOk then (m, Fallo(500, MensajeServidor))
      else
        var esAdmin := u.usuario == Admin;
        (Upsert(m, usuario, u, ahora),
         Respuesta(200, MensajeConcedido, Some(NombreMostrado(u.nombre)), Some(u.id), Some(esAdmin)))
  }

  /** Logging in again with the same answers changes nothing further, whenever it happens:
      the session keeps the time it was first created. */
  lemma LoginIdempotente(m: map<string, Sesion>, usuario: string, u: Usuario, ahora: int, despues: int)
    ensures var m1 := AfterLogin(m, usuario, Found(u), Some(true), ahora, true).0;
      AfterLogin(m1, usuario, Found(u), Some(true), despues, true).0 == m1
  {
    var m1 := Upsert(m, usuario, u, ahora);
    var m2 := Upsert(m1, usuario, u, despues);
    assert m2[usuario] == m1[usuario];
    assert forall k :: k in m2 ==> m2[k] == m1[k];
  }

  /** The session collection, keyed by `sesionId`. */
  class Sesiones {
    var tabla: map<string, Sesion>

    constructor ()
      ensures tabla == map[]
    {
      tabla := map[];
    }

    /** The handler: early returns for each failure, one upsert on success. */
    method Login(usuario: string, busqueda: Lookup<Usuario>, coincide: Option<bool>, ahora: int, upsertOk: bool)
      returns (resp: Respuesta)
      modifies this
      ensures (tabla, resp) == AfterLogin(old(tabla), usuario, busqueda, coincide, ahora, upsertOk)
    {
      if busqueda.LookupFailed? {
        return Fallo(500, MensajeServidor);
      }
      if busqueda.Missing? {
        return Fallo(404, MensajeNoEncontrado);
      }
      var u := busqueda.doc;
      if coincide.None? {
        return Fallo(500, MensajeServidor);
      }
      if !coincide.value {
        return Fallo(401, MensajeCredenciales);
      }
      var esAdmin := u.usuario == Admin;
      if !upsertOk {
        return Fallo(500, MensajeServidor);
      }
      if usuario in tabla {
        tabla := tabla[usuario := tabla[usuario].(usuarioId := Some(u.id), isAdmin := esAdmin)];
      } else {
        tabla := tabla[usuario := Sesion(Some(u.id), esAdmin, ahora)];
      }
      resp := Respuesta(200, MensajeConcedido, Some(NombreMostrado(u.nombre)), Some(u.id), Some(esAdmin));
    }
  }
}
