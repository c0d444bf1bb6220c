/**
 * The stateless session check shared by `modules/autenticacao/module.py` and
 * `AutenticacaoService`: a Flask session is a dictionary, and a user is logged in
 * when the four identity keys and a truthy `logged_in` flag are present.
 */
module SessionGate {
  import opened Wrappers
  import opened Values

  /** The session keys the authentication code reads and writes. */
  datatype Key =
    | UsuarioId | UsuarioNome | UsuarioEmail | UsuarioTipo | LoggedIn
    | TokenSessao | WebauthnChallenge | WebauthnLoginEmail | WebauthnLoginTipo

  type Session = map<Key, Value>

  /** The `{id, nome, email, tipo}` dictionary returned to handlers. */
  datatype Identity = Identity(id: Value, nome: Value, email: Value, tipo: Value)

  /** `session.get(k)`. */
  function Get(s: Session, k: Key): Value {
    if k in s then s[k] else VNone
  }

  /** `verificar_sessao`: the identity stored in the session, when it is complete and marked logged in. */
  function VerifySession(s: Session): (r: Option<Identity>)
    ensures r.Some? <==>
      UsuarioId in s && UsuarioNome in s && UsuarioEmail in s && UsuarioTipo in s &&
      LoggedIn in s && Truthy(s[LoggedIn])
    ensures r.Some? ==> r.value == Identity(s[UsuarioId], s[UsuarioNome], s[UsuarioEmail], s[UsuarioTipo])
  {
    if !(UsuarioId in s && UsuarioNome in s && UsuarioEmail in s && UsuarioTipo in s && LoggedIn in s) then None
    else if !Truthy(Get(s, LoggedIn)) then None
    else Some(Identity(Get(s, UsuarioId), Get(s, UsuarioNome), Get(s, UsuarioEmail), Get(s, UsuarioTipo)))
  }

  /** Python's `tipo in tipos_permitidos` for a list of strings. */
  predicate Allowed(tipo: Value, allowed: seq<string>) {
    exists i :: 0 <= i < |allowed| && PyEq(tipo, VStr(allowed[i]))
  }

  /** `verificar_permissao`: the verified identity, if its tipo is one of the allowed ones. */
  function VerifyPermission(s: Session, allowed: seq<string>): (r: Option<Identity>)
    ensures r.Some? <==> VerifySession(s).Some? && Allowed(VerifySession(s).value.tipo, allowed)
    ensures r.Some? ==> r == VerifySession(s)
    ensures r.Some? ==> r.value.tipo.VStr? && r.value.tipo.s in allowed
  {
    var u := VerifySession(s);
    if u.None? then None
    else if !Allowed(u.value.tipo, allowed) then None
    else u
  }

  /** Widening the allowed list never revokes access, and no list admits a tipo outside it. */
  lemma PermissionMonotone(s: Session, allowed: seq<string>, wider: seq<string>)
    requires forall t :: t in allowed ==> t in wider
    ensures VerifyPermission(s, allowed).Some? ==> VerifyPermission(s, wider) == VerifyPermission(s, allowed)
  {
    if VerifyPermission(s, allowed).Some? {
      var t := VerifySession(s).value.tipo;
      var i :| 0 <= i < |allowed| && PyEq(t, VStr(allowed[i]));
      var j :| 0 <= j < |wider| && wider[j] == allowed[i];
      assert PyEq(t, VStr(wider[j]));
    }
  }

  /** The five writes every successful login performs (the rest of the session is kept). */
  function LogIn(s: Session, id: Value, nome: Value, email: Value, tipo: Value): Session {
    s[UsuarioId := id][UsuarioNome := nome][UsuarioEmail := email][UsuarioTipo := tipo][LoggedIn := VBool(true)]
  }

  /** A session written by a login verifies, and yields exactly the identity written. */
  lemma LogInVerifies(s: Session, id: Value, nome: Value, email: Value, tipo: Value)
    ensures VerifySession(LogIn(s, id, nome, email, tipo)) == Some(Identity(id, nome, email, tipo))
  {
  }
}
