/**
 * The older, token-backed authentication of `modules/autenticacao.py`. Code
 * requests and code checks are those of `AuthModule`; what differs is that a
 * successful login also inserts a row into the `sessoes` table and keeps its
 * token in the Flask session, and that `verificar_sessao` consults that table,
 * clearing the session when the token is unknown, inactive or expired, or when
 * its user has been deactivated.
 */
module TokenAuth {
  import opened Wrappers
  import opened Values
  import opened Tables
  import opened Accounts
  import opened SessionGate
  import opened AuthModule

  /** A row of `sessoes`. */
  datatype SessionRow = SessionRow(id: int, userId: int, token: string, expiry: int, ativo: bool)

  /**
   * The WHERE clause and join of the session lookup: an active row whose token equals
   * the session's `token_sessao` and whose user exists.
   */
  predicate LiveRow(users: seq<User>, row: SessionRow, token: Value) {
    row.ativo && VStr(row.token) == token && OwnerOf(users, row.userId).Some?
  }

  /** `fetchone()` on the session query: the first live row in table order. */
  function FindSession(users: seq<User>, rows: seq<SessionRow>, token: Value): (r: Option<nat>)
    ensures r.Some? ==> r.value < |rows| && LiveRow(users, rows[r.value], token)
    ensures r.Some? ==> forall j :: 0 <= j < r.value ==> !LiveRow(users, rows[j], token)
    ensures r.None? <==> forall j :: 0 <= j < |rows| ==> !LiveRow(users, rows[j], token)
  {
    First(rows, (row: SessionRow) => LiveRow(users, row, token))
  }

  /** The identity `verificar_sessao` returns for a session row: id from the row, the rest from its user. */
  function RowIdentity(users: seq<User>, row: SessionRow): Identity
    requires OwnerOf(users, row.userId).Some?
  {
    var u := OwnerOf(users, row.userId).value;
    Identity(VInt(row.userId), VStr(u.nome), VStr(u.email), VStr(u.tipo))
  }

  /**
   * `verificar_sessao`: the identity (if any) and the session afterwards. A session
   * without `usuario_id` or with a falsy `token_sessao` is left alone; an unknown or
   * inactive token, a row past its expiry or a deactivated user clears it.
   */
  function SessionVerdict(users: seq<User>, rows: seq<SessionRow>, s: Session, now: int): (res: (Option<Identity>, Session))
    ensures UsuarioId !in s || !Truthy(Get(s, TokenSessao)) ==> res == (None, s)
    ensures res.0.Some? <==>
      UsuarioId in s && Truthy(Get(s, TokenSessao)) &&
      var k := FindSession(users, rows, Get(s, TokenSessao));
      k.Some? && now <= rows[k.value].expiry && OwnerOf(users, rows[k.value].userId).value.ativo
    ensures res.0.Some? ==>
      (res.1 == s && res.0.value == RowIdentity(users, rows[FindSession(users, rows, Get(s, TokenSessao)).value]))
    ensures res.0.None? ==> res.1 == s || res.1 == map[]
    ensures res.0.None? && UsuarioId in s && Truthy(Get(s, TokenSessao)) ==> res.1 == map[]
  {
    if UsuarioId !in s then (None, s)
    else
      var token := Get(s, TokenSessao);
      if !Truthy(token) then (None, s)
      else match FindSession(users, rows, token)
        case None => (None, map[])
        case Some(k) =>
          if now > rows[k].expiry then (None, map[])
          else if !OwnerOf(users, rows[k].userId).value.ativo then (None, map[])
          else (Some(RowIdentity(users, rows[k])), s)
  }

  /** `verificar_permissao`: the identity when the session verifies and its tipo is allowed; the session as the check left it. */
  function PermissionVerdict(users: seq<User>, rows: seq<SessionRow>, s: Session, allowed: seq<string>, now: int)
    : (res: (Option<Identity>, Session))
    ensures res.1 == SessionVerdict(users, rows, s, now).1
    ensures res.0.Some? <==>
      SessionVerdict(users, rows, s, now).0.Some? && Allowed(SessionVerdict(users, rows, s, now).0.value.tipo, allowed)
    ensures res.0.Some? ==> res.0 == SessionVerdict(users, rows, s, now).0
  {
    var (u, s') := SessionVerdict(users, rows, s, now);
    if u.None? then (None, s')
    else if !Allowed(u.value.tipo, allowed) then (None, s')
    else (u, s')
  }

  /** The identity a permission check admits always has an allowed string tipo. */
  lemma PermissionAdmitsOnlyAllowed(users: seq<User>, rows: seq<SessionRow>, s: Session, allowed: seq<string>, now: int)
    ensures var r := PermissionVerdict(users, rows, s, allowed, now).0;
      r.Some? ==> r.value.tipo.VStr? && r.value.tipo.s in allowed
  {
    var r := PermissionVerdict(users, rows, s, allowed, now).0;
    if r.Some? {
      var i :| 0 <= i < |allowed| && PyEq(r.value.tipo, VStr(allowed[i]));
    }
  }

  /** `UPDATE sessoes SET ativo = FALSE WHERE token = %s`. */
  function Deactivate(rows: seq<SessionRow>, token: Value): seq<SessionRow>
  {
    seq(|rows|, i requires 0 <= i < |rows| => if VStr(rows[i].token) == token then rows[i].(ativo := false) else rows[i])
  }

  /**
   * After logout deactivates a token, any session still carrying that token (a replayed
   * cookie, say) fails verification and is cleared.
   */
  lemma LoggedOutTokenRejected(users: seq<User>, rows: seq<SessionRow>, token: Value, s: Session, now: int)
    requires Get(s, TokenSessao) == token
    ensures SessionVerdict(users, Deactivate(rows, token), s, now).0.None?
    ensures UsuarioId in s && Truthy(token) ==> SessionVerdict(users, Deactivate(rows, token), s, now).1 == map[]
  {
    var after := Deactivate(rows, token);
    forall j | 0 <= j < |after|
      ensures !LiveRow(users, after[j], token)
    {
    }
  }

  /** Deactivating one token leaves every other token's verdict as it was. */
  lemma DeactivateIsScoped(users: seq<User>, rows: seq<SessionRow>, token: Value, s: Session, now: int)
    requires Get(s, TokenSessao) != token
    ensures SessionVerdict(users, Deactivate(rows, token), s, now) == SessionVerdict(users, rows, s, now)
  {
    var other := Get(s, TokenSessao);
    var after := Deactivate(rows, token);
    forall j | 0 <= j < |rows|
      ensures LiveRow(users, after[j], other) == LiveRow(users, rows[j], other)
      ensures LiveRow(users, rows[j], other) ==> after[j] == rows[j]
    {
    }
    SameLiveRowsSameVerdict(users, rows, after, s, now);
  }

  /** Two tables whose live rows for the session's token coincide give the same verdict. */
  lemma SameLiveRowsSameVerdict(users: seq<User>, rows: seq<SessionRow>, rows': seq<SessionRow>, s: Session, now: int)
    requires |rows'| == |rows|
    requires forall j :: 0 <= j < |rows| ==>
      LiveRow(users, rows'[j], Get(s, TokenSessao)) == LiveRow(users, rows[j], Get(s, TokenSessao))
    requires forall j :: 0 <= j < |rows| && LiveRow(users, rows[j], Get(s, TokenSessao)) ==> rows'[j] == rows[j]
    ensures SessionVerdict(users, rows', s, now) == SessionVerdict(users, rows, s, now)
  {
    SameLiveRowsSameFind(users, rows, rows', Get(s, TokenSessao));
  }

  lemma SameLiveRowsSameFind(users: seq<User>, rows: seq<SessionRow>, rows': seq<SessionRow>, token: Value)
    requires |rows'| == |rows|
    requires forall j :: 0 <= j < |rows| ==> LiveRow(users, rows'[j], token) == LiveRow(users, rows[j], token)
    ensures FindSession(users, rows', token) == FindSession(users, rows, token)
  {
    FirstAgrees(rows', rows, (row: SessionRow) => LiveRow(users, row, token), (row: SessionRow) => LiveRow(users, row, token));
  }

  /** The row a successful code validation inserts, living `days` days (`SESSAO_DURACAO_DIAS`). */
  function NewSessionRow(id: int, userId: int, token: string, now: int, days: int): (row: SessionRow)
    ensures row.ativo && row.userId == userId && row.token == token
    ensures row.expiry - now == days * 24 * 3600
  {
    SessionRow(id, userId, token, now + days * 24 * 3600, true)
  }

  /** The five writes of a token login; unlike the newer module, `logged_in` is not set. */
  function TokenLogIn(s: Session, u: User, token: string): Session {
    s[UsuarioId := VInt(u.id)][UsuarioNome := VStr(u.nome)][UsuarioEmail := VStr(u.email)]
     [UsuarioTipo := VStr(u.tipo)][TokenSessao := VStr(token)]
  }

  /**
   * A login with a fresh token verifies, with the logged-in user's identity, until the
   * new row expires, as long as the user stays active.
   */
  lemma FreshSessionVerifies(users: seq<User>, rows: seq<SessionRow>, s: Session, u: User, id: int, token: string,
                             now: int, days: int, later: int)
    requires OwnerOf(users, u.id) == Some(u) && u.ativo
    requires token != "" && forall j :: 0 <= j < |rows| ==> rows[j].token != token
    requires later <= now + days * 24 * 3600
    ensures SessionVerdict(users, rows + [NewSessionRow(id, u.id, token, now, days)], TokenLogIn(s, u, token), later) ==
      (Some(Identity(VInt(u.id), VStr(u.nome), VStr(u.email), VStr(u.tipo))), TokenLogIn(s, u, token))
  {
    var rows' := rows + [NewSessionRow(id, u.id, token, now, days)];
    var s' := TokenLogIn(s, u, token);
    assert Get(s', TokenSessao) == VStr(token);
    assert LiveRow(users, rows'[|rows|], VStr(token));
    assert FindSession(users, rows', VStr(token)) == Some(|rows|);
  }

  /** A login whose session row was not stored leaves a token that never verifies. */
  lemma UnstoredSessionRejected(users: seq<User>, rows: seq<SessionRow>, s: Session, u: User, token: string, now: int)
    requires token != "" && forall j :: 0 <= j < |rows| ==> rows[j].token != token
    ensures SessionVerdict(users, rows, TokenLogIn(s, u, token), now) == (None, map[])
  {
    assert Get(TokenLogIn(s, u, token), TokenSessao) == VStr(token);
    assert FindSession(users, rows, VStr(token)).None?;
  }

  /** The state `modules/autenticacao.py` works on: its tables and the Flask session. */
  class TokenAuthServer {
    const cfg: AuthConfig
    const users: seq<User>
    /** `DEBUG`: whether the validation page shows its debug hints. */
    const debug: bool
    var codes: seq<CodeRow>
    var nextCodeId: int
    var sessions: seq<SessionRow>
    var nextSessionId: int
    var session: Session

    constructor (cfg: AuthConfig, users: seq<User>, debug: bool)
      ensures this.cfg == cfg && this.users == users && this.debug == debug
      ensures codes == [] && sessions == [] && session == map[]
    {
      this.cfg := cfg;
      this.users := users;
      this.debug := debug;
      codes := [];
      nextCodeId := 1;
      sessions := [];
      nextSessionId := 1;
      session := map[];
    }

    /**
     * `solicitar_codigo` (POST): as in the newer module, except that only a successful
     * send produces the redirect; a failed send stores the code but produces no
     * response (`None`).
     */
    method RequestCode(emailInput: string, tipoInput: string, draws: seq<int>, now: int, stored: bool, sent: bool)
      returns (r: Option<RequestOutcome>)
      requires DrawsFor(cfg, draws)
      modifies this
      ensures match CodeRequestTarget(users, emailInput, tipoInput)
        case Refused(o) => r == Some(o) && codes == old(codes)
        case Issue(email, u) =>
          (if !stored then r == Some(CodeNotStored) && codes == old(codes)
           else (codes == old(codes) + [NewCode(cfg, old(nextCodeId), u, draws, now)] &&
                 r == if sent then Some(ToValidation(email, u.tipo, false)) else None))
      ensures sessions == old(sessions) && session == old(session) && nextSessionId == old(nextSessionId)
    {
      match CodeRequestTarget(users, emailInput, tipoInput) {
        case Refused(o) => r := Some(o);
        case Issue(email, u) =>
          if !stored {
            return Some(CodeNotStored);
          }
          StoreCode(u, draws, now);
          if sent {
            r := Some(ToValidation(email, u.tipo, false));
          } else {
            r := None;
          }
      }
    }

    /**
     * `validar_codigo` (POST): the checks of the newer module; on success the code is
     * marked used (when that UPDATE goes through, `marked`), a session row with the
     * fresh `token` is inserted (when the INSERT succeeds, `stored`) and the session gets
     * the four identity keys and the token. Neither write's result is checked.
     */
    method ValidateCode(emailInput: string, tipoInput: string, codeInput: string, token: string, now: int, marked: bool, stored: bool)
      returns (r: ValidateOutcome)
      requires token != ""
      modifies this
      ensures match CodeCheck(users, old(codes), emailInput, tipoInput, codeInput, now)
        case Reject(o) => r == o && codes == old(codes) && sessions == old(sessions) && session == old(session)
        case Accept(k) =>
          var row := old(codes)[k];
          var owner := OwnerOf(users, row.userId).value;
          && r == LoggedInHome
          && codes == (if marked then MarkUsed(old(codes), row.id) else old(codes))
          && sessions == old(sessions) + (if stored then [NewSessionRow(old(nextSessionId), row.userId, token, now, cfg.sessionDays)] else [])
          && session == TokenLogIn(old(session), owner, token)
      ensures nextCodeId == old(nextCodeId)
    {
      match CodeCheck(users, codes, emailInput, tipoInput, codeInput, now) {
        case Reject(o) => r := o;
        case Accept(k) =>
          var row := codes[k];
          var owner := OwnerOf(users, row.userId).value;
          if marked {
            codes := MarkUsed(codes, row.id);
          }
          OpenSession(row.userId, owner, token, now, stored);
          r := LoggedInHome;
      }
    }

    /** The INSERT of a new code row for u under the next id. */
    method StoreCode(u: User, draws: seq<int>, now: int)
      requires DrawsFor(cfg, draws)
      modifies this
      ensures codes == old(codes) + [NewCode(cfg, old(nextCodeId), u, draws, now)]
      ensures sessions == old(sessions) && session == old(session) && nextSessionId == old(nextSessionId)
    {
      codes := codes + [NewCode(cfg, nextCodeId, u, draws, now)];
      nextCodeId := nextCodeId + 1;
    }

    /** The session-row INSERT (kept when `stored`) and the five session writes of a login. */
    method OpenSession(userId: int, owner: User, token: string, now: int, stored: bool)
      modifies this
      ensures sessions == old(sessions) + (if stored then [NewSessionRow(old(nextSessionId), userId, token, now, cfg.sessionDays)] else [])
      ensures session == TokenLogIn(old(session), owner, token)
      ensures codes == old(codes) && nextCodeId == old(nextCodeId)
    {
      if stored {
        sessions := sessions + [NewSessionRow(nextSessionId, userId, token, now, cfg.sessionDays)];
        nextSessionId := nextSessionId + 1;
      }
      session := TokenLogIn(session, owner, token);
    }

    /**
     * `logout`: deactivate the session's token (when truthy; `deactivated` says whether
     * that UPDATE went through), then clear the session.
     */
    method Logout(deactivated: bool)
      modifies this
      ensures var token := Get(old(session), TokenSessao);
        sessions == if Truthy(token) && deactivated then Deactivate(old(sessions), token) else old(sessions)
      ensures session == map[]
      ensures codes == old(codes) && nextCodeId == old(nextCodeId) && nextSessionId == old(nextSessionId)
    {
      var token := Get(session, TokenSessao);
      if Truthy(token) && deactivated {
        sessions := Deactivate(sessions, token);
      }
      session := map[];
    }

    /** `verificar_sessao`, which clears the session when the token no longer holds. */
    method CheckSession(now: int) returns (r: Option<Identity>)
      modifies this
      ensures (r, session) == SessionVerdict(users, sessions, old(session), now)
      ensures codes == old(codes) && sessions == old(sessions)
      ensures nextCodeId == old(nextCodeId) && nextSessionId == old(nextSessionId)
    {
      if UsuarioId !in session {
        return None;
      }
      var token := Get(session, TokenSessao);
      if !Truthy(token) {
        return None;
      }
      var k := FindSession(users, sessions, token);
      if k.None? {
        session := map[];
        return None;
      }
      var row := sessions[k.value];
      if now > row.expiry {
        session := map[];
        return None;
      }
      if !OwnerOf(users, row.userId).value.ativo {
        session := map[];
        return None;
      }
      r := Some(RowIdentity(users, row));
    }

    /** `verificar_permissao`: the session check, then the tipo test. */
    method CheckPermission(allowed: seq<string>, now: int) returns (r: Option<Identity>)
      modifies this
      ensures (r, session) == PermissionVerdict(users, sessions, old(session), allowed, now)
      ensures codes == old(codes) && sessions == old(sessions)
      ensures nextCodeId == old(nextCodeId) && nextSessionId == old(nextSessionId)
    {
      var u := CheckSession(now);
      if u.None? {
        return None;
      }
      if !Allowed(u.value.tipo, allowed) {
        return None;
      }
      r := u;
    }
  }
}
