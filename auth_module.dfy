/**
 * The passwordless login of `modules/autenticacao/module.py`: one-time access codes
 * sent by email, and passkeys (WebAuthn) whose challenges live in a table for
 * registration and in the session for login. Tables are sequences of rows in
 * insertion order; the clock (`now`, in seconds), the random code digits and
 * challenges, the email delivery and the WebAuthn library's verification are
 * parameters.
 */
module AuthModule {
  import opened Wrappers
  import opened Values
  import opened Strings
  import opened Tables
  import opened Accounts
  import opened SessionGate
  import Base64Url
  import Validation

  /**
   * The settings `config.py` reads from the environment at start-up:
   * `CODIGO_ACESSO_DURACAO_HORAS`, `CODIGO_ACESSO_TAMANHO` (the number of digits
   * `gerar_codigo_acesso` draws) and `SESSAO_DURACAO_DIAS`.
   */
  datatype AuthConfig = AuthConfig(codeValidHours: int, codeLength: int, sessionDays: int)

  /** The settings when none of the variables is set. */
  function DefaultAuthConfig(): (c: AuthConfig)
    ensures c.codeValidHours == 24 && c.codeLength == 6 && c.sessionDays == 7
  {
    AuthConfig(24, 6, 7)
  }

  /**
   * Random digits for one code: `random.choices(string.digits, k=n)` draws n of them,
   * none for a negative n.
   */
  predicate DrawsFor(cfg: AuthConfig, draws: seq<int>) {
    |draws| == (if cfg.codeLength < 0 then 0 else cfg.codeLength) &&
    forall i :: 0 <= i < |draws| ==> 0 <= draws[i] < 10
  }
  /** Registration challenges expire after 5 minutes. */
  const CHALLENGE_TTL_SECONDS: int := 5 * 60

  /** A row of `codigos_acesso`; `created` is `data_criacao`. */
  datatype CodeRow = CodeRow(id: int, userId: int, code: string, expiry: int, used: bool, created: int)

  /** A row of `webauthn_challenges`: a base64url challenge bound to an email. */
  datatype ChallengeRow = ChallengeRow(challenge: string, email: string, expiry: int)

  /** A row of `webauthn_credentials`; ids and keys are stored base64url-encoded. */
  datatype Credential = Credential(userId: Value, email: string, credentialId: string, publicKey: string, signCount: int, ativo: bool)

  /** What a successful `verify_registration_response` yields. */
  datatype Attested = Attested(credentialId: seq<Byte>, publicKey: seq<Byte>, signCount: int)

  // ---------------------------------------------------------------------------
  // Access codes

  /** The user a code row joins to (`JOIN usuarios u ON ca.usuario_id = u.id`; ids are unique). */
  function OwnerOf(users: seq<User>, id: int): (r: Option<User>)
    ensures r.Some? ==> r.value in users && r.value.id == id
    ensures r.None? ==> forall u :: u in users ==> u.id != id
  {
    match First(users, (u: User) => u.id == id)
    case None => None
    case Some(k) => Some(users[k])
  }

  /** The WHERE clause of the validation query: unused, same code, owner with this email and tipo. */
  predicate CodeMatches(users: seq<User>, r: CodeRow, email: string, tipo: string, code: string) {
    !r.used && r.code == code &&
    var owner := OwnerOf(users, r.userId);
    owner.Some? && owner.value.email == email && owner.value.tipo == tipo
  }

  /** `... ORDER BY ca.data_criacao DESC LIMIT 1`: the most recently created matching row. */
  function FindCode(users: seq<User>, codes: seq<CodeRow>, email: string, tipo: string, code: string): (r: Option<nat>)
    ensures r.Some? ==> r.value < |codes| && CodeMatches(users, codes[r.value], email, tipo, code)
    ensures r.Some? ==> forall j :: 0 <= j < |codes| && CodeMatches(users, codes[j], email, tipo, code) ==>
      codes[j].created <= codes[r.value].created
    ensures r.None? <==> forall j :: 0 <= j < |codes| ==> !CodeMatches(users, codes[j], email, tipo, code)
  {
    Newest(codes, (c: CodeRow) => c.created, (c: CodeRow) => CodeMatches(users, c, email, tipo, code))
  }

  /** `UPDATE codigos_acesso SET usado = TRUE WHERE id = %s`. */
  function MarkUsed(codes: seq<CodeRow>, id: int): seq<CodeRow>
  {
    seq(|codes|, i requires 0 <= i < |codes| => if codes[i].id == id then codes[i].(used := true) else codes[i])
  }

  /** Once a row is marked used, no later validation selects a row with its id. */
  lemma UsedCodeNeverFoundAgain(users: seq<User>, codes: seq<CodeRow>, id: int, email: string, tipo: string, code: string)
    ensures var k := FindCode(users, MarkUsed(codes, id), email, tipo, code);
      k.Some? ==> codes[k.value].id != id
  {
  }

  /** Marking a row used can only make validation fail where it failed before, never succeed anew. */
  lemma {:induction false} MarkUsedNarrows(users: seq<User>, codes: seq<CodeRow>, id: int, email: string, tipo: string, code: string)
    ensures FindCode(users, codes, email, tipo, code).None? ==> FindCode(users, MarkUsed(codes, id), email, tipo, code).None?
  {
    var after := MarkUsed(codes, id);
    if FindCode(users, codes, email, tipo, code).None? {
      forall j | 0 <= j < |after|
        ensures !CodeMatches(users, after[j], email, tipo, code)
      {
        assert !CodeMatches(users, codes[j], email, tipo, code);
      }
    }
  }

  // ---------------------------------------------------------------------------
  // Registration challenges

  /** `WHERE email = %s AND data_expiracao > NOW() ORDER BY data_expiracao DESC LIMIT 1`. */
  function LatestChallenge(rows: seq<ChallengeRow>, email: string, now: int): (r: Option<nat>)
    ensures r.Some? ==> r.value < |rows| && rows[r.value].email == email && rows[r.value].expiry > now
    ensures r.Some? ==> forall j :: 0 <= j < |rows| && rows[j].email == email && rows[j].expiry > now ==>
      rows[j].expiry <= rows[r.value].expiry
    ensures r.None? <==> forall j :: 0 <= j < |rows| ==> rows[j].email != email || rows[j].expiry <= now
  {
    Newest(rows, (c: ChallengeRow) => c.expiry, (c: ChallengeRow) => c.email == email && c.expiry > now)
  }

  /** `DELETE FROM webauthn_challenges WHERE challenge = %s`. */
  function DeleteChallenge(rows: seq<ChallengeRow>, challenge: string): (r: seq<ChallengeRow>)
    ensures forall c :: c in r <==> c in rows && c.challenge != challenge
  {
    if rows == [] then []
    else
      var rest := DeleteChallenge(rows[1..], challenge);
      if rows[0].challenge == challenge then rest else [rows[0]] + rest
  }

  /** A deleted challenge is never selected again, for any email at any time. */
  lemma ChallengeConsumedOnce(rows: seq<ChallengeRow>, challenge: string, email: string, now: int)
    ensures var after := DeleteChallenge(rows, challenge);
      var k := LatestChallenge(after, email, now);
      k.Some? ==> after[k.value].challenge != challenge
  {
    var after := DeleteChallenge(rows, challenge);
    var k := LatestChallenge(after, email, now);
    if k.Some? {
      assert after[k.value] in after;
    }
  }

  // ---------------------------------------------------------------------------
  // Credentials

  predicate UniqueCredentialIds(creds: seq<Credential>) {
    forall i, j :: 0 <= i < j < |creds| ==> creds[i].credentialId != creds[j].credentialId
  }

  /** `INSERT ... ON CONFLICT (credential_id) DO NOTHING`. */
  function InsertCredential(creds: seq<Credential>, c: Credential): (r: seq<Credential>)
    ensures (exists i :: 0 <= i < |creds| && creds[i].credentialId == c.credentialId) ==> r == creds
    ensures (forall i :: 0 <= i < |creds| ==> creds[i].credentialId != c.credentialId) ==> r == creds + [c]
    ensures UniqueCredentialIds(creds) ==> UniqueCredentialIds(r)
  {
    if exists i :: 0 <= i < |creds| && creds[i].credentialId == c.credentialId then creds else creds + [c]
  }

  /** Whether `credential_id = %s AND email = %s` holds of a row (the email parameter is the session value). */
  predicate RevokeMatches(c: Credential, credentialId: string, email: Value) {
    c.credentialId == credentialId && VStr(c.email) == email
  }

  /** `UPDATE webauthn_credentials SET ativo = FALSE WHERE credential_id = %s AND email = %s`. */
  function Revoke(creds: seq<Credential>, credentialId: string, email: Value): seq<Credential>
  {
    seq(|creds|, i requires 0 <= i < |creds| =>
      if RevokeMatches(creds[i], credentialId, email) then creds[i].(ativo := false) else creds[i])
  }

  /** The affected-row count of that UPDATE (PostgreSQL counts every matched row). */
  function RevokeCount(creds: seq<Credential>, credentialId: string, email: Value): (n: nat)
    ensures n > 0 <==> exists i :: 0 <= i < |creds| && RevokeMatches(creds[i], credentialId, email)
  {
    if creds == [] then 0
    else
      var rest := RevokeCount(creds[1..], credentialId, email);
      assert forall i :: 1 <= i < |creds| ==> creds[1..][i - 1] == creds[i];
      (if RevokeMatches(creds[0], credentialId, email) then 1 else 0) + rest
  }

  /** `SELECT ... WHERE credential_id = %s AND ativo = TRUE`. */
  function ActiveCredential(creds: seq<Credential>, credentialId: string): (r: Option<nat>)
    ensures r.Some? ==> r.value < |creds| && creds[r.value].credentialId == credentialId && creds[r.value].ativo
    ensures r.None? <==> forall i :: 0 <= i < |creds| ==> creds[i].credentialId != credentialId || !creds[i].ativo
  {
    First(creds, (c: Credential) => c.credentialId == credentialId && c.ativo)
  }

  /** A revoked credential can no longer be used to log in. */
  lemma RevokedCannotLogIn(creds: seq<Credential>, credentialId: string, email: Value)
    requires UniqueCredentialIds(creds)
    requires RevokeCount(creds, credentialId, email) > 0
    ensures ActiveCredential(Revoke(creds, credentialId, email), credentialId).None?
  {
    var after := Revoke(creds, credentialId, email);
    var i :| 0 <= i < |creds| && RevokeMatches(creds[i], credentialId, email);
    forall j | 0 <= j < |after|
      ensures after[j].credentialId != credentialId || !after[j].ativo
    {
      if j != i {
        assert creds[j].credentialId != creds[i].credentialId;
      }
    }
  }

  /** Revocation leaves every credential of another email or id as it was. */
  lemma RevokeIsScoped(creds: seq<Credential>, credentialId: string, email: string, i: nat)
    requires i < |creds| && (creds[i].credentialId != credentialId || creds[i].email != email)
    ensures Revoke(creds, credentialId, VStr(email))[i] == creds[i]
  {
  }

  /** `UPDATE webauthn_credentials SET sign_count = %s ... WHERE credential_id = %s`. */
  function SetSignCount(creds: seq<Credential>, credentialId: string, count: int): seq<Credential>
  {
    seq(|creds|, i requires 0 <= i < |creds| =>
      if creds[i].credentialId == credentialId then creds[i].(signCount := count) else creds[i])
  }

  /** After a login the stored counter is the verifier's value and the credential stays usable. */
  lemma SignCountReplaced(creds: seq<Credential>, credentialId: string, count: int)
    requires ActiveCredential(creds, credentialId).Some?
    ensures var k := ActiveCredential(SetSignCount(creds, credentialId, count), credentialId);
      k.Some? && SetSignCount(creds, credentialId, count)[k.value].signCount == count
  {
    var after := SetSignCount(creds, credentialId, count);
    var k := ActiveCredential(creds, credentialId).value;
    assert after[k].credentialId == credentialId && after[k].ativo;
  }

  /** The active credential ids of an email, in table order (the `excludeCredentials`/`allowCredentials` query). */
  function ActiveIdsOf(creds: seq<Credential>, email: string): (r: seq<string>)
    ensures forall s :: s in r <==> s != "" && exists c :: c in creds && c.email == email && c.ativo && c.credentialId == s
  {
    if creds == [] then []
    else
      var rest := ActiveIdsOf(creds[1..], email);
      assert forall c :: c in creds[1..] ==> c in creds;
      assert forall c :: c in creds ==> c == creds[0] || c in creds[1..];
      if creds[0].email == email && creds[0].ativo && creds[0].credentialId != "" then [creds[0].credentialId] + rest
      else rest
  }

  /** Decodes a list of stored base64url ids (`_decode_b64url` on each). */
  function DecodeAll(ids: seq<string>): (r: seq<seq<Byte>>)
    requires forall s :: s in ids ==> Base64Url.WellFormed(s)
    ensures |r| == |ids| && forall i :: 0 <= i < |ids| ==> Some(r[i]) == Base64Url.Decode(ids[i])
  {
    seq(|ids|, i requires 0 <= i < |ids| => Base64Url.DecodeValid(ids[i]))
  }

  // ---------------------------------------------------------------------------
  // Table invariants

  predicate ChallengesWellFormed(rows: seq<ChallengeRow>) {
    forall c :: c in rows ==> Base64Url.WellFormed(c.challenge)
  }

  predicate CredentialsWellFormed(creds: seq<Credential>) {
    forall c :: c in creds ==> Base64Url.WellFormed(c.credentialId) && Base64Url.WellFormed(c.publicKey)
  }

  lemma DeleteChallengeKeepsWellFormed(rows: seq<ChallengeRow>, challenge: string)
    requires ChallengesWellFormed(rows)
    ensures ChallengesWellFormed(DeleteChallenge(rows, challenge))
  {
  }

  lemma AddChallengeKeepsWellFormed(rows: seq<ChallengeRow>, bytes: seq<Byte>, email: string, expiry: int)
    requires ChallengesWellFormed(rows)
    ensures ChallengesWellFormed(rows + [ChallengeRow(Base64Url.Encode(bytes), email, expiry)])
  {
    Base64Url.EncodeWellFormed(bytes);
  }

  lemma InsertCredentialKeepsWellFormed(creds: seq<Credential>, userId: Value, email: string, a: Attested)
    requires CredentialsWellFormed(creds)
    ensures CredentialsWellFormed(InsertCredential(creds, Credential(userId, email,
      Base64Url.Encode(a.credentialId), Base64Url.Encode(a.publicKey), a.signCount, true)))
  {
    Base64Url.EncodeWellFormed(a.credentialId);
    Base64Url.EncodeWellFormed(a.publicKey);
  }

  lemma RevokeKeepsInvariants(creds: seq<Credential>, credentialId: string, email: Value)
    requires CredentialsWellFormed(creds) && UniqueCredentialIds(creds)
    ensures var r := Revoke(creds, credentialId, email);
      CredentialsWellFormed(r) && UniqueCredentialIds(r)
  {
    var r := Revoke(creds, credentialId, email);
    forall c | c in r
      ensures Base64Url.WellFormed(c.credentialId) && Base64Url.WellFormed(c.publicKey)
    {
      var i :| 0 <= i < |r| && r[i] == c;
      assert creds[i] in creds;
    }
  }

  lemma SetSignCountKeepsInvariants(creds: seq<Credential>, credentialId: string, count: int)
    requires CredentialsWellFormed(creds) && UniqueCredentialIds(creds)
    ensures var r := SetSignCount(creds, credentialId, count);
      CredentialsWellFormed(r) && UniqueCredentialIds(r)
  {
    var r := SetSignCount(creds, credentialId, count);
    forall c | c in r
      ensures Base64Url.WellFormed(c.credentialId) && Base64Url.WellFormed(c.publicKey)
    {
      var i :| 0 <= i < |r| && r[i] == c;
      assert creds[i] in creds;
    }
  }

  // ---------------------------------------------------------------------------
  // Handler outcomes

  datatype RequestOutcome =
    | EmailMissing                 // "Por favor, digite seu email."
    | EmailInvalid                 // "Email inválido."
    | EmailNotRegistered           // "Email não cadastrado no sistema."
    | ChooseTipo(email: string, tipos: seq<string>)   // modal to pick a profile
    | TipoInvalid                  // "Tipo de usuário inválido para este email."
    | CodeNotStored                // "Erro ao gerar código."
    | ToValidation(email: string, tipo: string, emailWarning: bool)   // redirect to validar_codigo

  datatype ValidateOutcome =
    | FieldsMissing                // "Preencha todos os campos."
    | CodeInvalidOrUsed            // "Código inválido ou já utilizado."
    | CodeExpired                  // redirect to solicitar_codigo
    | UserInactive                 // "Usuário inativo."
    | LoggedInHome                 // redirect to home

  /** The `erro` values of the WebAuthn JSON endpoints, and their successful replies. */
  datatype WebauthnReply =
    | NotAuthenticated             // nao_autenticado (401)
    | InvalidEmail                 // email_invalido
    | OptionsFailed                // falha_gerar_opcoes (500)
    | ChallengeExpiredOrInvalid    // challenge_expirado_ou_invalido
    | VerificationFailed           // verificacao_falhou
    | MissingId                    // id_nao_fornecido
    | RevokeFailed                 // falha_ao_anular (500)
    | UserNotFound                 // usuario_nao_encontrado (404)
    | ChallengeExpired             // challenge_expirado
    | CredentialWithoutId          // credencial_sem_id
    | UnknownCredential            // credencial_desconhecida (404)
    | PickTipo(tipos: seq<string>)     // selecionar_tipo
    | TipoNotOwned                 // tipo_invalido
    | RegistrationOptions(challenge: seq<Byte>, exclude: seq<seq<Byte>>)
    | LoginOptions(allow: Option<seq<seq<Byte>>>)
    | StatusOk                     // {"status": "ok"}
    | InternalError                // an unhandled exception: Flask's generic 500

  /** Where a code request is headed: refused with a message, or a code to issue for one account. */
  datatype CodeTarget = Refused(outcome: RequestOutcome) | Issue(email: string, user: User)

  /**
   * The checks of `solicitar_codigo` before the INSERT: the normalised email must be
   * present and well formed, and must resolve to one active account.
   */
  function CodeRequestTarget(users: seq<User>, emailInput: string, tipoInput: string): (t: CodeTarget)
    ensures t.Issue? ==> t.user in users && t.user.email == t.email && t.user.ativo
    ensures t.Refused? ==> t.outcome in {EmailMissing, EmailInvalid, EmailNotRegistered, TipoInvalid} || t.outcome.ChooseTipo?
  {
    var email := Lower(Strip(emailInput));
    if email == "" then Refused(EmailMissing)
    else if !Validation.ValidEmail(email) then Refused(EmailInvalid)
    else match ChooseForCode(ActiveAccounts(users, email), tipoInput)
      case NoAccount => Refused(EmailNotRegistered)
      case SelectTipo(ts) => Refused(ChooseTipo(email, ts))
      case InvalidTipo => Refused(TipoInvalid)
      case Chosen(u) => Issue(email, u)
  }

  /** Each refusal of a code request happens exactly when its check is the first to fail. */
  lemma CodeRequestTargetMeaning(users: seq<User>, emailInput: string, tipoInput: string)
    ensures var t := CodeRequestTarget(users, emailInput, tipoInput);
      var email := Lower(Strip(emailInput));
      var choice := ChooseForCode(ActiveAccounts(users, email), tipoInput);
      && (t == Refused(EmailMissing) <==> email == "")
      && (t == Refused(EmailInvalid) <==> email != "" && !Validation.ValidEmail(email))
      && (t == Refused(EmailNotRegistered) <==> Validation.ValidEmail(email) && choice.NoAccount?)
      && (t == Refused(ChooseTipo(email, Tipos(ActiveAccounts(users, email)))) <==>
            Validation.ValidEmail(email) && choice.SelectTipo?)
      && (t == Refused(TipoInvalid) <==> Validation.ValidEmail(email) && choice.InvalidTipo?)
      && (t.Issue? <==> Validation.ValidEmail(email) && choice.Chosen?)
      && (t.Issue? ==> t.email == email && t.user == choice.user)
  {
  }

  /** The row a code request inserts: the configured number of random digits, valid for the configured hours, unused. */
  function NewCode(cfg: AuthConfig, id: int, u: User, draws: seq<int>, now: int): (c: CodeRow)
    requires DrawsFor(cfg, draws)
    ensures |c.code| == |draws| && AllDigits(c.code)
    ensures forall i :: 0 <= i < |c.code| ==> c.code[i] as int - '0' as int == draws[i]
    ensures c.userId == u.id && !c.used && c.expiry - now == cfg.codeValidHours * 3600 && c.created == now
  {
    CodeRow(id, u.id, Validation.DigitCode(cfg.codeLength, draws), now + cfg.codeValidHours * 3600, false, now)
  }

  /** Outcome of the checks of `validar_codigo`: refused with a message, or the code row to accept. */
  datatype CodeVerdict = Reject(outcome: ValidateOutcome) | Accept(index: nat)

  /**
   * The checks of `validar_codigo` on the stripped form fields: both email and code
   * present, a newest unused matching row, not expired (`now > expiry` is strict),
   * and an active owner.
   */
  function CodeCheck(users: seq<User>, codes: seq<CodeRow>, emailInput: string, tipoInput: string, codeInput: string, now: int): (v: CodeVerdict)
    ensures var email, tipo, code := Lower(Strip(emailInput)), Strip(tipoInput), Strip(codeInput);
      var k := FindCode(users, codes, email, tipo, code);
      && (v == Reject(FieldsMissing) <==> email == "" || code == "")
      && (v == Reject(CodeInvalidOrUsed) <==> email != "" && code != "" && k.None?)
      && (v == Reject(CodeExpired) <==> email != "" && code != "" && k.Some? && now > codes[k.value].expiry)
      && (v == Reject(UserInactive) <==>
            (email != "" && code != "" && k.Some? && now <= codes[k.value].expiry &&
             !OwnerOf(users, codes[k.value].userId).value.ativo))
      && (v.Accept? ==> k == Some(v.index))
    ensures v.Reject? ==> v.outcome != LoggedInHome
    ensures v.Accept? ==>
      (v.index < |codes| && !codes[v.index].used && now <= codes[v.index].expiry &&
       OwnerOf(users, codes[v.index].userId).Some? && OwnerOf(users, codes[v.index].userId).value.ativo)
  {
    var email, tipo, code := Lower(Strip(emailInput)), Strip(tipoInput), Strip(codeInput);
    if email == "" || code == "" then Reject(FieldsMissing)
    else match FindCode(users, codes, email, tipo, code)
      case None => Reject(CodeInvalidOrUsed)
      case Some(k) =>
        if now > codes[k].expiry then Reject(CodeExpired)
        else if !OwnerOf(users, codes[k].userId).value.ativo then Reject(UserInactive)
        else Accept(k)
  }

  /** Once a code has been accepted and marked used, the same input is never accepted for it again. */
  lemma AcceptedCodeCannotBeReplayed(users: seq<User>, codes: seq<CodeRow>, emailInput: string, tipoInput: string,
                                     codeInput: string, now: int, later: int)
    requires CodeCheck(users, codes, emailInput, tipoInput, codeInput, now).Accept?
    ensures var k := CodeCheck(users, codes, emailInput, tipoInput, codeInput, now).index;
      var after := MarkUsed(codes, codes[k].id);
      var v := CodeCheck(users, after, emailInput, tipoInput, codeInput, later);
      v.Accept? ==> codes[v.index].id != codes[k].id
  {
    var k := CodeCheck(users, codes, emailInput, tipoInput, codeInput, now).index;
    UsedCodeNeverFoundAgain(users, codes, codes[k].id, Lower(Strip(emailInput)), Strip(tipoInput), Strip(codeInput));
  }

  /**
   * The end of `webauthn_login`: resolve the credential email's active accounts
   * with the chosen tipo, and log the chosen account in under that email.
   */
  function ResolveLogin(accounts: seq<User>, tipoChoice: string, email: string, s: Session): (res: (WebauthnReply, Session))
    ensures res.0 == StatusOk <==> ChooseForLogin(accounts, tipoChoice).Chosen?
    ensures res.0 != StatusOk ==> res.1 == s
    ensures res.0 == StatusOk ==> var u := ChooseForLogin(accounts, tipoChoice).user;
      u in accounts && VerifySession(res.1) == Some(Identity(VInt(u.id), VStr(u.nome), VStr(email), VStr(u.tipo)))
    ensures res.0.PickTipo? <==> |accounts| > 1 && tipoChoice == ""
    ensures WebauthnChallenge !in s ==> WebauthnChallenge !in res.1
  {
    match ChooseForLogin(accounts, tipoChoice)
    case NoAccount => (UserNotFound, s)
    case SelectTipo(ts) => (PickTipo(ts), s)
    case InvalidTipo => (TipoNotOwned, s)
    case Chosen(u) => (StatusOk, LogIn(s, VInt(u.id), VStr(u.nome), VStr(email), VStr(u.tipo)))
  }

  /** The email a handler derives from the session identity: `(usuario.get('email') or '').strip().lower()`. */
  function SessionEmail(u: Identity): string {
    Lower(Strip(StrOr(u.email)))
  }

  class AuthServer {
    const cfg: AuthConfig
    const users: seq<User>
    /** `DEBUG`: whether a failed email delivery is flagged on the validation page. */
    const debug: bool
    var codes: seq<CodeRow>
    var nextCodeId: int
    var challenges: seq<ChallengeRow>
    var creds: seq<Credential>
    var session: Session

    /** Stored challenges and credentials are valid base64url, ids are fresh, the login challenge is bytes. */
    ghost predicate Valid()
      reads this
    {
      ChallengesWellFormed(challenges) && CredentialsWellFormed(creds) && UniqueCredentialIds(creds) &&
      (forall i :: 0 <= i < |codes| ==> codes[i].id < nextCodeId) &&
      (WebauthnChallenge in session ==> session[WebauthnChallenge].VBytes?)
    }

    constructor (cfg: AuthConfig, users: seq<User>, debug: bool)
      ensures Valid()
      ensures this.cfg == cfg && this.users == users && this.debug == debug
      ensures codes == [] && challenges == [] && creds == [] && session == map[]
    {
      this.cfg := cfg;
      this.users := users;
      this.debug := debug;
      codes := [];
      nextCodeId := 1;
      challenges := [];
      creds := [];
      session := map[];
    }

    /**
     * `solicitar_codigo` (POST). `draws` are the random digits of the new code,
     * `stored` whether the INSERT succeeded, `sent` whether the email went out.
     */
    method RequestCode(emailInput: string, tipoInput: string, draws: seq<int>, now: int, stored: bool, sent: bool)
      returns (r: RequestOutcome)
      requires Valid()
      requires DrawsFor(cfg, draws)
      modifies this
      ensures Valid()
      ensures match CodeRequestTarget(users, emailInput, tipoInput)
        case Refused(o) => r == o && codes == old(codes)
        case Issue(email, u) =>
          (if !stored then r == CodeNotStored && codes == old(codes)
           else (r == ToValidation(email, u.tipo, !sent && debug) &&
                 codes == old(codes) + [NewCode(cfg, old(nextCodeId), u, draws, now)]))
      ensures session == old(session) && challenges == old(challenges) && creds == old(creds)
    {
      match CodeRequestTarget(users, emailInput, tipoInput) {
        case Refused(o) => r := o;
        case Issue(email, u) =>
          if !stored {
            return CodeNotStored;
          }
          StoreCode(u, draws, now);
          r := ToValidation(email, u.tipo, !sent && debug);
      }
    }

    /** The INSERT of a new code row for u under the next id. */
    method StoreCode(u: User, draws: seq<int>, now: int)
      requires Valid()
      requires DrawsFor(cfg, draws)
      modifies this
      ensures Valid()
      ensures codes == old(codes) + [NewCode(cfg, old(nextCodeId), u, draws, now)]
      ensures session == old(session) && challenges == old(challenges) && creds == old(creds)
    {
      codes := codes + [NewCode(cfg, nextCodeId, u, draws, now)];
      nextCodeId := nextCodeId + 1;
    }

    /**
     * `validar_codigo` (POST): consume the newest matching code and log its owner in.
     * `marked`: the UPDATE that marks the code used went through; the login goes ahead
     * either way.
     */
    method ValidateCode(emailInput: string, tipoInput: string, codeInput: string, now: int, marked: bool)
      returns (r: ValidateOutcome)
      requires Valid()
      modifies this
      ensures Valid()
      ensures match CodeCheck(users, old(codes), emailInput, tipoInput, codeInput, now)
        case Reject(o) => r == o && codes == old(codes) && session == old(session)
        case Accept(k) =>
          var row := old(codes)[k];
          var owner := OwnerOf(users, row.userId).value;
          r == LoggedInHome && codes == (if marked then MarkUsed(old(codes), row.id) else old(codes)) &&
          session == LogIn(old(session), VInt(row.userId), VStr(owner.nome), VStr(owner.email), VStr(owner.tipo))
      ensures nextCodeId == old(nextCodeId) && challenges == old(challenges) && creds == old(creds)
    {
      match CodeCheck(users, codes, emailInput, tipoInput, codeInput, now) {
        case Reject(o) => r := o;
        case Accept(k) =>
          var row := codes[k];
          var owner := OwnerOf(users, row.userId).value;
          ConsumeCode(row, owner, marked);
          r := LoggedInHome;
      }
    }

    /** Mark the accepted row used (when the UPDATE goes through) and log its owner in. */
    method ConsumeCode(row: CodeRow, owner: User, marked: bool)
      requires Valid()
      modifies this
      ensures Valid()
      ensures codes == if marked then MarkUsed(old(codes), row.id) else old(codes)
      ensures session == LogIn(old(session), VInt(row.userId), VStr(owner.nome), VStr(owner.email), VStr(owner.tipo))
      ensures nextCodeId == old(nextCodeId) && challenges == old(challenges) && creds == old(creds)
    {
      if marked {
        codes := MarkUsed(codes, row.id);
      }
      session := LogIn(session, VInt(row.userId), VStr(owner.nome), VStr(owner.email), VStr(owner.tipo));
    }

    /** `logout`: the whole session is cleared. */
    method Logout()
      requires Valid()
      modifies this
      ensures Valid()
      ensures session == map[] && VerifySession(session).None?
      ensures codes == old(codes) && nextCodeId == old(nextCodeId) && challenges == old(challenges) && creds == old(creds)
    {
      session := map[];
    }

    /**
     * `webauthn_registro_opcoes`: store a fresh challenge for the session's email,
     * valid for 5 minutes. `generated` is the library's random challenge, None when
     * option generation raised; `stored`: the challenge INSERT went through (the
     * options are returned either way).
     */
    method RegistrationOptionsFor(generated: Option<seq<Byte>>, now: int, stored: bool) returns (r: WebauthnReply)
      requires Valid()
      modifies this
      ensures Valid()
      ensures var u := VerifySession(old(session));
        && (u.None? ==> r == NotAuthenticated)
        && (u.Some? && SessionEmail(u.value) == "" ==> r == InvalidEmail)
        && (u.Some? && SessionEmail(u.value) != "" ==>
              if generated.None? then r == OptionsFailed
              else (r == RegistrationOptions(generated.value, DecodeAll(ActiveIdsOf(old(creds), SessionEmail(u.value)))) &&
                challenges == old(challenges) + (if !stored then [] else
                  [ChallengeRow(Base64Url.Encode(generated.value), SessionEmail(u.value), now + CHALLENGE_TTL_SECONDS)])))
      ensures !r.RegistrationOptions? ==> challenges == old(challenges)
      ensures session == old(session) && codes == old(codes) && nextCodeId == old(nextCodeId) && creds == old(creds)
    {
      var u := VerifySession(session);
      if u.None? {
        return NotAuthenticated;
      }
      var email := SessionEmail(u.value);
      if email == "" {
        return InvalidEmail;
      }
      var ids := ActiveIdsOf(creds, email);
      var exclude := DecodeAll(ids);
      if generated.None? {
        return OptionsFailed;
      }
      if stored {
        AddChallengeKeepsWellFormed(challenges, generated.value, email, now + CHALLENGE_TTL_SECONDS);
        challenges := challenges + [ChallengeRow(Base64Url.Encode(generated.value), email, now + CHALLENGE_TTL_SECONDS)];
      }
      r := RegistrationOptions(generated.value, exclude);
    }

    /**
     * `webauthn_registro`: take the newest unexpired challenge of the email, delete it
     * before verifying, and store the attested credential unless its id exists.
     * `dropped`: the DELETE went through; `inserted`: the INSERT went through. The
     * handler checks neither and answers ok after a verified attestation.
     */
    method CompleteRegistration(verify: seq<Byte> -> Option<Attested>, now: int, dropped: bool, inserted: bool) returns (r: WebauthnReply)
      requires Valid()
      modifies this
      ensures Valid()
      ensures var u := VerifySession(old(session));
        && (u.None? ==> r == NotAuthenticated)
        && (u.Some? && SessionEmail(u.value) == "" ==> r == InvalidEmail)
        && (u.Some? && SessionEmail(u.value) != "" ==>
              var email := SessionEmail(u.value);
              var k := LatestChallenge(old(challenges), email, now);
              if k.None? || old(challenges)[k.value].challenge == "" then r == ChallengeExpiredOrInvalid
              else
                var c := old(challenges)[k.value].challenge;
                var expected := Base64Url.DecodeValid(c);
                && challenges == (if dropped then DeleteChallenge(old(challenges), c) else old(challenges))
                && (verify(expected).None? ==> r == VerificationFailed && creds == old(creds))
                && (verify(expected).Some? ==> (r == StatusOk &&
                      var a := verify(expected).value;
                      creds == if !inserted then old(creds) else InsertCredential(old(creds), Credential(u.value.id, email,
                        Base64Url.Encode(a.credentialId), Base64Url.Encode(a.publicKey), a.signCount, true)))))
      ensures r != StatusOk ==> creds == old(creds)
      ensures r == NotAuthenticated || r == InvalidEmail || r == ChallengeExpiredOrInvalid ==> challenges == old(challenges)
      ensures session == old(session) && codes == old(codes) && nextCodeId == old(nextCodeId)
    {
      var u := VerifySession(session);
      if u.None? {
        return NotAuthenticated;
      }
      var email := SessionEmail(u.value);
      if email == "" {
        return InvalidEmail;
      }
      var k := LatestChallenge(challenges, email, now);
      if k.None? || challenges[k.value].challenge == "" {
        return ChallengeExpiredOrInvalid;
      }
      var c := challenges[k.value].challenge;
      var expected := Base64Url.DecodeValid(c);
      DropChallenge(c, dropped);
      var result := verify(expected);
      if result.None? {
        return VerificationFailed;
      }
      if inserted {
        StoreCredential(u.value.id, email, result.value);
      }
      r := StatusOk;
    }

    /** The DELETE of the used challenge, before the attestation is verified; `dropped`: it went through. */
    method DropChallenge(c: string, dropped: bool)
      requires Valid()
      modifies this
      ensures Valid()
      ensures challenges == if dropped then DeleteChallenge(old(challenges), c) else old(challenges)
      ensures session == old(session) && codes == old(codes) && nextCodeId == old(nextCodeId) && creds == old(creds)
    {
      if dropped {
        DeleteChallengeKeepsWellFormed(challenges, c);
        challenges := DeleteChallenge(challenges, c);
      }
    }

    /** The INSERT of the verified credential, active. */
    method StoreCredential(userId: Value, email: string, a: Attested)
      requires Valid()
      modifies this
      ensures Valid()
      ensures creds == InsertCredential(old(creds), Credential(userId, email,
        Base64Url.Encode(a.credentialId), Base64Url.Encode(a.publicKey), a.signCount, true))
      ensures session == old(session) && codes == old(codes) && nextCodeId == old(nextCodeId) && challenges == old(challenges)
    {
      InsertCredentialKeepsWellFormed(creds, userId, email, a);
      creds := InsertCredential(creds, Credential(userId, email,
        Base64Url.Encode(a.credentialId), Base64Url.Encode(a.publicKey), a.signCount, true));
    }

    /**
     * `webauthn_anular`: deactivate the session owner's credential with this id.
     * `updated`: the UPDATE went through; when it fails `executar` returns None and
     * `None > 0` raises, so the request ends in a server error.
     */
    method RevokeCredential(credentialId: string, updated: bool) returns (r: WebauthnReply)
      requires Valid()
      modifies this
      ensures Valid()
      ensures var u := VerifySession(old(session));
        && (u.None? ==> r == NotAuthenticated && creds == old(creds))
        && (u.Some? && credentialId == "" ==> r == MissingId && creds == old(creds))
        && (u.Some? && credentialId != "" && !updated ==> r == InternalError && creds == old(creds))
        && (u.Some? && credentialId != "" && updated ==>
              creds == Revoke(old(creds), credentialId, u.value.email) &&
              r == if RevokeCount(old(creds), credentialId, u.value.email) > 0 then StatusOk else RevokeFailed)
      ensures session == old(session) && codes == old(codes) && nextCodeId == old(nextCodeId) && challenges == old(challenges)
    {
      var u := VerifySession(session);
      if u.None? {
        return NotAuthenticated;
      }
      if credentialId == "" {
        return MissingId;
      }
      if !updated {
        return InternalError;
      }
      var count := RevokeCount(creds, credentialId, u.value.email);
      RevokeKeepsInvariants(creds, credentialId, u.value.email);
      creds := Revoke(creds, credentialId, u.value.email);
      r := if count > 0 then StatusOk else RevokeFailed;
    }

    /**
     * `webauthn_login_opcoes`: put the library's challenge in the session and, when an
     * email is given, the first user with that email (and tipo, if given).
     */
    method LoginOptionsFor(emailInput: string, tipoInput: string, challenge: seq<Byte>) returns (r: WebauthnReply)
      requires Valid()
      modifies this
      ensures Valid()
      ensures var email, tipo := Lower(Strip(emailInput)), Strip(tipoInput);
        var k := First(users, (u: User) => u.email == email && (tipo == "" || u.tipo == tipo));
        && (email == "" ==> r == LoginOptions(None) && session == old(session)[WebauthnChallenge := VBytes(challenge)])
        && (email != "" && k.None? ==> r == UserNotFound && session == old(session))
        && (email != "" && k.Some? ==>
              var ids := ActiveIdsOf(old(creds), users[k.value].email);
              r == LoginOptions(if ids == [] then None else Some(DecodeAll(ids))) &&
              session == old(session)[WebauthnChallenge := VBytes(challenge)]
                [WebauthnLoginEmail := VStr(users[k.value].email)][WebauthnLoginTipo := VStr(users[k.value].tipo)])
      ensures codes == old(codes) && nextCodeId == old(nextCodeId) && challenges == old(challenges) && creds == old(creds)
    {
      var email, tipo := Lower(Strip(emailInput)), Strip(tipoInput);
      if email == "" {
        session := session[WebauthnChallenge := VBytes(challenge)];
        return LoginOptions(None);
      }
      var k := First(users, (u: User) => u.email == email && (tipo == "" || u.tipo == tipo));
      if k.None? {
        return UserNotFound;
      }
      var user := users[k.value];
      var ids := ActiveIdsOf(creds, user.email);
      var allow: Option<seq<seq<Byte>>> := None;
      if ids != [] {
        allow := Some(DecodeAll(ids));
      }
      session := session[WebauthnChallenge := VBytes(challenge)];
      session := session[WebauthnLoginEmail := VStr(user.email)][WebauthnLoginTipo := VStr(user.tipo)];
      r := LoginOptions(allow);
    }

    /**
     * `webauthn_login`: pop the session challenge, verify the assertion against the
     * stored public key and counter, store the verifier's new counter, then resolve
     * the email's account. `verify` maps (challenge, public key, stored counter) to
     * the new counter, or None when the library raises. `counted`: the UPDATE of the
     * counter went through; the login goes ahead either way.
     */
    method Login(credentialId: string, tipoChoice: string, verify: (seq<Byte>, seq<Byte>, int) -> Option<int>, counted: bool)
      returns (r: WebauthnReply)
      requires Valid()
      modifies this
      ensures Valid()
      ensures WebauthnChallenge !in session
      ensures var ch := Get(old(session), WebauthnChallenge);
        var popped := old(session) - {WebauthnChallenge};
        var k := ActiveCredential(old(creds), credentialId);
        && (!Truthy(ch) ==> r == ChallengeExpired && session == popped && creds == old(creds))
        && (Truthy(ch) && credentialId == "" ==> r == CredentialWithoutId && session == popped && creds == old(creds))
        && (Truthy(ch) && credentialId != "" && k.None? ==> r == UnknownCredential && session == popped && creds == old(creds))
        && (Truthy(ch) && credentialId != "" && k.Some? ==>
              var reg := old(creds)[k.value];
              var n := verify(ch.bytes, Base64Url.DecodeValid(reg.publicKey), reg.signCount);
              && (n.None? ==> r == VerificationFailed && session == popped && creds == old(creds))
              && (n.Some? ==>
                    creds == (if counted then SetSignCount(old(creds), credentialId, n.value) else old(creds)) &&
                    (r, session) == ResolveLogin(ActiveAccounts(users, reg.email), tipoChoice, reg.email, popped)))
      ensures codes == old(codes) && nextCodeId == old(nextCodeId) && challenges == old(challenges)
    {
      var ch := Get(session, WebauthnChallenge);
      session := session - {WebauthnChallenge};
      if !Truthy(ch) {
        return ChallengeExpired;
      }
      if credentialId == "" {
        return CredentialWithoutId;
      }
      var k := ActiveCredential(creds, credentialId);
      if k.None? {
        return UnknownCredential;
      }
      var reg := creds[k.value];
      var n := verify(ch.bytes, Base64Url.DecodeValid(reg.publicKey), reg.signCount);
      if n.None? {
        return VerificationFailed;
      }
      UpdateSignCount(credentialId, n.value, counted);
      var res := ResolveLogin(ActiveAccounts(users, reg.email), tipoChoice, reg.email, session);
      r, session := res.0, res.1;
    }

    /** The UPDATE of the credential's stored sign counter after a verified assertion; `counted`: it went through. */
    method UpdateSignCount(credentialId: string, n: int, counted: bool)
      requires Valid()
      modifies this
      ensures Valid()
      ensures creds == if counted then SetSignCount(old(creds), credentialId, n) else old(creds)
      ensures session == old(session) && codes == old(codes) && nextCodeId == old(nextCodeId) && challenges == old(challenges)
    {
      if counted {
        SetSignCountKeepsInvariants(creds, credentialId, n);
        creds := SetSignCount(creds, credentialId, n);
      }
    }
  }
}
