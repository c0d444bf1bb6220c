/**
 * The user-maintenance handlers (`cadastrar`, `visualizar`, `editar`, `excluir`) of
 * `modules/usuarios.py` and of its refactored successor `modules/usuarios/module.py`.
 * Each handler runs a chain of guards and then issues at most one INSERT, UPDATE
 * or DELETE on `usuarios`. The two modules differ in three places, which `Variant`
 * selects: only the older edit checks (email, tipo) uniqueness, the two treat a failed
 * "other active admins" count in opposite ways, and their dependency lists differ.
 */
module Users {
  import opened Wrappers
  import opened Strings
  import opened Validation
  import opened Tables
  import opened Accounts
  import opened Dependencies

  const ADMIN := "administrador"

  /** `tipos_validos`. */
  const TIPOS := ["administrador", "escola", "fornecedor", "responsavel"]

  /** `modules/usuarios.py` or `modules/usuarios/module.py`. */
  datatype Variant = Older | Refactored

  /** The logged-in user as the guards read it: `usuario_logado['id']` and `['tipo']`. */
  datatype Actor = Actor(id: int, tipo: string)

  predicate IsAdmin(a: Actor) {
    a.tipo == ADMIN
  }

  /** Viewing and editing: an admin reaches every id, anyone else only their own. */
  predicate MayReach(a: Actor, id: int) {
    IsAdmin(a) || a.id == id
  }

  /** `SELECT ... FROM usuarios WHERE id = %s`. */
  function FindUser(users: seq<User>, id: int): Option<nat> {
    First(users, (u: User) => u.id == id)
  }

  predicate UniqueIds(users: seq<User>) {
    forall i, j :: 0 <= i < j < |users| ==> users[i].id != users[j].id
  }

  /** No two accounts share both email and tipo. */
  predicate UniqueEmailTipo(users: seq<User>) {
    forall i, j :: 0 <= i < j < |users| ==> users[i].email != users[j].email || users[i].tipo != users[j].tipo
  }

  predicate ActiveAdmin(u: User) {
    u.tipo == ADMIN && u.ativo
  }

  /** The system still has somebody who can administer it. */
  predicate HasActiveAdmin(users: seq<User>) {
    exists u :: u in users && ActiveAdmin(u)
  }

  /** `SELECT COUNT(*) FROM usuarios WHERE tipo = 'administrador' AND id != %s AND ativo = TRUE`. */
  function CountOtherAdmins(users: seq<User>, id: int): (n: nat)
    ensures n > 0 <==> exists u :: u in users && ActiveAdmin(u) && u.id != id
  {
    if users == [] then 0
    else
      var rest := CountOtherAdmins(users[1..], id);
      assert forall u :: u in users <==> u == users[0] || u in users[1..];
      (if ActiveAdmin(users[0]) && users[0].id != id then 1 else 0) + rest
  }

  /**
   * Whether the "last active admin" guard refuses, given whether the count query
   * succeeded and what it counted. The older module refuses on a failed query
   * (`not r or ...`); the refactored one lets it pass (`isinstance(r, dict) and ...`).
   */
  predicate AdminRefused(v: Variant, countOk: bool, others: nat) {
    match v
    case Older => !countOk || others == 0
    case Refactored => countOk && others == 0
  }

  /** The two modules part ways exactly on a failed count query. */
  lemma FailedCountDiffers(others: nat)
    ensures AdminRefused(Older, false, others) && !AdminRefused(Refactored, false, others)
    ensures AdminRefused(Older, true, others) == AdminRefused(Refactored, true, others)
  {
  }

  // ---------------------------------------------------------------- cadastrar

  datatype RegisterOutcome =
    | RegisterDenied       // "Acesso negado. Apenas administradores podem cadastrar usuários."
    | RegisterMissing      // "Preencha todos os campos obrigatórios."
    | RegisterBadPhone     // "Telefone inválido."
    | RegisterBadEmail     // "Email inválido."
    | RegisterBadTipo      // "Tipo de usuário inválido."
    | RegisterDuplicate    // "Já existe um usuário com este email para o mesmo tipo selecionado."
    | Create(user: User)

  /** Some account already has this email and tipo (active or not). */
  predicate Taken(users: seq<User>, email: string, tipo: string) {
    exists u :: u in users && u.email == email && u.tipo == tipo
  }

  /**
   * The guards of `cadastrar`, in their order: admin only, then nome/email/tipo present,
   * then the phone, the email format, the tipo among the four, and (email, tipo) free.
   * The form fields are stripped, the email also lowercased; `newId` is the id the
   * INSERT would return.
   */
  function RegisterCheck(users: seq<User>, actor: Option<Actor>, nomeIn: string, emailIn: string,
                         telefoneIn: string, tipoIn: string, newId: int): (r: RegisterOutcome)
    ensures var nome, email, telefone, tipo := Strip(nomeIn), Lower(Strip(emailIn)), Strip(telefoneIn), Strip(tipoIn);
      var admin := actor.Some? && IsAdmin(actor.value);
      && (r == RegisterDenied <==> !admin)
      && (r == RegisterMissing <==> admin && (nome == "" || email == "" || tipo == ""))
      && (r == RegisterBadPhone <==> admin && nome != "" && email != "" && tipo != "" && telefone != "" && !ValidPhone(telefone))
      && (r == RegisterBadEmail <==> admin && nome != "" && email != "" && tipo != "" && ValidPhone(telefone) && !ValidEmail(email))
      && (r == RegisterBadTipo <==> admin && nome != "" && tipo != "" && ValidPhone(telefone) && ValidEmail(email) && tipo !in TIPOS)
      && (r == RegisterDuplicate <==> admin && nome != "" && ValidPhone(telefone) && ValidEmail(email) && tipo in TIPOS && Taken(users, email, tipo))
      && (r.Create? <==> admin && nome != "" && ValidPhone(telefone) && ValidEmail(email) && tipo in TIPOS && !Taken(users, email, tipo))
      && (r.Create? ==> r.user == User(newId, nome, email, telefone, tipo, true))
  {
    var nome, email, telefone, tipo := Strip(nomeIn), Lower(Strip(emailIn)), Strip(telefoneIn), Strip(tipoIn);
    if actor.None? || !IsAdmin(actor.value) then RegisterDenied
    else if nome == "" || email == "" || tipo == "" then RegisterMissing
    else if telefone != "" && !ValidPhone(telefone) then RegisterBadPhone
    else if !ValidEmail(email) then RegisterBadEmail
    else if tipo !in TIPOS then RegisterBadTipo
    else if Taken(users, email, tipo) then RegisterDuplicate
    else Create(User(newId, nome, email, telefone, tipo, true))
  }

  /** A registration keeps ids and (email, tipo) pairs unique, and creates an active account of a known tipo. */
  lemma RegisterKeepsInvariants(users: seq<User>, actor: Option<Actor>, nome: string, email: string,
                                telefone: string, tipo: string, newId: int)
    requires UniqueIds(users) && UniqueEmailTipo(users)
    requires forall u :: u in users ==> u.id < newId
    ensures var r := RegisterCheck(users, actor, nome, email, telefone, tipo, newId);
      r.Create? ==> UniqueIds(users + [r.user]) && UniqueEmailTipo(users + [r.user]) &&
                    r.user.ativo && r.user.tipo in TIPOS && ValidEmail(r.user.email)
  {
    var r := RegisterCheck(users, actor, nome, email, telefone, tipo, newId);
    if r.Create? {
      var after := users + [r.user];
      forall i, j | 0 <= i < j < |after|
        ensures after[i].id != after[j].id
        ensures after[i].email != after[j].email || after[i].tipo != after[j].tipo
      {
        if j == |users| {
          assert after[i] in users;
        }
      }
    }
  }

  /**
   * The table after the older `cadastrar` as written: its `INSERT ... RETURNING id` runs
   * through `executar_query` with `fetchone=True` and no `commit=True`, and the connection
   * is closed without a commit, so whatever the verdict the new row is rolled back.
   */
  function RegisterAsWritten(users: seq<User>, r: RegisterOutcome): seq<User> {
    users
  }

  /**
   * As written, an accepted registration (reported as "Usuário cadastrado com sucesso!"
   * once the INSERT returned its id) stores no account: the table lacks the new row and
   * the same form is accepted again. Once the row is committed, the same form is refused
   * as a duplicate.
   */
  lemma RegisterNotCommitted(users: seq<User>, actor: Option<Actor>, nome: string, email: string,
                             telefone: string, tipo: string, newId: int)
    requires forall u :: u in users ==> u.id < newId
    ensures var r := RegisterCheck(users, actor, nome, email, telefone, tipo, newId);
      var after := RegisterAsWritten(users, r);
      r.Create? ==>
        && r.user !in after
        && RegisterCheck(after, actor, nome, email, telefone, tipo, newId + 1).Create?
        && RegisterCheck(users + [r.user], actor, nome, email, telefone, tipo, newId + 1) == RegisterDuplicate
  {
    var r := RegisterCheck(users, actor, nome, email, telefone, tipo, newId);
    if r.Create? {
      assert r.user.id == newId;
      assert r.user in users + [r.user] by {
        assert (users + [r.user])[|users|] == r.user;
      }
    }
  }

  // ---------------------------------------------------------------- visualizar

  datatype ViewOutcome = ViewLogin | ViewForbidden | ViewNotFound | Show(user: User)

  /** `visualizar`: the same reach rule as editing, then the lookup. */
  function ViewCheck(users: seq<User>, actor: Option<Actor>, id: int): (r: ViewOutcome)
    ensures r == ViewLogin <==> actor.None?
    ensures r == ViewForbidden <==> actor.Some? && !MayReach(actor.value, id)
    ensures r.Show? <==> actor.Some? && MayReach(actor.value, id) && FindUser(users, id).Some?
    ensures r.Show? ==> r.user in users && r.user.id == id
    ensures r.Show? && !IsAdmin(actor.value) ==> r.user.id == actor.value.id
  {
    if actor.None? then ViewLogin
    else if !MayReach(actor.value, id) then ViewForbidden
    else match FindUser(users, id)
      case None => ViewNotFound
      case Some(k) => Show(users[k])
  }

  // ---------------------------------------------------------------- editar

  /** The edit form: `tipo` and `ativo` may be absent from it. */
  datatype EditForm = EditForm(nome: string, email: string, telefone: string, tipo: Option<string>, ativo: Option<string>)

  datatype EditOutcome =
    | EditLogin          // "Faça login para continuar."
    | EditForbidden      // "Você não tem permissão para editar este usuário."
    | EditNotFound       // "Usuário não encontrado."
    | EditMissing        // "Preencha todos os campos obrigatórios."
    | EditBadPhone       // "Telefone inválido."
    | EditBadEmail       // "Email inválido."
    | EditDuplicate      // "Já existe outro usuário com este email para o mesmo tipo." (older module only)
    | EditLastAdmin      // "Não é possível inativar: seria o último administrador ativo."
    | Save(user: User)

  /**
   * The tipo and ativo an edit writes. An admin's form decides them: `tipo` defaults to
   * the stored one and is not validated, `ativo` is on only for the checkbox value "on".
   * Anyone else keeps the stored pair.
   */
  function NewRole(a: Actor, stored: User, f: EditForm): (string, bool) {
    if IsAdmin(a) then (f.tipo.GetOr(stored.tipo), f.ativo == Some("on"))
    else (stored.tipo, stored.ativo)
  }

  /** Another id already has this email and tipo. */
  predicate TakenByOther(users: seq<User>, email: string, tipo: string, id: int) {
    exists u :: u in users && u.email == email && u.tipo == tipo && u.id != id
  }

  /** The actor may edit `id` and the account exists: the guards before the form is read pass. */
  predicate Reached(users: seq<User>, actor: Option<Actor>, id: int) {
    actor.Some? && MayReach(actor.value, id) && FindUser(users, id).Some?
  }

  /** The stored row of an account that exists. */
  function StoredOf(users: seq<User>, id: int): (u: User)
    requires FindUser(users, id).Some?
    ensures u in users && u.id == id
  {
    users[FindUser(users, id).value]
  }

  /** "Preencha todos os campos obrigatórios.": the stripped name or email is empty. */
  predicate MissingFields(f: EditForm) {
    Strip(f.nome) == "" || Lower(Strip(f.email)) == ""
  }

  /** "Telefone inválido.": a phone was given and it is not valid. */
  predicate BadPhone(f: EditForm) {
    Strip(f.telefone) != "" && !ValidPhone(Strip(f.telefone))
  }

  /** "Email inválido.". */
  predicate BadEmail(f: EditForm) {
    !ValidEmail(Lower(Strip(f.email)))
  }

  /** The form passes the three field checks. */
  predicate FormOk(f: EditForm) {
    !MissingFields(f) && !BadPhone(f) && !BadEmail(f)
  }

  /** The older module's duplicate check: another id has the new email under the new tipo. */
  predicate Duplicate(v: Variant, users: seq<User>, a: Actor, stored: User, id: int, f: EditForm) {
    v == Older && TakenByOther(users, Lower(Strip(f.email)), NewRole(a, stored, f).0, id)
  }

  /** The edit would inactivate an active admin and the count guard refuses it. */
  predicate LastAdmin(v: Variant, users: seq<User>, a: Actor, stored: User, id: int, f: EditForm, countOk: bool) {
    ActiveAdmin(stored) && !NewRole(a, stored, f).1 && AdminRefused(v, countOk, CountOtherAdmins(users, id))
  }

  /** The guards of `editar` and the row the UPDATE writes. `countOk` says whether the admin count query succeeded. */
  function EditCheck(v: Variant, users: seq<User>, actor: Option<Actor>, id: int, f: EditForm, countOk: bool): (r: EditOutcome)
    ensures r == EditLogin <==> actor.None?
    ensures r == EditForbidden <==> actor.Some? && !MayReach(actor.value, id)
    ensures r == EditNotFound <==> actor.Some? && MayReach(actor.value, id) && FindUser(users, id).None?
    ensures r == EditMissing <==> Reached(users, actor, id) && MissingFields(f)
    ensures r == EditBadPhone <==> Reached(users, actor, id) && !MissingFields(f) && BadPhone(f)
    ensures r == EditBadEmail <==> Reached(users, actor, id) && !MissingFields(f) && !BadPhone(f) && BadEmail(f)
    ensures r == EditDuplicate <==>
      Reached(users, actor, id) && FormOk(f) && Duplicate(v, users, actor.value, StoredOf(users, id), id, f)
    ensures r == EditLastAdmin <==>
      && Reached(users, actor, id) && FormOk(f)
      && !Duplicate(v, users, actor.value, StoredOf(users, id), id, f)
      && LastAdmin(v, users, actor.value, StoredOf(users, id), id, f, countOk)
    ensures r.Save? <==>
      && Reached(users, actor, id) && FormOk(f)
      && !Duplicate(v, users, actor.value, StoredOf(users, id), id, f)
      && !LastAdmin(v, users, actor.value, StoredOf(users, id), id, f, countOk)
    ensures r.Save? ==>
      && Reached(users, actor, id)
      && var stored := StoredOf(users, id);
      && r.user == User(id, Strip(f.nome), Lower(Strip(f.email)), Strip(f.telefone), NewRole(actor.value, stored, f).0, NewRole(actor.value, stored, f).1)
      && r.user.nome != "" && ValidEmail(r.user.email) && ValidPhone(r.user.telefone)
      && (!IsAdmin(actor.value) ==> r.user.tipo == stored.tipo && r.user.ativo == stored.ativo)
      && (v == Older ==> !TakenByOther(users, r.user.email, r.user.tipo, id))
      && (ActiveAdmin(stored) && !r.user.ativo ==> !AdminRefused(v, countOk, CountOtherAdmins(users, id)))
    ensures r == EditDuplicate ==> v == Older
  {
    if actor.None? then EditLogin
    else if !MayReach(actor.value, id) then EditForbidden
    else match FindUser(users, id)
      case None => EditNotFound
      case Some(k) =>
        var stored := users[k];
        var nome, email, telefone := Strip(f.nome), Lower(Strip(f.email)), Strip(f.telefone);
        var (tipo, ativo) := NewRole(actor.value, stored, f);
        if nome == "" || email == "" then EditMissing
        else if telefone != "" && !ValidPhone(telefone) then EditBadPhone
        else if !ValidEmail(email) then EditBadEmail
        else if v == Older && TakenByOther(users, email, tipo, id) then EditDuplicate
        else if ActiveAdmin(stored) && !ativo && AdminRefused(v, countOk, CountOtherAdmins(users, id)) then EditLastAdmin
        else Save(User(id, nome, email, telefone, tipo, ativo))
  }

  /** `UPDATE usuarios SET ... WHERE id = %s`. */
  function Updated(users: seq<User>, id: int, u: User): seq<User>
  {
    seq(|users|, i requires 0 <= i < |users| => if users[i].id == id then u else users[i])
  }

  /**
   * An edit the count query did not let through blindly never removes the last active
   * admin, except by demoting it: the guard looks at `ativo` only, so an admin who
   * changes the last active admin's tipo leaves the system without one.
   */
  lemma EditKeepsActiveAdmin(v: Variant, users: seq<User>, actor: Option<Actor>, id: int, f: EditForm, countOk: bool)
    requires UniqueIds(users) && HasActiveAdmin(users)
    requires v == Older || countOk
    ensures var r := EditCheck(v, users, actor, id, f, countOk);
      r.Save? ==> HasActiveAdmin(Updated(users, id, r.user)) || (r.user.tipo != ADMIN && CountOtherAdmins(users, id) == 0)
  {
    var r := EditCheck(v, users, actor, id, f, countOk);
    if r.Save? && !(r.user.tipo != ADMIN && CountOtherAdmins(users, id) == 0) {
      var after := Updated(users, id, r.user);
      var k := FindUser(users, id).value;
      var a :| a in users && ActiveAdmin(a);
      var i :| 0 <= i < |users| && users[i] == a;
      if a.id != id {
        assert after[i] == a;
      } else {
        assert i == k;
        if ActiveAdmin(r.user) {
          assert after[i] == r.user;
        } else {
          var o :| o in users && ActiveAdmin(o) && o.id != id;
          var j :| 0 <= j < |users| && users[j] == o;
          assert after[j] == o;
        }
      }
    }
  }

  /**
   * The demotion above is reachable: when the only account is an active admin who
   * submits a valid form with another tipo and the box ticked, the edit is saved and
   * no active admin remains.
   */
  lemma DemotionLeavesNoAdmin(v: Variant, s: User, f: EditForm, countOk: bool)
    requires ActiveAdmin(s)
    requires Strip(f.nome) != "" && ValidEmail(Lower(Strip(f.email))) && ValidPhone(Strip(f.telefone))
    requires f.tipo.Some? && f.tipo.value != ADMIN && f.ativo == Some("on")
    ensures var r := EditCheck(v, [s], Some(Actor(s.id, ADMIN)), s.id, f, countOk);
      r.Save? && !HasActiveAdmin(Updated([s], s.id, r.user))
  {
    var r := EditCheck(v, [s], Some(Actor(s.id, ADMIN)), s.id, f, countOk);
    assert FindUser([s], s.id) == Some(0);
    assert !TakenByOther([s], Lower(Strip(f.email)), f.tipo.value, s.id);
    assert r.Save?;
    assert Updated([s], s.id, r.user) == [r.user];
  }

  /** The older module's edit keeps (email, tipo) pairs unique. */
  lemma OlderEditKeepsUnique(users: seq<User>, actor: Option<Actor>, id: int, f: EditForm, countOk: bool)
    requires UniqueIds(users) && UniqueEmailTipo(users)
    ensures var r := EditCheck(Older, users, actor, id, f, countOk);
      r.Save? ==> UniqueIds(Updated(users, id, r.user)) && UniqueEmailTipo(Updated(users, id, r.user))
  {
    var r := EditCheck(Older, users, actor, id, f, countOk);
    if r.Save? {
      var after := Updated(users, id, r.user);
      forall i, j | 0 <= i < j < |after|
        ensures after[i].id != after[j].id
        ensures after[i].email != after[j].email || after[i].tipo != after[j].tipo
      {
        if users[i].id == id {
          assert users[j] in users;
        } else if users[j].id == id {
          assert users[i] in users;
        }
      }
    }
  }

  /**
   * The refactored edit has no uniqueness check: a non-admin who moves their email
   * to that of another account of the same tipo is saved, and the pair is no longer unique.
   */
  lemma RefactoredEditMayDuplicate(a: User, b: User, f: EditForm, countOk: bool)
    requires a.id != b.id && a.tipo == b.tipo && b.tipo != ADMIN
    requires Strip(f.nome) != "" && Lower(Strip(f.email)) == a.email && ValidEmail(a.email) && ValidPhone(Strip(f.telefone))
    ensures var r := EditCheck(Refactored, [a, b], Some(Actor(b.id, b.tipo)), b.id, f, countOk);
      r.Save? && !UniqueEmailTipo(Updated([a, b], b.id, r.user))
  {
    var users := [a, b];
    var r := EditCheck(Refactored, users, Some(Actor(b.id, b.tipo)), b.id, f, countOk);
    var found := FindUser(users, b.id);
    assert users[1].id == b.id;
    assert found.Some? && found.value != 0;
    assert found == Some(1);
    assert r.Save?;
    var after := Updated(users, b.id, r.user);
    assert after[0] == a && after[1] == r.user;
  }

  // ---------------------------------------------------------------- excluir

  /** One dependency count the deletion runs: the table, its column, and the reason shown when it blocks. */
  datatype Dependent = Dependent(tabela: string, campo: string, motivo: string)

  /** The dependency counts each module runs for a user of the given tipo (on its linked escola, fornecedor or responsavel). */
  function DependentsOf(v: Variant, tipo: string): seq<Dependent> {
    if tipo == "escola" then
      match v
      case Older => [Dependent("homologacao_fornecedores", "escola_id", "Possui fornecedores homologados vinculados."),
                     Dependent("produtos", "escola_id", "Possui produtos vinculados à escola."),
                     Dependent("pedidos", "escola_id", "Possui pedidos vinculados à escola.")]
      case Refactored => [Dependent("homologacao_fornecedores", "escola_id", "Possui fornecedores homologados vinculados."),
                          Dependent("produtos", "escola_id", "Possui produtos vinculados."),
                          Dependent("pedidos", "escola_id", "Possui pedidos vinculados.")]
    else if tipo == "fornecedor" then
      match v
      case Older => [Dependent("produtos", "fornecedor_id", "Possui produtos vinculados ao fornecedor."),
                     Dependent("repasses_financeiros", "fornecedor_id", "Possui repasses financeiros vinculados.")]
      case Refactored => [Dependent("produtos", "fornecedor_id", "Possui produtos vinculados.")]
    else if tipo == "responsavel" then
      [Dependent("pedidos", "responsavel_id", "Possui pedidos vinculados ao responsável.")]
    else []
  }

  /** The reasons of the blocking counts, in the order they are run. `countOf` gives each query's row. */
  function Flagged(ds: seq<Dependent>, countOf: (string, string) -> CountRow): seq<string> {
    if ds == [] then []
    else
      var d := ds[|ds| - 1];
      Flagged(ds[..|ds| - 1], countOf) + (if Blocks(countOf(d.tabela, d.campo)) then [d.motivo] else [])
  }

  /** The checks `excluir` runs on a found user of this tipo, in order. */
  method CollectReasons(v: Variant, users: seq<User>, id: int, tipo: string, countOk: bool, linked: bool,
                        countOf: (string, string) -> CountRow) returns (bloqueios: seq<string>)
    ensures bloqueios == Reasons(v, users, id, tipo, countOk, linked, countOf)
  {
    bloqueios := [];
    if tipo == ADMIN {
      if AdminRefused(v, countOk, CountOtherAdmins(users, id)) {
        bloqueios := bloqueios + [LAST_ADMIN_DELETE];
      }
    } else if linked {
      bloqueios := FlagDependents(DependentsOf(v, tipo), countOf);
    }
  }

  /** The loop of `excluir` over the dependent tables: one reason per table whose count blocks. */
  method FlagDependents(ds: seq<Dependent>, countOf: (string, string) -> CountRow) returns (bloqueios: seq<string>)
    ensures bloqueios == Flagged(ds, countOf)
  {
    bloqueios := [];
    for i := 0 to |ds|
      invariant bloqueios == Flagged(ds[..i], countOf)
    {
      assert ds[..i + 1][..i] == ds[..i];
      var d := ds[i];
      if Blocks(countOf(d.tabela, d.campo)) {
        bloqueios := bloqueios + [d.motivo];
      }
    }
    assert ds[..|ds|] == ds;
  }

  /** Exactly the reasons of the blocking counts appear, and none at all iff nothing blocks. */
  lemma {:induction false} FlaggedMeaning(ds: seq<Dependent>, countOf: (string, string) -> CountRow)
    ensures forall m :: m in Flagged(ds, countOf) <==> exists d :: d in ds && Blocks(countOf(d.tabela, d.campo)) && m == d.motivo
    ensures Flagged(ds, countOf) == [] <==> forall d :: d in ds ==> !Blocks(countOf(d.tabela, d.campo))
  {
    if ds != [] {
      var init := ds[..|ds| - 1];
      FlaggedMeaning(init, countOf);
      assert forall d :: d in ds <==> d in init || d == ds[|ds| - 1];
    }
  }

  const LAST_ADMIN_DELETE := "Não é possível excluir: seria o último administrador ativo."

  /**
   * `bloqueios`: for an admin the last-admin guard alone; for the other tipos the
   * dependency counts, run only when the linked record exists (`linked`).
   */
  function Reasons(v: Variant, users: seq<User>, id: int, tipo: string, countOk: bool, linked: bool,
                   countOf: (string, string) -> CountRow): seq<string> {
    if tipo == ADMIN then
      (if AdminRefused(v, countOk, CountOtherAdmins(users, id)) then [LAST_ADMIN_DELETE] else [])
    else if linked then Flagged(DependentsOf(v, tipo), countOf)
    else []
  }

  datatype DeleteOutcome =
    | DeleteDenied                // "Acesso negado. Apenas administradores podem excluir usuários."
    | SelfDelete                  // "Você não pode excluir seu próprio usuário."
    | DeleteNotFound              // "Usuário não encontrado."
    | Blocked(reasons: seq<string>)
    | Remove

  /** The guards of `excluir`. */
  function DeleteCheck(v: Variant, users: seq<User>, actor: Option<Actor>, id: int, countOk: bool, linked: bool,
                       countOf: (string, string) -> CountRow): (r: DeleteOutcome)
    ensures r == DeleteDenied <==> actor.None? || !IsAdmin(actor.value)
    ensures r == SelfDelete <==> actor.Some? && IsAdmin(actor.value) && actor.value.id == id
    ensures r.Remove? || r.Blocked? ==>
      && actor.Some? && IsAdmin(actor.value) && actor.value.id != id && FindUser(users, id).Some?
      && var stored := users[FindUser(users, id).value];
      && (r.Remove? <==> Reasons(v, users, id, stored.tipo, countOk, linked, countOf) == [])
      && (r.Blocked? ==> r.reasons == Reasons(v, users, id, stored.tipo, countOk, linked, countOf))
    ensures r == DeleteNotFound <==> actor.Some? && IsAdmin(actor.value) && actor.value.id != id && FindUser(users, id).None?
  {
    if actor.None? || !IsAdmin(actor.value) then DeleteDenied
    else if actor.value.id == id then SelfDelete
    else match FindUser(users, id)
      case None => DeleteNotFound
      case Some(k) =>
        var reasons := Reasons(v, users, id, users[k].tipo, countOk, linked, countOf);
        if reasons != [] then Blocked(reasons) else Remove
  }

  /** `DELETE FROM usuarios WHERE id = %s`. */
  function Without(users: seq<User>, id: int): (r: seq<User>)
    ensures forall u :: u in r <==> u in users && u.id != id
  {
    Filter(users, (u: User) => u.id != id)
  }

  /**
   * A deletion that goes through never removes the last active admin, unless the
   * refactored module's count query failed; and nobody deletes themself.
   */
  lemma DeleteKeepsActiveAdmin(v: Variant, users: seq<User>, actor: Option<Actor>, id: int, countOk: bool, linked: bool,
                               countOf: (string, string) -> CountRow)
    requires UniqueIds(users) && HasActiveAdmin(users)
    requires v == Older || countOk
    ensures var r := DeleteCheck(v, users, actor, id, countOk, linked, countOf);
      r.Remove? ==> HasActiveAdmin(Without(users, id)) && actor.value.id != id
  {
    var r := DeleteCheck(v, users, actor, id, countOk, linked, countOf);
    if r.Remove? {
      var k := FindUser(users, id).value;
      var a :| a in users && ActiveAdmin(a);
      if users[k].tipo == ADMIN {
        var o :| o in users && ActiveAdmin(o) && o.id != id;
        assert o in Without(users, id);
      } else {
        var i :| 0 <= i < |users| && users[i] == a;
        assert i != k;
        assert a in Without(users, id);
      }
    }
  }

  /** With a failed count query the older module refuses to delete an admin, the refactored one does not block. */
  lemma FailedCountDeletesAdmin(users: seq<User>, actor: Option<Actor>, id: int, linked: bool,
                                countOf: (string, string) -> CountRow)
    requires actor.Some? && IsAdmin(actor.value) && actor.value.id != id
    requires FindUser(users, id).Some? && users[FindUser(users, id).value].tipo == ADMIN
    ensures DeleteCheck(Older, users, actor, id, false, linked, countOf) == Blocked([LAST_ADMIN_DELETE])
    ensures DeleteCheck(Refactored, users, actor, id, false, linked, countOf) == Remove
  {
  }

  // ---------------------------------------------------------------- the table

  /** The `usuarios` table and its id sequence. */
  class UserTable {
    var users: seq<User>
    var nextId: int

    ghost predicate Valid()
      reads this
    {
      UniqueIds(users) && forall u :: u in users ==> u.id < nextId
    }

    constructor (users0: seq<User>, nextId0: int)
      requires UniqueIds(users0) && forall u :: u in users0 ==> u.id < nextId0
      ensures Valid() && users == users0 && nextId == nextId0
    {
      users := users0;
      nextId := nextId0;
    }

    /**
     * `cadastrar` of the refactored module, whose insert goes through `Database.inserir`
     * and is committed; `stored` says whether the INSERT returned the new id. The older
     * module's uncommitted insert is `RegisterAsWritten`.
     */
    method Register(actor: Option<Actor>, nome: string, email: string, telefone: string, tipo: string, stored: bool)
      returns (r: RegisterOutcome, saved: bool)
      requires Valid()
      modifies this
      ensures Valid()
      ensures r == RegisterCheck(old(users), actor, nome, email, telefone, tipo, old(nextId))
      ensures saved <==> r.Create? && stored
      ensures users == (if saved then old(users) + [r.user] else old(users))
      ensures nextId == (if saved then old(nextId) + 1 else old(nextId))
    {
      r := RegisterCheck(users, actor, nome, email, telefone, tipo, nextId);
      saved := r.Create? && stored;
      if saved {
        forall i | 0 <= i < |users| ensures users[i].id < r.user.id {
          assert users[i] in users;
        }
        users := users + [r.user];
        nextId := nextId + 1;
      }
    }

    /** `editar`; `stored` says whether the UPDATE reported success. */
    method Edit(v: Variant, actor: Option<Actor>, id: int, f: EditForm, countOk: bool, stored: bool)
      returns (r: EditOutcome, saved: bool)
      requires Valid()
      modifies this
      ensures Valid() && nextId == old(nextId)
      ensures r == EditCheck(v, old(users), actor, id, f, countOk)
      ensures saved <==> r.Save? && stored
      ensures users == (if saved then Updated(old(users), id, r.user) else old(users))
    {
      r := EditCheck(v, users, actor, id, f, countOk);
      saved := r.Save? && stored;
      if saved {
        var after := Updated(users, id, r.user);
        forall i, j | 0 <= i < j < |after| ensures after[i].id != after[j].id {
          if users[i].id == id || users[j].id == id {
            assert after[i].id == users[i].id && after[j].id == users[j].id;
          }
        }
        forall u | u in after ensures u.id < nextId {
          var i :| 0 <= i < |after| && after[i] == u;
          assert users[i] in users;
        }
        users := after;
      }
    }

    /**
     * `excluir`: the admin check, the self-delete check, the lookup, then the
     * reasons accumulated one count at a time; `stored` says whether the DELETE succeeded.
     */
    method Delete(v: Variant, actor: Option<Actor>, id: int, countOk: bool, linked: bool,
                  countOf: (string, string) -> CountRow, stored: bool)
      returns (r: DeleteOutcome, removed: bool)
      requires Valid()
      modifies this
      ensures Valid() && nextId == old(nextId)
      ensures r == DeleteCheck(v, old(users), actor, id, countOk, linked, countOf)
      ensures removed <==> r.Remove? && stored
      ensures users == (if removed then Without(old(users), id) else old(users))
    {
      removed := false;
      if actor.None? || !IsAdmin(actor.value) {
        r := DeleteDenied;
        return;
      }
      if actor.value.id == id {
        r := SelfDelete;
        return;
      }
      var found := FindUser(users, id);
      if found.None? {
        r := DeleteNotFound;
        return;
      }
      var bloqueios := CollectReasons(v, users, id, users[found.value].tipo, countOk, linked, countOf);
      if bloqueios != [] {
        r := Blocked(bloqueios);
        return;
      }
      r := Remove;
      if stored {
        var after := Without(users, id);
        WithoutKeepsIds(users, id);
        users := after;
        removed := true;
      }
    }
  }

  /** Deleting rows keeps ids unique. */
  lemma WithoutKeepsIds(users: seq<User>, id: int)
    requires UniqueIds(users)
    ensures UniqueIds(Without(users, id))
  {
    var key := (u: User) => u.id;
    assert DistinctBy(users, key);
    FilterKeepsDistinct(users, (u: User) => u.id != id, key);
  }
}
