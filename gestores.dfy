/**
 * `modules/gestores.py`: the school managers (`gestores_escolares`) of a school, who
 * may manage them (`_pode_gerenciar`), and how a manager form is read and validated.
 */
module Gestores {
  import opened Wrappers
  import opened Strings
  import opened Validation
  import opened Tables
  import Users

  /** The school as `_buscar_escola` returns it: its id and the id of its own user account. */
  datatype School = School(id: int, usuarioId: int)

  /** `value or None`: the empty string stands for a missing optional field. */
  function OrNone(s: string): (r: Option<string>)
    ensures r.None? <==> s == ""
    ensures r.Some? ==> r.value == s
  {
    if s == "" then None else Some(s)
  }

  /** The manager form as submitted. */
  datatype GestorForm = GestorForm(nome: string, email: string, telefone: string, cpf: string, tipoGestor: string)

  /** The columns a manager row stores. */
  datatype GestorData = GestorData(nome: string, email: Option<string>, telefone: Option<string>, cpf: Option<string>, tipoGestor: Option<string>)

  /** A `gestores_escolares` row. */
  datatype Gestor = Gestor(id: int, escolaId: int, data: GestorData)

  /** The fields as read: stripped, the email also lowercased, empty optional fields as `None`. */
  function Collect(f: GestorForm): (d: GestorData)
    ensures d.nome == Strip(f.nome)
    ensures d.email == OrNone(Lower(Strip(f.email)))
    ensures d.telefone == OrNone(Strip(f.telefone)) && d.cpf == OrNone(Strip(f.cpf))
    ensures d.tipoGestor == OrNone(Strip(f.tipoGestor))
  {
    GestorData(Strip(f.nome), OrNone(Lower(Strip(f.email))), OrNone(Strip(f.telefone)), OrNone(Strip(f.cpf)), OrNone(Strip(f.tipoGestor)))
  }

  /**
   * `_pode_gerenciar`: nobody without a session or without a school; an admin for every
   * school; a school account for its own school only; nobody else.
   */
  function MayManage(actor: Option<Users.Actor>, school: Option<School>): (r: bool)
    ensures actor.None? || school.None? ==> !r
    ensures actor.Some? && school.Some? && actor.value.tipo == Users.ADMIN ==> r
    ensures actor.Some? && school.Some? && actor.value.tipo == "escola" ==> (r <==> school.value.usuarioId == actor.value.id)
    ensures actor.Some? && actor.value.tipo != Users.ADMIN && actor.value.tipo != "escola" ==> !r
  {
    if actor.None? || school.None? then false
    else if actor.value.tipo == Users.ADMIN then true
    else actor.value.tipo == "escola" && school.value.usuarioId == actor.value.id
  }

  /** Edit and delete rebuild the school from the manager's join row; only its owner matters, so the answer is the school's. */
  lemma StubDecidesAsSchool(actor: Option<Users.Actor>, s: School, escolaId: int)
    ensures MayManage(actor, Some(School(escolaId, s.usuarioId))) == MayManage(actor, Some(s))
  {
  }

  datatype FormCheck =
    | NameMissing       // "Informe o nome do gestor."
    | PhoneInvalid      // "Telefone inválido."
    | CpfInvalid        // "CPF inválido."
    | Accepted(data: GestorData)

  /** The validation shared by creation and edit: a name; phone and CPF only when given. */
  function CheckForm(f: GestorForm): (r: FormCheck)
    ensures r == NameMissing <==> Strip(f.nome) == ""
    ensures r == PhoneInvalid <==> Strip(f.nome) != "" && Strip(f.telefone) != "" && !ValidPhone(Strip(f.telefone))
    ensures r == CpfInvalid <==>
      Strip(f.nome) != "" && (Strip(f.telefone) == "" || ValidPhone(Strip(f.telefone))) &&
      Strip(f.cpf) != "" && !ValidCpf(Strip(f.cpf))
    ensures r.Accepted? ==>
      && r.data == Collect(f) && r.data.nome != ""
      && (r.data.telefone.Some? ==> ValidPhone(r.data.telefone.value))
      && (r.data.cpf.Some? ==> ValidCpf(r.data.cpf.value))
  {
    var d := Collect(f);
    if d.nome == "" then NameMissing
    else if d.telefone.Some? && !ValidPhone(d.telefone.value) then PhoneInvalid
    else if d.cpf.Some? && !ValidCpf(d.cpf.value) then CpfInvalid
    else Accepted(d)
  }

  /** Optional fields left empty are accepted and stored as `None`. */
  lemma EmptyOptionalsAccepted(nome: string)
    requires Strip(nome) != ""
    ensures CheckForm(GestorForm(nome, "", "", "", "")) == Accepted(GestorData(Strip(nome), None, None, None, None))
  {
    assert Strip("") == "" && Lower("") == "";
  }

  datatype Outcome =
    | LoginRequired   // "Faça login para continuar."
    | NotFound        // "Gestor não encontrado."
    | Denied          // "Acesso negado."
    | Invalid(check: FormCheck)
    | Done

  /** `SELECT ... FROM escolas e JOIN usuarios u ... WHERE e.id = %s`. */
  function FindSchool(schools: seq<School>, id: int): (r: Option<School>)
    ensures r.Some? ==> r.value in schools && r.value.id == id
    ensures r.None? ==> forall s :: s in schools ==> s.id != id
  {
    match First(schools, (s: School) => s.id == id)
    case None => None
    case Some(k) => Some(schools[k])
  }

  /** The manager row with this id, if any. */
  function FindGestor(gestores: seq<Gestor>, id: int): (r: Option<Gestor>)
    ensures r.Some? ==> r.value in gestores && r.value.id == id
    ensures r.None? ==> forall g :: g in gestores ==> g.id != id
  {
    match First(gestores, (g: Gestor) => g.id == id)
    case None => None
    case Some(k) => Some(gestores[k])
  }

  /** `cadastrar`: login, then the school and the permission, then the form. */
  function CreateCheck(schools: seq<School>, actor: Option<Users.Actor>, escolaId: int, f: GestorForm): (r: Outcome)
    ensures r == LoginRequired <==> actor.None?
    ensures r == Denied <==> actor.Some? && !MayManage(actor, FindSchool(schools, escolaId))
    ensures r == Done <==> MayManage(actor, FindSchool(schools, escolaId)) && CheckForm(f).Accepted?
    ensures r.Invalid? ==> r.check == CheckForm(f) && !r.check.Accepted?
  {
    if actor.None? then LoginRequired
    else if !MayManage(actor, FindSchool(schools, escolaId)) then Denied
    else if !CheckForm(f).Accepted? then Invalid(CheckForm(f))
    else Done
  }

  /**
   * `editar` and `excluir`: login, then the manager joined with its school (a manager
   * whose school is gone is not found), then the permission on that school, then (for
   * an edit) the form.
   */
  function ChangeCheck(schools: seq<School>, gestores: seq<Gestor>, actor: Option<Users.Actor>, id: int, f: Option<GestorForm>): (r: Outcome)
    ensures r == LoginRequired <==> actor.None?
    ensures r == NotFound <==> (actor.Some? &&
      (FindGestor(gestores, id).None? || FindSchool(schools, FindGestor(gestores, id).value.escolaId).None?))
    ensures r == Done || r == Denied || r.Invalid? ==>
      && FindGestor(gestores, id).Some? && FindSchool(schools, FindGestor(gestores, id).value.escolaId).Some?
      && var s := FindSchool(schools, FindGestor(gestores, id).value.escolaId).value;
      && (r == Denied <==> !MayManage(actor, Some(s)))
      && (r == Done <==> MayManage(actor, Some(s)) && (f.Some? ==> CheckForm(f.value).Accepted?))
    ensures r.Invalid? ==> f.Some? && r.check == CheckForm(f.value) && !r.check.Accepted?
  {
    if actor.None? then LoginRequired
    else match FindGestor(gestores, id)
      case None => NotFound
      case Some(g) =>
        match FindSchool(schools, g.escolaId)
        case None => NotFound
        case Some(s) =>
          var stub := School(g.escolaId, s.usuarioId);
          if !MayManage(actor, Some(stub)) then Denied
          else if f.Some? && !CheckForm(f.value).Accepted? then Invalid(CheckForm(f.value))
          else Done
  }

  predicate UniqueIds(gestores: seq<Gestor>) {
    forall i, j :: 0 <= i < j < |gestores| ==> gestores[i].id != gestores[j].id
  }

  /** `UPDATE gestores_escolares SET ... WHERE id = %s`. */
  function Rewrite(gestores: seq<Gestor>, id: int, d: GestorData): seq<Gestor>
  {
    seq(|gestores|, i requires 0 <= i < |gestores| => if gestores[i].id == id then gestores[i].(data := d) else gestores[i])
  }

  /** `DELETE FROM gestores_escolares WHERE id = %s`. */
  function Drop(gestores: seq<Gestor>, id: int): (r: seq<Gestor>)
    ensures forall g :: g in r <==> g in gestores && g.id != id
  {
    Filter(gestores, (g: Gestor) => g.id != id)
  }

  /** `DELETE FROM gestores_escolares WHERE escola_id = %s`. */
  function DropSchool(gestores: seq<Gestor>, escolaId: int): (r: seq<Gestor>)
    ensures forall g :: g in r <==> g in gestores && g.escolaId != escolaId
  {
    Filter(gestores, (g: Gestor) => g.escolaId != escolaId)
  }

  /** A subsequence of a table with unique ids has unique ids. */
  lemma FilterKeepsIds(gestores: seq<Gestor>, id: int, bySchool: bool)
    requires UniqueIds(gestores)
    ensures UniqueIds(if bySchool then DropSchool(gestores, id) else Drop(gestores, id))
  {
    var key := (g: Gestor) => g.id;
    assert DistinctBy(gestores, key);
    if bySchool {
      FilterKeepsDistinct(gestores, (g: Gestor) => g.escolaId != id, key);
    } else {
      FilterKeepsDistinct(gestores, (g: Gestor) => g.id != id, key);
    }
  }

  /** The `gestores_escolares` table and its id sequence. */
  class GestorTable {
    var gestores: seq<Gestor>
    var nextId: int

    ghost predicate Valid()
      reads this
    {
      UniqueIds(gestores) && forall g :: g in gestores ==> g.id < nextId
    }

    constructor ()
      ensures Valid() && gestores == [] && nextId == 1
    {
      gestores := [];
      nextId := 1;
    }

    /** One INSERT. */
    method Insert(escolaId: int, d: GestorData)
      requires Valid()
      modifies this
      ensures Valid()
      ensures gestores == old(gestores) + [Gestor(old(nextId), escolaId, d)] && nextId == old(nextId) + 1
    {
      forall i | 0 <= i < |gestores| ensures gestores[i].id < nextId {
        assert gestores[i] in gestores;
      }
      gestores := gestores + [Gestor(nextId, escolaId, d)];
      nextId := nextId + 1;
    }

    /** `excluir_por_escola`. */
    method DeleteSchool(escolaId: int)
      requires Valid()
      modifies this
      ensures Valid() && gestores == DropSchool(old(gestores), escolaId) && nextId == old(nextId)
    {
      FilterKeepsIds(gestores, escolaId, true);
      gestores := DropSchool(gestores, escolaId);
    }

    /** `cadastrar`; `ok` says whether the (unchecked) INSERT took effect. */
    method Cadastrar(schools: seq<School>, actor: Option<Users.Actor>, escolaId: int, f: GestorForm, ok: bool) returns (r: Outcome)
      requires Valid()
      modifies this
      ensures Valid() && r == CreateCheck(schools, actor, escolaId, f)
      ensures gestores == (if r == Done && ok then old(gestores) + [Gestor(old(nextId), escolaId, Collect(f))] else old(gestores))
    {
      r := CreateCheck(schools, actor, escolaId, f);
      if r == Done && ok {
        Insert(escolaId, Collect(f));
      }
    }

    /** `editar`. */
    method Editar(schools: seq<School>, actor: Option<Users.Actor>, id: int, f: GestorForm, ok: bool) returns (r: Outcome)
      requires Valid()
      modifies this
      ensures Valid() && nextId == old(nextId) && r == ChangeCheck(schools, old(gestores), actor, id, Some(f))
      ensures gestores == (if r == Done && ok then Rewrite(old(gestores), id, Collect(f)) else old(gestores))
    {
      r := ChangeCheck(schools, gestores, actor, id, Some(f));
      if r == Done && ok {
        var after := Rewrite(gestores, id, Collect(f));
        forall g | g in after ensures g.id < nextId {
          var i :| 0 <= i < |after| && after[i] == g;
          assert gestores[i] in gestores;
        }
        gestores := after;
      }
    }

    /** `excluir`. */
    method Excluir(schools: seq<School>, actor: Option<Users.Actor>, id: int, ok: bool) returns (r: Outcome)
      requires Valid()
      modifies this
      ensures Valid() && nextId == old(nextId) && r == ChangeCheck(schools, old(gestores), actor, id, None)
      ensures gestores == (if r == Done && ok then Drop(old(gestores), id) else old(gestores))
    {
      r := ChangeCheck(schools, gestores, actor, id, None);
      if r == Done && ok {
        FilterKeepsIds(gestores, id, false);
        gestores := Drop(gestores, id);
      }
    }
  }

  /** Only someone who may manage the manager's school changes or removes it. */
  lemma ChangesNeedPermission(schools: seq<School>, gestores: seq<Gestor>, actor: Option<Users.Actor>, id: int, f: Option<GestorForm>)
    requires ChangeCheck(schools, gestores, actor, id, f) == Done
    ensures actor.Some? && FindGestor(gestores, id).Some?
    ensures var g := FindGestor(gestores, id).value;
      FindSchool(schools, g.escolaId).Some? && MayManage(actor, FindSchool(schools, g.escolaId))
    ensures actor.value.tipo == "escola" ==> FindSchool(schools, FindGestor(gestores, id).value.escolaId).value.usuarioId == actor.value.id
  {
  }
}
