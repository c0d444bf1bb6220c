/**
 * `modules/escolas/module.py`: linking a supplier to a school in
 * `homologacao_fornecedores` (reactivate or insert, and the status toggle), the
 * school edit with its ownership guard and the replacement of the school's managers
 * from the `gestores[<idx>][<field>]` form keys, and the school deletion blocked by
 * dependent rows.
 */
module Schools {
  import opened Wrappers
  import opened Strings
  import opened Validation
  import opened Dependencies
  import Users
  import Gestores
  import Tables

  /** A `homologacao_fornecedores` row. */
  datatype Link = Link(id: int, escolaId: int, fornecedorId: int, ativo: bool, observacoes: Option<string>)

  predicate Pair(l: Link, e: int, f: int) {
    l.escolaId == e && l.fornecedorId == f
  }

  /** `SELECT id ... WHERE escola_id = e AND fornecedor_id = f` read with `fetchone`: the first such row. */
  function FindLink(links: seq<Link>, e: int, f: int): (r: Option<nat>)
    ensures r.Some? ==> r.value < |links| && Pair(links[r.value], e, f)
    ensures r.Some? ==> forall j :: 0 <= j < r.value ==> !Pair(links[j], e, f)
    ensures r.None? <==> forall j :: 0 <= j < |links| ==> !Pair(links[j], e, f)
  {
    Tables.First(links, (l: Link) => Pair(l, e, f))
  }

  predicate UniqueIds(links: seq<Link>) {
    forall i, j :: 0 <= i < j < |links| ==> links[i].id != links[j].id
  }

  predicate UniquePairs(links: seq<Link>) {
    forall i, j :: 0 <= i < j < |links| ==> !(links[i].escolaId == links[j].escolaId && links[i].fornecedorId == links[j].fornecedorId)
  }

  /** The pair has an active row. */
  predicate Active(links: seq<Link>, e: int, f: int) {
    exists l :: l in links && Pair(l, e, f) && l.ativo
  }

  /** `UPDATE homologacao_fornecedores SET ativo = a WHERE id = id`. */
  function SetActive(links: seq<Link>, id: int, a: bool): seq<Link>
  {
    seq(|links|, i requires 0 <= i < |links| => if links[i].id == id then links[i].(ativo := a) else links[i])
  }

  /** Setting a flag keeps ids and pairs, so the id bound and the uniqueness of ids and of pairs survive. */
  lemma SetActiveKeepsKeys(links: seq<Link>, id: int, a: bool, bound: int)
    requires UniqueIds(links) && forall l :: l in links ==> l.id < bound
    ensures var r := SetActive(links, id, a);
      UniqueIds(r) && (forall l :: l in r ==> l.id < bound) && (UniquePairs(links) ==> UniquePairs(r))
  {
    var r := SetActive(links, id, a);
    forall i | 0 <= i < |r|
      ensures r[i].id == links[i].id && Pair(r[i], links[i].escolaId, links[i].fornecedorId) && r[i].id < bound
    {
      assert links[i] in links;
    }
  }

  /**
   * The row `existe` names: the pair's first row when the SELECT succeeds (`selectOk`);
   * a failed SELECT returns None, which the handler reads as "no row".
   */
  function Existing(links: seq<Link>, e: int, f: int, selectOk: bool): (r: Option<nat>)
    ensures r.Some? <==> selectOk && FindLink(links, e, f).Some?
    ensures r.Some? ==> r == FindLink(links, e, f)
  {
    if selectOk then FindLink(links, e, f) else None
  }

  /**
   * `homologar_fornecedor` on the table, with the INSERT committed: reactivate the row
   * `existe` names (`updateOk`: the UPDATE went through), or insert the pair active
   * (`insertOk`: the INSERT returned its id).
   */
  function Homologate(links: seq<Link>, newId: int, e: int, f: int, obs: Option<string>, selectOk: bool, updateOk: bool, insertOk: bool): seq<Link> {
    match Existing(links, e, f, selectOk)
    case Some(k) => if updateOk then SetActive(links, links[k].id, true) else links
    case None => if insertOk then links + [Link(newId, e, f, true, obs)] else links
  }

  /**
   * `homologar_fornecedor` on the table as written: the reactivation is committed, but
   * the INSERT runs without `commit=True`, so closing the connection rolls it back.
   */
  function HomologateAsWritten(links: seq<Link>, e: int, f: int, selectOk: bool, updateOk: bool): seq<Link> {
    match Existing(links, e, f, selectOk)
    case Some(k) => if updateOk then SetActive(links, links[k].id, true) else links
    case None => links
  }

  /**
   * As written, a new pair reported as "Fornecedor homologado com sucesso!" (the INSERT
   * returned its id) leaves the table as it was: the pair is still not active. The
   * committed version makes it active.
   */
  lemma InsertNotCommitted(links: seq<Link>, newId: int, e: int, f: int, obs: Option<string>)
    requires forall l :: l in links ==> !Pair(l, e, f)
    ensures HomologateAsWritten(links, e, f, true, true) == links
    ensures !Active(HomologateAsWritten(links, e, f, true, true), e, f)
    ensures Active(Homologate(links, newId, e, f, obs, true, true, true), e, f)
  {
    assert FindLink(links, e, f).None? by {
      forall j | 0 <= j < |links| ensures !Pair(links[j], e, f) {
        assert links[j] in links;
      }
    }
    var r := Homologate(links, newId, e, f, obs, true, true, true);
    assert r[|links|] == Link(newId, e, f, true, obs);
  }

  /**
   * The pair `existe` finds is set active with no row added (when the UPDATE goes
   * through; otherwise nothing changes); a pair without a row, or one the failed SELECT
   * hid, is appended active when its INSERT succeeds. No other row changes.
   */
  lemma HomologateActivates(links: seq<Link>, newId: int, e: int, f: int, obs: Option<string>, selectOk: bool, updateOk: bool, insertOk: bool)
    requires UniqueIds(links)
    ensures var r := Homologate(links, newId, e, f, obs, selectOk, updateOk, insertOk);
      && (selectOk && FindLink(links, e, f).Some? && updateOk ==> |r| == |links| && Active(r, e, f))
      && (selectOk && FindLink(links, e, f).Some? && !updateOk ==> r == links)
      && ((!selectOk || FindLink(links, e, f).None?) && insertOk ==> r == links + [Link(newId, e, f, true, obs)] && Active(r, e, f))
      && ((!selectOk || FindLink(links, e, f).None?) && !insertOk ==> r == links)
      && (forall l :: l in links && !Pair(l, e, f) ==> l in r)
  {
    var r := Homologate(links, newId, e, f, obs, selectOk, updateOk, insertOk);
    match Existing(links, e, f, selectOk)
    case Some(k) =>
      if updateOk {
        assert r[k] == links[k].(ativo := true);
        forall l | l in links && !Pair(l, e, f) ensures l in r {
          var i :| 0 <= i < |links| && links[i] == l;
          assert i != k;
          assert r[i] == l;
        }
      }
    case None =>
      if insertOk {
        assert r[|links|] == Link(newId, e, f, true, obs);
      }
  }

  /** When the SELECT answers, reactivating or inserting never gives a pair a second row. */
  lemma HomologateKeepsPairsUnique(links: seq<Link>, newId: int, e: int, f: int, obs: Option<string>, selectOk: bool, updateOk: bool, insertOk: bool)
    requires UniquePairs(links) && selectOk
    ensures UniquePairs(Homologate(links, newId, e, f, obs, selectOk, updateOk, insertOk))
  {
  }

  /**
   * A failed `existe` SELECT hides the pair's row, and the INSERT that follows gives the
   * pair a second row.
   */
  lemma FailedSelectDuplicatesPair(links: seq<Link>, newId: int, e: int, f: int, obs: Option<string>, updateOk: bool)
    requires FindLink(links, e, f).Some?
    ensures !UniquePairs(Homologate(links, newId, e, f, obs, false, updateOk, true))
  {
    var k := FindLink(links, e, f).value;
    var r := Homologate(links, newId, e, f, obs, false, updateOk, true);
    assert r[k] == links[k] && r[|links|] == Link(newId, e, f, true, obs);
  }

  /** `alterar_status_homologacao` on the table: flip the pair's row; a missing pair changes nothing. */
  function Toggle(links: seq<Link>, e: int, f: int): seq<Link> {
    match FindLink(links, e, f)
    case None => links
    case Some(k) => SetActive(links, links[k].id, !links[k].ativo)
  }

  /** Flipping keeps the pair columns, so the same row is found again. */
  lemma ToggleFindsSameRow(links: seq<Link>, e: int, f: int)
    requires FindLink(links, e, f).Some?
    ensures FindLink(Toggle(links, e, f), e, f) == FindLink(links, e, f)
  {
    var k := FindLink(links, e, f).value;
    var t := Toggle(links, e, f);
    forall j | 0 <= j < |links| ensures Pair(t[j], e, f) == Pair(links[j], e, f) {
    }
    assert Pair(t[k], e, f);
  }

  /** Two toggles restore the table; a toggle of a missing pair changes nothing. */
  lemma ToggleTwice(links: seq<Link>, e: int, f: int)
    requires UniqueIds(links)
    ensures Toggle(Toggle(links, e, f), e, f) == links
    ensures FindLink(links, e, f).None? ==> Toggle(links, e, f) == links
  {
    if FindLink(links, e, f).Some? {
      var k := FindLink(links, e, f).value;
      var t := Toggle(links, e, f);
      ToggleFindsSameRow(links, e, f);
      var tt := Toggle(t, e, f);
      assert t[k] == links[k].(ativo := !links[k].ativo);
      forall i | 0 <= i < |links| ensures tt[i] == links[i] {
        if i != k {
          assert links[i].id != links[k].id;
        }
      }
    }
  }

  /** A toggle changes only the pair's `ativo`, and flips it. */
  lemma ToggleFlips(links: seq<Link>, e: int, f: int)
    requires UniqueIds(links) && FindLink(links, e, f).Some?
    ensures var k := FindLink(links, e, f).value;
      var t := Toggle(links, e, f);
      |t| == |links| && t[k] == links[k].(ativo := !links[k].ativo) &&
      forall i :: 0 <= i < |links| && i != k ==> t[i] == links[i]
  {
    var k := FindLink(links, e, f).value;
    forall i | 0 <= i < |links| && i != k ensures links[i].id != links[k].id {
    }
  }

  // ---- the `gestores[<idx>][<field>]` form keys ----

  const PREFIX := "gestores["

  /** The submitted form as (key, value) pairs in submission order. */
  type Form = seq<(string, string)>

  predicate HasPrefix(k: string) {
    |k| >= |PREFIX| && k[..|PREFIX|] == PREFIX
  }

  /** `form.get(key, '')`: the first value submitted under the key. */
  function Get(form: Form, key: string): (r: string)
    ensures r != "" ==> exists i :: 0 <= i < |form| && form[i] == (key, r)
  {
    if form == [] then "" else if form[0].0 == key then form[0].1 else Get(form[1..], key)
  }

  /** `form.get` gives the value at the key's first position, and "" when the key is absent. */
  lemma {:induction false} GetFirst(form: Form, key: string)
    ensures (forall i :: 0 <= i < |form| ==> form[i].0 != key) ==> Get(form, key) == ""
    ensures forall i :: 0 <= i < |form| && form[i].0 == key && (forall j :: 0 <= j < i ==> form[j].0 != key) ==>
      Get(form, key) == form[i].1
    decreases |form|
  {
    if form != [] {
      GetFirst(form[1..], key);
      forall i | 0 < i < |form| && form[i].0 == key && (forall j :: 0 <= j < i ==> form[j].0 != key)
        ensures Get(form, key) == form[i].1
      {
        assert form[0].0 != key;
        assert form[1..][i - 1] == form[i];
        forall j | 0 <= j < i - 1 ensures form[1..][j].0 != key {
          assert form[1..][j] == form[j + 1];
        }
      }
      if forall i :: 0 <= i < |form| ==> form[i].0 != key {
        forall i | 0 <= i < |form| - 1 ensures form[1..][i].0 != key {
          assert form[1..][i] == form[i + 1];
        }
      }
    }
  }

  /** `s.split(c, 1)[0]`: the text before the first `c`, or all of `s`. */
  function Before(s: string, c: char): (r: string)
    ensures c !in r && |r| <= |s| && r == s[..|r|]
    ensures |r| < |s| ==> s[|r|] == c
  {
    if s == [] || s[0] == c then [] else [s[0]] + Before(s[1..], c)
  }

  /**
   * `k.split('[', 1)[1].split(']', 1)[0]`: `gestores` holds no `[`, so the first `[` is
   * the prefix's, and the index is what follows it up to the next `]` (or to the end).
   */
  function IndexOf(k: string): (idx: string)
    requires HasPrefix(k)
    ensures ']' !in idx
    ensures exists rest :: k == PREFIX + idx + rest && (rest == [] || rest[0] == ']')
  {
    var tail := k[|PREFIX|..];
    var idx := Before(tail, ']');
    assert k == PREFIX + idx + tail[|idx|..];
    idx
  }

  /** The set `indices` the first loop builds. */
  function Indices(form: Form): set<string> {
    if form == [] then {}
    else
      var k := form[|form| - 1].0;
      Indices(form[..|form| - 1]) + (if HasPrefix(k) then {IndexOf(k)} else {})
  }

  /** An index is collected iff some submitted key with the prefix yields it. */
  lemma {:induction false} IndicesMeaning(form: Form)
    ensures forall idx :: idx in Indices(form) <==> exists i :: 0 <= i < |form| && HasPrefix(form[i].0) && IndexOf(form[i].0) == idx
  {
    if form != [] {
      var init := form[..|form| - 1];
      IndicesMeaning(init);
      forall idx | idx in Indices(form)
        ensures exists i :: 0 <= i < |form| && HasPrefix(form[i].0) && IndexOf(form[i].0) == idx
      {
        if idx in Indices(init) {
          var i :| 0 <= i < |init| && HasPrefix(init[i].0) && IndexOf(init[i].0) == idx;
          assert form[i] == init[i];
        }
      }
      forall idx | exists i :: 0 <= i < |form| && HasPrefix(form[i].0) && IndexOf(form[i].0) == idx
        ensures idx in Indices(form)
      {
        var i :| 0 <= i < |form| && HasPrefix(form[i].0) && IndexOf(form[i].0) == idx;
        if i < |init| {
          assert form[i] == init[i];
        }
      }
    }
  }

  /** `form_data.get(f'gestores[{idx}][{name}]', '')`. */
  function Field(form: Form, idx: string, name: string): string {
    Get(form, PREFIX + idx + "][" + name + "]")
  }

  /** An index whose `nome` is blank is skipped. */
  predicate Kept(form: Form, idx: string) {
    Strip(Field(form, idx, "nome")) != ""
  }

  /** The row inserted for an index, read exactly as the manager form is read. */
  function Entry(form: Form, idx: string): (d: Gestores.GestorData)
    ensures d.nome == Strip(Field(form, idx, "nome"))
    ensures d.email == Gestores.OrNone(Lower(Strip(Field(form, idx, "email"))))
    ensures d.telefone == Gestores.OrNone(Strip(Field(form, idx, "telefone")))
    ensures d.cpf == Gestores.OrNone(Strip(Field(form, idx, "cpf")))
    ensures d.tipoGestor == Gestores.OrNone(Strip(Field(form, idx, "tipo_gestor")))
  {
    Gestores.Collect(Gestores.GestorForm(Field(form, idx, "nome"), Field(form, idx, "email"),
      Field(form, idx, "telefone"), Field(form, idx, "cpf"), Field(form, idx, "tipo_gestor")))
  }

  /** The rows `ds` get when inserted one after the other from id `start`. */
  function Rows(start: int, escolaId: int, ds: seq<Gestores.GestorData>): seq<Gestores.Gestor> {
    seq(|ds|, i requires 0 <= i < |ds| => Gestores.Gestor(start + i, escolaId, ds[i]))
  }

  /** The data of the indices in the order they were processed. */
  function Entries(form: Form, order: seq<string>): seq<Gestores.GestorData> {
    seq(|order|, i requires 0 <= i < |order| => Entry(form, order[i]))
  }

  predicate Distinct(s: seq<string>) {
    forall i, j :: 0 <= i < j < |s| ==> s[i] != s[j]
  }

  lemma RowsAppend(start: int, escolaId: int, form: Form, order: seq<string>, idx: string)
    ensures Rows(start, escolaId, Entries(form, order + [idx])) ==
      Rows(start, escolaId, Entries(form, order)) + [Gestores.Gestor(start + |order|, escolaId, Entry(form, idx))]
  {
  }

  lemma DistinctAppend(s: seq<string>, x: string)
    requires Distinct(s) && x !in s
    ensures Distinct(s + [x])
  {
  }

  /** The first loop of `_processar_gestores`. */
  method CollectIndices(form: Form) returns (indices: set<string>)
    ensures indices == Indices(form)
    ensures forall idx :: idx in indices ==> exists i :: 0 <= i < |form| && HasPrefix(form[i].0) && IndexOf(form[i].0) == idx
  {
    indices := {};
    for i := 0 to |form|
      invariant indices == Indices(form[..i])
    {
      assert form[..i + 1][..i] == form[..i];
      var k := form[i].0;
      if HasPrefix(k) {
        indices := indices + {IndexOf(k)};
      }
    }
    assert form[..|form|] == form;
    IndicesMeaning(form);
  }

  /**
   * `_processar_gestores`: every distinct index with a non-blank `nome` is inserted
   * exactly once, in the (unspecified) order Python iterates the set, which `order`
   * reports; nothing is validated beyond the blank name.
   */
  method ProcessGestores(form: Form, escolaId: int, table: Gestores.GestorTable) returns (order: seq<string>)
    requires table.Valid()
    modifies table
    ensures table.Valid() && Distinct(order)
    ensures forall idx :: idx in order <==> idx in Indices(form) && Kept(form, idx)
    ensures table.gestores == old(table.gestores) + Rows(old(table.nextId), escolaId, Entries(form, order))
    ensures table.nextId == old(table.nextId) + |order|
  {
    var indices := CollectIndices(form);
    order := InsertKept(form, indices, escolaId, table);
  }

  /** The second loop of `_processar_gestores`: one INSERT per index with a non-blank `nome`. */
  method InsertKept(form: Form, indices: set<string>, escolaId: int, table: Gestores.GestorTable) returns (order: seq<string>)
    requires table.Valid()
    modifies table
    ensures table.Valid() && Distinct(order)
    ensures forall idx :: idx in order <==> idx in indices && Kept(form, idx)
    ensures table.gestores == old(table.gestores) + Rows(old(table.nextId), escolaId, Entries(form, order))
    ensures table.nextId == old(table.nextId) + |order|
  {
    var remaining := indices;
    ghost var g0, n0 := table.gestores, table.nextId;
    ghost var added: seq<Gestores.Gestor> := [];
    order := [];
    while remaining != {}
      invariant remaining <= indices && Distinct(order) && table.Valid()
      invariant forall idx :: idx in order <==> idx in indices - remaining && Kept(form, idx)
      invariant added == Rows(n0, escolaId, Entries(form, order))
      invariant table.gestores == g0 + added && table.nextId == n0 + |order|
      decreases |remaining|
    {
      var idx :| idx in remaining;
      remaining := remaining - {idx};
      if Strip(Field(form, idx, "nome")) != "" {
        var g := Gestores.Gestor(table.nextId, escolaId, Entry(form, idx));
        table.Insert(escolaId, Entry(form, idx));
        RowsAppend(n0, escolaId, form, order, idx);
        assert g0 + (added + [g]) == (g0 + added) + [g];
        added := added + [g];
        DistinctAppend(order, idx);
        order := order + [idx];
      }
    }
  }

  // ---- the school edit and delete ----

  /** The edit form's school and account fields. */
  datatype SchoolForm = SchoolForm(nome: string, email: string, telefone: string, cnpj: string,
                                   razaoSocial: string, cep: string, ativo: Option<string>)

  datatype EditOutcome =
    | EditDenied        // "Acesso negado."
    | EditNotFound      // "Escola não encontrada."
    | NotOwner          // "Você só pode editar suas próprias informações."
    | EditBadPhone      // "Telefone inválido."
    | EditBadCep        // "CEP inválido."
    | EditMissing       // "Preencha todos os campos obrigatórios."
    | Save(ativo: Option<bool>)

  /** The `tipo`s `verificar_permissao(['administrador', 'escola'])` lets through. */
  predicate MayEdit(actor: Option<Users.Actor>) {
    actor.Some? && (actor.value.tipo == Users.ADMIN || actor.value.tipo == "escola")
  }

  /** The session may edit, the school exists, and a school account owns it. */
  predicate Editable(schools: seq<Gestores.School>, actor: Option<Users.Actor>, id: int) {
    MayEdit(actor) && Gestores.FindSchool(schools, id).Some? &&
    (actor.value.tipo == "escola" ==> Gestores.FindSchool(schools, id).value.usuarioId == actor.value.id)
  }

  /**
   * `editar`'s checks. A school account edits only its own school; the phone and CEP
   * are checked when given; only an admin's form sets `ativo` (`Save.ativo`).
   */
  function EditCheck(schools: seq<Gestores.School>, actor: Option<Users.Actor>, id: int, f: SchoolForm): (r: EditOutcome)
    ensures r == EditDenied <==> !MayEdit(actor)
    ensures r == EditNotFound <==> MayEdit(actor) && Gestores.FindSchool(schools, id).None?
    ensures r == NotOwner <==> (MayEdit(actor) && Gestores.FindSchool(schools, id).Some? &&
      actor.value.tipo == "escola" && Gestores.FindSchool(schools, id).value.usuarioId != actor.value.id)
    ensures r == EditBadPhone <==> (Editable(schools, actor, id) && Strip(f.telefone) != "" && !ValidPhone(Strip(f.telefone)))
    ensures r == EditBadCep <==>
      (Editable(schools, actor, id) && ValidPhone(Strip(f.telefone)) && Strip(f.cep) != "" && !ValidCep(Strip(f.cep)))
    ensures r == EditMissing <==> (Editable(schools, actor, id) && ValidPhone(Strip(f.telefone)) && ValidCep(Strip(f.cep)) &&
      (Strip(f.nome) == "" || Strip(f.email) == "" || Strip(f.cnpj) == "" || Strip(f.razaoSocial) == ""))
    ensures r.Save? <==> (Editable(schools, actor, id) && ValidPhone(Strip(f.telefone)) && ValidCep(Strip(f.cep)) &&
      Strip(f.nome) != "" && Strip(f.email) != "" && Strip(f.cnpj) != "" && Strip(f.razaoSocial) != "")
    ensures r.Save? ==> (r.ativo.Some? <==> actor.value.tipo == Users.ADMIN)
    ensures r.Save? && r.ativo.Some? ==> (r.ativo.value <==> f.ativo == Some("on"))
  {
    if !MayEdit(actor) then EditDenied
    else match Gestores.FindSchool(schools, id)
      case None => EditNotFound
      case Some(s) =>
        if actor.value.tipo == "escola" && s.usuarioId != actor.value.id then NotOwner
        else if Strip(f.telefone) != "" && !ValidPhone(Strip(f.telefone)) then EditBadPhone
        else if Strip(f.cep) != "" && !ValidCep(Strip(f.cep)) then EditBadCep
        else if Strip(f.nome) == "" || Lower(Strip(f.email)) == "" || Strip(f.cnpj) == "" || Strip(f.razaoSocial) == "" then EditMissing
        else Save(if actor.value.tipo == Users.ADMIN then Some(f.ativo == Some("on")) else None)
  }

  /** After the replacement, the school's managers are exactly the new rows, and other schools' managers are untouched. */
  lemma ReplacementMeaning(old_: seq<Gestores.Gestor>, escolaId: int, fresh_: seq<Gestores.Gestor>)
    requires forall g :: g in fresh_ ==> g.escolaId == escolaId
    ensures var r := Gestores.DropSchool(old_, escolaId) + fresh_;
      && (forall g :: g in r && g.escolaId == escolaId <==> g in fresh_)
      && (forall g: Gestores.Gestor :: g.escolaId != escolaId ==> (g in r <==> g in old_))
  {
  }

  /** The checks `excluir` runs, in order. */
  const SCHOOL_CHECKS := [
    Check("homologacao_fornecedores", "escola_id", "fornecedores homologados"),
    Check("produtos", "escola_id", "produtos"),
    Check("pedidos", "escola_id", "pedidos")
  ]

  /** The row of each check's count query. */
  function Results(countOf: (string, string) -> CountRow): (r: seq<CountRow>)
    ensures |r| == |SCHOOL_CHECKS|
    ensures forall i :: 0 <= i < |SCHOOL_CHECKS| ==> r[i] == countOf(SCHOOL_CHECKS[i].tabela, SCHOOL_CHECKS[i].campo)
  {
    seq(|SCHOOL_CHECKS|, i requires 0 <= i < |SCHOOL_CHECKS| => countOf(SCHOOL_CHECKS[i].tabela, SCHOOL_CHECKS[i].campo))
  }

  datatype DeleteOutcome =
    | DeleteDenied                      // "Acesso negado."
    | DeleteNotFound                    // "Escola não encontrada."
    | Blocked(bloqueios: seq<string>)   // "Não é possível excluir esta escola. ..."
    | Remove

  /** `excluir`: admin only, an existing school, and no dependent row in any of the three tables. */
  function DeleteCheck(schools: seq<Gestores.School>, admin: bool, id: int, countOf: (string, string) -> CountRow): (r: DeleteOutcome)
    ensures r == DeleteDenied <==> !admin
    ensures r == DeleteNotFound <==> admin && Gestores.FindSchool(schools, id).None?
    ensures r.Blocked? ==> r.bloqueios == BlockMessages(SCHOOL_CHECKS, Results(countOf)) && r.bloqueios != []
    ensures r == Remove ==> admin && Gestores.FindSchool(schools, id).Some? && BlockMessages(SCHOOL_CHECKS, Results(countOf)) == []
  {
    if !admin then DeleteDenied
    else if Gestores.FindSchool(schools, id).None? then DeleteNotFound
    else
      var bloqueios := BlockMessages(SCHOOL_CHECKS, Results(countOf));
      if bloqueios != [] then Blocked(bloqueios) else Remove
  }

  /** A school is removed iff an admin asks, it exists, and no check counts a dependent row. */
  lemma DeleteNeedsNoDependents(schools: seq<Gestores.School>, admin: bool, id: int, countOf: (string, string) -> CountRow)
    ensures DeleteCheck(schools, admin, id, countOf) == Remove <==>
      admin && Gestores.FindSchool(schools, id).Some? &&
      forall c :: c in SCHOOL_CHECKS ==> !Blocks(countOf(c.tabela, c.campo))
    ensures forall c :: c in SCHOOL_CHECKS && admin && Gestores.FindSchool(schools, id).Some? && Blocks(countOf(c.tabela, c.campo)) ==>
      DeleteCheck(schools, admin, id, countOf).Blocked? && Message(c) in DeleteCheck(schools, admin, id, countOf).bloqueios
  {
    var rs := Results(countOf);
    BlockMessagesMeaning(SCHOOL_CHECKS, rs);
    forall c | c in SCHOOL_CHECKS
      ensures exists i :: 0 <= i < |SCHOOL_CHECKS| && SCHOOL_CHECKS[i] == c && rs[i] == countOf(c.tabela, c.campo)
    {
      var i :| 0 <= i < |SCHOOL_CHECKS| && SCHOOL_CHECKS[i] == c;
    }
  }

  /** The school delete (`excluir` of the repository): every `escolas` row with the id goes. */
  function DropSchoolRow(schools: seq<Gestores.School>, id: int): (r: seq<Gestores.School>)
    ensures forall s :: s in r <==> s in schools && s.id != id
  {
    Tables.Filter(schools, (s: Gestores.School) => s.id != id)
  }

  datatype HomologateOutcome =
    | HomologateDenied   // "Acesso negado."
    | SchoolNotFound     // "Escola não encontrada."
    | NoSupplier         // "Selecione um fornecedor."
    | Reactivated        // "Homologação reativada com sucesso."
    | Inserted           // "Fornecedor homologado com sucesso!"
    | NotInserted        // the INSERT returned no row: no message

  datatype ToggleOutcome =
    | ToggleDenied       // "Acesso negado."
    | LinkNotFound       // "Homologação não encontrada."
    | Toggled(ativo: bool)

  /** The tables the school handlers write: `escolas`, `homologacao_fornecedores` and, through `gestores`, `gestores_escolares`. */
  class SchoolRegistry {
    var schools: seq<Gestores.School>
    var links: seq<Link>
    var nextLinkId: int
    const gestores: Gestores.GestorTable

    ghost predicate Valid()
      reads this, gestores
    {
      UniqueIds(links) && (forall l :: l in links ==> l.id < nextLinkId) && gestores.Valid()
    }

    constructor (schools0: seq<Gestores.School>, gestores0: Gestores.GestorTable)
      requires gestores0.Valid()
      ensures Valid() && schools == schools0 && links == [] && nextLinkId == 1 && gestores == gestores0
    {
      schools := schools0;
      links := [];
      nextLinkId := 1;
      gestores := gestores0;
    }

    /**
     * `homologar_fornecedor` (POST). `admin`: the permission check let an admin through;
     * `fornecedorId` is `None` when the field is empty; `selectOk`: the `existe` SELECT
     * answered; `updateOk`: the reactivation UPDATE went through; `insertOk`: the INSERT
     * returned its id. The INSERT is taken as committed (see `HomologateAsWritten`).
     */
    method Homologar(admin: bool, escolaId: int, fornecedorId: Option<int>, observacoes: string, selectOk: bool, updateOk: bool, insertOk: bool)
      returns (r: HomologateOutcome)
      requires Valid()
      modifies this
      ensures Valid() && schools == old(schools)
      ensures r == HomologateDenied <==> !admin
      ensures r == SchoolNotFound <==> admin && Gestores.FindSchool(schools, escolaId).None?
      ensures r == NoSupplier <==> admin && Gestores.FindSchool(schools, escolaId).Some? && fornecedorId.None?
      ensures r == Reactivated || r == Inserted || r == NotInserted ==>
        fornecedorId.Some? &&
        links == Homologate(old(links), old(nextLinkId), escolaId, fornecedorId.value, Gestores.OrNone(Strip(observacoes)), selectOk, updateOk, insertOk)
      ensures r == Reactivated <==> (fornecedorId.Some? && admin && Gestores.FindSchool(schools, escolaId).Some? &&
        Existing(old(links), escolaId, fornecedorId.value, selectOk).Some?)
      ensures r == Inserted <==> (fornecedorId.Some? && admin && Gestores.FindSchool(schools, escolaId).Some? &&
        Existing(old(links), escolaId, fornecedorId.value, selectOk).None? && insertOk)
      ensures r == Inserted ==> Active(links, escolaId, fornecedorId.value)
      ensures r == Reactivated && updateOk ==> Active(links, escolaId, fornecedorId.value)
      ensures r == Reactivated && !updateOk ==> links == old(links)
      ensures selectOk && UniquePairs(old(links)) ==> UniquePairs(links)
      ensures r !in {Reactivated, Inserted} ==> links == old(links)
    {
      if !admin {
        return HomologateDenied;
      }
      if Gestores.FindSchool(schools, escolaId).None? {
        return SchoolNotFound;
      }
      if fornecedorId.None? {
        return NoSupplier;
      }
      var f := fornecedorId.value;
      var obs := Gestores.OrNone(Strip(observacoes));
      HomologateActivates(links, nextLinkId, escolaId, f, obs, selectOk, updateOk, insertOk);
      if selectOk && UniquePairs(links) {
        HomologateKeepsPairsUnique(links, nextLinkId, escolaId, f, obs, selectOk, updateOk, insertOk);
      }
      var after := Homologate(links, nextLinkId, escolaId, f, obs, selectOk, updateOk, insertOk);
      match Existing(links, escolaId, f, selectOk) {
        case Some(k) =>
          r := Reactivated;
          if updateOk {
            SetActiveKeepsKeys(links, links[k].id, true, nextLinkId);
          }
          links := after;
        case None =>
          if insertOk {
            r := Inserted;
            links := after;
            nextLinkId := nextLinkId + 1;
          } else {
            r := NotInserted;
          }
      }
    }

    /**
     * `alterar_status_homologacao`: flip the pair's `ativo`. `selectOk`: the SELECT of the
     * row answered (a failed one reads as "not found"); `updateOk`: the UPDATE went
     * through. The status message is shown either way.
     */
    method AlterarStatus(admin: bool, escolaId: int, fornecedorId: int, selectOk: bool, updateOk: bool) returns (r: ToggleOutcome)
      requires Valid()
      modifies this
      ensures Valid() && schools == old(schools) && nextLinkId == old(nextLinkId)
      ensures UniquePairs(old(links)) ==> UniquePairs(links)
      ensures r == ToggleDenied <==> !admin
      ensures r == LinkNotFound <==> admin && Existing(old(links), escolaId, fornecedorId, selectOk).None?
      ensures links == if r.Toggled? && updateOk then Toggle(old(links), escolaId, fornecedorId) else old(links)
      ensures r.Toggled? ==> var k := FindLink(old(links), escolaId, fornecedorId).value;
        r.ativo == !old(links)[k].ativo && (updateOk ==> links[k].ativo == r.ativo)
    {
      if !admin {
        return ToggleDenied;
      }
      match Existing(links, escolaId, fornecedorId, selectOk) {
        case None =>
          r := LinkNotFound;
        case Some(k) =>
          r := Toggled(!links[k].ativo);
          if updateOk {
            var after := Toggle(links, escolaId, fornecedorId);
            SetActiveKeepsKeys(links, links[k].id, !links[k].ativo, nextLinkId);
            links := after;
          }
      }
    }

    /**
     * `editar` (POST): on success the school's managers are deleted and the form's
     * `gestores[...]` entries inserted in their place
     * (`cleared`: the DELETE of the old managers went through; its result is not checked). The user and school columns
     * the handler also updates are not part of this model.
     */
    method Editar(actor: Option<Users.Actor>, id: int, f: SchoolForm, form: Form, cleared: bool) returns (r: EditOutcome, order: seq<string>)
      requires Valid()
      modifies gestores
      ensures Valid() && r == EditCheck(schools, actor, id, f)
      ensures r.Save? ==>
        && Distinct(order)
        && (forall idx :: idx in order <==> idx in Indices(form) && Kept(form, idx))
        && gestores.gestores == (if cleared then Gestores.DropSchool(old(gestores.gestores), id) else old(gestores.gestores))
                                + Rows(old(gestores.nextId), id, Entries(form, order))
      ensures !r.Save? ==> gestores.gestores == old(gestores.gestores) && gestores.nextId == old(gestores.nextId)
    {
      r := EditCheck(schools, actor, id, f);
      order := [];
      if r.Save? {
        if cleared {
          gestores.DeleteSchool(id);
        }
        order := ProcessGestores(form, id, gestores);
      }
    }

    /**
     * `excluir`: the school row goes only when nothing depends on it (`deleted`: the
     * DELETE went through; the handler redirects either way).
     */
    method Excluir(admin: bool, id: int, countOf: (string, string) -> CountRow, deleted: bool) returns (r: DeleteOutcome)
      requires Valid()
      modifies this
      ensures Valid() && links == old(links) && nextLinkId == old(nextLinkId)
      ensures r == DeleteCheck(old(schools), admin, id, countOf)
      ensures schools == if r == Remove && deleted then DropSchoolRow(old(schools), id) else old(schools)
    {
      if !admin {
        return DeleteDenied;
      }
      if Gestores.FindSchool(schools, id).None? {
        return DeleteNotFound;
      }
      var bloqueios := VerifyDependencies(SCHOOL_CHECKS, Results(countOf));
      if bloqueios != [] {
        return Blocked(bloqueios);
      }
      r := Remove;
      if deleted {
        schools := DropSchoolRow(schools, id);
      }
    }
  }
}
