/**
 * The `usuarios` table as the authentication code reads it: one email may own
 * several accounts, one per `tipo` (administrador, escola, fornecedor, responsavel).
 */
module Accounts {
  import opened Wrappers
  import opened Strings

  datatype User = User(id: int, nome: string, email: string, telefone: string, tipo: string, ativo: bool)

  /** `WHERE email = %s AND ativo = TRUE`, in table order. */
  function ActiveWithEmail(users: seq<User>, email: string): (r: seq<User>)
    ensures forall u :: u in r <==> u in users && u.email == email && u.ativo
    ensures |r| <= |users|
  {
    if users == [] then []
    else
      var rest := ActiveWithEmail(users[1..], email);
      if users[0].email == email && users[0].ativo then [users[0]] + rest else rest
  }

  predicate SortedByTipo(us: seq<User>) {
    forall i :: 0 < i < |us| ==> LessEq(us[i - 1].tipo, us[i].tipo)
  }

  function InsertByTipo(u: User, us: seq<User>): (r: seq<User>)
    requires SortedByTipo(us)
    ensures SortedByTipo(r)
    ensures multiset(r) == multiset(us) + multiset{u}
    ensures r != [] && (r[0] == u || (us != [] && r[0] == us[0]))
  {
    if us == [] then [u]
    else if LessEq(u.tipo, us[0].tipo) then [u] + us
    else
      LessEqTotal(u.tipo, us[0].tipo);
      var rest := InsertByTipo(u, us[1..]);
      assert us == [us[0]] + us[1..];
      [us[0]] + rest
  }

  /** `ORDER BY tipo`. */
  function SortByTipo(us: seq<User>): (r: seq<User>)
    ensures SortedByTipo(r)
    ensures multiset(r) == multiset(us)
  {
    if us == [] then []
    else
      assert us == [us[0]] + us[1..];
      InsertByTipo(us[0], SortByTipo(us[1..]))
  }

  /** `SELECT ... FROM usuarios WHERE email = %s AND ativo = TRUE ORDER BY tipo`. */
  function ActiveAccounts(users: seq<User>, email: string): (r: seq<User>)
    ensures SortedByTipo(r)
    ensures forall u :: u in r <==> u in users && u.email == email && u.ativo
  {
    var r := SortByTipo(ActiveWithEmail(users, email));
    assert forall u :: u in r <==> u in multiset(r);
    r
  }

  function Tipos(us: seq<User>): (ts: seq<string>)
    ensures |ts| == |us| && forall i :: 0 <= i < |us| ==> ts[i] == us[i].tipo
  {
    seq(|us|, i requires 0 <= i < |us| => us[i].tipo)
  }

  /** How an email plus an optional chosen tipo resolves to one account. */
  datatype Choice = NoAccount | SelectTipo(tipos: seq<string>) | InvalidTipo | Chosen(user: User)

  /** `next(u for u in accounts if u['tipo'] == tipo)`. */
  function WithTipo(accounts: seq<User>, tipo: string): (r: Option<User>)
    ensures r.Some? ==> r.value in accounts && r.value.tipo == tipo
    ensures r.None? <==> forall u :: u in accounts ==> u.tipo != tipo
  {
    if accounts == [] then None
    else if accounts[0].tipo == tipo then Some(accounts[0])
    else WithTipo(accounts[1..], tipo)
  }

  /**
   * The rule of `solicitar_codigo`: no account is an error; several accounts and no
   * tipo ask for a choice; a single account is taken whatever tipo says; otherwise
   * the tipo must name one of the accounts. An empty tipo stands for "not given".
   */
  function ChooseForCode(accounts: seq<User>, tipo: string): (r: Choice)
    ensures r.NoAccount? <==> accounts == []
    ensures r.SelectTipo? <==> |accounts| > 1 && tipo == ""
    ensures r.SelectTipo? ==> r.tipos == Tipos(accounts)
    ensures r.InvalidTipo? <==> |accounts| > 1 && tipo != "" && forall u :: u in accounts ==> u.tipo != tipo
    ensures r.Chosen? ==> r.user in accounts
    ensures r.Chosen? && |accounts| == 1 ==> r.user == accounts[0]
    ensures r.Chosen? && |accounts| > 1 ==> r.user.tipo == tipo
  {
    if accounts == [] then NoAccount
    else if |accounts| > 1 && tipo == "" then SelectTipo(Tipos(accounts))
    else if |accounts| == 1 then Chosen(accounts[0])
    else match WithTipo(accounts, tipo)
      case None => InvalidTipo
      case Some(u) => Chosen(u)
  }

  /**
   * The rule of `webauthn_login`: as for codes, except that a given tipo must match
   * even when the email has a single account; with no tipo the first account is taken.
   */
  function ChooseForLogin(accounts: seq<User>, tipo: string): (r: Choice)
    ensures r.NoAccount? <==> accounts == []
    ensures r.SelectTipo? <==> |accounts| > 1 && tipo == ""
    ensures r.SelectTipo? ==> r.tipos == Tipos(accounts)
    ensures r.InvalidTipo? <==> accounts != [] && tipo != "" && forall u :: u in accounts ==> u.tipo != tipo
    ensures r.Chosen? ==> r.user in accounts
    ensures r.Chosen? && tipo == "" ==> r.user == accounts[0]
    ensures r.Chosen? && tipo != "" ==> r.user.tipo == tipo
  {
    if accounts == [] then NoAccount
    else if |accounts| > 1 && tipo == "" then SelectTipo(Tipos(accounts))
    else if tipo != "" then
      match WithTipo(accounts, tipo)
      case None => InvalidTipo
      case Some(u) => Chosen(u)
    else Chosen(accounts[0])
  }

  /** The two rules differ exactly on a single account and a tipo that does not name it. */
  lemma ChoiceRulesDiffer(accounts: seq<User>, tipo: string)
    ensures ChooseForCode(accounts, tipo) != ChooseForLogin(accounts, tipo) <==>
      |accounts| == 1 && tipo != "" && accounts[0].tipo != tipo
  {
    if |accounts| == 1 {
      assert forall u :: u in accounts ==> u == accounts[0];
    }
  }
}
