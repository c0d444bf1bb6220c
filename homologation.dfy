/**
 * `classes/Homologacao.php`: the PHP side's `homologacao` table, keyed by the pair
 * (escola_id, Fornecedor_id), and the queries over it and the `Fornecedor` table.
 */
module Homologation {
  import Tables

  /** A `Fornecedor` row: its id, name and whether it is active. */
  datatype Supplier = Supplier(id: int, nome: string, ativo: bool)

  /** The `homologacao` table: the `ativo` flag of each (escola_id, Fornecedor_id) pair that has a row. */
  type Links = map<(int, int), bool>

  /** `verificarHomologacao`'s query: the pair has a row with `ativo = 1`. */
  predicate Verified(links: Links, e: int, f: int) {
    (e, f) in links && links[(e, f)]
  }

  /** `INSERT ... ON DUPLICATE KEY UPDATE ativo = 1`: the pair's row exists afterwards and is active. */
  function Create(links: Links, e: int, f: int): (r: Links)
    ensures r.Keys == links.Keys + {(e, f)}
    ensures Verified(r, e, f)
    ensures forall p :: p in links && p != (e, f) ==> r[p] == links[p]
  {
    links[(e, f) := true]
  }

  /** `UPDATE homologacao SET ativo = 0 WHERE escola_id = e AND Fornecedor_id = f`. */
  function Remove(links: Links, e: int, f: int): (r: Links)
    ensures r.Keys == links.Keys
    ensures !Verified(r, e, f)
    ensures forall p :: p in links && p != (e, f) ==> r[p] == links[p]
  {
    if (e, f) in links then links[(e, f) := false] else links
  }

  /** Creating twice is creating once; a missing pair is not created by removing it. */
  lemma CreateIdempotent(links: Links, e: int, f: int)
    ensures Create(Create(links, e, f), e, f) == Create(links, e, f)
    ensures (e, f) !in links ==> Remove(links, e, f) == links
  {
  }

  /** Create and remove are each other's undo on the verified pairs, and leave every other pair's answer alone. */
  lemma CreateRemoveVerify(links: Links, e: int, f: int, e': int, f': int)
    ensures Verified(Create(Remove(links, e, f), e, f), e, f)
    ensures !Verified(Remove(Create(links, e, f), e, f), e, f)
    ensures (e', f') != (e, f) ==>
      Verified(Create(links, e, f), e', f') == Verified(links, e', f') &&
      Verified(Remove(links, e, f), e', f') == Verified(links, e', f')
  {
  }

  /** `listarFornecedoresDisponiveis(e)`: the active suppliers without an active link to e, in table order. */
  function Available(suppliers: seq<Supplier>, links: Links, e: int): (r: seq<Supplier>)
    ensures forall s :: s in r <==> s in suppliers && s.ativo && !Verified(links, e, s.id)
    ensures |r| <= |suppliers|
  {
    Tables.Filter(suppliers, (s: Supplier) => s.ativo && !Verified(links, e, s.id))
  }

  /** A listing row of `listarFornecedoresHomologados`: the supplier and the link's `ativo`. */
  datatype Listed = Listed(supplier: Supplier, ativo: bool)

  /** `listarFornecedoresHomologados(e)`: every supplier with a row for e, active or not, in table order. */
  function Homologated(suppliers: seq<Supplier>, links: Links, e: int): (r: seq<Listed>)
    ensures forall row :: row in r <==> row.supplier in suppliers && (e, row.supplier.id) in links && row.ativo == links[(e, row.supplier.id)]
  {
    if suppliers == [] then []
    else
      var s := suppliers[0];
      (if (e, s.id) in links then [Listed(s, links[(e, s.id)])] else []) + Homologated(suppliers[1..], links, e)
  }

  /**
   * The available list and the verified pairs are disjoint, and together with the
   * inactive suppliers they cover the table: an active supplier is either verified
   * for e or available to it.
   */
  lemma AvailableDisjoint(suppliers: seq<Supplier>, links: Links, e: int)
    ensures forall s :: s in Available(suppliers, links, e) ==> !Verified(links, e, s.id)
    ensures forall s :: s in suppliers && s.ativo ==> (Verified(links, e, s.id) <==> s !in Available(suppliers, links, e))
  {
  }

  /** A removed link still lists its supplier, now with `ativo` false, and makes an active supplier available again. */
  lemma RemovedStillListed(suppliers: seq<Supplier>, links: Links, e: int, s: Supplier)
    requires s in suppliers && (e, s.id) in links
    ensures Listed(s, false) in Homologated(suppliers, Remove(links, e, s.id), e)
    ensures s.ativo ==> s in Available(suppliers, Remove(links, e, s.id), e)
    ensures s !in Available(suppliers, Create(links, e, s.id), e)
  {
  }

  /** The `Homologacao` object over the `homologacao` table. */
  class HomologationTable {
    var links: Links

    constructor (links0: Links)
      ensures links == links0
    {
      links := links0;
    }

    /** `criar`; `ok` is the query's result, which is returned. */
    method Criar(e: int, f: int, ok: bool) returns (r: bool)
      modifies this
      ensures r == ok
      ensures links == if ok then Create(old(links), e, f) else old(links)
    {
      r := ok;
      if ok {
        links := Create(links, e, f);
      }
    }

    /** `remover`; `ok` is the query's result, which is returned. */
    method Remover(e: int, f: int, ok: bool) returns (r: bool)
      modifies this
      ensures r == ok
      ensures links == if ok then Remove(old(links), e, f) else old(links)
    {
      r := ok;
      if ok {
        links := Remove(links, e, f);
      }
    }

    /** `verificarHomologacao`; a failed query (`ok` false) answers false. */
    method VerificarHomologacao(e: int, f: int, ok: bool) returns (r: bool)
      ensures r <==> ok && (e, f) in links && links[(e, f)]
    {
      r := ok && (e, f) in links && links[(e, f)];
    }

    /** `listarFornecedoresDisponiveis`; a failed query lists nothing. */
    method ListarFornecedoresDisponiveis(suppliers: seq<Supplier>, e: int, ok: bool) returns (r: seq<Supplier>)
      ensures ok ==> forall s :: s in r <==> s in suppliers && s.ativo && !Verified(links, e, s.id)
      ensures !ok ==> r == []
    {
      r := if ok then Available(suppliers, links, e) else [];
    }

    /** `listarFornecedoresHomologados`; a failed query lists nothing. */
    method ListarFornecedoresHomologados(suppliers: seq<Supplier>, e: int, ok: bool) returns (r: seq<Listed>)
      ensures ok ==> forall row :: row in r <==> row.supplier in suppliers && (e, row.supplier.id) in links && row.ativo == links[(e, row.supplier.id)]
      ensures !ok ==> r == []
    {
      r := if ok then Homologated(suppliers, links, e) else [];
    }
  }
}
