/**
 * `classes/Carrinho.php`: the shopping cart of a responsável, one `carrinho` row per
 * (responsável, produto, variação) line.
 */
module Cart {
  import opened Wrappers
  import opened Tables

  /** A `carrinho` row. */
  datatype Line = Line(id: int, responsavelId: int, produtoId: int, variacaoId: int, quantidade: int)

  predicate UniqueIds(lines: seq<Line>) {
    forall i, j :: 0 <= i < j < |lines| ==> lines[i].id != lines[j].id
  }

  predicate SameTriple(a: Line, b: Line) {
    a.responsavelId == b.responsavelId && a.produtoId == b.produtoId && a.variacaoId == b.variacaoId
  }

  /** Each (responsável, produto, variação) has at most one line. */
  predicate UniqueTriples(lines: seq<Line>) {
    forall i, j :: 0 <= i < j < |lines| ==> !SameTriple(lines[i], lines[j])
  }

  /** The line `adicionar` looks up: the first with the triple. */
  function FindLine(lines: seq<Line>, responsavelId: int, produtoId: int, variacaoId: int): Option<nat> {
    First(lines, (l: Line) => l.responsavelId == responsavelId && l.produtoId == produtoId && l.variacaoId == variacaoId)
  }

  /** `UPDATE carrinho SET quantidade = q WHERE id = id`. */
  function SetQuantity(lines: seq<Line>, id: int, q: int): seq<Line>
  {
    seq(|lines|, i requires 0 <= i < |lines| => if lines[i].id == id then lines[i].(quantidade := q) else lines[i])
  }

  /** `DELETE FROM carrinho WHERE id = id`. */
  function Remove(lines: seq<Line>, id: int): (r: seq<Line>)
    ensures forall l :: l in r <==> l in lines && l.id != id
  {
    Filter(lines, (l: Line) => l.id != id)
  }

  /** `DELETE FROM carrinho WHERE responsavel_id = r`. */
  function Clear(lines: seq<Line>, responsavelId: int): (r: seq<Line>)
    ensures forall l :: l in r <==> l in lines && l.responsavelId != responsavelId
  {
    Filter(lines, (l: Line) => l.responsavelId != responsavelId)
  }

  /**
   * The table after `adicionar`: the found line's quantity raised by q, or a new line.
   * `lookupOk` says whether the SELECT succeeded; when it did not, a new line is inserted.
   */
  function Add(lines: seq<Line>, newId: int, responsavelId: int, produtoId: int, variacaoId: int, q: int, lookupOk: bool): seq<Line> {
    var found := if lookupOk then FindLine(lines, responsavelId, produtoId, variacaoId) else None;
    match found
    case Some(k) => SetQuantity(lines, lines[k].id, lines[k].quantidade + q)
    case None => lines + [Line(newId, responsavelId, produtoId, variacaoId, q)]
  }

  /** The table after `atualizar`: a quantity of 0 or less removes the line. */
  function Update(lines: seq<Line>, id: int, q: int): seq<Line> {
    if q <= 0 then Remove(lines, id) else SetQuantity(lines, id, q)
  }

  /** `SELECT SUM(quantidade) ... WHERE responsavel_id = r`, with the `NULL` of an empty sum read as 0. */
  function CountItems(lines: seq<Line>, responsavelId: int): int {
    if lines == [] then 0
    else
      var last := lines[|lines| - 1];
      CountItems(lines[..|lines| - 1], responsavelId) + (if last.responsavelId == responsavelId then last.quantidade else 0)
  }

  /** The sum over a concatenation is the sum of the sums. */
  lemma {:induction false} CountItemsAppend(a: seq<Line>, b: seq<Line>, responsavelId: int)
    ensures CountItems(a + b, responsavelId) == CountItems(a, responsavelId) + CountItems(b, responsavelId)
    decreases |b|
  {
    if b != [] {
      assert (a + b)[..|a + b| - 1] == a + b[..|b| - 1];
      assert (a + b)[|a + b| - 1] == b[|b| - 1];
      CountItemsAppend(a, b[..|b| - 1], responsavelId);
    } else {
      assert a + b == a;
    }
  }

  /** A cart without lines of the responsável counts 0. */
  lemma {:induction false} CountItemsNone(lines: seq<Line>, responsavelId: int)
    requires forall l :: l in lines ==> l.responsavelId != responsavelId
    ensures CountItems(lines, responsavelId) == 0
  {
    if lines != [] {
      CountItemsNone(lines[..|lines| - 1], responsavelId);
    }
  }

  /** Replacing one line's quantity changes the sum by the difference. */
  lemma {:induction false} CountItemsSetQuantity(lines: seq<Line>, k: nat, q: int, responsavelId: int)
    requires UniqueIds(lines) && k < |lines|
    ensures CountItems(SetQuantity(lines, lines[k].id, q), responsavelId) ==
      CountItems(lines, responsavelId) + (if lines[k].responsavelId == responsavelId then q - lines[k].quantidade else 0)
  {
    var after := SetQuantity(lines, lines[k].id, q);
    assert lines == lines[..k] + [lines[k]] + lines[k + 1..];
    assert after == lines[..k] + [lines[k].(quantidade := q)] + lines[k + 1..];
    CountItemsAppend(lines[..k] + [lines[k]], lines[k + 1..], responsavelId);
    CountItemsAppend(lines[..k], [lines[k]], responsavelId);
    CountItemsAppend(lines[..k] + [lines[k].(quantidade := q)], lines[k + 1..], responsavelId);
    CountItemsAppend(lines[..k], [lines[k].(quantidade := q)], responsavelId);
    assert [lines[k]][..0] == [] && [lines[k].(quantidade := q)][..0] == [];
  }

  /** `adicionar` raises the responsável's item count by exactly q, whether it merges or inserts. */
  lemma AddRaisesCount(lines: seq<Line>, newId: int, responsavelId: int, produtoId: int, variacaoId: int, q: int, lookupOk: bool)
    requires UniqueIds(lines)
    ensures CountItems(Add(lines, newId, responsavelId, produtoId, variacaoId, q, lookupOk), responsavelId) ==
      CountItems(lines, responsavelId) + q
  {
    var found := if lookupOk then FindLine(lines, responsavelId, produtoId, variacaoId) else None;
    match found
    case Some(k) =>
      CountItemsSetQuantity(lines, k, lines[k].quantidade + q, responsavelId);
    case None =>
      var line := Line(newId, responsavelId, produtoId, variacaoId, q);
      CountItemsAppend(lines, [line], responsavelId);
      assert [line][..0] == [];
  }

  /** `limpar` empties the responsável's cart and leaves every other line. */
  lemma ClearEmpties(lines: seq<Line>, responsavelId: int)
    ensures CountItems(Clear(lines, responsavelId), responsavelId) == 0
    ensures forall l :: l in lines && l.responsavelId != responsavelId ==> l in Clear(lines, responsavelId)
  {
    CountItemsNone(Clear(lines, responsavelId), responsavelId);
  }

  /** `atualizar` with a positive q sets the line to exactly q; with q <= 0 the line is gone. */
  lemma UpdateSetsOrRemoves(lines: seq<Line>, id: int, q: int)
    ensures q <= 0 ==> forall l :: l in Update(lines, id, q) ==> l.id != id
    ensures q > 0 ==> forall l :: l in Update(lines, id, q) && l.id == id ==> l.quantidade == q
    ensures forall l :: l in lines && l.id != id ==> l in Update(lines, id, q)
  {
    if q > 0 {
      var r := SetQuantity(lines, id, q);
      forall l | l in lines && l.id != id ensures l in r {
        var i :| 0 <= i < |lines| && lines[i] == l;
        assert r[i] == l;
      }
    }
  }

  /** With a successful lookup, `adicionar` keeps one line per triple. */
  lemma AddKeepsTriplesUnique(lines: seq<Line>, newId: int, responsavelId: int, produtoId: int, variacaoId: int, q: int)
    requires UniqueIds(lines) && UniqueTriples(lines)
    requires forall l :: l in lines ==> l.id < newId
    ensures var after := Add(lines, newId, responsavelId, produtoId, variacaoId, q, true);
      UniqueIds(after) && UniqueTriples(after)
  {
    var found := FindLine(lines, responsavelId, produtoId, variacaoId);
    var after := Add(lines, newId, responsavelId, produtoId, variacaoId, q, true);
    if found.None? {
      forall i, j | 0 <= i < j < |after|
        ensures after[i].id != after[j].id && !SameTriple(after[i], after[j])
      {
        if j == |lines| {
          assert after[i] in lines;
        }
      }
    }
  }

  /** One entry of `validarEstoque`'s result; the product is named by its id. */
  datatype Shortfall = Shortfall(produto: int, solicitado: int, disponivel: int)

  /** A row of `listar`: the line joined with its variation's stock. */
  datatype Listed = Listed(line: Line, estoque: int)

  /** The shortfalls of a listing, in listing order. */
  function Shortfalls(items: seq<Listed>): seq<Shortfall> {
    if items == [] then []
    else
      var it := items[|items| - 1];
      Shortfalls(items[..|items| - 1]) +
        (if it.line.quantidade > it.estoque then [Shortfall(it.line.produtoId, it.line.quantidade, it.estoque)] else [])
  }

  /** One shortfall per line asking for more than its stock; none iff every line fits. */
  lemma {:induction false} ShortfallsMeaning(items: seq<Listed>)
    ensures forall s :: s in Shortfalls(items) <==>
      exists it :: it in items && it.line.quantidade > it.estoque && s == Shortfall(it.line.produtoId, it.line.quantidade, it.estoque)
    ensures Shortfalls(items) == [] <==> forall it :: it in items ==> it.line.quantidade <= it.estoque
    ensures |Shortfalls(items)| <= |items|
  {
    if items != [] {
      var init := items[..|items| - 1];
      ShortfallsMeaning(init);
      assert forall it :: it in items <==> it in init || it == items[|items| - 1];
    }
  }

  /**
   * The rows of `listar`'s SELECT: the responsável's lines whose product, variation and
   * supplier rows the INNER JOINs find (`joined`), newest first (`ORDER BY adicionado_em
   * DESC`), each with its variation's stock.
   */
  function JoinedLines(lines: seq<Line>, responsavelId: int, stockOf: int -> int, joined: Line -> bool): (r: seq<Listed>)
    ensures forall it :: it in r <==>
      it.line in lines && it.line.responsavelId == responsavelId && joined(it.line) && it.estoque == stockOf(it.line.variacaoId)
  {
    if lines == [] then []
    else
      var l := lines[|lines| - 1];
      var rest := JoinedLines(lines[..|lines| - 1], responsavelId, stockOf, joined);
      assert forall x :: x in lines <==> x in lines[..|lines| - 1] || x == l;
      (if l.responsavelId == responsavelId && joined(l) then [Listed(l, stockOf(l.variacaoId))] else []) + rest
  }

  /** `listar`: the joined rows, or nothing when the query fails (`queryOk`). */
  function Listing(lines: seq<Line>, responsavelId: int, stockOf: int -> int, joined: Line -> bool, queryOk: bool): (r: seq<Listed>)
    ensures !queryOk ==> r == []
    ensures queryOk ==> forall it :: it in r <==>
      it.line in lines && it.line.responsavelId == responsavelId && joined(it.line) && it.estoque == stockOf(it.line.variacaoId)
  {
    if queryOk then JoinedLines(lines, responsavelId, stockOf, joined) else []
  }

  /** The `carrinho` table and its id sequence. */
  class CartTable {
    var lines: seq<Line>
    var nextId: int

    ghost predicate Valid()
      reads this
    {
      UniqueIds(lines) && forall l :: l in lines ==> l.id < nextId
    }

    constructor ()
      ensures Valid() && lines == [] && nextId == 1
    {
      lines := [];
      nextId := 1;
    }

    /** `adicionar`; `ok` is the result of the final UPDATE or INSERT. */
    method Adicionar(responsavelId: int, produtoId: int, variacaoId: int, q: int, lookupOk: bool, ok: bool) returns (r: bool)
      requires Valid()
      modifies this
      ensures Valid() && r == ok
      ensures lines == (if ok then Add(old(lines), old(nextId), responsavelId, produtoId, variacaoId, q, lookupOk) else old(lines))
      ensures nextId == old(nextId) + (|lines| - |old(lines)|)
    {
      r := ok;
      if !ok {
        return;
      }
      var after := Add(lines, nextId, responsavelId, produtoId, variacaoId, q, lookupOk);
      AddKeepsIds(lines, nextId, responsavelId, produtoId, variacaoId, q, lookupOk);
      nextId := nextId + (|after| - |lines|);
      lines := after;
    }

    /** `atualizar`; `ok` is the result of the UPDATE or DELETE. */
    method Atualizar(id: int, q: int, ok: bool) returns (r: bool)
      requires Valid()
      modifies this
      ensures Valid() && r == ok && nextId == old(nextId)
      ensures lines == (if ok then Update(old(lines), id, q) else old(lines))
    {
      r := ok;
      if ok {
        if q <= 0 {
          RemoveKeepsIds(lines, id);
          lines := Remove(lines, id);
        } else {
          var after := SetQuantity(lines, id, q);
          forall u | u in after ensures u.id < nextId {
            var i :| 0 <= i < |after| && after[i] == u;
            assert lines[i] in lines;
          }
          lines := after;
        }
      }
    }

    /** `remover`. */
    method Remover(id: int, ok: bool) returns (r: bool)
      requires Valid()
      modifies this
      ensures Valid() && r == ok && nextId == old(nextId)
      ensures lines == (if ok then Remove(old(lines), id) else old(lines))
    {
      r := ok;
      if ok {
        RemoveKeepsIds(lines, id);
        lines := Remove(lines, id);
      }
    }

    /** `limpar`. */
    method Limpar(responsavelId: int, ok: bool) returns (r: bool)
      requires Valid()
      modifies this
      ensures Valid() && r == ok && nextId == old(nextId)
      ensures lines == (if ok then Clear(old(lines), responsavelId) else old(lines))
    {
      r := ok;
      if ok {
        ClearKeepsIds(lines, responsavelId);
        lines := Clear(lines, responsavelId);
      }
    }

    /** `contarItens`; `ok` says whether the SUM query succeeded. */
    method ContarItens(responsavelId: int, ok: bool) returns (n: int)
      ensures n == (if ok then CountItems(lines, responsavelId) else 0)
    {
      n := 0;
      if ok {
        n := CountItems(lines, responsavelId);
      }
    }

    /** `validarEstoque`: walks the listing and collects every line that asks for more than its stock. */
    method ValidarEstoque(responsavelId: int, stockOf: int -> int, joined: Line -> bool, queryOk: bool) returns (erros: seq<Shortfall>)
      ensures erros == Shortfalls(Listing(lines, responsavelId, stockOf, joined, queryOk))
    {
      var itens := Listing(lines, responsavelId, stockOf, joined, queryOk);
      erros := [];
      for i := 0 to |itens|
        invariant erros == Shortfalls(itens[..i])
      {
        assert itens[..i + 1][..i] == itens[..i];
        var it := itens[i];
        if it.line.quantidade > it.estoque {
          erros := erros + [Shortfall(it.line.produtoId, it.line.quantidade, it.estoque)];
        }
      }
      assert itens[..|itens|] == itens;
    }
  }

  /** `adicionar` keeps ids unique and below the sequence, which it advances only when it inserts. */
  lemma AddKeepsIds(lines: seq<Line>, newId: int, responsavelId: int, produtoId: int, variacaoId: int, q: int, lookupOk: bool)
    requires UniqueIds(lines) && forall l :: l in lines ==> l.id < newId
    ensures var after := Add(lines, newId, responsavelId, produtoId, variacaoId, q, lookupOk);
      && UniqueIds(after)
      && (|after| == |lines| || |after| == |lines| + 1)
      && forall l :: l in after ==> l.id < newId + (|after| - |lines|)
  {
    var found := if lookupOk then FindLine(lines, responsavelId, produtoId, variacaoId) else None;
    var after := Add(lines, newId, responsavelId, produtoId, variacaoId, q, lookupOk);
    match found
    case Some(k) =>
      forall u | u in after ensures u.id < newId {
        var i :| 0 <= i < |after| && after[i] == u;
        assert lines[i] in lines;
      }
    case None =>
      forall i | 0 <= i < |lines| ensures lines[i].id < newId {
        assert lines[i] in lines;
      }
  }

  lemma RemoveKeepsIds(lines: seq<Line>, id: int)
    requires UniqueIds(lines)
    ensures UniqueIds(Remove(lines, id))
  {
    var key := (l: Line) => l.id;
    assert DistinctBy(lines, key);
    FilterKeepsDistinct(lines, (l: Line) => l.id != id, key);
  }

  lemma ClearKeepsIds(lines: seq<Line>, responsavelId: int)
    requires UniqueIds(lines)
    ensures UniqueIds(Clear(lines, responsavelId))
  {
    var key := (l: Line) => l.id;
    assert DistinctBy(lines, key);
    FilterKeepsDistinct(lines, (l: Line) => l.responsavelId != responsavelId, key);
  }
}
