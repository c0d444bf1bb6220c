/**
 * `classes/Pedido.php`: order creation as one transaction (insert the order, insert
 * each item and take its quantity from its variation's stock, clear the cart,
 * commit), and the unchecked status update. Prices, totals and the 15% commission
 * are floating point and are not part of this model.
 */
module Orders {
  import opened Wrappers
  import Cart

  /** A `pedido` row. */
  datatype Order = Order(id: int, responsavelId: int, alunoId: int, escolaId: int, status: string)

  /** One requested item, after the `(int)` casts. */
  datatype Item = Item(produtoId: int, variacaoId: int, fornecedorId: int, quantidade: int)

  /** A `pedido_item` row. */
  datatype OrderItem = OrderItem(pedidoId: int, item: Item)

  /** `produto_variacao.quantidade_estoque` by variation id. */
  type Stock = map<int, int>

  /** The status `criar` writes. */
  const INITIAL_STATUS := "pendente"

  predicate NonNegative(st: Stock) {
    forall v :: v in st ==> st[v] >= 0
  }

  /**
   * Whether `UPDATE produto_variacao SET quantidade_estoque = quantidade_estoque - q
   * WHERE id = v AND quantidade_estoque >= q` reports an affected row. MySQL counts
   * changed rows, so a missing variation, too little stock and a zero quantity all fail.
   */
  predicate Decrements(st: Stock, it: Item) {
    it.variacaoId in st && st[it.variacaoId] >= it.quantidade && it.quantidade != 0
  }

  /** One pass of the item loop: the item INSERT (`stored`) and then the stock UPDATE. */
  function Step(st: Stock, it: Item, stored: bool): Option<Stock> {
    if stored && Decrements(st, it) then Some(st[it.variacaoId := st[it.variacaoId] - it.quantidade])
    else None
  }

  /** The stock after the item loop, each item against the stock its predecessors left; `None` once one fails. */
  function Apply(stock: Stock, itens: seq<Item>, stored: nat -> bool): Option<Stock> {
    if itens == [] then Some(stock)
    else match Apply(stock, itens[..|itens| - 1], stored)
      case None => None
      case Some(st) => Step(st, itens[|itens| - 1], stored(|itens| - 1))
  }

  /** The total quantity the items ask of variation v. */
  function Demand(itens: seq<Item>, v: int): int {
    if itens == [] then 0
    else
      var it := itens[|itens| - 1];
      Demand(itens[..|itens| - 1], v) + (if it.variacaoId == v then it.quantidade else 0)
  }

  /** The items as `pedido_item` rows of order `id`. */
  function Lines(id: int, itens: seq<Item>): (r: seq<OrderItem>)
    ensures |r| == |itens| && forall i :: 0 <= i < |itens| ==> r[i] == OrderItem(id, itens[i])
  {
    seq(|itens|, i requires 0 <= i < |itens| => OrderItem(id, itens[i]))
  }

  /** A successful loop takes from each variation exactly the total its items ask, and touches no other entry. */
  lemma {:induction false} ApplyTakesDemand(stock: Stock, itens: seq<Item>, stored: nat -> bool)
    requires Apply(stock, itens, stored).Some?
    ensures var st := Apply(stock, itens, stored).value;
      st.Keys == stock.Keys && forall v :: v in stock ==> st[v] == stock[v] - Demand(itens, v)
  {
    if itens != [] {
      ApplyTakesDemand(stock, itens[..|itens| - 1], stored);
    }
  }

  /** Stock never goes negative through the loop. */
  lemma {:induction false} ApplyKeepsNonNegative(stock: Stock, itens: seq<Item>, stored: nat -> bool)
    requires NonNegative(stock) && Apply(stock, itens, stored).Some?
    ensures NonNegative(Apply(stock, itens, stored).value)
  {
    if itens != [] {
      ApplyKeepsNonNegative(stock, itens[..|itens| - 1], stored);
    }
  }

  /** So a created order never asks a variation for more than it had. */
  lemma OrderWithinStock(stock: Stock, itens: seq<Item>, stored: nat -> bool)
    requires NonNegative(stock) && Apply(stock, itens, stored).Some?
    ensures forall v :: v in stock ==> Demand(itens, v) <= stock[v]
  {
    ApplyTakesDemand(stock, itens, stored);
    ApplyKeepsNonNegative(stock, itens, stored);
  }

  /** Once a prefix of the items fails, the whole order fails. */
  lemma {:induction false} ApplyPrefixFails(stock: Stock, itens: seq<Item>, i: nat, stored: nat -> bool)
    requires i <= |itens| && Apply(stock, itens[..i], stored).None?
    ensures Apply(stock, itens, stored).None?
    decreases |itens| - i
  {
    if i < |itens| {
      assert itens[..i + 1][..i] == itens[..i];
      ApplyPrefixFails(stock, itens, i + 1, stored);
    } else {
      assert itens[..i] == itens;
    }
  }

  /** An item with quantity 0 changes no row, so the whole order is rolled back. */
  lemma ZeroQuantityAborts(stock: Stock, itens: seq<Item>, k: nat, stored: nat -> bool)
    requires k < |itens| && itens[k].quantidade == 0
    ensures Apply(stock, itens, stored).None?
  {
    assert itens[..k + 1][..k] == itens[..k];
    ApplyPrefixFails(stock, itens, k + 1, stored);
  }

  /**
   * Two items of the same variation are checked one after the other: both pass iff
   * the stock covers the first and what is left covers the second.
   */
  lemma SharedVariationSequential(stock: Stock, a: Item, b: Item, stored: nat -> bool)
    requires a.variacaoId == b.variacaoId && stored(0) && stored(1) && a.quantidade != 0 && b.quantidade != 0
    ensures Apply(stock, [a, b], stored).Some? <==>
      a.variacaoId in stock && stock[a.variacaoId] >= a.quantidade && stock[a.variacaoId] - a.quantidade >= b.quantidade
  {
    assert [a, b][..1] == [a];
    assert [a][..0] == [];
    assert Apply(stock, [], stored) == Some(stock);
    var first := Apply(stock, [a], stored);
    assert first == Step(stock, a, stored(0));
    if first.Some? {
      assert first.value[a.variacaoId] == stock[a.variacaoId] - a.quantidade;
      assert Apply(stock, [a, b], stored) == Step(first.value, b, true);
    }
  }

  /** `UPDATE pedido SET status = s WHERE id = id`. */
  function SetStatus(orders: seq<Order>, id: int, status: string): seq<Order>
  {
    seq(|orders|, i requires 0 <= i < |orders| => if orders[i].id == id then orders[i].(status := status) else orders[i])
  }

  /** `atualizarStatus` writes whatever status it is given to the order and changes nothing else. */
  lemma SetStatusWritesAnything(orders: seq<Order>, id: int, status: string)
    ensures forall o :: o in SetStatus(orders, id, status) && o.id == id ==> o.status == status
    ensures forall o :: o in orders && o.id != id ==> o in SetStatus(orders, id, status)
  {
    var r := SetStatus(orders, id, status);
    forall o | o in orders && o.id != id ensures o in r {
      var i :| 0 <= i < |orders| && orders[i] == o;
      assert r[i] == o;
    }
  }

  predicate UniqueIds(orders: seq<Order>) {
    forall i, j :: 0 <= i < j < |orders| ==> orders[i].id != orders[j].id
  }

  /** The tables `criar` touches: `pedido`, `pedido_item`, `produto_variacao` stock and the cart. */
  class OrderStore {
    var orders: seq<Order>
    var items: seq<OrderItem>
    var stock: Stock
    var nextOrderId: int
    const cart: Cart.CartTable

    ghost predicate Valid()
      reads this, cart
    {
      UniqueIds(orders) && (forall o :: o in orders ==> o.id < nextOrderId) && NonNegative(stock) && cart.Valid()
    }

    constructor (cart0: Cart.CartTable, stock0: Stock)
      requires cart0.Valid() && NonNegative(stock0)
      ensures Valid() && orders == [] && items == [] && stock == stock0 && nextOrderId == 1 && cart == cart0
    {
      orders := [];
      items := [];
      stock := stock0;
      nextOrderId := 1;
      cart := cart0;
    }

    /**
     * `criar`. `insertOk` is the fate of the order INSERT, `stored(i)` that of item i's
     * INSERT, `clearOk` that of the cart DELETE, whose result is not checked. The
     * AUTO_INCREMENT value a rolled-back INSERT took is not given back.
     */
    method Criar(responsavelId: int, alunoId: int, escolaId: int, itens: seq<Item>,
                 insertOk: bool, stored: nat -> bool, clearOk: bool) returns (r: Option<int>)
      requires Valid()
      modifies this, cart
      ensures Valid()
      ensures r.Some? <==> insertOk && Apply(old(stock), itens, stored).Some?
      ensures nextOrderId == if insertOk then old(nextOrderId) + 1 else old(nextOrderId)
      ensures r.Some? ==>
        && r.value == old(nextOrderId)
        && orders == old(orders) + [Order(r.value, responsavelId, alunoId, escolaId, INITIAL_STATUS)]
        && items == old(items) + Lines(r.value, itens)
        && stock == Apply(old(stock), itens, stored).value
        && cart.lines == (if clearOk then Cart.Clear(old(cart.lines), responsavelId) else old(cart.lines))
      ensures r.None? ==>
        orders == old(orders) && items == old(items) && stock == old(stock) && cart.lines == old(cart.lines)
    {
      if !insertOk {
        return None;
      }
      var pedidoId := nextOrderId;
      nextOrderId := nextOrderId + 1;
      var st := stock;
      var i := 0;
      while i < |itens|
        invariant 0 <= i <= |itens|
        invariant Apply(stock, itens[..i], stored) == Some(st)
      {
        assert itens[..i + 1][..i] == itens[..i];
        var it := itens[i];
        if !stored(i) || !(it.variacaoId in st && st[it.variacaoId] >= it.quantidade && it.quantidade != 0) {
          ApplyPrefixFails(stock, itens, i + 1, stored);
          return None;
        }
        st := st[it.variacaoId := st[it.variacaoId] - it.quantidade];
        i := i + 1;
      }
      assert itens[..i] == itens;
      ApplyKeepsNonNegative(stock, itens, stored);
      forall o | o in orders ensures o.id < pedidoId {
      }
      orders := orders + [Order(pedidoId, responsavelId, alunoId, escolaId, INITIAL_STATUS)];
      items := items + Lines(pedidoId, itens);
      stock := st;
      var _ := cart.Limpar(responsavelId, clearOk);
      r := Some(pedidoId);
    }

    /** `atualizarStatus`: any status string, no transition check; `ok` is the UPDATE's result. */
    method AtualizarStatus(id: int, status: string, ok: bool) returns (r: bool)
      requires Valid()
      modifies this
      ensures Valid() && r == ok
      ensures orders == (if ok then SetStatus(old(orders), id, status) else old(orders))
      ensures items == old(items) && stock == old(stock) && nextOrderId == old(nextOrderId)
    {
      r := ok;
      if ok {
        var after := SetStatus(orders, id, status);
        forall o | o in after ensures o.id < nextOrderId {
          var i :| 0 <= i < |after| && after[i] == o;
          assert orders[i] in orders;
        }
        orders := after;
      }
    }
  }
}
