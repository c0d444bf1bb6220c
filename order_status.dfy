/**
 * `Model/pedidos-gerenciar.php`: the label of each order status, the statuses a
 * status may move to next, and the role gate in front of `atualizarStatus`.
 */
module OrderStatus {
  import Orders

  /** `$status_labels`. */
  const STATUS_LABELS: map<string, string> := map[
    "Pendente" := "Pendente",
    "Aprovado" := "Aprovado",
    "Em Produção" := "Em Produção",
    "Disponível para Retirar" := "Pronto para Retirada",
    "Entregue" := "Entregue",
    "Cancelado" := "Cancelado"
  ]

  /** `$proximos_status`. */
  const NEXT_STATUS: map<string, seq<string>> := map[
    "Pendente" := ["Aprovado", "Cancelado"],
    "Aprovado" := ["Em Produção", "Cancelado"],
    "Em Produção" := ["Disponível para Retirar", "Cancelado"],
    "Disponível para Retirar" := ["Entregue"],
    "Entregue" := [],
    "Cancelado" := []
  ]

  /** t is listed as a next status of s. */
  predicate Edge(s: string, t: string) {
    s in NEXT_STATUS && t in NEXT_STATUS[s]
  }

  predicate Terminal(s: string) {
    s in NEXT_STATUS && NEXT_STATUS[s] == []
  }

  /** Both maps cover the same statuses, and every successor is itself a status with a label. */
  lemma EveryStatusLabelled()
    ensures STATUS_LABELS.Keys == NEXT_STATUS.Keys
    ensures forall s, t :: Edge(s, t) ==> t in STATUS_LABELS
  {
  }

  /** Only the pickup status is shown under another name. */
  lemma OnlyPickupRelabelled()
    ensures forall s :: s in STATUS_LABELS ==> (STATUS_LABELS[s] != s <==> s == "Disponível para Retirar")
    ensures STATUS_LABELS["Disponível para Retirar"] == "Pronto para Retirada"
  {
  }

  /** Delivered and cancelled orders go nowhere; nothing else is terminal. */
  lemma TerminalStatuses()
    ensures forall s :: Terminal(s) <==> s == "Entregue" || s == "Cancelado"
  {
  }

  /** Cancelling is offered before pickup only. */
  lemma CancelBeforePickup()
    ensures forall s :: Edge(s, "Cancelado") <==> s == "Pendente" || s == "Aprovado" || s == "Em Produção"
  {
  }

  /** The forward chain of an order that is not cancelled. */
  lemma ForwardChain()
    ensures Edge("Pendente", "Aprovado") && Edge("Aprovado", "Em Produção") &&
            Edge("Em Produção", "Disponível para Retirar") && Edge("Disponível para Retirar", "Entregue")
  {
  }

  /** The position of a status along the flow; every edge climbs it. */
  function Rank(s: string): nat {
    if s == "Pendente" then 0
    else if s == "Aprovado" then 1
    else if s == "Em Produção" then 2
    else if s == "Disponível para Retirar" then 3
    else 4
  }

  lemma EdgeClimbs(s: string, t: string)
    requires Edge(s, t)
    ensures Rank(s) < Rank(t)
  {
  }

  /** A walk along the table. */
  predicate IsPath(p: seq<string>) {
    forall i :: 0 <= i < |p| - 1 ==> Edge(p[i], p[i + 1])
  }

  /** Every walk of at least one step ends higher than it starts. */
  lemma {:induction false} PathClimbs(p: seq<string>)
    requires IsPath(p) && |p| >= 2
    ensures Rank(p[0]) < Rank(p[|p| - 1])
  {
    EdgeClimbs(p[0], p[1]);
    if |p| > 2 {
      PathClimbs(p[1..]);
    }
  }

  /** The transition graph is acyclic: no walk returns to where it started. */
  lemma Acyclic(p: seq<string>)
    requires IsPath(p) && |p| >= 2
    ensures p[0] != p[|p| - 1]
  {
    PathClimbs(p);
  }

  /** `criar` writes `pendente` in lower case, which is not a key of the table, so a new order lists no next status. */
  lemma CreatedStatusUnlisted()
    ensures Orders.INITIAL_STATUS !in NEXT_STATUS && Orders.INITIAL_STATUS !in STATUS_LABELS
  {
  }

  /**
   * Only a posted update from a logged-in `Fornecedor` session reaches `atualizarStatus`;
   * a session without `logado` is redirected to the login page first.
   */
  predicate UpdatesStatus(logado: bool, posted: bool, userTipo: string) {
    logado && posted && userTipo == "Fornecedor"
  }

  /** The `pedido` table after the request (when the update runs, its result is `ok`). */
  function AfterRequest(orders: seq<Orders.Order>, logado: bool, posted: bool, userTipo: string, id: int, status: string, ok: bool): seq<Orders.Order> {
    if UpdatesStatus(logado, posted, userTipo) && ok then Orders.SetStatus(orders, id, status) else orders
  }

  /**
   * A session that is not logged in, or of another role, changes nothing, and a supplier's update ignores the table: even a
   * delivered order can be put back to `Pendente`.
   */
  lemma GateIgnoresTable(orders: seq<Orders.Order>, logado: bool, posted: bool, userTipo: string, id: int, status: string, ok: bool)
    ensures !UpdatesStatus(logado, posted, userTipo) ==> AfterRequest(orders, logado, posted, userTipo, id, status, ok) == orders
    ensures UpdatesStatus(logado, posted, userTipo) && ok ==>
      forall i :: 0 <= i < |orders| && orders[i].id == id ==> AfterRequest(orders, logado, posted, userTipo, id, status, ok)[i].status == status
    ensures Terminal("Entregue") && !Edge("Entregue", "Pendente")
  {
  }
}
