/**
 * `_preparar_detalhes_logs`, identical in `modules/usuarios/module.py` and
 * `modules/usuarios.py`: each audit-log row gets its old and new JSON snapshots
 * parsed, its description masked, and a field-by-field list of changes.
 */
module AuditLog {
  import opened Wrappers
  import opened Values
  import opened Strings

  /** A JSON object as parsed, its members in document order. */
  type Object = seq<(string, Value)>

  /** `obj.get(k)`: the last member named `k` (as `json.loads` keeps the last duplicate), else `None`. */
  function Get(o: Object, k: string): (v: Value)
    ensures (forall i :: 0 <= i < |o| ==> o[i].0 != k) ==> v == VNone
  {
    if o == [] then VNone
    else if o[|o| - 1].0 == k then o[|o| - 1].1
    else Get(o[..|o| - 1], k)
  }

  /** `obj.keys()`. */
  function Keys(o: Object): (ks: seq<string>)
    ensures |ks| == |o| && forall i :: 0 <= i < |o| ==> ks[i] == o[i].0
  {
    seq(|o|, i requires 0 <= i < |o| => o[i].0)
  }

  /** `parse_json`: a falsy text, or one the parser rejects, gives the empty object. */
  function ParseJson(text: Value, parse: string -> Option<Object>): (o: Object)
    ensures !Truthy(text) ==> o == []
    ensures text.VStr? && parse(text.s).None? ==> o == []
    ensures text.VStr? && text.s != "" && parse(text.s).Some? ==> o == parse(text.s).value
  {
    if !Truthy(text) then []
    else match text
      case VStr(s) => parse(s).GetOr([])
      case _ => []
  }

  /** Keys never shown in a diff: the two timestamps, `id`, and every `*_id`. */
  predicate Hidden(k: string) {
    k == "data_atualizacao" || k == "data_cadastro" || k == "id" || EndsWith(k, "_id")
  }

  /** One entry of `mudancas`. */
  datatype Change = Change(campo: string, antes: Value, depois: Value)

  /** The value of `acao`, as the diff distinguishes it. */
  datatype Action = Update | Insert | Delete | Other

  function ActionOf(acao: Value): Action {
    if acao == VStr("UPDATE") then Update
    else if acao == VStr("INSERT") then Insert
    else if acao == VStr("DELETE") then Delete
    else Other
  }

  /** What one key contributes to the diff. */
  function Entry(a: Action, k: string, antigos: Object, novos: Object): seq<Change> {
    if Hidden(k) then []
    else match a
      case Update => if PyEq(Get(antigos, k), Get(novos, k)) then [] else [Change(k, Get(antigos, k), Get(novos, k))]
      case Insert => [Change(k, VNone, Get(novos, k))]
      case Delete => [Change(k, Get(antigos, k), VNone)]
      case Other => []
  }

  /** The entries of `keys`, in order. */
  function Scan(a: Action, keys: seq<string>, antigos: Object, novos: Object): seq<Change> {
    if keys == [] then []
    else Scan(a, keys[..|keys| - 1], antigos, novos) + Entry(a, keys[|keys| - 1], antigos, novos)
  }

  /** The keys each action walks, sorted: the union of both snapshots for an update, one snapshot otherwise. */
  function KeysFor(a: Action, antigos: Object, novos: Object): seq<string> {
    match a
    case Update => SortedUnique(Keys(antigos) + Keys(novos))
    case Insert => SortedUnique(Keys(novos))
    case Delete => SortedUnique(Keys(antigos))
    case Other => []
  }

  /** The `mudancas` list of one log row. */
  function Changes(acao: Value, antigos: Object, novos: Object): seq<Change> {
    var a := ActionOf(acao);
    Scan(a, KeysFor(a, antigos, novos), antigos, novos)
  }

  /** The field names of a diff. */
  function Campos(m: seq<Change>): (ks: seq<string>)
    ensures |ks| == |m| && forall i :: 0 <= i < |m| ==> ks[i] == m[i].campo
  {
    seq(|m|, i requires 0 <= i < |m| => m[i].campo)
  }

  /** A scan lists exactly the entries of its keys. */
  lemma {:induction false} ScanMembers(a: Action, keys: seq<string>, antigos: Object, novos: Object)
    ensures forall c :: c in Scan(a, keys, antigos, novos) <==> exists k :: k in keys && c in Entry(a, k, antigos, novos)
  {
    if keys != [] {
      var init := keys[..|keys| - 1];
      ScanMembers(a, init, antigos, novos);
      assert forall k :: k in keys <==> k in init || k == keys[|keys| - 1];
    }
  }

  /** Over strictly sorted keys a scan lists its fields in strictly increasing order. */
  lemma {:induction false} ScanSorted(a: Action, keys: seq<string>, antigos: Object, novos: Object)
    requires StrictlySorted(keys)
    ensures StrictlySorted(Campos(Scan(a, keys, antigos, novos)))
  {
    if keys != [] {
      var init := keys[..|keys| - 1];
      assert StrictlySorted(init);
      ScanSorted(a, init, antigos, novos);
      ScanSortedStep(a, keys, antigos, novos);
    }
  }

  /** The step of `ScanSorted`: the last key's entry, if any, lands above every field before it. */
  lemma ScanSortedStep(a: Action, keys: seq<string>, antigos: Object, novos: Object)
    requires StrictlySorted(keys) && keys != []
    requires StrictlySorted(Campos(Scan(a, keys[..|keys| - 1], antigos, novos)))
    ensures StrictlySorted(Campos(Scan(a, keys, antigos, novos)))
  {
    var init := keys[..|keys| - 1];
    var last := keys[|keys| - 1];
    assert keys == init + [last];
    SortedLastAbove(init, last);
    ScanFields(a, init, antigos, novos);
    EntryField(a, last, antigos, novos);
    AppendEntry(Scan(a, init, antigos, novos), Entry(a, last, antigos, novos), init, last);
  }

  /** At most one entry for a key above every earlier key keeps the fields strictly sorted. */
  lemma AppendEntry(prefix: seq<Change>, e: seq<Change>, init: seq<string>, last: string)
    requires StrictlySorted(Campos(prefix))
    requires forall i :: 0 <= i < |prefix| ==> prefix[i].campo in init
    requires forall x :: x in init ==> Less(x, last)
    requires |e| <= 1 && forall c :: c in e ==> c.campo == last
    ensures StrictlySorted(Campos(prefix + e))
  {
    if e != [] {
      AppendAbove(prefix, e[0], init);
      assert prefix + e == prefix + [e[0]];
    } else {
      assert prefix + e == prefix;
    }
  }

  /** A key contributes at most one entry, and it is about that key. */
  lemma EntryField(a: Action, k: string, antigos: Object, novos: Object)
    ensures |Entry(a, k, antigos, novos)| <= 1
    ensures forall c :: c in Entry(a, k, antigos, novos) ==> c.campo == k
  {
  }

  /** A field above every key of the prefix's scan keeps the fields strictly sorted. */
  lemma AppendAbove(prefix: seq<Change>, c: Change, init: seq<string>)
    requires StrictlySorted(Campos(prefix))
    requires forall i :: 0 <= i < |prefix| ==> prefix[i].campo in init
    requires forall x :: x in init ==> Less(x, c.campo)
    ensures StrictlySorted(Campos(prefix + [c]))
  {
    assert Campos(prefix + [c]) == Campos(prefix) + [c.campo];
    if prefix != [] {
      assert prefix[|prefix| - 1].campo in init;
    }
    SortedAppend(Campos(prefix), c.campo);
  }

  /** Every field a scan lists is one of its keys. */
  lemma {:induction false} ScanFields(a: Action, keys: seq<string>, antigos: Object, novos: Object)
    ensures forall i :: 0 <= i < |Scan(a, keys, antigos, novos)| ==> Scan(a, keys, antigos, novos)[i].campo in keys
  {
    if keys != [] {
      var init := keys[..|keys| - 1];
      ScanFields(a, init, antigos, novos);
      assert forall k :: k in init ==> k in keys;
    }
  }

  /** In a strictly sorted list the last element is above all the others. */
  lemma SortedLastAbove(init: seq<string>, last: string)
    requires StrictlySorted(init + [last])
    ensures forall x :: x in init ==> Less(x, last)
  {
    var keys := init + [last];
    forall x | x in init
      ensures Less(x, last)
    {
      var j :| 0 <= j < |init| && init[j] == x;
      assert keys[j] == x && keys[|keys| - 1] == last;
      SortedBefore(keys, j, |keys| - 1);
    }
  }

  /** Appending a string above the last keeps a list strictly sorted. */
  lemma SortedAppend(ks: seq<string>, k: string)
    requires StrictlySorted(ks) && (ks != [] ==> Less(ks[|ks| - 1], k))
    ensures StrictlySorted(ks + [k])
  {
  }

  /** In a strictly sorted list every earlier element is strictly less than every later one. */
  lemma {:induction false} SortedBefore(ks: seq<string>, i: nat, j: nat)
    requires StrictlySorted(ks) && i < j < |ks|
    ensures Less(ks[i], ks[j])
    decreases j - i
  {
    if i + 1 < j {
      SortedBefore(ks, i + 1, j);
      LessEqTransitive(ks[i], ks[i + 1], ks[j]);
      if ks[i] == ks[j] {
        LessEqAntisymmetric(ks[i], ks[i + 1]);
      }
    }
  }

  /**
   * For an update, the diff lists, in increasing field order, exactly the visible keys
   * of either snapshot whose values differ, with both values.
   */
  lemma UpdateChanges(antigos: Object, novos: Object)
    ensures var m := Changes(VStr("UPDATE"), antigos, novos);
      && StrictlySorted(Campos(m))
      && (forall c :: c in m <==>
            (c.campo in Keys(antigos) + Keys(novos) && !Hidden(c.campo) &&
             c.antes == Get(antigos, c.campo) && c.depois == Get(novos, c.campo) && !PyEq(c.antes, c.depois)))
  {
    var keys := SortedUnique(Keys(antigos) + Keys(novos));
    ScanMembers(Update, keys, antigos, novos);
    ScanSorted(Update, keys, antigos, novos);
  }

  /** For an insert, every visible key of the new snapshot appears once, with `antes = None`. */
  lemma InsertChanges(antigos: Object, novos: Object)
    ensures var m := Changes(VStr("INSERT"), antigos, novos);
      && StrictlySorted(Campos(m))
      && (forall c :: c in m <==> (c.campo in Keys(novos) && !Hidden(c.campo) && c.antes == VNone && c.depois == Get(novos, c.campo)))
  {
    var keys := SortedUnique(Keys(novos));
    ScanMembers(Insert, keys, antigos, novos);
    ScanSorted(Insert, keys, antigos, novos);
  }

  /** For a delete, every visible key of the old snapshot appears once, with `depois = None`. */
  lemma DeleteChanges(antigos: Object, novos: Object)
    ensures var m := Changes(VStr("DELETE"), antigos, novos);
      && StrictlySorted(Campos(m))
      && (forall c :: c in m <==> (c.campo in Keys(antigos) && !Hidden(c.campo) && c.antes == Get(antigos, c.campo) && c.depois == VNone))
  {
    var keys := SortedUnique(Keys(antigos));
    ScanMembers(Delete, keys, antigos, novos);
    ScanSorted(Delete, keys, antigos, novos);
  }

  /** Any other action has no changes, and no diff ever shows a hidden key. */
  lemma OtherActionsAndHiddenKeys(acao: Value, antigos: Object, novos: Object)
    ensures ActionOf(acao) == Other ==> Changes(acao, antigos, novos) == []
    ensures forall c :: c in Changes(acao, antigos, novos) ==> !Hidden(c.campo)
  {
    var a := ActionOf(acao);
    ScanMembers(a, KeysFor(a, antigos, novos), antigos, novos);
  }

  /** The part of a log row the preparation adds: `antigos`, `novos` and `mudancas`. */
  datatype Details = Details(antigos: Object, novos: Object, mudancas: seq<Change>)

  /** A row of `logs_sistema` as handed to the template. */
  datatype Log = Log(acao: Value, dadosAntigos: Value, dadosNovos: Value, descricao: Value, details: Option<Details>)

  /** `sanitizar` on the description: falsy values are kept, text goes through the masking function. */
  function Sanitized(v: Value, sanitize: string -> string): Value {
    if v.VStr? && v.s != "" then VStr(sanitize(v.s)) else v
  }

  /** What the loop body does to one log row. */
  function Prepare(l: Log, parse: string -> Option<Object>, sanitize: string -> string): Log
  {
    var antigos := ParseJson(l.dadosAntigos, parse);
    var novos := ParseJson(l.dadosNovos, parse);
    l.(descricao := Sanitized(l.descricao, sanitize),
       details := Some(Details(antigos, novos, Changes(l.acao, antigos, novos))))
  }

  /** The loops that build `mudancas`. */
  method ComputeChanges(acao: Value, antigos: Object, novos: Object) returns (mudancas: seq<Change>)
    ensures mudancas == Changes(acao, antigos, novos)
  {
    var a := ActionOf(acao);
    var keys := KeysFor(a, antigos, novos);
    mudancas := [];
    for i := 0 to |keys|
      invariant mudancas == Scan(a, keys[..i], antigos, novos)
    {
      var k := keys[i];
      assert keys[..i + 1][..i] == keys[..i];
      if !Hidden(k) {
        match a {
          case Update =>
            var antes, depois := Get(antigos, k), Get(novos, k);
            if !PyEq(antes, depois) {
              mudancas := mudancas + [Change(k, antes, depois)];
            }
          case Insert =>
            mudancas := mudancas + [Change(k, VNone, Get(novos, k))];
          case Delete =>
            mudancas := mudancas + [Change(k, Get(antigos, k), VNone)];
          case Other =>
        }
      }
    }
    assert keys[..|keys|] == keys;
  }

  /** Every row prepared, in order. */
  ghost function PrepareAll(logs: seq<Log>, parse: string -> Option<Object>, sanitize: string -> string): (r: seq<Log>)
    ensures |r| == |logs| && forall i :: 0 <= i < |logs| ==> r[i] == Prepare(logs[i], parse, sanitize)
  {
    seq(|logs|, i requires 0 <= i < |logs| => Prepare(logs[i], parse, sanitize))
  }

  /** `_preparar_detalhes_logs`: every row is prepared in place; the list keeps its length and order. */
  method PrepareLogs(logs: array<Log>, parse: string -> Option<Object>, sanitize: string -> string)
    modifies logs
    ensures forall i :: 0 <= i < logs.Length ==> logs[i] == Prepare(old(logs[i]), parse, sanitize)
  {
    ghost var target := PrepareAll(logs[..], parse, sanitize);
    for i := 0 to logs.Length
      invariant forall j :: 0 <= j < i ==> logs[j] == target[j]
      invariant forall j :: i <= j < logs.Length ==> logs[j] == old(logs[j])
    {
      var prepared := PrepareOne(logs[i], parse, sanitize);
      assert prepared == target[i];
      logs[i] := prepared;
    }
  }

  /** The loop body on one row: parse both snapshots, mask the description, build the diff. */
  method PrepareOne(l: Log, parse: string -> Option<Object>, sanitize: string -> string) returns (prepared: Log)
    ensures prepared == Prepare(l, parse, sanitize)
  {
    var antigos := ParseJson(l.dadosAntigos, parse);
    var novos := ParseJson(l.dadosNovos, parse);
    var mudancas := ComputeChanges(l.acao, antigos, novos);
    prepared := l.(descricao := Sanitized(l.descricao, sanitize), details := Some(Details(antigos, novos, mudancas)));
  }
}
