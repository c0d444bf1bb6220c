/**
 * `CRUDService.verificar_dependencias` of `core/services.py`: before a deletion,
 * one `COUNT(*)` per dependent table, and one blocking message per table that
 * still references the record.
 */
module Dependencies {
  import opened Wrappers

  /** One entry of `checagens`: the table, its referencing column, and the noun for the message. */
  datatype Check = Check(tabela: string, campo: string, mensagem: string)

  /** The row a count query returned; `None` when the query failed. */
  type CountRow = Option<map<string, int>>

  /** `resultado and isinstance(resultado, dict) and int(resultado.get('total', 0)) > 0`. */
  predicate Blocks(r: CountRow) {
    r.Some? && r.value != map[] && "total" in r.value && r.value["total"] > 0
  }

  /** The message for a blocking check. */
  function Message(c: Check): string {
    "Possui " + c.mensagem + " vinculados."
  }

  /** The messages of the blocking checks, in the order of the checks. */
  function BlockMessages(checks: seq<Check>, results: seq<CountRow>): (r: seq<string>)
    requires |results| == |checks|
    ensures |r| <= |checks|
  {
    if checks == [] then []
    else (if Blocks(results[0]) then [Message(checks[0])] else []) + BlockMessages(checks[1..], results[1..])
  }

  /**
   * There is a message exactly for each blocking check: none at all iff nothing blocks,
   * each blocking check's message present, and every message owed to a blocking check.
   */
  lemma {:induction false} BlockMessagesMeaning(checks: seq<Check>, results: seq<CountRow>)
    requires |results| == |checks|
    ensures var r := BlockMessages(checks, results);
      && (r == [] <==> forall i :: 0 <= i < |checks| ==> !Blocks(results[i]))
      && (forall i :: 0 <= i < |checks| && Blocks(results[i]) ==> Message(checks[i]) in r)
      && (forall m :: m in r ==> exists i :: 0 <= i < |checks| && Blocks(results[i]) && m == Message(checks[i]))
  {
    if checks != [] {
      var cs, rs := checks[1..], results[1..];
      BlockMessagesMeaning(cs, rs);
      var rest := BlockMessages(cs, rs);
      var r := BlockMessages(checks, results);
      forall i | 1 <= i < |checks|
        ensures checks[i] == cs[i - 1] && results[i] == rs[i - 1]
      {
      }
      forall m | m in r
        ensures exists i :: 0 <= i < |checks| && Blocks(results[i]) && m == Message(checks[i])
      {
        if m !in rest {
          assert Blocks(results[0]) && m == Message(checks[0]);
        } else {
          var i :| 0 <= i < |cs| && Blocks(rs[i]) && m == Message(cs[i]);
          assert checks[i + 1] == cs[i] && results[i + 1] == rs[i];
        }
      }
    }
  }

  /** Each blocking check contributes exactly one message: the count equals the number of blocking checks. */
  function CountBlocking(results: seq<CountRow>): nat {
    if results == [] then 0 else (if Blocks(results[0]) then 1 else 0) + CountBlocking(results[1..])
  }

  lemma {:induction false} BlockMessagesCount(checks: seq<Check>, results: seq<CountRow>)
    requires |results| == |checks|
    ensures |BlockMessages(checks, results)| == CountBlocking(results)
  {
    if checks != [] {
      BlockMessagesCount(checks[1..], results[1..]);
    }
  }

  /** Extending the checks by one adds its message at the end when it blocks. */
  lemma {:induction false} BlockMessagesAppend(checks: seq<Check>, results: seq<CountRow>, c: Check, r: CountRow)
    requires |results| == |checks|
    ensures BlockMessages(checks + [c], results + [r]) ==
      BlockMessages(checks, results) + (if Blocks(r) then [Message(c)] else [])
  {
    if checks == [] {
      assert ([c] + [])[1..] == [] && ([r] + [])[1..] == [];
    } else {
      assert (checks + [c])[1..] == checks[1..] + [c];
      assert (results + [r])[1..] == results[1..] + [r];
      BlockMessagesAppend(checks[1..], results[1..], c, r);
    }
  }

  /**
   * `verificar_dependencias`, given the row each count query returns (the record id
   * is part of those queries).
   */
  method VerifyDependencies(checks: seq<Check>, results: seq<CountRow>) returns (bloqueios: seq<string>)
    requires |results| == |checks|
    ensures bloqueios == BlockMessages(checks, results)
  {
    bloqueios := [];
    var k := 0;
    while k < |checks|
      invariant 0 <= k <= |checks|
      invariant bloqueios == BlockMessages(checks[..k], results[..k])
    {
      BlockMessagesAppend(checks[..k], results[..k], checks[k], results[k]);
      assert checks[..k + 1] == checks[..k] + [checks[k]];
      assert results[..k + 1] == results[..k] + [results[k]];
      if Blocks(results[k]) {
        bloqueios := bloqueios + [Message(checks[k])];
      }
      k := k + 1;
    }
    assert checks[..k] == checks && results[..k] == results;
  }
}
