/**
 * The PHP access-code store of `classes/CodigoAcesso.php` over the `codigo_acesso`
 * table. Codes are bound to an email only: creating one retires every unused code
 * of that email, and validation ignores `tipo_usuario`.
 */
module AccessCodes {
  import opened Wrappers
  import opened Tables

  /** The characters `gerarCodigo` shuffles. */
  const ALPHABET: string := "0123456789ABCDEFGHIJKLMNOPQRSTUVWXYZ"
  /** The default of `CODIGO_ACESSO_TAMANHO`. */
  const DEFAULT_CODE_LENGTH: int := 6
  /** The default of `CODIGO_ACESSO_EXPIRACAO`, in seconds; the code divides it by 60 to get minutes. */
  const DEFAULT_EXPIRY_SECONDS: int := 600

  /**
   * The configuration `CodigoAcesso` reads from the environment: `(int)` of
   * `CODIGO_ACESSO_TAMANHO` and the whole minutes of `CODIGO_ACESSO_EXPIRACAO / 60`.
   */
  datatype Config = Config(codeLength: int, expiryMinutes: int)

  /** The configuration when neither variable is set. */
  function DefaultConfig(): (c: Config)
    ensures c.codeLength == 6 && c.expiryMinutes * 60 == 600
  {
    Config(DEFAULT_CODE_LENGTH, DEFAULT_EXPIRY_SECONDS / 60)
  }

  /** No character occurs twice. */
  predicate Distinct(s: string) {
    forall i, j :: 0 <= i < j < |s| ==> s[i] != s[j]
  }

  /** A result of `str_shuffle(ALPHABET)`: the alphabet in some order. */
  predicate IsShuffle(s: string) {
    |s| == |ALPHABET| && Distinct(s) && forall i :: 0 <= i < |s| ==> s[i] in ALPHABET
  }

  /** PHP's `substr($s, 0, $n)`: a negative length leaves out that many characters from the end. */
  function Prefix(s: string, n: int): (r: string)
    ensures r <= s
    ensures n >= 0 ==> |r| == (if n < |s| then n else |s|)
    ensures n < 0 ==> |r| == (if -n < |s| then |s| + n else 0)
  {
    if n >= 0 then (if n < |s| then s[..n] else s)
    else if -n < |s| then s[..|s| + n]
    else ""
  }

  /** One character under `strtoupper`. */
  function UpperChar(c: char): (u: char)
    ensures 'a' <= c <= 'z' ==> u == (c as int - 32) as char
    ensures !('a' <= c <= 'z') ==> u == c
    ensures !('a' <= u <= 'z')
  {
    if 'a' <= c <= 'z' then (c as int - 32) as char else c
  }

  /** PHP's `strtoupper` on ASCII letters. */
  function Upper(s: string): (r: string)
    ensures |r| == |s| && forall i :: 0 <= i < |s| ==> r[i] == UpperChar(s[i])
    ensures forall i :: 0 <= i < |r| ==> !('a' <= r[i] <= 'z')
    ensures forall i :: 0 <= i < |s| && !('a' <= s[i] <= 'z') ==> r[i] == s[i]
    ensures forall i :: 0 <= i < |s| && 'a' <= s[i] <= 'z' ==> r[i] == (s[i] as int - 32) as char
  {
    if s == [] then []
    else [UpperChar(s[0])] + Upper(s[1..])
  }

  /** Upper-casing leaves a string over the code alphabet unchanged. */
  lemma {:induction false} UpperKeepsAlphabet(s: string)
    requires forall i :: 0 <= i < |s| ==> s[i] in ALPHABET
    ensures Upper(s) == s
  {
    if s != [] {
      AlphabetNotLower(s[0]);
      UpperKeepsAlphabet(s[1..]);
    }
  }

  /** The code alphabet has no lower-case letter. */
  lemma AlphabetNotLower(c: char)
    requires c in ALPHABET
    ensures !('a' <= c <= 'z')
  {
    var i :| 0 <= i < |ALPHABET| && ALPHABET[i] == c;
  }

  /**
   * `gerarCodigo($n)` on a shuffled alphabet: `min(n, 36)` distinct characters of the
   * alphabet for `n >= 0`, and the shuffle less its last `-n` characters otherwise.
   */
  function GenerateCode(shuffled: string, n: int): (code: string)
    requires IsShuffle(shuffled)
    ensures n >= 0 ==> |code| == (if n < |ALPHABET| then n else |ALPHABET|)
    ensures n < 0 ==> |code| == (if -n < |ALPHABET| then |ALPHABET| + n else 0)
    ensures Distinct(code) && forall i :: 0 <= i < |code| ==> code[i] in ALPHABET
  {
    var p := Prefix(shuffled, n);
    UpperKeepsAlphabet(p);
    Upper(p)
  }

  /** A row of `codigo_acesso`. */
  datatype AccessCode = AccessCode(id: int, email: string, codigo: string, tipoUsuario: string,
                                   expiraEm: int, usado: bool, criadoEm: int)

  /** `UPDATE codigo_acesso SET usado = 1 WHERE email = ... AND usado = 0`. */
  function RetireUnused(rows: seq<AccessCode>, email: string): seq<AccessCode>
  {
    seq(|rows|, i requires 0 <= i < |rows| =>
      if rows[i].email == email && !rows[i].usado then rows[i].(usado := true) else rows[i])
  }

  /** The row `criarCodigo` inserts: unused, created now, expiring after the configured number of minutes. */
  function NewAccessCode(id: int, email: string, code: string, tipo: string, now: int, minutes: int): (row: AccessCode)
    ensures row.email == email && row.codigo == code && row.tipoUsuario == tipo && !row.usado
    ensures row.criadoEm == now && row.expiraEm - now == minutes * 60
    ensures minutes > 0 <==> CanValidate(row, email, code, now)
  {
    AccessCode(id, email, code, tipo, now + minutes * 60, false, now)
  }

  /** The WHERE clause of `validarCodigo`; note that `tipo_usuario` plays no part. */
  predicate CanValidate(row: AccessCode, email: string, code: string, now: int) {
    row.email == email && row.codigo == code && !row.usado && row.expiraEm > now
  }

  /** `... ORDER BY criado_em DESC LIMIT 1`. */
  function FindValid(rows: seq<AccessCode>, email: string, code: string, now: int): (r: Option<nat>)
    ensures r.Some? ==> r.value < |rows| && CanValidate(rows[r.value], email, code, now)
    ensures r.Some? ==> forall j :: 0 <= j < |rows| && CanValidate(rows[j], email, code, now) ==>
      rows[j].criadoEm <= rows[r.value].criadoEm
    ensures r.None? <==> forall j :: 0 <= j < |rows| ==> !CanValidate(rows[j], email, code, now)
  {
    Newest(rows, (c: AccessCode) => c.criadoEm, (c: AccessCode) => CanValidate(c, email, code, now))
  }

  /** `UPDATE codigo_acesso SET usado = 1 WHERE id = ...`. */
  function MarkUsed(rows: seq<AccessCode>, id: int): seq<AccessCode>
  {
    seq(|rows|, i requires 0 <= i < |rows| => if rows[i].id == id then rows[i].(usado := true) else rows[i])
  }

  /** The rows `limparCodigosExpirados` keeps: not yet expired (`expira_em >= now`) and unused. */
  predicate Survives(row: AccessCode, now: int) {
    !(row.expiraEm < now || row.usado)
  }

  /** `DELETE FROM codigo_acesso WHERE expira_em < now OR usado = 1`. */
  function Cleanup(rows: seq<AccessCode>, now: int): (r: seq<AccessCode>)
    ensures forall x :: x in r <==> x in rows && Survives(x, now)
    ensures |r| <= |rows|
  {
    Filter(rows, (row: AccessCode) => Survives(row, now))
  }

  /** Every email has at most one unused row. */
  predicate OneUnusedPerEmail(rows: seq<AccessCode>) {
    forall x, y :: x in rows && y in rows && !x.usado && !y.usado && x.email == y.email ==> x == y
  }

  /** Row ids are distinct and below the next id to hand out. */
  predicate IdsBelow(rows: seq<AccessCode>, next: int) {
    (forall i :: 0 <= i < |rows| ==> rows[i].id < next) &&
    forall i, j :: 0 <= i < j < |rows| ==> rows[i].id != rows[j].id
  }

  /**
   * After `criarCodigo`, the new row is the only unused code of its email, whatever
   * `tipo_usuario` the earlier codes had; other emails keep the property if they had it.
   */
  lemma CreateLeavesOneUnused(rows: seq<AccessCode>, row: AccessCode)
    requires !row.usado
    ensures var after := RetireUnused(rows, row.email) + [row];
      forall i :: 0 <= i < |after| && after[i].email == row.email && !after[i].usado ==> i == |rows|
    ensures OneUnusedPerEmail(rows) ==> OneUnusedPerEmail(RetireUnused(rows, row.email) + [row])
  {
  }

  /** Marking a row used keeps at most one unused code per email and the ids as they were. */
  lemma MarkUsedKeepsInvariants(rows: seq<AccessCode>, id: int, next: int)
    requires OneUnusedPerEmail(rows) && IdsBelow(rows, next)
    ensures OneUnusedPerEmail(MarkUsed(rows, id)) && IdsBelow(MarkUsed(rows, id), next)
  {
  }

  /**
   * The table after `criarCodigo`: ids stay distinct and below the next id, and when the
   * retiring UPDATE went through the new row is its email's only unused code.
   */
  lemma CreateKeepsInvariants(rows: seq<AccessCode>, next: int, row: AccessCode, retired: bool, stored: bool)
    requires IdsBelow(rows, next) && row.id == next && !row.usado
    ensures var after := (if retired then RetireUnused(rows, row.email) else rows) + (if stored then [row] else []);
      && IdsBelow(after, if stored then next + 1 else next)
      && (retired && OneUnusedPerEmail(rows) ==> OneUnusedPerEmail(after))
      && (retired && stored ==> forall i :: 0 <= i < |after| && after[i].email == row.email && !after[i].usado ==> i == |after| - 1)
  {
    var kept := if retired then RetireUnused(rows, row.email) else rows;
    if retired {
      RetireKeepsIds(rows, row.email, next);
    }
    if stored {
      InsertKeepsIds(kept, row, next);
      if retired {
        CreateLeavesOneUnused(rows, row);
      }
    } else {
      assert kept + [] == kept;
    }
  }

  /** Marking a row used keeps the ids as they were. */
  lemma MarkUsedKeepsIds(rows: seq<AccessCode>, id: int, next: int)
    requires IdsBelow(rows, next)
    ensures IdsBelow(MarkUsed(rows, id), next)
  {
  }

  /** Removing rows keeps at most one unused code per email. */
  lemma CleanupKeepsOneUnused(rows: seq<AccessCode>, now: int)
    requires OneUnusedPerEmail(rows)
    ensures OneUnusedPerEmail(Cleanup(rows, now))
  {
  }

  /** Removing rows keeps the ids distinct and below the next id. */
  lemma CleanupKeepsIds(rows: seq<AccessCode>, now: int, next: int)
    requires IdsBelow(rows, next)
    ensures IdsBelow(Cleanup(rows, now), next)
  {
    var key := (row: AccessCode) => row.id;
    assert DistinctBy(rows, key);
    FilterKeepsDistinct(rows, (row: AccessCode) => Survives(row, now), key);
    var r := Cleanup(rows, now);
    forall i | 0 <= i < |r|
      ensures r[i].id < next
    {
      assert r[i] in rows;
    }
  }

  /** Inserting a row with the next id keeps ids distinct and below the new next id. */
  lemma InsertKeepsIds(rows: seq<AccessCode>, row: AccessCode, next: int)
    requires IdsBelow(rows, next) && row.id == next
    ensures IdsBelow(rows + [row], next + 1)
  {
  }

  /** Retiring codes keeps the ids. */
  lemma RetireKeepsIds(rows: seq<AccessCode>, email: string, next: int)
    requires IdsBelow(rows, next)
    ensures IdsBelow(RetireUnused(rows, email), next)
  {
  }

  /**
   * When the retiring UPDATE fails, `criarCodigo` goes on to insert: an email that had
   * an unused code now has two.
   */
  lemma FailedRetireLeavesTwoUnused(rows: seq<AccessCode>, k: nat, row: AccessCode)
    requires k < |rows| && !rows[k].usado && !row.usado && rows[k].email == row.email && rows[k] != row
    ensures !OneUnusedPerEmail(rows + [row])
  {
    var after := rows + [row];
    assert after[k] == rows[k] && after[|rows|] == row;
  }

  /**
   * With at most one unused code per email, a code accepted once is refused on every
   * later attempt, whatever the time.
   */
  lemma SecondValidationFails(rows: seq<AccessCode>, email: string, code: string, now: int, later: int)
    requires OneUnusedPerEmail(rows)
    requires FindValid(rows, email, code, now).Some?
    ensures var k := FindValid(rows, email, code, now).value;
      FindValid(MarkUsed(rows, rows[k].id), email, code, later).None?
  {
    var k := FindValid(rows, email, code, now).value;
    var after := MarkUsed(rows, rows[k].id);
    forall j | 0 <= j < |after|
      ensures !CanValidate(after[j], email, code, later)
    {
    }
  }

  /**
   * Validation ignores `tipo_usuario`: two tables that differ only in that column
   * select the same row.
   */
  lemma ValidationIgnoresTipo(rows: seq<AccessCode>, other: seq<AccessCode>, email: string, code: string, now: int)
    requires |other| == |rows|
    requires forall i :: 0 <= i < |rows| ==> other[i] == rows[i].(tipoUsuario := other[i].tipoUsuario)
    ensures FindValid(other, email, code, now) == FindValid(rows, email, code, now)
  {
    var a, b := FindValid(rows, email, code, now), FindValid(other, email, code, now);
    assert forall j :: 0 <= j < |rows| ==>
      (CanValidate(rows[j], email, code, now) <==> CanValidate(other[j], email, code, now));
  }

  /**
   * At the boundary `expira_em == now` an unused row survives cleanup and yet cannot
   * validate; every row that can validate survives cleanup.
   */
  lemma CleanupBoundary(rows: seq<AccessCode>, email: string, code: string, now: int)
    ensures forall x :: x in rows && x.expiraEm == now && !x.usado ==>
      x in Cleanup(rows, now) && !CanValidate(x, email, code, now)
    ensures forall x :: x in rows && CanValidate(x, email, code, now) ==> x in Cleanup(rows, now)
  {
  }

  /**
   * The `codigo_acesso` table as `CodigoAcesso` sees it. Every query's outcome is a
   * parameter; the class checks only the INSERT's, so a failed UPDATE or DELETE leaves
   * the table as it was and the caller is not told.
   */
  class AccessCodeStore {
    var rows: seq<AccessCode>
    var nextId: int

    ghost predicate Valid()
      reads this
    {
      IdsBelow(rows, nextId)
    }

    constructor ()
      ensures Valid() && rows == [] && OneUnusedPerEmail(rows)
    {
      rows := [];
      nextId := 1;
    }

    /**
     * `criarCodigo`: retire the email's unused codes (`retired`: that UPDATE went
     * through), then insert a fresh code of `cfg.codeLength` characters drawn from
     * `shuffled` (`stored`: the INSERT succeeded). The code and its expiry are returned
     * when the INSERT succeeds.
     */
    method Create(cfg: Config, email: string, tipo: string, shuffled: string, now: int, retired: bool, stored: bool)
      returns (r: Option<(string, int)>)
      requires Valid() && IsShuffle(shuffled)
      modifies this
      ensures Valid()
      ensures var code := GenerateCode(shuffled, cfg.codeLength);
        && rows == (if retired then RetireUnused(old(rows), email) else old(rows))
                   + (if stored then [NewAccessCode(old(nextId), email, code, tipo, now, cfg.expiryMinutes)] else [])
        && r == (if stored then Some((code, now + cfg.expiryMinutes * 60)) else None)
      ensures retired && OneUnusedPerEmail(old(rows)) ==> OneUnusedPerEmail(rows)
      ensures retired && stored ==> forall i :: 0 <= i < |rows| && rows[i].email == email && !rows[i].usado ==> i == |rows| - 1
    {
      var code := GenerateCode(shuffled, cfg.codeLength);
      var row := NewAccessCode(nextId, email, code, tipo, now, cfg.expiryMinutes);
      CreateKeepsInvariants(rows, nextId, row, retired, stored);
      rows := (if retired then RetireUnused(rows, email) else rows) + (if stored then [row] else []);
      if stored {
        nextId := nextId + 1;
        r := Some((code, row.expiraEm));
      } else {
        r := None;
      }
    }

    /**
     * `validarCodigo`: the newest valid row, returned as it was read; `marked` says
     * whether the UPDATE that marks it used went through.
     */
    method Validate(email: string, code: string, now: int, marked: bool) returns (r: Option<AccessCode>)
      requires Valid()
      modifies this
      ensures Valid() && nextId == old(nextId)
      ensures OneUnusedPerEmail(old(rows)) ==> OneUnusedPerEmail(rows)
      ensures match FindValid(old(rows), email, code, now)
        case None => r == None && rows == old(rows)
        case Some(k) => r == Some(old(rows)[k]) && rows == (if marked then MarkUsed(old(rows), old(rows)[k].id) else old(rows))
    {
      match FindValid(rows, email, code, now) {
        case None => r := None;
        case Some(k) =>
          var row := rows[k];
          if marked {
            MarkUsedKeepsIds(rows, row.id, nextId);
            if OneUnusedPerEmail(rows) {
              MarkUsedKeepsInvariants(rows, row.id, nextId);
            }
            rows := MarkUsed(rows, row.id);
          }
          r := Some(row);
      }
    }

    /** `limparCodigosExpirados`: returns whether the DELETE (`deleted`) went through. */
    method CleanupExpired(now: int, deleted: bool) returns (ok: bool)
      requires Valid()
      modifies this
      ensures Valid() && nextId == old(nextId) && ok == deleted
      ensures OneUnusedPerEmail(old(rows)) ==> OneUnusedPerEmail(rows)
      ensures rows == if deleted then Cleanup(old(rows), now) else old(rows)
    {
      ok := deleted;
      if deleted {
        if OneUnusedPerEmail(rows) {
          CleanupKeepsOneUnused(rows, now);
        }
        CleanupKeepsIds(rows, now, nextId);
        rows := Cleanup(rows, now);
      }
    }
  }
}
