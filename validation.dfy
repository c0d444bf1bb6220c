/**
 * The Brazilian document and contact validators and the CPF/CNPJ formatters. They
 * look only at lengths and repeated digits; no check digit is computed. The copies
 * in `utils.py` and in `ValidacaoService` agree except on the empty CPF.
 */
module Validation {
  import opened Strings

  /** `validar_email`: non-empty, contains '.', and splits at '@' into exactly two non-empty parts. */
  predicate ValidEmail(email: string) {
    email != "" && '@' in email && '.' in email &&
    var parts := Split(email, '@');
    |parts| == 2 && |parts[0]| > 0 && |parts[1]| > 0
  }

  /** An email is accepted iff it has a '.', exactly one '@', and that '@' is neither first nor last. */
  lemma ValidEmailIff(email: string)
    ensures ValidEmail(email) <==>
      '.' in email && Count(email, '@') == 1 &&
      exists i :: 0 < i < |email| - 1 && email[i] == '@'
  {
    if Count(email, '@') == 1 {
      var i :| 0 <= i < |email| && email[i] == '@';
      SplitOne(email, '@', i);
      var parts := Split(email, '@');
      assert parts == [email[..i], email[i + 1..]];
      assert '@' !in parts[0] && '@' !in parts[1];
      assert forall j :: 0 <= j < |email| && email[j] == '@' ==> j == i;
      assert ValidEmail(email) <==> '.' in email && 0 < i < |email| - 1;
    } else {
      assert |Split(email, '@')| != 2;
    }
  }

  /** `validar_cpf` of `utils.py`: exactly 11 digits, not all the same; the empty string is rejected. */
  predicate ValidCpf(cpf: string) {
    var d := Digits(cpf);
    |d| == 11 && !AllSame(d)
  }

  /** `ValidacaoService.validar_cpf`: the CPF is optional, so the empty string is accepted. */
  predicate ValidCpfOptional(cpf: string) {
    cpf == "" || ValidCpf(cpf)
  }

  /** The two CPF validators disagree exactly on the empty string. */
  lemma CpfValidatorsDiffer(cpf: string)
    ensures ValidCpfOptional(cpf) != ValidCpf(cpf) <==> cpf == ""
  {
  }

  /** `validar_cnpj` (both copies): exactly 14 digits, not all the same; the empty string is rejected. */
  predicate ValidCnpj(cnpj: string) {
    if cnpj == "" then false
    else
      var d := Digits(cnpj);
      |d| == 14 && !AllSame(d)
  }

  /** `validar_cep`: empty, or exactly 8 digits once the other characters are dropped. */
  predicate ValidCep(cep: string) {
    cep == "" || |Digits(cep)| == 8
  }

  /** `validar_telefone`: empty, or 10 or 11 digits (area code plus number). */
  predicate ValidPhone(phone: string) {
    phone == "" || |Digits(phone)| in {10, 11}
  }

  /** A CEP written as `ddddd-ddd` is accepted: the hyphen is ignored. */
  lemma {:induction false} CepAcceptsHyphenated(d: string)
    requires |d| == 8 && AllDigits(d)
    ensures ValidCep(d[..5] + "-" + d[5..])
  {
    DigitsAppend(d[..5] + "-", d[5..]);
    DigitsAppend(d[..5], "-");
    DigitsOfDigits(d[..5]);
    DigitsOfDigits(d[5..]);
  }

  /** A phone written as `(dd) ddddd-dddd` is accepted: only its 11 digits count. */
  lemma {:induction false} PhoneAcceptsPunctuated(d: string)
    requires |d| == 11 && AllDigits(d)
    ensures ValidPhone("(" + d[..2] + ") " + d[2..7] + "-" + d[7..])
  {
    var s := "(" + d[..2] + ") " + d[2..7] + "-" + d[7..];
    DigitsAppend("(" + d[..2] + ") " + d[2..7] + "-", d[7..]);
    DigitsAppend("(" + d[..2] + ") " + d[2..7], "-");
    DigitsAppend("(" + d[..2] + ") ", d[2..7]);
    DigitsAppend("(" + d[..2], ") ");
    DigitsAppend("(", d[..2]);
    DigitsOfDigits(d[..2]);
    DigitsOfDigits(d[2..7]);
    DigitsOfDigits(d[7..]);
  }

  /** `formatar_cpf`: `ddd.ddd.ddd-dd` for 11 digits, otherwise the digits alone. */
  function FormatCpf(cpf: string): string {
    var d := Digits(cpf);
    if |d| != 11 then d
    else d[..3] + "." + d[3..6] + "." + d[6..9] + "-" + d[9..]
  }

  /** `formatar_cnpj`: `dd.ddd.ddd/dddd-dd` for 14 digits, otherwise the digits alone. */
  function FormatCnpj(cnpj: string): string {
    var d := Digits(cnpj);
    if |d| != 14 then d
    else d[..2] + "." + d[2..5] + "." + d[5..8] + "/" + d[8..12] + "-" + d[12..]
  }

  /** Appending a non-digit mark and a run of digits appends exactly those digits. */
  lemma DigitsStep(prefix: string, mark: char, piece: string)
    requires !IsDigit(mark) && AllDigits(piece)
    ensures Digits(prefix + [mark] + piece) == Digits(prefix) + piece
  {
    var m := [mark];
    var pm := prefix + m;
    DigitsAppend(pm, piece);
    DigitsAppend(prefix, m);
    NoDigitsInMark(mark);
    DigitsOfDigits(piece);
  }

  lemma NoDigitsInMark(mark: char)
    requires !IsDigit(mark)
    ensures Digits([mark]) == []
  {
    assert [mark][1..] == [];
  }

  /** The 11-digit layout of a CPF: `ddd.ddd.ddd-dd`, whose digits are d again. */
  lemma CpfLayout(d: string)
    requires |d| == 11 && AllDigits(d)
    ensures var r := d[..3] + "." + d[3..6] + "." + d[6..9] + "-" + d[9..];
      Digits(r) == d && |r| == 14 && r[3] == '.' && r[7] == '.' && r[11] == '-'
  {
    var p0 := d[..3];
    DigitsOfDigits(p0);
    var p1 := p0 + "." + d[3..6];
    DigitsStep(p0, '.', d[3..6]);
    var p2 := p1 + "." + d[6..9];
    DigitsStep(p1, '.', d[6..9]);
    var p3 := p2 + "-" + d[9..];
    DigitsStep(p2, '-', d[9..]);
    assert d[..3] + d[3..6] + d[6..9] + d[9..] == d;
  }

  /** Formatting a CPF keeps its digits; the 11-digit case has the punctuation at fixed places. */
  lemma {:induction false} FormatCpfDigits(cpf: string)
    ensures Digits(FormatCpf(cpf)) == Digits(cpf)
    ensures var r := FormatCpf(cpf);
      if |Digits(cpf)| == 11 then |r| == 14 && r[3] == '.' && r[7] == '.' && r[11] == '-'
      else r == Digits(cpf)
  {
    var d := Digits(cpf);
    if |d| == 11 {
      CpfLayout(d);
    } else {
      DigitsOfDigits(d);
    }
  }

  /** Formatting a CPF twice is the same as formatting it once, and it does not change validity. */
  lemma FormatCpfIdempotent(cpf: string)
    ensures FormatCpf(FormatCpf(cpf)) == FormatCpf(cpf)
    ensures ValidCpf(FormatCpf(cpf)) == ValidCpf(cpf)
  {
    FormatCpfDigits(cpf);
  }

  /** The 14-digit layout of a CNPJ: `dd.ddd.ddd/dddd-dd`, whose digits are d again. */
  lemma CnpjLayout(d: string)
    requires |d| == 14 && AllDigits(d)
    ensures var r := d[..2] + "." + d[2..5] + "." + d[5..8] + "/" + d[8..12] + "-" + d[12..];
      Digits(r) == d && |r| == 18 && r[2] == '.' && r[6] == '.' && r[10] == '/' && r[15] == '-'
  {
    var p0 := d[..2];
    DigitsOfDigits(p0);
    var p1 := p0 + "." + d[2..5];
    DigitsStep(p0, '.', d[2..5]);
    var p2 := p1 + "." + d[5..8];
    DigitsStep(p1, '.', d[5..8]);
    var p3 := p2 + "/" + d[8..12];
    DigitsStep(p2, '/', d[8..12]);
    var p4 := p3 + "-" + d[12..];
    DigitsStep(p3, '-', d[12..]);
    assert d[..2] + d[2..5] + d[5..8] + d[8..12] + d[12..] == d;
  }

  /** Formatting a CNPJ keeps its digits; the 14-digit case is 18 characters with fixed punctuation. */
  lemma {:induction false} FormatCnpjDigits(cnpj: string)
    ensures Digits(FormatCnpj(cnpj)) == Digits(cnpj)
    ensures var r := FormatCnpj(cnpj);
      if |Digits(cnpj)| == 14 then |r| == 18 && r[2] == '.' && r[6] == '.' && r[10] == '/' && r[15] == '-'
      else r == Digits(cnpj)
  {
    var d := Digits(cnpj);
    if |d| == 14 {
      CnpjLayout(d);
    } else {
      DigitsOfDigits(d);
    }
  }

  /** Formatting a CNPJ twice is the same as once, and it does not change validity. */
  lemma FormatCnpjIdempotent(cnpj: string)
    ensures FormatCnpj(FormatCnpj(cnpj)) == FormatCnpj(cnpj)
    ensures ValidCnpj(FormatCnpj(cnpj)) == ValidCnpj(cnpj)
  {
    FormatCnpjDigits(cnpj);
  }

  /**
   * `gerar_codigo_acesso(k)`: `random.choices(string.digits, k=k)` joined; the random
   * choices are the parameter `draws` (one index into "0123456789" per character).
   */
  function DigitCode(k: int, draws: seq<int>): (code: string)
    requires |draws| == if k < 0 then 0 else k
    requires forall i :: 0 <= i < |draws| ==> 0 <= draws[i] < 10
    ensures |code| == |draws| && AllDigits(code)
    ensures forall i :: 0 <= i < |code| ==> code[i] as int - '0' as int == draws[i]
  {
    seq(|draws|, i requires 0 <= i < |draws| => ('0' as int + draws[i]) as char)
  }
}
