/**
 * `config.php`: `carregarEnv` reads `.env` line by line into PHP constants, `$_ENV`
 * and the process environment; `env()` looks a key up in that order of precedence.
 */
module EnvConfig {
  import opened Wrappers

  /** The characters PHP's `trim` removes by default: space, tab, LF, CR, NUL and vertical tab. */
  predicate IsPhpSpace(c: char) {
    c == ' ' || c == '\t' || c == '\n' || c == '\r' || c == '\0' || c == 11 as char
  }

  /** The quote characters `trim($valor, '"\'')` removes. */
  predicate IsQuote(c: char) {
    c == '"' || c == '\''
  }

  /** `ltrim`: drops the leading characters `drop` accepts; what is left is a suffix of `s`. */
  function TrimLeft(s: string, drop: char -> bool): (r: string)
    ensures |r| <= |s| && r == s[|s| - |r|..]
    ensures r != [] ==> !drop(r[0])
    ensures forall k :: 0 <= k < |s| - |r| ==> drop(s[k])
  {
    if s != [] && drop(s[0]) then TrimLeft(s[1..], drop) else s
  }

  /** `rtrim`: drops the trailing characters `drop` accepts; what is left is a prefix of `s`. */
  function TrimRight(s: string, drop: char -> bool): (r: string)
    ensures |r| <= |s| && r == s[..|r|]
    ensures r != [] ==> !drop(r[|r| - 1])
    ensures forall k :: |r| <= k < |s| ==> drop(s[k])
  {
    if s != [] && drop(s[|s| - 1]) then TrimRight(s[..|s| - 1], drop) else s
  }

  /** `trim($s, $chars)` for the set of characters `drop`: no dropped character is left at either end. */
  function Trim(s: string, drop: char -> bool): (r: string)
    ensures r != [] ==> !drop(r[0]) && !drop(r[|r| - 1])
    ensures (forall k :: 0 <= k < |s| ==> !drop(s[k])) ==> r == s
  {
    var l := TrimLeft(s, drop);
    var r := TrimRight(l, drop);
    assert r != [] ==> r[0] == l[0];
    r
  }

  /** `explode('=', $linha, 2)`: the text before the first `=` and, when there is one, the text after it. */
  function SplitOnce(line: string): (r: (string, Option<string>))
    ensures '=' !in r.0
    ensures r.1.None? <==> '=' !in line
    ensures r.1.None? ==> r.0 == line
    ensures r.1.Some? ==> line == r.0 + "=" + r.1.value
  {
    if line == [] then ([], None)
    else if line[0] == '=' then
      assert line == [] + "=" + line[1..];
      ([], Some(line[1..]))
    else
      var (k, v) := SplitOnce(line[1..]);
      assert v.Some? ==> line == [line[0]] + k + "=" + v.value;
      ([line[0]] + k, v)
  }

  /** A `KEY=value` entry of the file. */
  datatype Entry = Entry(key: string, value: string)

  /** The trimmed line starts with `#`. */
  predicate IsComment(line: string) {
    var t := Trim(line, IsPhpSpace);
    t != [] && t[0] == '#'
  }

  /**
   * One line: `FILE_SKIP_EMPTY_LINES` drops the empty line, a comment is skipped, and
   * otherwise the trimmed text before the first `=` is the key and the text after it,
   * trimmed and stripped of surrounding quotes, the value. A line without `=` reads
   * as a key with the empty value, as `list(...)` leaves `$valor` null.
   */
  function Parse(line: string): Option<Entry> {
    if line == [] || IsComment(line) then None
    else
      var (k, v) := SplitOnce(line);
      Some(Entry(Trim(k, IsPhpSpace), Trim(Trim(v.GetOr([]), IsPhpSpace), IsQuote)))
  }

  /** Splitting `k=v` where `k` has no `=` gives back `k` and `v`, however many `=` the value holds. */
  lemma {:induction false} SplitOnceAtKey(k: string, v: string)
    requires '=' !in k
    ensures SplitOnce(k + "=" + v) == (k, Some(v))
  {
    var line := k + "=" + v;
    if k == [] {
      assert line[0] == '=' && line[1..] == v;
    } else {
      assert line[0] == k[0] && line[1..] == k[1..] + "=" + v;
      SplitOnceAtKey(k[1..], v);
      assert [k[0]] + k[1..] == k;
    }
  }

  /** Only the first `=` splits: whatever follows it, further `=` included, is the value. */
  lemma ParseSplitsAtFirstEquals(k: string, v: string)
    requires '=' !in k && !IsComment(k + "=" + v)
    ensures Parse(k + "=" + v) == Some(Entry(Trim(k, IsPhpSpace), Trim(Trim(v, IsPhpSpace), IsQuote)))
  {
    SplitOnceAtKey(k, v);
  }

  /** The entries of the file, in line order. */
  function Entries(lines: seq<string>): seq<Entry> {
    if lines == [] then []
    else
      var init := Entries(lines[..|lines| - 1]);
      match Parse(lines[|lines| - 1])
      case None => init
      case Some(e) => init + [e]
  }

  /** `define` for each entry unless already defined: the first definition of a key stays. */
  function Defined(consts: map<string, string>, es: seq<Entry>): map<string, string> {
    if es == [] then consts
    else
      var c := Defined(consts, es[..|es| - 1]);
      var e := es[|es| - 1];
      if e.key in c then c else c[e.key := e.value]
  }

  /** `$_ENV[$chave] = $valor` and `putenv`: each entry overwrites, so the last definition stays. */
  function Assigned(vars: map<string, string>, es: seq<Entry>): map<string, string> {
    if es == [] then vars
    else Assigned(vars, es[..|es| - 1])[es[|es| - 1].key := es[|es| - 1].value]
  }

  /** A constant defined before loading keeps its value; otherwise the key's first entry gives it. */
  lemma {:induction false} DefinedFirst(consts: map<string, string>, es: seq<Entry>, k: string)
    ensures k in consts ==> k in Defined(consts, es) && Defined(consts, es)[k] == consts[k]
    ensures k !in consts ==> (k in Defined(consts, es) <==> exists i :: 0 <= i < |es| && es[i].key == k)
    ensures forall i :: 0 <= i < |es| && es[i].key == k && k !in consts && (forall j :: 0 <= j < i ==> es[j].key != k) ==>
      Defined(consts, es)[k] == es[i].value
  {
    if es != [] {
      var init := es[..|es| - 1];
      DefinedFirst(consts, init, k);
      forall i | 0 <= i < |init| ensures init[i] == es[i] {
      }
      if k !in consts && k in Defined(consts, init) {
        var i :| 0 <= i < |init| && init[i].key == k;
        assert es[i].key == k;
      }
    }
  }

  /** A variable the file never sets keeps its earlier value (or stays unset). */
  lemma {:induction false} AssignedUntouched(vars: map<string, string>, es: seq<Entry>, k: string)
    requires forall i :: 0 <= i < |es| ==> es[i].key != k
    ensures k in Assigned(vars, es) <==> k in vars
    ensures k in vars ==> Assigned(vars, es)[k] == vars[k]
  {
    if es != [] {
      AssignedUntouched(vars, es[..|es| - 1], k);
    }
  }

  /** A variable the file sets holds the value of its last entry. */
  lemma {:induction false} AssignedLast(vars: map<string, string>, es: seq<Entry>, k: string, i: nat)
    requires i < |es| && es[i].key == k
    requires forall j :: i < j < |es| ==> es[j].key != k
    ensures k in Assigned(vars, es) && Assigned(vars, es)[k] == es[i].value
  {
    if i < |es| - 1 {
      var init := es[..|es| - 1];
      assert init[i] == es[i];
      forall j | i < j < |init| ensures init[j].key != k {
        assert init[j] == es[j];
      }
      AssignedLast(vars, init, k, i);
    }
  }

  /** `env($chave, $padrao)`: the defined constant, else the environment variable, else the default. */
  function Lookup(consts: map<string, string>, environ: map<string, string>, k: string, d: Option<string>): Option<string>
  {
    if k in consts then Some(consts[k])
    else if k in environ then Some(environ[k])
    else d
  }

  /**
   * A key the file sets twice (and nobody defined before) reads through `env()` as
   * its first value, while `$_ENV` and `getenv` hold the second.
   */
  lemma DuplicateKeyDisagrees(consts: map<string, string>, environ: map<string, string>, k: string, a: string, b: string, d: Option<string>)
    requires k !in consts
    ensures var es := [Entry(k, a), Entry(k, b)];
      Lookup(Defined(consts, es), Assigned(environ, es), k, d) == Some(a) && Assigned(environ, es)[k] == b
  {
    var es := [Entry(k, a), Entry(k, b)];
    DefinedFirst(consts, es, k);
    AssignedLast(environ, es, k, 1);
  }

  /**
   * What `env()` reads after the file's entries are loaded: a constant defined before
   * keeps its value; a key the file sets reads as its first entry, whatever the default;
   * any other key reads as it did before loading.
   */
  lemma EnvAfterLoad(consts: map<string, string>, environ: map<string, string>, es: seq<Entry>, k: string, d: Option<string>)
    ensures k in consts ==> Lookup(Defined(consts, es), Assigned(environ, es), k, d) == Some(consts[k])
    ensures forall i :: 0 <= i < |es| && es[i].key == k && k !in consts && (forall j :: 0 <= j < i ==> es[j].key != k) ==>
      Lookup(Defined(consts, es), Assigned(environ, es), k, d) == Some(es[i].value)
    ensures (forall i :: 0 <= i < |es| ==> es[i].key != k) ==>
      Lookup(Defined(consts, es), Assigned(environ, es), k, d) == Lookup(consts, environ, k, d)
  {
    DefinedFirst(consts, es, k);
    if forall i :: 0 <= i < |es| ==> es[i].key != k {
      AssignedUntouched(environ, es, k);
    }
  }

  /** The entry (if any) a line adds. */
  function Extend(es: seq<Entry>, p: Option<Entry>): seq<Entry> {
    match p
    case None => es
    case Some(e) => es + [e]
  }

  lemma EntriesStep(lines: seq<string>, i: nat)
    requires i < |lines|
    ensures Entries(lines[..i + 1]) == Extend(Entries(lines[..i]), Parse(lines[i]))
  {
    assert lines[..i + 1][..i] == lines[..i];
    assert lines[..i + 1][i] == lines[i];
  }

  /** What one more entry does to the three stores. */
  lemma StoreStep(c: map<string, string>, a: map<string, string>, es: seq<Entry>, e: Entry)
    ensures Defined(c, es + [e]) == (if e.key in Defined(c, es) then Defined(c, es) else Defined(c, es)[e.key := e.value])
    ensures Assigned(a, es + [e]) == Assigned(a, es)[e.key := e.value]
  {
    assert (es + [e])[..|es|] == es;
  }

  /** The PHP process state `carregarEnv` writes and `env()` reads. */
  class Environment {
    /** The constants `define` created. */
    var consts: map<string, string>
    /** The `$_ENV` array. */
    var envArray: map<string, string>
    /** The process environment `putenv` writes and `getenv` reads. */
    var environ: map<string, string>

    constructor (consts0: map<string, string>, envArray0: map<string, string>, environ0: map<string, string>)
      ensures consts == consts0 && envArray == envArray0 && environ == environ0
    {
      consts := consts0;
      envArray := envArray0;
      environ := environ0;
    }

    /**
     * `carregarEnv`: `exists` says whether the file is there (if not, the script dies
     * and nothing is loaded); `lines` are its lines.
     */
    method CarregarEnv(exists_: bool, lines: seq<string>) returns (loaded: bool)
      modifies this
      ensures loaded == exists_
      ensures !exists_ ==> consts == old(consts) && envArray == old(envArray) && environ == old(environ)
      ensures exists_ ==>
        && consts == Defined(old(consts), Entries(lines))
        && envArray == Assigned(old(envArray), Entries(lines))
        && environ == Assigned(old(environ), Entries(lines))
    {
      if !exists_ {
        return false;
      }
      var c, a, en := consts, envArray, environ;
      for i := 0 to |lines|
        invariant c == Defined(old(consts), Entries(lines[..i]))
        invariant a == Assigned(old(envArray), Entries(lines[..i]))
        invariant en == Assigned(old(environ), Entries(lines[..i]))
      {
        EntriesStep(lines, i);
        match Parse(lines[i]) {
          case None =>
          case Some(e) =>
            StoreStep(old(consts), old(envArray), Entries(lines[..i]), e);
            StoreStep(old(consts), old(environ), Entries(lines[..i]), e);
            if e.key !in c {
              c := c[e.key := e.value];
            }
            a := a[e.key := e.value];
            en := en[e.key := e.value];
        }
      }
      assert lines[..|lines|] == lines;
      consts, envArray, environ := c, a, en;
      loaded := true;
    }

    /** `env()` on the current constants and environment. */
    method Env(k: string, d: Option<string>) returns (r: Option<string>)
      ensures r == Lookup(consts, environ, k, d)
    {
      if k in consts {
        return Some(consts[k]);
      }
      if k in environ {
        return Some(environ[k]);
      }
      return d;
    }
  }
}
