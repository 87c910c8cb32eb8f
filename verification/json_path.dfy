/** Rendering a list of object keys as a JSONPath expression
    (`KeyListToJsonPath`). */
module JsonPath {

  /** One key of the list. Go's `int` takes its own branch; strings take
      theirs; every other value (including other integer types) is written
      with `%v`, whose output `text` stands for. */
  datatype Key = IntKey(i: int) | StrKey(s: string) | OtherKey(text: string)

  function DigitChar(d: nat): (ch: char)
    requires d < 10
    ensures '0' <= ch <= '9'
  {
    "0123456789"[d]
  }

  function DigitValue(ch: char): nat {
    if '0' <= ch <= '9' then (ch - '0') as nat else 0
  }

  predicate AllDigits(s: string) {
    forall i :: 0 <= i < |s| ==> '0' <= s[i] <= '9'
  }

  /** Decimal digits of `n`, most significant first, without leading zeros. */
  function NatToString(n: nat): (r: string)
    ensures |r| >= 1 && AllDigits(r)
    ensures r[0] == '0' ==> n == 0
    decreases n
  {
    if n < 10 then [DigitChar(n)] else NatToString(n / 10) + [DigitChar(n % 10)]
  }

  /** Go's `%d`: a minus sign before the digits of a negative value. */
  function IntToString(i: int): (r: string)
    ensures |r| >= 1
    ensures i < 0 <==> r[0] == '-'
    ensures i >= 0 ==> AllDigits(r)
    ensures i < 0 ==> AllDigits(r[1..])
  {
    if i < 0 then "-" + NatToString(-i) else NatToString(i)
  }

  /** The value of a string of decimal digits. */
  function DigitsValue(s: string): nat
    decreases |s|
  {
    if s == [] then 0 else DigitsValue(s[..|s| - 1]) * 10 + DigitValue(s[|s| - 1])
  }

  /** The value of `%d` output: the inverse of `IntToString`. */
  function ParseInt(s: string): int {
    if s != [] && s[0] == '-' then 0 - DigitsValue(s[1..]) else DigitsValue(s)
  }

  lemma {:induction false} NatToStringRoundTrip(n: nat)
    ensures DigitsValue(NatToString(n)) == n
    decreases n
  {
    if n >= 10 {
      var s := NatToString(n);
      NatToStringRoundTrip(n / 10);
      assert s[..|s| - 1] == NatToString(n / 10);
    }
  }

  /** Integer keys are written so that their value can be read back. */
  lemma IntToStringRoundTrip(i: int)
    ensures ParseInt(IntToString(i)) == i
  {
    if i < 0 {
      var digits := NatToString(-i);
      var r := "-" + digits;
      assert r[0] == '-' && r[1..] == digits;
      NatToStringRoundTrip(-i);
      assert IntToString(i) == r;
    } else {
      NatToStringRoundTrip(i);
      var r := NatToString(i);
      assert r[0] != '-';
    }
  }

  /** The bracketed form of a string key: single quotes when it contains a
      double quote, double quotes otherwise. */
  function Bracketed(s: string): (r: string)
    ensures '"' in s ==> r == "['" + s + "']"
    ensures '"' !in s ==> r == "[\"" + s + "\"]"
  {
    if '"' in s then "['" + s + "']" else "[\"" + s + "\""  + "]"
  }

  /** `p` itself, or the root `$` when `p` is empty. */
  function Rooted(p: string): (r: string)
    ensures p != "" ==> r == p
    ensures p == "" ==> r == "$"
  {
    if p == "" then "$" else p
  }

  /** The path after one more key (`isAlpha` stands for the package's
      identifier pattern). */
  function Step(p: string, k: Key, isAlpha: string -> bool): (r: string)
    ensures |p| <= |r| && r[..|p|] == p
  {
    match k
    case IntKey(i) => p + "[" + IntToString(i) + "]"
    case StrKey(s) =>
      if isAlpha(s) then (if p != "" then p + "." else p) + s
      else Rooted(p) + Bracketed(s)
    case OtherKey(text) => Rooted(p) + "[" + text + "]"
  }

  /** `KeyListToJsonPath`: the keys applied in order, starting from "". */
  function KeyListToJsonPath(keys: seq<Key>, isAlpha: string -> bool): (r: string)
    ensures keys == [] ==> r == ""
    decreases |keys|
  {
    if keys == [] then ""
    else Step(KeyListToJsonPath(keys[..|keys| - 1], isAlpha), keys[|keys| - 1], isAlpha)
  }

  lemma AppendKey(keys: seq<Key>, k: Key, isAlpha: string -> bool)
    ensures KeyListToJsonPath(keys + [k], isAlpha) == Step(KeyListToJsonPath(keys, isAlpha), k, isAlpha)
  {
  }

  /** An integer key appends `[i]`, never a root `$`, even as first key. */
  lemma IntKeyAppends(keys: seq<Key>, i: int, isAlpha: string -> bool)
    ensures KeyListToJsonPath(keys + [IntKey(i)], isAlpha) ==
            KeyListToJsonPath(keys, isAlpha) + "[" + IntToString(i) + "]"
  {
    AppendKey(keys, IntKey(i), isAlpha);
  }

  /** An identifier key is appended bare, after a '.' exactly when the path
      so far is non-empty. */
  lemma AlphaKeyAppends(keys: seq<Key>, s: string, isAlpha: string -> bool)
    requires isAlpha(s)
    ensures var p := KeyListToJsonPath(keys, isAlpha);
      KeyListToJsonPath(keys + [StrKey(s)], isAlpha) == (if p != "" then p + "." + s else s)
  {
    AppendKey(keys, StrKey(s), isAlpha);
  }

  /** Any other string key is bracketed, after a root `$` when the path so
      far is empty; the quotes are single ones exactly when the key holds a
      double quote. */
  lemma QuotedKeyAppends(keys: seq<Key>, s: string, isAlpha: string -> bool)
    requires !isAlpha(s)
    ensures var p := KeyListToJsonPath(keys, isAlpha);
      var q := KeyListToJsonPath(keys + [StrKey(s)], isAlpha);
      && ('"' in s ==> q == (if p == "" then "$" else p) + "['" + s + "']")
      && ('"' !in s ==> q == (if p == "" then "$" else p) + "[\"" + s + "\"]")
  {
    AppendKey(keys, StrKey(s), isAlpha);
  }

  /** A key of any other type is bracketed as `%v` writes it, after a root
      `$` when the path so far is empty. */
  lemma OtherKeyAppends(keys: seq<Key>, text: string, isAlpha: string -> bool)
    ensures var p := KeyListToJsonPath(keys, isAlpha);
      KeyListToJsonPath(keys + [OtherKey(text)], isAlpha) == (if p == "" then "$" else p) + "[" + text + "]"
  {
    AppendKey(keys, OtherKey(text), isAlpha);
  }

  /** The path only ever grows: the path of a prefix of the keys is a
      prefix of the path of all of them. */
  lemma {:induction false} PrefixMonotone(keys: seq<Key>, n: nat, isAlpha: string -> bool)
    requires n <= |keys|
    ensures var p := KeyListToJsonPath(keys[..n], isAlpha);
      var q := KeyListToJsonPath(keys, isAlpha);
      |p| <= |q| && q[..|p|] == p
    decreases |keys| - n
  {
    if n < |keys| {
      var init := keys[..|keys| - 1];
      PrefixMonotone(init, n, isAlpha);
      assert init[..n] == keys[..n];
      var p := KeyListToJsonPath(keys[..n], isAlpha);
      var m := KeyListToJsonPath(init, isAlpha);
      var q := KeyListToJsonPath(keys, isAlpha);
      assert q == Step(m, keys[|keys| - 1], isAlpha);
      assert q[..|m|] == m;
      assert q[..|p|] == m[..|p|];
    } else {
      assert keys[..n] == keys;
    }
  }

  /** Integer keys alone give `[i0][i1]…`: no root `$` and no '.'. */
  lemma {:induction false} IntKeysOnly(keys: seq<Key>, isAlpha: string -> bool)
    requires forall j :: 0 <= j < |keys| ==> keys[j].IntKey?
    ensures var q := KeyListToJsonPath(keys, isAlpha);
      && '$' !in q && '.' !in q
      && (keys != [] ==> q[0] == '[')
    decreases |keys|
  {
    if keys != [] {
      var init := keys[..|keys| - 1];
      IntKeysOnly(init, isAlpha);
      var m := KeyListToJsonPath(init, isAlpha);
      var d := IntToString(keys[|keys| - 1].i);
      var q := m + "[" + d + "]";
      assert KeyListToJsonPath(keys, isAlpha) == q;
      assert '$' !in d && '.' !in d by {
        if keys[|keys| - 1].i < 0 {
          assert d == [d[0]] + d[1..];
        }
      }
      assert q[0] == '[' by {
        if m != "" {
          assert q[0] == m[0];
        }
      }
    }
  }

  /** The first key alone decides how the path begins: `[` for an integer,
      a root `$` for a bracketed string or a key of any other type. */
  lemma FirstKeyDecidesStart(keys: seq<Key>, isAlpha: string -> bool)
    requires keys != []
    ensures var q := KeyListToJsonPath(keys, isAlpha);
      && (keys[0].IntKey? ==> q != "" && q[0] == '[')
      && (keys[0].OtherKey? || (keys[0].StrKey? && !isAlpha(keys[0].s)) ==> q != "" && q[0] == '$')
  {
  }

  /** The first three keys of the worked example below. */
  lemma ExamplePrefix(isAlpha: string -> bool)
    requires isAlpha("spec") && isAlpha("containers")
    ensures KeyListToJsonPath([StrKey("spec"), StrKey("containers"), IntKey(0)], isAlpha) == "spec.containers[0]"
  {
  }

  /** A worked example, key by key: `["spec", "containers", 0, "env var"]`
      gives `spec.containers[0]["env var"]`. */
  lemma Example(isAlpha: string -> bool)
    requires isAlpha("spec") && isAlpha("containers") && !isAlpha("env var")
    ensures KeyListToJsonPath([StrKey("spec"), StrKey("containers"), IntKey(0), StrKey("env var")], isAlpha)
            == "spec.containers[0][\"env var\"]"
  {
    var k := [StrKey("spec"), StrKey("containers"), IntKey(0)];
    ExamplePrefix(isAlpha);
    QuotedKeyAppends(k, "env var", isAlpha);
    assert '"' !in "env var";
    assert k + [StrKey("env var")] == [StrKey("spec"), StrKey("containers"), IntKey(0), StrKey("env var")];
  }
}
