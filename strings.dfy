/** JavaScript string operations the explorer relies on, over `string`:
    a sequence of Unicode scalar values, where JavaScript counts UTF-16
    code units (the two differ only beyond U+FFFF). */
module Strings {

  datatype Option<T> = None | Some(value: T)

  /** `s.startsWith(p)` */
  predicate StartsWith(s: string, p: string) {
    |p| <= |s| && s[..|p|] == p
  }

  /** `s.endsWith(p)` */
  predicate EndsWith(s: string, p: string) {
    |p| <= |s| && s[|s| - |p|..] == p
  }

  /** `s.lastIndexOf(c)` for a one-character needle: -1 when absent. */
  function LastIndexOf(s: string, c: char): (r: int)
    ensures -1 <= r < |s|
    ensures r >= 0 ==> s[r] == c
    ensures forall j :: r < j < |s| ==> s[j] != c
  {
    if |s| == 0 then -1
    else if s[|s| - 1] == c then |s| - 1
    else LastIndexOf(s[..|s| - 1], c)
  }

  /** `s.indexOf(c)` for a one-character needle: -1 when absent. */
  function IndexOfChar(s: string, c: char): (r: int)
    ensures -1 <= r < |s|
    ensures r >= 0 ==> s[r] == c
    ensures forall j :: 0 <= j < |s| && (r == -1 || j < r) ==> s[j] != c
  {
    if |s| == 0 then -1
    else if s[0] == c then 0
    else var k := IndexOfChar(s[1..], c); if k == -1 then -1 else k + 1
  }

  /** `s.indexOf(pat)`: the first position at which `pat` occurs, -1 when it does not. */
  function IndexOf(s: string, pat: string): (r: int)
    ensures -1 <= r <= |s|
    ensures r >= 0 ==> r + |pat| <= |s| && s[r..r + |pat|] == pat
    decreases |s|
  {
    if StartsWith(s, pat) then 0
    else if |s| == 0 then -1
    else
      var k := IndexOf(s[1..], pat);
      if k == -1 then -1
      else
        assert s[k + 1..k + 1 + |pat|] == s[1..][k..k + |pat|];
        k + 1
  }

  /** `s.replace(pat, rep)` with a string pattern: only the first occurrence is
      replaced. (Replacement patterns such as `$&` are not interpreted.) */
  function ReplaceFirst(s: string, pat: string, rep: string): string {
    var i := IndexOf(s, pat);
    if i == -1 then s else s[..i] + rep + s[i + |pat|..]
  }

  /** When `s` starts with `pat`, the first occurrence is the prefix, so
      `replace` rewrites exactly that prefix. */
  lemma ReplaceFirstOfPrefix(s: string, pat: string, rep: string)
    requires StartsWith(s, pat)
    ensures ReplaceFirst(s, pat, rep) == rep + s[|pat|..]
  {
    assert IndexOf(s, pat) == 0;
  }

  /** `s.split(sep)` for a one-character separator; never empty. */
  function Split(s: string, sep: char): (parts: seq<string>)
    ensures |parts| >= 1
    ensures forall i :: 0 <= i < |parts| ==> sep !in parts[i]
    decreases |s|
  {
    var i := IndexOfChar(s, sep);
    if i == -1 then [s] else [s[..i]] + Split(s[i + 1..], sep)
  }

  /** `parts.join(sep)` */
  function Join(parts: seq<string>, sep: char): string {
    if |parts| == 0 then ""
    else if |parts| == 1 then parts[0]
    else parts[0] + [sep] + Join(parts[1..], sep)
  }

  lemma {:induction false} JoinSplit(s: string, sep: char)
    ensures Join(Split(s, sep), sep) == s
    decreases |s|
  {
    var i := IndexOfChar(s, sep);
    if i != -1 {
      var rest := Split(s[i + 1..], sep);
      JoinSplit(s[i + 1..], sep);
      var parts := [s[..i]] + rest;
      assert Split(s, sep) == parts;
      assert |parts| >= 2 && parts[0] == s[..i] && parts[1..] == rest;
      assert Join(parts, sep) == s[..i] + [sep] + Join(rest, sep);
      assert s == s[..i] + [sep] + s[i + 1..];
    }
  }

  /** Joining a proper prefix of the parts gives a prefix of the whole join,
      followed by the separator. */
  lemma {:induction false} JoinPrefix(parts: seq<string>, k: nat, sep: char)
    requires 1 <= k < |parts|
    ensures StartsWith(Join(parts, sep), Join(parts[..k], sep) + [sep])
  {
    if k > 1 {
      JoinPrefix(parts[1..], k - 1, sep);
      assert parts[..k][1..] == parts[1..][..k - 1];
    }
  }

  /** The characters JavaScript's `trim` and the regular-expression class `\s`
      treat as white space: WhiteSpace and LineTerminator of ECMA-262. */
  predicate IsWhiteSpace(c: char) {
    c == '\t' || c == '\n' || c == '\U{000B}' || c == '\U{000C}' || c == '\r' || c == ' '
    || c == '\U{00A0}' || c == '\U{1680}' || ('\U{2000}' <= c <= '\U{200A}')
    || c == '\U{2028}' || c == '\U{2029}' || c == '\U{202F}' || c == '\U{205F}'
    || c == '\U{3000}' || c == '\U{FEFF}'
  }

  function TrimStart(s: string): (r: string)
    ensures |r| <= |s| && r == s[|s| - |r|..]
    ensures r == [] || !IsWhiteSpace(r[0])
    ensures forall j :: 0 <= j < |s| - |r| ==> IsWhiteSpace(s[j])
  {
    if |s| > 0 && IsWhiteSpace(s[0]) then TrimStart(s[1..]) else s
  }

  function TrimEnd(s: string): (r: string)
    ensures |r| <= |s| && r == s[..|r|]
    ensures r == [] || !IsWhiteSpace(r[|r| - 1])
    ensures forall j :: |r| <= j < |s| ==> IsWhiteSpace(s[j])
  {
    if |s| > 0 && IsWhiteSpace(s[|s| - 1]) then TrimEnd(s[..|s| - 1]) else s
  }

  /** `s.trim()` */
  function Trim(s: string): string {
    TrimEnd(TrimStart(s))
  }

  predicate IsDigit(c: char) {
    '0' <= c <= '9'
  }

  /** `String(n)` for a natural number: its decimal digits. */
  function DecimalString(n: nat): (r: string)
    ensures |r| >= 1
    ensures forall i :: 0 <= i < |r| ==> IsDigit(r[i])
  {
    if n < 10 then [('0' as int + n) as char]
    else DecimalString(n / 10) + [('0' as int + n % 10) as char]
  }

  function Pow10(k: nat): (r: nat)
    ensures r >= 1
  {
    if k == 0 then 1 else 10 * Pow10(k - 1)
  }

  /** A number at least 10^k needs more than k digits. */
  lemma {:induction false} DecimalStringLength(n: nat, k: nat)
    requires n >= Pow10(k)
    ensures |DecimalString(n)| > k
  {
    if k > 0 {
      DecimalStringLength(n / 10, k - 1);
    }
  }

  /** The length of a longest string of a finite set. */
  ghost function MaxLength(s: set<string>): (m: nat)
    ensures forall x :: x in s ==> |x| <= m
  {
    if s == {} then 0
    else
      var x :| x in s;
      var m := MaxLength(s - {x});
      if |x| > m then |x| else m
  }
}
