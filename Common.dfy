/** Shared vocabulary of the dashboard model: an Option type for Python's
    `None`, Python truthiness of an app id, the character classes that the
    source's regular expressions and string methods rely on, and Python's
    `str(int)` (used for store URLs and for the key of an app-details reply). */
module Common {

  datatype Option<+T> = None | Some(value: T) {
    /** `x if x is not None else default` */
    function GetOr(default: T): T {
      match this
      case Some(v) => v
      case None => default
    }
  }

  /** `if app_id:` — an app id is falsy when it is missing or equal to 0. */
  predicate Truthy(id: Option<int>) {
    id.Some? && id.value != 0
  }

  /** A JSON scalar as Python holds it after `response.json()`; a missing
      key read with `.get(key)` is `Null` too. */
  datatype Scalar = Null | Bool(b: bool) | Int(i: int) | Str(s: string)

  /** Python truthiness of a scalar. */
  predicate ScalarTruthy(v: Scalar) {
    match v
    case Null => false
    case Bool(b) => b
    case Int(i) => i != 0
    case Str(s) => s != ""
  }

  /** Python's `v == 1` (`True == 1` holds in Python). */
  predicate EqualsOne(v: Scalar) {
    v == Int(1) || v == Bool(true)
  }

  /** `\d` and `[0-9]`, restricted to ASCII digits. */
  predicate IsDigit(c: char) {
    '0' <= c <= '9'
  }

  /** Python's `str.isspace()`: the characters removed by `str.strip()` and
      matched by `\s` in a `str` pattern. */
  predicate IsSpace(c: char) {
    || c == ' '
    || ('\t' <= c <= '\r')
    || ('\U{1C}' <= c <= '\U{1F}')
    || c == '\U{85}'
    || c == '\U{A0}'
    || c == '\U{1680}'
    || ('\U{2000}' <= c <= '\U{200A}')
    || c == '\U{2028}'
    || c == '\U{2029}'
    || c == '\U{202F}'
    || c == '\U{205F}'
    || c == '\U{3000}'
  }

  predicate AllDigits(s: string) {
    forall i :: 0 <= i < |s| ==> IsDigit(s[i])
  }

  /** Greedy `\d*` from position i. */
  function DigitRun(s: string, i: nat): (j: nat)
    requires i <= |s|
    ensures i <= j <= |s|
    ensures forall k :: i <= k < j ==> IsDigit(s[k])
    ensures j == |s| || !IsDigit(s[j])
    decreases |s| - i
  {
    if i < |s| && IsDigit(s[i]) then DigitRun(s, i + 1) else i
  }

  /** Greedy `\s*` from position i. */
  function SpaceRun(s: string, i: nat): (j: nat)
    requires i <= |s|
    ensures i <= j <= |s|
    ensures forall k :: i <= k < j ==> IsSpace(s[k])
    ensures j == |s| || !IsSpace(s[j])
    decreases |s| - i
  {
    if i < |s| && IsSpace(s[i]) then SpaceRun(s, i + 1) else i
  }

  function DigitChar(d: nat): (c: char)
    requires d < 10
    ensures IsDigit(c)
    ensures DigitValue(c) == d
  {
    ('0' as int + d) as char
  }

  function DigitValue(c: char): (d: nat)
    requires IsDigit(c)
    ensures d < 10
  {
    c as int - '0' as int
  }

  /** Decimal digits of a natural number, most significant first, with no
      leading zero except for 0 itself. */
  function NatToDecimal(n: nat): (s: string)
    ensures 1 <= |s|
    ensures AllDigits(s)
    ensures s[0] == '0' ==> s == "0"
  {
    if n < 10 then [DigitChar(n)] else NatToDecimal(n / 10) + [DigitChar(n % 10)]
  }

  /** The value of a string of decimal digits. */
  function DecimalValue(s: string): nat
    requires AllDigits(s)
  {
    if s == [] then 0 else DecimalValue(s[..|s| - 1]) * 10 + DigitValue(s[|s| - 1])
  }

  lemma {:induction false} DecimalRoundTrip(n: nat)
    ensures DecimalValue(NatToDecimal(n)) == n
  {
    if n >= 10 {
      var s := NatToDecimal(n);
      assert s[..|s| - 1] == NatToDecimal(n / 10);
      DecimalRoundTrip(n / 10);
    }
  }

  /** Python's `str(n)` for an int. */
  function IntToDecimal(n: int): (s: string)
    ensures 1 <= |s|
    ensures ' ' !in s
  {
    if n < 0 then "-" + NatToDecimal(-n) else NatToDecimal(n)
  }

  /** Python's `int(s)` restricted to an optional '-' and ASCII digits. */
  function ParseInt(s: string): Option<int> {
    if s != [] && s[0] == '-' && |s| > 1 && AllDigits(s[1..]) then Some(0 - DecimalValue(s[1..]) as int)
    else if s != [] && AllDigits(s) then Some(DecimalValue(s))
    else None
  }

  /** `int(str(n)) == n`: the decimal rendering of an app id loses nothing. */
  lemma IntRoundTrip(n: int)
    ensures ParseInt(IntToDecimal(n)) == Some(n)
  {
    if n < 0 {
      NegativeRoundTrip(n);
    } else {
      DecimalRoundTrip(n);
    }
  }

  lemma NegativeRoundTrip(n: int)
    requires n < 0
    ensures ParseInt(IntToDecimal(n)) == Some(n)
  {
    var s := IntToDecimal(n);
    assert s[0] == '-' && s[1..] == NatToDecimal(-n);
    DecimalRoundTrip(-n);
    assert DecimalValue(s[1..]) == -n;
  }

  /** Different app ids render to different strings. */
  lemma IntToDecimalInjective(a: int, b: int)
    requires IntToDecimal(a) == IntToDecimal(b)
    ensures a == b
  {
    IntRoundTrip(a);
    IntRoundTrip(b);
  }

  /** Python's `lower()` on one character, restricted to ASCII letters. */
  function AsciiLower(c: char): (r: char)
    ensures 'A' <= c <= 'Z' ==> 'a' <= r <= 'z' && r as int == c as int + 32
    ensures !('A' <= c <= 'Z') ==> r == c
  {
    if 'A' <= c <= 'Z' then (c as int + 32) as char else c
  }

  /** `s.lower().endswith(suffix)` for an ASCII lower-case `suffix`: no other
      character lower-cases to one ending in '.' or an ASCII letter. */
  predicate EndsWithIgnoringCase(s: string, suffix: string) {
    && |suffix| <= |s|
    && forall i :: 0 <= i < |suffix| ==> AsciiLower(s[|s| - |suffix| + i]) == suffix[i]
  }

  /** Joining a directory in front keeps whatever a name ends with. */
  lemma JoinKeepsSuffix(dir: string, name: string, suffix: string)
    requires EndsWithIgnoringCase(name, suffix)
    ensures EndsWithIgnoringCase(JoinPath(dir, name), suffix)
  {
    var p := JoinPath(dir, name);
    var tail := p[|p| - |name|..];
    assert tail == name;
    forall i | 0 <= i < |suffix|
      ensures AsciiLower(p[|p| - |suffix| + i]) == suffix[i]
    {
      assert p[|p| - |suffix| + i] == tail[|name| - |suffix| + i];
    }
  }

  /** `ntpath.join(dir, name)` for a `name` as `os.listdir` returns it (no
      separator, no drive): a backslash goes between the two unless `dir` is
      empty, is a bare drive such as "D:", or already ends in a separator. */
  function JoinPath(dir: string, name: string): (p: string)
    ensures p == dir + name || p == dir + "\\" + name
    ensures dir <= p && |p| >= |name| && p[|p| - |name|..] == name
    ensures (p == dir + name) <==> (dir == [] || dir[|dir| - 1] in "\\/" || (|dir| == 2 && dir[1] == ':'))
  {
    if dir == [] || dir[|dir| - 1] in "\\/" || (|dir| == 2 && dir[1] == ':') then dir + name
    else dir + "\\" + name
  }
}
