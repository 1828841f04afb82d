/** `clean_game_name`: turns a directory or archive base name into a display
    title by four substitutions applied in order:
      1. `re.sub(r'\[.*?\]', '', s)`  removes bracketed tags;
      2. `re.sub(r'v\d+(\.\d+)*', '', s)`  removes version tokens (also inside words);
      3. `s.replace('.', ' ')`;
      4. `s.strip()`.
    Each regular expression is written out as the left-to-right scan that
    `re.sub` performs for that one pattern. */
module NameCleaner {
  import opened Common

  // ---------------------------------------------------------------------
  // Stage 1: bracketed tags
  // ---------------------------------------------------------------------

  /** The text `t` following a '[' contains a ']' before any line break: the
      lazy `.*?` can reach a ']' (its `.` does not match '\n'). */
  predicate HasClose(t: string) {
    t != [] && t[0] != '\n' && (t[0] == ']' || HasClose(t[1..]))
  }

  /** Where the lazy match ends: the first ']' in `t`. */
  function CloseIndex(t: string): (k: nat)
    requires HasClose(t)
    ensures k < |t| && t[k] == ']'
    ensures forall j :: 0 <= j < k ==> t[j] != ']' && t[j] != '\n'
  {
    if t[0] == ']' then 0 else 1 + CloseIndex(t[1..])
  }

  /** `re.sub(r'\[.*?\]', '', s)`: at every '[' that has a ']' later on the
      same line, the text up to and including the first such ']' is removed
      and scanning resumes after it. */
  function StripBrackets(s: string): (r: string)
    ensures |r| <= |s|
    decreases |s|
  {
    if s == [] then []
    else if s[0] == '[' && HasClose(s[1..]) then StripBrackets(s[CloseIndex(s[1..]) + 2..])
    else [s[0]] + StripBrackets(s[1..])
  }

  /** The tag pattern has no match in `s`: no '[' is followed by a ']' on the same line. */
  predicate BracketFree(s: string) {
    forall i :: 0 <= i < |s| && s[i] == '[' ==> !HasClose(s[i + 1..])
  }

  lemma BracketFreeCons(c: char, x: string)
    requires BracketFree(x)
    requires c == '[' ==> !HasClose(x)
    ensures BracketFree([c] + x)
  {
    var r := [c] + x;
    forall i | 0 <= i < |r| && r[i] == '['
      ensures !HasClose(r[i + 1..])
    {
      if i > 0 {
        assert r[i + 1..] == x[i..];
        assert x[i - 1] == '[';
      } else {
        assert r[1..] == x;
      }
    }
  }

  lemma BracketFreeSuffix(s: string, k: nat)
    requires BracketFree(s) && k <= |s|
    ensures BracketFree(s[k..])
  {
    var t := s[k..];
    forall i | 0 <= i < |t| && t[i] == '['
      ensures !HasClose(t[i + 1..])
    {
      assert s[k + i] == '[';
      assert t[i + 1..] == s[k + i + 1..];
    }
  }

  /** Cutting text off the end cannot create a ']' before the first line break. */
  lemma {:induction false} NoClosePrefix(t: string, m: nat)
    requires !HasClose(t) && m <= |t|
    ensures !HasClose(t[..m])
  {
    if m > 0 && t[0] != '\n' {
      assert t[..m][1..] == t[1..][..m - 1];
      NoClosePrefix(t[1..], m - 1);
    }
  }

  /** Removing tags from text that has no ']' before its first line break
      leaves such text. */
  lemma {:induction false} NoCloseStripped(t: string)
    requires !HasClose(t)
    ensures !HasClose(StripBrackets(t))
    decreases |t|
  {
    if t != [] && t[0] != '\n' {
      assert !(t[0] == '[' && HasClose(t[1..]));
      NoCloseStripped(t[1..]);
      assert StripBrackets(t)[1..] == StripBrackets(t[1..]);
    }
  }

  /** Every tag is removed: running the substitution again would find nothing. */
  lemma {:induction false} StripBracketsFree(s: string)
    ensures BracketFree(StripBrackets(s))
    decreases |s|
  {
    if s == [] {
    } else if s[0] == '[' && HasClose(s[1..]) {
      StripBracketsFree(s[CloseIndex(s[1..]) + 2..]);
    } else {
      StripBracketsFree(s[1..]);
      if s[0] == '[' {
        NoCloseStripped(s[1..]);
      }
      BracketFreeCons(s[0], StripBrackets(s[1..]));
    }
  }

  lemma {:induction false} BracketFreeFixpoint(s: string)
    requires BracketFree(s)
    ensures StripBrackets(s) == s
    decreases |s|
  {
    if s != [] {
      assert s[0] == '[' ==> !HasClose(s[1..]);
      BracketFreeSuffix(s, 1);
      BracketFreeFixpoint(s[1..]);
    }
  }

  // ---------------------------------------------------------------------
  // Stage 2: version tokens
  // ---------------------------------------------------------------------

  /** Greedy `(\.\d+)*` from position i, which follows a run of digits. */
  function DotGroups(s: string, i: nat): (j: nat)
    requires i <= |s|
    requires i == |s| || !IsDigit(s[i])
    ensures i <= j <= |s|
    ensures forall k :: i <= k < j ==> s[k] == '.' || IsDigit(s[k])
    ensures j == |s| || !IsDigit(s[j])
    ensures !(j + 1 < |s| && s[j] == '.' && IsDigit(s[j + 1]))
    decreases |s| - i
  {
    if i + 1 < |s| && s[i] == '.' && IsDigit(s[i + 1]) then DotGroups(s, DigitRun(s, i + 1)) else i
  }

  /** `v\d+(\.\d+)*` matches at the start of `s`. */
  predicate StartsVersion(s: string) {
    |s| >= 2 && s[0] == 'v' && IsDigit(s[1])
  }

  /** Length of the (maximal) version token at the start of `s`. */
  function VersionLength(s: string): (n: nat)
    requires StartsVersion(s)
    ensures 2 <= n <= |s|
    ensures forall k :: 1 <= k < n ==> s[k] == '.' || IsDigit(s[k])
    ensures n == |s| || !IsDigit(s[n])
  {
    DotGroups(s, DigitRun(s, 1))
  }

  /** `re.sub(r'v\d+(\.\d+)*', '', s)`. */
  function StripVersions(s: string): (r: string)
    ensures |r| <= |s|
    decreases |s|
  {
    if s == [] then []
    else if StartsVersion(s) then StripVersions(s[VersionLength(s)..])
    else [s[0]] + StripVersions(s[1..])
  }

  /** The version pattern has no match in `s`: no 'v' is directly followed by a digit. */
  predicate VersionFree(s: string) {
    forall i :: 0 <= i < |s| - 1 ==> !(s[i] == 'v' && IsDigit(s[i + 1]))
  }

  /** Removing version tokens never leaves a digit at the front of text that
      did not start with one (the token's digit runs are maximal). */
  lemma {:induction false} NoLeadingDigit(t: string)
    requires t == [] || !IsDigit(t[0])
    ensures StripVersions(t) == [] || !IsDigit(StripVersions(t)[0])
    decreases |t|
  {
    if t != [] && StartsVersion(t) {
      NoLeadingDigit(t[VersionLength(t)..]);
    }
  }

  /** Every version token is removed, including any that removing an
      earlier token brought together. */
  lemma {:induction false} StripVersionsFree(s: string)
    ensures VersionFree(StripVersions(s))
    decreases |s|
  {
    if s == [] {
    } else if StartsVersion(s) {
      StripVersionsFree(s[VersionLength(s)..]);
    } else {
      var x := StripVersions(s[1..]);
      StripVersionsFree(s[1..]);
      if s[0] == 'v' {
        NoLeadingDigit(s[1..]);
      }
      var r := [s[0]] + x;
      forall i | 0 <= i < |r| - 1
        ensures !(r[i] == 'v' && IsDigit(r[i + 1]))
      {
        if i > 0 {
          assert r[i] == x[i - 1] && r[i + 1] == x[i];
        }
      }
    }
  }

  lemma {:induction false} VersionFreeFixpoint(s: string)
    requires VersionFree(s)
    ensures StripVersions(s) == s
    decreases |s|
  {
    if s != [] {
      assert !StartsVersion(s);
      assert VersionFree(s[1..]) by {
        forall i | 0 <= i < |s[1..]| - 1
          ensures !(s[1..][i] == 'v' && IsDigit(s[1..][i + 1]))
        {
          assert s[1..][i] == s[i + 1] && s[1..][i + 1] == s[i + 2];
        }
      }
      VersionFreeFixpoint(s[1..]);
    }
  }

  /** Skipping characters that are neither ']' nor '\n' keeps "no ']' before
      the first line break". */
  lemma {:induction false} NoCloseSkip(t: string, n: nat)
    requires n <= |t| && !HasClose(t)
    requires forall k :: 0 <= k < n ==> t[k] != ']' && t[k] != '\n'
    ensures !HasClose(t[n..])
  {
    if n > 0 {
      assert t[1..][n - 1..] == t[n..];
      NoCloseSkip(t[1..], n - 1);
    }
  }

  lemma {:induction false} NoCloseVersions(t: string)
    requires !HasClose(t)
    ensures !HasClose(StripVersions(t))
    decreases |t|
  {
    if t == [] {
    } else if StartsVersion(t) {
      NoCloseSkip(t, VersionLength(t));
      NoCloseVersions(t[VersionLength(t)..]);
    } else if t[0] != '\n' {
      NoCloseVersions(t[1..]);
      assert StripVersions(t)[1..] == StripVersions(t[1..]);
    }
  }

  /** Stage 2 cannot bring a '[' and a ']' together: it never removes '\n' or ']'. */
  lemma {:induction false} StripVersionsBracketFree(s: string)
    requires BracketFree(s)
    ensures BracketFree(StripVersions(s))
    decreases |s|
  {
    if s == [] {
    } else if StartsVersion(s) {
      BracketFreeSuffix(s, VersionLength(s));
      StripVersionsBracketFree(s[VersionLength(s)..]);
    } else {
      BracketFreeSuffix(s, 1);
      StripVersionsBracketFree(s[1..]);
      if s[0] == '[' {
        NoCloseVersions(s[1..]);
      }
      BracketFreeCons(s[0], StripVersions(s[1..]));
    }
  }

  // ---------------------------------------------------------------------
  // Stage 3: dots become spaces
  // ---------------------------------------------------------------------

  /** `s.replace('.', ' ')`. */
  function ReplaceDots(s: string): (r: string)
    ensures |r| == |s|
    ensures forall i :: 0 <= i < |s| ==> r[i] == (if s[i] == '.' then ' ' else s[i])
  {
    if s == [] then [] else [if s[0] == '.' then ' ' else s[0]] + ReplaceDots(s[1..])
  }

  lemma {:induction false} ReplaceDotsSuffix(s: string, k: nat)
    requires k <= |s|
    ensures ReplaceDots(s)[k..] == ReplaceDots(s[k..])
  {
    if k > 0 {
      assert ReplaceDots(s)[1..] == ReplaceDots(s[1..]);
      ReplaceDotsSuffix(s[1..], k - 1);
      assert s[1..][k - 1..] == s[k..];
    }
  }

  lemma {:induction false} ReplaceDotsHasClose(t: string)
    ensures HasClose(ReplaceDots(t)) == HasClose(t)
    decreases |t|
  {
    if t != [] {
      ReplaceDotsHasClose(t[1..]);
      assert ReplaceDots(t)[1..] == ReplaceDots(t[1..]);
    }
  }

  lemma ReplaceDotsBracketFree(s: string)
    requires BracketFree(s)
    ensures BracketFree(ReplaceDots(s))
  {
    var r := ReplaceDots(s);
    forall i | 0 <= i < |r| && r[i] == '['
      ensures !HasClose(r[i + 1..])
    {
      ReplaceDotsSuffix(s, i + 1);
      ReplaceDotsHasClose(s[i + 1..]);
    }
  }

  // ---------------------------------------------------------------------
  // Stage 4: strip
  // ---------------------------------------------------------------------

  function LeadingSpace(s: string): (n: nat)
    ensures n <= |s|
    ensures forall k :: 0 <= k < n ==> IsSpace(s[k])
    ensures n == |s| || !IsSpace(s[n])
  {
    if s != [] && IsSpace(s[0]) then 1 + LeadingSpace(s[1..]) else 0
  }

  function TrailingSpace(s: string): (n: nat)
    ensures n <= |s|
    ensures forall k :: |s| - n <= k < |s| ==> IsSpace(s[k])
    ensures n == |s| || !IsSpace(s[|s| - 1 - n])
  {
    if s != [] && IsSpace(s[|s| - 1]) then 1 + TrailingSpace(s[..|s| - 1]) else 0
  }

  /** `s.strip()`: the longest slice of `s` that starts and ends with a non-space. */
  function Strip(s: string): (r: string)
    ensures r == [] || (!IsSpace(r[0]) && !IsSpace(r[|r| - 1]))
    ensures |r| <= |s|
    ensures (forall i :: 0 <= i < |s| ==> !IsSpace(s[i])) ==> r == s
  {
    var t := s[LeadingSpace(s)..];
    t[..|t| - TrailingSpace(t)]
  }

  lemma StripIsSlice(s: string) returns (a: nat, b: nat)
    ensures a <= b <= |s| && Strip(s) == s[a..b]
    ensures forall k :: 0 <= k < a ==> IsSpace(s[k])
    ensures forall k :: b <= k < |s| ==> IsSpace(s[k])
  {
    a := LeadingSpace(s);
    var t := s[a..];
    b := a + |t| - TrailingSpace(t);
    assert forall k :: b <= k < |s| ==> s[k] == t[k - a];
  }

  lemma StripFixpoint(s: string)
    requires s == [] || (!IsSpace(s[0]) && !IsSpace(s[|s| - 1]))
    ensures Strip(s) == s
  {
    assert LeadingSpace(s) == 0;
    assert TrailingSpace(s) == 0;
  }

  lemma StripBracketFree(s: string)
    requires BracketFree(s)
    ensures BracketFree(Strip(s))
  {
    var a, b := StripIsSlice(s);
    var r := s[a..b];
    forall i | 0 <= i < |r| && r[i] == '['
      ensures !HasClose(r[i + 1..])
    {
      assert s[a + i] == '[';
      assert r[i + 1..] == s[a + i + 1..][..b - a - i - 1];
      NoClosePrefix(s[a + i + 1..], b - a - i - 1);
    }
  }

  lemma ReplaceDotsProps(s: string)
    ensures '.' !in ReplaceDots(s)
    ensures VersionFree(s) ==> VersionFree(ReplaceDots(s))
  {
    var r := ReplaceDots(s);
    assert forall i :: 0 <= i < |r| ==> r[i] != '.';
  }

  lemma StripProps(s: string)
    ensures '.' !in s ==> '.' !in Strip(s)
    ensures VersionFree(s) ==> VersionFree(Strip(s))
  {
    var a, b := StripIsSlice(s);
    var r := s[a..b];
    assert forall i :: 0 <= i < |r| ==> r[i] == s[a + i];
  }

  // ---------------------------------------------------------------------
  // The whole cleanup
  // ---------------------------------------------------------------------

  /** `clean_game_name(folder_name)`. The result has no '.', no leading or
      trailing whitespace, no bracketed tag and no version token left in it. */
  function CleanGameName(folder: string): (r: string)
    ensures '.' !in r
    ensures r == [] || (!IsSpace(r[0]) && !IsSpace(r[|r| - 1]))
    ensures BracketFree(r)
    ensures VersionFree(r)
  {
    var noTags := StripBrackets(folder);
    var noVersions := StripVersions(noTags);
    var spaced := ReplaceDots(noVersions);
    StripBracketsFree(folder);
    StripVersionsBracketFree(noTags);
    StripVersionsFree(noTags);
    ReplaceDotsBracketFree(noVersions);
    StripBracketFree(spaced);
    ReplaceDotsProps(noVersions);
    StripProps(spaced);
    Strip(spaced)
  }

  /** Cleaning a cleaned name changes nothing. */
  lemma CleanIdempotent(folder: string)
    ensures CleanGameName(CleanGameName(folder)) == CleanGameName(folder)
  {
    var r := CleanGameName(folder);
    BracketFreeFixpoint(r);
    VersionFreeFixpoint(r);
    assert ReplaceDots(r) == r;
    StripFixpoint(r);
  }

  /** Text without '[' passes stage 1 untouched, whatever follows it. */
  lemma {:induction false} StripBracketsPlain(p: string, rest: string)
    requires '[' !in p
    ensures StripBrackets(p + rest) == p + StripBrackets(rest)
  {
    if p == [] {
      assert p + rest == rest;
    } else {
      var x := p + rest;
      assert x[0] == p[0] && x[1..] == p[1..] + rest;
      assert p[0] != '[';
      StripBracketsPlain(p[1..], rest);
      calc {
        StripBrackets(x);
        [x[0]] + StripBrackets(x[1..]);
        [p[0]] + StripBrackets(p[1..] + rest);
        [p[0]] + (p[1..] + StripBrackets(rest));
        { assert p == [p[0]] + p[1..]; }
        p + StripBrackets(rest);
      }
    }
  }

  /** Text without 'v' passes stage 2 untouched, whatever follows it. */
  lemma {:induction false} StripVersionsPlain(p: string, rest: string)
    requires 'v' !in p
    ensures StripVersions(p + rest) == p + StripVersions(rest)
  {
    if p == [] {
      assert p + rest == rest;
    } else {
      var x := p + rest;
      assert x[0] == p[0] && x[1..] == p[1..] + rest;
      assert p[0] != 'v' && !StartsVersion(x);
      StripVersionsPlain(p[1..], rest);
      calc {
        StripVersions(x);
        [x[0]] + StripVersions(x[1..]);
        [p[0]] + StripVersions(p[1..] + rest);
        [p[0]] + (p[1..] + StripVersions(rest));
        { assert p == [p[0]] + p[1..]; }
        p + StripVersions(rest);
      }
    }
  }

  // The documented example, one stage at a time.

  /** After plain text of one line, the first ']' closes the tag. */
  lemma {:induction false} CloseAfter(a: string, rest: string)
    requires ']' !in a && '\n' !in a
    ensures HasClose(a + "]" + rest) && CloseIndex(a + "]" + rest) == |a|
  {
    if a != [] {
      var x := a + "]" + rest;
      assert x[0] == a[0] && x[1..] == a[1..] + "]" + rest;
      CloseAfter(a[1..], rest);
    }
  }

  /** A tag at the front is removed whole and the scan goes on after it. */
  lemma TagRemoved(a: string, rest: string)
    requires ']' !in a && '\n' !in a
    ensures StripBrackets("[" + a + "]" + rest) == StripBrackets(rest)
  {
    var s := "[" + a + "]" + rest;
    assert s[0] == '[' && s[1..] == a + "]" + rest;
    CloseAfter(a, rest);
    assert s[|a| + 2..] == rest;
  }

  /** One tag between plain texts is all that stage 1 removes. */
  lemma TagBetween(p: string, a: string, rest: string)
    requires '[' !in p && ']' !in a && '\n' !in a && '[' !in rest
    ensures StripBrackets(p + ("[" + a + "]" + rest)) == p + rest
  {
    StripBracketsPlain(p, "[" + a + "]" + rest);
    TagRemoved(a, rest);
    StripBracketsPlain(rest, []);
    assert rest + [] == rest;
  }

  lemma ExampleTagsRemoved(p: string, t: string)
    requires p == "Cool.Game." && t == "[FLT].v1.2.3"
    ensures StripBrackets(p + t) == "Cool.Game..v1.2.3"
  {
    var a, rest := t[1..4], t[5..];
    assert t == "[" + a + "]" + rest;
    TagBetween(p, a, rest);
  }

  lemma ExampleVersionRemoved(noTags: string)
    requires noTags == "Cool.Game..v1.2.3"
    ensures StripVersions(noTags) == "Cool.Game.."
  {
    var q, v := "Cool.Game..", "v1.2.3";
    assert noTags == q + v;
    StripVersionsPlain(q, v);
    WholeVersion(v);
    assert q + [] == q;
  }

  /** "v1.2.3" is one version token and disappears whole. */
  lemma WholeVersion(v: string)
    requires v == "v1.2.3"
    ensures StripVersions(v) == []
  {
    assert DigitRun(v, 1) == 2;
    assert DigitRun(v, 3) == 4;
    assert DigitRun(v, 5) == 6;
    assert VersionLength(v) == 6;
    assert v[6..] == [];
  }

  lemma ExampleDotsAndStrip(noVersions: string)
    requires noVersions == "Cool.Game.."
    ensures Strip(ReplaceDots(noVersions)) == "Cool Game"
  {
    var spaced := ReplaceDots(noVersions);
    assert spaced == "Cool Game  ";
    StripTwoTrailing(spaced);
    assert spaced[..9] == "Cool Game";
  }

  /** Text that starts with a non-space and ends in exactly two spaces loses
      just those two. */
  lemma StripTwoTrailing(y: string)
    requires |y| >= 3 && !IsSpace(y[0]) && !IsSpace(y[|y| - 3])
    requires IsSpace(y[|y| - 2]) && IsSpace(y[|y| - 1])
    ensures Strip(y) == y[..|y| - 2]
  {
    var n := |y|;
    assert LeadingSpace(y) == 0;
    assert y[0..] == y;
    assert y[..n - 1][..n - 2] == y[..n - 2];
    assert TrailingSpace(y[..n - 2]) == 0;
    assert TrailingSpace(y[..n - 1]) == 1;
    assert TrailingSpace(y) == 2;
  }

  /** The documented example: tag, version token and dots all go. */
  lemma CleanExample(name: string)
    requires name == "Cool.Game.[FLT].v1.2.3"
    ensures CleanGameName(name) == "Cool Game"
  {
    assert name == name[..10] + name[10..];
    ExampleTagsRemoved(name[..10], name[10..]);
    ExampleVersionRemoved(StripBrackets(name));
    ExampleDotsAndStrip(StripVersions(StripBrackets(name)));
  }

  /** The version pattern also cuts into words: "Dev2 Tycoon" loses its "v2". */
  lemma VersionInsideWord(p: string, v: string, q: string)
    requires p == "De" && v == "v2" && q == " Tycoon"
    ensures StripVersions(p + v + q) == p + q
  {
    assert 'v' !in p by { assert p[0] == 'D' && p[1] == 'e'; }
    assert p + v + q == p + (v + q);
    StripVersionsPlain(p, v + q);
    assert 'v' !in q by { assert q[0] == ' ' && forall i :: 1 <= i < |q| ==> q[i] in "Tycon"; }
    ShortVersionCut(v, q);
  }

  /** A one-digit version token, followed by text without 'v' that does not
      go on with a digit or a dot, is cut alone. */
  lemma ShortVersionCut(v: string, q: string)
    requires |v| == 2 && v[0] == 'v' && IsDigit(v[1])
    requires q != [] && !IsDigit(q[0]) && q[0] != '.' && 'v' !in q
    ensures StripVersions(v + q) == q
  {
    var t := v + q;
    assert t[0] == 'v' && t[1] == v[1] && t[2] == q[0];
    assert DigitRun(t, 1) == 2;
    assert DotGroups(t, 2) == 2;
    assert VersionLength(t) == 2;
    assert t[2..] == q;
    StripVersionsPlain(q, []);
    assert q + [] == q;
  }
}
