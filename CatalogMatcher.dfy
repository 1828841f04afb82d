/** The matching loop of `get_steam_app_id`: the query title and every app
    name of the store catalog are lower-cased and reduced to `[a-z0-9]`, and
    the id of the first app whose reduced name contains the reduced query is
    returned. The catalog download is an input: `None` stands for a request
    that raised `RequestException` (transport error, non-2xx status or a body
    that is not JSON), which the source turns into "no id". */
module CatalogMatcher {
  import opened Common

  /** One entry of `applist.apps`. */
  datatype App = App(appid: int, name: string)

  predicate IsNormalChar(c: char) {
    'a' <= c <= 'z' || IsDigit(c)
  }

  /** What `re.sub(r'[^a-z0-9]', '', c.lower())` keeps of one character.
      Besides ASCII, exactly two characters lower-case to something in
      `[a-z0-9]`: KELVIN SIGN becomes 'k', and LATIN CAPITAL LETTER I WITH
      DOT ABOVE becomes "i" followed by a combining dot, which is dropped. */
  function NormalChars(c: char): (r: string)
    ensures forall i :: 0 <= i < |r| ==> IsNormalChar(r[i])
    ensures 'A' <= c <= 'Z' ==> r == [AsciiLower(c)]
    ensures IsNormalChar(c) ==> r == [c]
    ensures !('A' <= c <= 'Z') && !IsNormalChar(c) && c != '\U{212A}' && c != '\U{130}' ==> r == []
  {
    if 'A' <= c <= 'Z' then [(c as int + 32) as char]
    else if IsNormalChar(c) then [c]
    else if c == '\U{212A}' then "k"
    else if c == '\U{130}' then "i"
    else []
  }

  /** `re.sub(r'[^a-z0-9]', '', s.lower())`. */
  function Normalize(s: string): (r: string)
    ensures forall i :: 0 <= i < |r| ==> IsNormalChar(r[i])
  {
    if s == [] then [] else NormalChars(s[0]) + Normalize(s[1..])
  }

  /** A normalised string is its own normal form. */
  lemma {:induction false} NormalizeIdempotent(s: string)
    ensures Normalize(Normalize(s)) == Normalize(s)
  {
    NormalizeFixpoint(Normalize(s));
  }

  lemma {:induction false} NormalizeFixpoint(s: string)
    requires forall i :: 0 <= i < |s| ==> IsNormalChar(s[i])
    ensures Normalize(s) == s
  {
    if s != [] {
      NormalizeFixpoint(s[1..]);
      assert s == [s[0]] + s[1..];
    }
  }

  /** Python's `q in t` for strings. */
  predicate Contains(t: string, q: string)
    decreases |t|
  {
    q <= t || (t != [] && Contains(t[1..], q))
  }

  /** `q` occurs in `t` at offset `i`. */
  predicate OccursAt(t: string, q: string, i: nat) {
    i + |q| <= |t| && t[i..i + |q|] == q
  }

  /** `q in t` holds exactly when `q` occurs in `t` at some offset. */
  lemma {:induction false} ContainsIff(t: string, q: string)
    ensures Contains(t, q) <==> exists i: nat :: OccursAt(t, q, i)
    decreases |t|
  {
    if q <= t {
      assert OccursAt(t, q, 0);
    }
    if t != [] {
      ContainsIff(t[1..], q);
      if Contains(t[1..], q) {
        var i: nat :| OccursAt(t[1..], q, i);
        assert t[1..][i..i + |q|] == t[i + 1..i + 1 + |q|];
        assert OccursAt(t, q, i + 1);
      }
      if exists i: nat :: OccursAt(t, q, i) {
        var i: nat :| OccursAt(t, q, i);
        if i == 0 {
          assert q <= t;
        } else {
          assert t[1..][i - 1..i - 1 + |q|] == t[i..i + |q|];
          assert OccursAt(t[1..], q, i - 1);
        }
      }
    }
  }

  /** The catalog entry matches the normalised query. */
  predicate Matches(app: App, query: string) {
    Contains(Normalize(app.name), query)
  }

  /** Position of the first catalog entry that matches, if any. */
  function FirstMatchIndex(apps: seq<App>, query: string): (r: Option<nat>)
    ensures r.Some? ==> r.value < |apps| && Matches(apps[r.value], query)
    ensures r.Some? ==> forall j :: 0 <= j < r.value ==> !Matches(apps[j], query)
    ensures r.None? <==> forall j :: 0 <= j < |apps| ==> !Matches(apps[j], query)
  {
    if apps == [] then None
    else if Matches(apps[0], query) then Some(0)
    else match FirstMatchIndex(apps[1..], query)
      case None => None
      case Some(k) => Some(k + 1)
  }

  /** `get_steam_app_id(game_name)` as a value: the id of the first match, or
      `None` when the download failed or nothing matches. */
  function MatchedAppId(catalog: Option<seq<App>>, gameName: string): (r: Option<int>)
    ensures catalog.None? ==> r.None?
    ensures catalog.Some? ==>
              (r.None? <==> forall j :: 0 <= j < |catalog.value| ==> !Matches(catalog.value[j], Normalize(gameName)))
    ensures r.Some? ==> exists k :: 0 <= k < |catalog.value| && catalog.value[k].appid == r.value
                                   && Matches(catalog.value[k], Normalize(gameName))
                                   && forall j :: 0 <= j < k ==> !Matches(catalog.value[j], Normalize(gameName))
  {
    match catalog
    case None => None
    case Some(apps) =>
      match FirstMatchIndex(apps, Normalize(gameName))
      case None => None
      case Some(k) => Some(apps[k].appid)
  }

  /** The loop of `get_steam_app_id`, returning at the first match. */
  method FindAppId(catalog: Option<seq<App>>, gameName: string) returns (id: Option<int>)
    ensures id == MatchedAppId(catalog, gameName)
    ensures id.Some? ==> exists k :: 0 <= k < |catalog.value| && catalog.value[k].appid == id.value
                                    && Matches(catalog.value[k], Normalize(gameName))
  {
    if catalog.None? {
      return None;
    }
    var apps := catalog.value;
    var query := Normalize(gameName);
    var i := 0;
    while i < |apps|
      invariant 0 <= i <= |apps|
      invariant forall j :: 0 <= j < i ==> !Matches(apps[j], query)
    {
      var appName := Normalize(apps[i].name);
      if Contains(appName, query) {
        return Some(apps[i].appid);
      }
      i := i + 1;
    }
    return None;
  }

  /** An empty normalised query (a title with no letters or digits) is
      contained in every name, so the first catalog entry wins. */
  lemma EmptyQueryMatchesFirst(apps: seq<App>, gameName: string)
    requires Normalize(gameName) == [] && apps != []
    ensures MatchedAppId(Some(apps), gameName) == Some(apps[0].appid)
  {
    assert Matches(apps[0], []);
  }

  /** A catalog without any match, or a failed download, yields no id. */
  lemma NoMatchNoId(catalog: Option<seq<App>>, gameName: string)
    requires catalog.Some? ==> forall k :: 0 <= k < |catalog.value| ==> !Matches(catalog.value[k], Normalize(gameName))
    ensures MatchedAppId(catalog, gameName) == None
  {
  }

  /** Every character of a contained string occurs in the containing one. */
  lemma ContainsChars(t: string, q: string, c: char)
    requires Contains(t, q) && c in q
    ensures c in t
  {
    ContainsIff(t, q);
    var i: nat :| OccursAt(t, q, i);
    var k :| 0 <= k < |q| && q[k] == c;
    assert t[i + k] == t[i..i + |q|][k];
  }

  /** "Half-Life 2" normalises to "halflife2", so that query finds it, and
      "portal" does not. */
  lemma HalfLifeExample(app: App, hit: string, miss: string)
    requires app == App(1, "Half-Life 2") && hit == "halflife2" && miss == "portal"
    ensures MatchedAppId(Some([app]), hit) == Some(1)
    ensures MatchedAppId(Some([app]), miss) == None
  {
    HalfLifeNormalized(app.name);
    HalfLifeFound(app, hit);
    PortalMissing(app, miss);
  }

  lemma HalfLifeFound(app: App, hit: string)
    requires app.appid == 1 && Normalize(app.name) == "halflife2" && hit == "halflife2"
    ensures MatchedAppId(Some([app]), hit) == Some(1)
  {
    NormalizeFixpoint(hit);
    assert hit <= Normalize(app.name);
    assert Matches(app, Normalize(hit));
  }

  lemma PortalMissing(app: App, miss: string)
    requires Normalize(app.name) == "halflife2" && miss == "portal"
    ensures MatchedAppId(Some([app]), miss) == None
  {
    NormalizeFixpoint(miss);
    NoPortal(Normalize(app.name), miss);
    assert !Matches(app, Normalize(miss));
  }

  lemma NoPortal(t: string, miss: string)
    requires t == "halflife2" && miss == "portal"
    ensures !Contains(t, miss)
  {
    assert miss[0] == 'p';
    if Contains(t, miss) {
      ContainsChars(t, miss, 'p');
      assert false;
    }
  }

  /** Normalisation works character by character. */
  lemma {:induction false} NormalizeAppend(a: string, b: string)
    ensures Normalize(a + b) == Normalize(a) + Normalize(b)
  {
    if a != [] {
      assert (a + b)[1..] == a[1..] + b;
      NormalizeAppend(a[1..], b);
    } else {
      assert a + b == b;
    }
  }

  lemma HalfLifeNormalized(name: string)
    requires name == "Half-Life 2"
    ensures Normalize(name) == "halflife2"
  {
    var a, b, c := name[..4], name[4..9], name[9..];
    NormalizedHalf(a);
    NormalizedLife(b);
    NormalizedTwo(c);
    NormalizeThree(name, a, b, c);
  }

  lemma NormalizeThree(s: string, a: string, b: string, c: string)
    requires s == a + b + c
    ensures Normalize(s) == Normalize(a) + Normalize(b) + Normalize(c)
  {
    NormalizeAppend(a + b, c);
    NormalizeAppend(a, b);
  }

  lemma NormalizedHalf(a: string)
    requires a == "Half"
    ensures Normalize(a) == "half"
  {
    assert a[3] == 'f' && NormalChars(a[3]) == "f";
    assert Normalize(a[3..]) == "f";
    assert a[2] == 'l' && NormalChars(a[2]) == "l";
    assert Normalize(a[2..]) == "lf";
    assert a[1] == 'a' && NormalChars(a[1]) == "a";
    assert Normalize(a[1..]) == "alf";
    assert a[0] == 'H' && NormalChars(a[0]) == "h";
  }

  lemma NormalizedLife(b: string)
    requires b == "-Life"
    ensures Normalize(b) == "life"
  {
    assert b[4] == 'e' && NormalChars(b[4]) == "e";
    assert Normalize(b[4..]) == "e";
    assert b[3] == 'f' && NormalChars(b[3]) == "f";
    assert Normalize(b[3..]) == "fe";
    assert b[2] == 'i' && NormalChars(b[2]) == "i";
    assert Normalize(b[2..]) == "ife";
    assert b[1] == 'L' && NormalChars(b[1]) == "l";
    assert Normalize(b[1..]) == "life";
    assert b[0] == '-' && NormalChars(b[0]) == "";
  }

  lemma NormalizedTwo(c: string)
    requires c == " 2"
    ensures Normalize(c) == "2"
  {
    assert c[1] == '2' && NormalChars(c[1]) == "2";
    assert Normalize(c[1..]) == "2";
    assert c[0] == ' ' && NormalChars(c[0]) == "";
  }
}
