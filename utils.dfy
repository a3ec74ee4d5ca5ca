/** The small helpers of `server/utils.py`: random ids, slugs, environment flags and
    the session-cookie options. */
module Utils {
  import opened Wrappers
  import opened Text

  const ALPHABET: string := "0123456789abcdefghijklmnopqrstuvwxyz"

  /** `nanoid(size)`: `draws[k]` is the k-th value `secrets.randbelow(len(ALPHABET))`
      returned, the source of randomness made a parameter. */
  function Nanoid(size: nat, draws: seq<int>): (id: string)
    requires |draws| == size
    requires forall k :: 0 <= k < size ==> 0 <= draws[k] < |ALPHABET|
    ensures |id| == size
    ensures forall k :: 0 <= k < size ==> id[k] in ALPHABET
    ensures forall k :: 0 <= k < size ==> IsSlugChar(id[k])
  {
    AlphabetIsSlugChars();
    seq(size, k requires 0 <= k < size => ALPHABET[draws[k]])
  }

  /** Every letter of the alphabet is one a slug keeps. */
  lemma AlphabetIsSlugChars()
    ensures forall i :: 0 <= i < |ALPHABET| ==> IsSlugChar(ALPHABET[i])
  {
  }

  // ---------------------------------------------------------------------------
  // slugify_str
  // ---------------------------------------------------------------------------

  /** The characters `[a-z0-9]` the slug keeps. */
  predicate IsSlugChar(c: char) {
    'a' <= c <= 'z' || '0' <= c <= '9'
  }

  /** What `slugify_str` promises of its result: only `[a-z0-9-]`, no `-` at either
      end and never two in a row. */
  predicate IsSlug(t: string) {
    SlugChars(t) && NoDoubleDash(t) && (t != [] ==> t[0] != '-' && t[|t| - 1] != '-')
  }

  predicate SlugChars(t: string) {
    forall i :: 0 <= i < |t| ==> IsSlugChar(t[i]) || t[i] == '-'
  }

  predicate NoDoubleDash(t: string) {
    forall i :: 0 <= i < |t| - 1 ==> !(t[i] == '-' && t[i + 1] == '-')
  }

  /** Both hold of every substring of a string they hold of. */
  lemma SliceKeepsSlugShape(t: string, i: nat, j: nat)
    requires i <= j <= |t| && SlugChars(t) && NoDoubleDash(t)
    ensures SlugChars(t[i..j]) && NoDoubleDash(t[i..j])
  {
    var u := t[i..j];
    assert forall k :: 0 <= k < |u| ==> u[k] == t[i + k];
  }

  /** `t` holds no character of `[a-z0-9]`. */
  predicate NoSlugChar(t: string) {
    forall i :: 0 <= i < |t| ==> !IsSlugChar(t[i])
  }

  /** The suffix left after the run of characters outside `[a-z0-9]` that opens `s`. */
  function DropRun(s: string): (r: string)
    ensures |r| <= |s| && r == s[|s| - |r|..]
    ensures r != [] ==> IsSlugChar(r[0])
    ensures s != [] && !IsSlugChar(s[0]) ==> |r| < |s|
    ensures NoSlugChar(s[..|s| - |r|])
    decreases |s|
  {
    if s != [] && !IsSlugChar(s[0]) then DropRun(s[1..]) else s
  }

  /** The run that opens `x + z` ends where the one opening `x` does, or at `z`. */
  lemma {:induction false} DropRunAppend(x: string, z: string)
    requires z != [] && IsSlugChar(z[0])
    ensures DropRun(x + z) == DropRun(x) + z
    decreases |x|
  {
    if x != [] && !IsSlugChar(x[0]) {
      assert (x + z)[1..] == x[1..] + z;
      DropRunAppend(x[1..], z);
    }
  }

  /** `re.sub(r"[^a-z0-9]+", "-", s)`: every maximal run outside `[a-z0-9]` becomes one `-`. */
  function Collapse(s: string): (r: string)
    ensures SlugChars(r) && NoDoubleDash(r)
    ensures s == [] <==> r == []
    ensures s != [] ==> (r[0] == '-' <==> !IsSlugChar(s[0]))
    decreases |s|
  {
    if s == [] then []
    else if IsSlugChar(s[0]) then [s[0]] + Collapse(s[1..])
    else
      var rest := DropRun(s);
      var t := Collapse(rest);
      assert t != [] ==> IsSlugChar(t[0]);
      "-" + t
  }

  /** A character of `[a-z0-9]` is kept and cuts the string into two that collapse apart. */
  lemma {:induction false} CollapseAround(x: string, c: char, y: string)
    requires IsSlugChar(c)
    ensures Collapse(x + [c] + y) == Collapse(x) + [c] + Collapse(y)
    decreases |x|
  {
    if x == [] {
      assert x + [c] + y == [c] + y;
      CollapseOfSlugHead([c] + y);
    } else if IsSlugChar(x[0]) {
      CollapseAround(x[1..], c, y);
      CollapseAroundSlug(x, c, y);
    } else {
      if DropRun(x) != [] {
        CollapseAround(DropRun(x), c, y);
      }
      CollapseAroundRun(x, c, y);
    }
  }

  lemma {:induction false} CollapseAroundSlug(x: string, c: char, y: string)
    requires x != [] && IsSlugChar(x[0])
    requires Collapse(x[1..] + [c] + y) == Collapse(x[1..]) + [c] + Collapse(y)
    ensures Collapse(x + [c] + y) == Collapse(x) + [c] + Collapse(y)
  {
    var s := x + [c] + y;
    ConsAround(x, c, y);
    CollapseOfSlugHead(s);
    CollapseOfSlugHead(x);
    Regroup4([x[0]], Collapse(x[1..]), [c], Collapse(y));
  }

  lemma {:induction false} ConsAround(x: string, c: char, y: string)
    requires x != []
    ensures (x + [c] + y)[1..] == x[1..] + [c] + y && (x + [c] + y)[0] == x[0]
  {
  }

  lemma {:induction false} CollapseAroundRun(x: string, c: char, y: string)
    requires IsSlugChar(c) && x != [] && !IsSlugChar(x[0])
    requires DropRun(x) != [] ==>
      Collapse(DropRun(x) + [c] + y) == Collapse(DropRun(x)) + [c] + Collapse(y)
    ensures Collapse(x + [c] + y) == Collapse(x) + [c] + Collapse(y)
  {
    var s := x + [c] + y;
    var x' := DropRun(x);
    ConsAround(x, c, y);
    DropRunAround(x, c, y);
    CollapseOfRunHead(s);
    CollapseOfRunHead(x);
    if x' == [] {
      SlugCharAhead(c, y);
      DashGlue(Collapse(s), Collapse(x), Collapse(x' + ([c] + y)), Collapse(x'), [c], Collapse(y));
    } else {
      Regroup3(x', [c], y);
      DashGlue(Collapse(s), Collapse(x), Collapse(x' + ([c] + y)), Collapse(x'), [c], Collapse(y));
    }
  }

  /** The equational step of `CollapseAroundRun`, with the collapsed pieces as values. */
  lemma DashGlue(cs: string, cx: string, cz: string, cx': string, b: string, cy: string)
    requires cs == "-" + cz && cx == "-" + cx' && cz == cx' + b + cy
    ensures cs == cx + b + cy
  {
  }

  lemma {:induction false} SlugCharAhead(c: char, y: string)
    requires IsSlugChar(c)
    ensures Collapse([c] + y) == [c] + Collapse(y)
  {
    var z := [c] + y;
    assert z[0] == c && z[1..] == y;
    CollapseOfSlugHead(z);
  }

  lemma Regroup3<T>(a: seq<T>, b: seq<T>, d: seq<T>)
    ensures a + (b + d) == a + b + d
  {
  }

  lemma Regroup4<T>(h: seq<T>, a: seq<T>, b: seq<T>, d: seq<T>)
    ensures h + (a + b + d) == h + a + b + d
  {
  }

  lemma {:induction false} DropRunAround(x: string, c: char, y: string)
    requires IsSlugChar(c)
    ensures DropRun(x + [c] + y) == DropRun(x) + ([c] + y)
  {
    assert x + [c] + y == x + ([c] + y);
    DropRunAppend(x, [c] + y);
  }

  lemma CollapseOfSlugHead(s: string)
    requires s != [] && IsSlugChar(s[0])
    ensures Collapse(s) == [s[0]] + Collapse(s[1..])
  {
  }

  lemma CollapseOfRunHead(s: string)
    requires s != [] && !IsSlugChar(s[0])
    ensures Collapse(s) == "-" + Collapse(DropRun(s))
  {
  }

  /** A whole run outside `[a-z0-9]` collapses to one `-`. */
  lemma CollapseOfRun(r: string)
    requires r != [] && forall k :: 0 <= k < |r| ==> !IsSlugChar(r[k])
    ensures Collapse(r) == "-"
  {
    CollapseOfRunHead(r);
  }

  /** `s.lstrip("-")` */
  function LStripDash(s: string): (r: string)
    ensures |r| <= |s| && r == s[|s| - |r|..]
    ensures r != [] ==> r[0] != '-'
    ensures forall i :: 0 <= i < |s| - |r| ==> s[i] == '-'
    decreases |s|
  {
    if s != [] && s[0] == '-' then LStripDash(s[1..]) else s
  }

  /** `s.rstrip("-")` */
  function RStripDash(s: string): (r: string)
    ensures |r| <= |s| && r == s[..|r|]
    ensures r != [] ==> r[|r| - 1] != '-'
    ensures forall i :: |r| <= i < |s| ==> s[i] == '-'
    decreases |s|
  {
    if s != [] && s[|s| - 1] == '-' then RStripDash(s[..|s| - 1]) else s
  }

  /** `slugify_str(s)`: a slug is made of `[a-z0-9-]`, has no `-` at either end and
      never `--`. */
  function Slugify(s: string): (r: string)
    ensures IsSlug(r)
  {
    var c := Collapse(Lower(s));
    var l := LStripDash(c);
    SliceKeepsSlugShape(c, |c| - |l|, |c|);
    var r := RStripDash(l);
    SliceKeepsSlugShape(l, 0, |r|);
    assert r != [] ==> r[0] == l[0];
    r
  }

  lemma {:induction false} CollapseOfSlug(t: string)
    requires SlugChars(t) && NoDoubleDash(t)
    ensures Collapse(t) == t
    decreases |t|
  {
    if t != [] {
      SliceKeepsSlugShape(t, 1, |t|);
      CollapseOfSlug(t[1..]);
      if IsSlugChar(t[0]) {
        assert t == [t[0]] + t[1..];
      } else {
        CollapseAtDash(t);
      }
    }
  }

  /** In a slug-shaped string a `-` is a run of its own. */
  lemma CollapseAtDash(t: string)
    requires SlugChars(t) && NoDoubleDash(t) && t != [] && !IsSlugChar(t[0])
    ensures Collapse(t) == "-" + Collapse(t[1..]) && t == "-" + t[1..]
  {
    var u := t[1..];
    assert t == "-" + u;
    assert u == [] || IsSlugChar(u[0]) by {
      if u != [] {
        assert u[0] == t[1] && t[1] != '-';
      }
    }
    assert DropRun(u) == u;
    assert DropRun(t) == u;
  }

  lemma LowerOfSlug(t: string)
    requires SlugChars(t)
    ensures Lower(t) == t
  {
  }

  /** Slugifying a slug gives it back unchanged. */
  lemma SlugifyOfSlug(t: string)
    requires IsSlug(t)
    ensures Slugify(t) == t
  {
    LowerOfSlug(t);
    CollapseOfSlug(t);
    assert LStripDash(t) == t;
  }

  /** The slug is empty exactly when the lowered text has no character of `[a-z0-9]`. */
  lemma SlugifyEmpty(s: string)
    ensures Slugify(s) == [] <==> forall k :: 0 <= k < |Lower(s)| ==> !IsSlugChar(Lower(s)[k])
  {
    var t := Lower(s);
    assert Slugify(s) == RStripDash(LStripDash(Collapse(t)));
    if k :| 0 <= k < |t| && IsSlugChar(t[k]) {
      var m := SlugCharSurvives(t, k);
      DashStripKeeps(Collapse(t), m);
    } else if t != [] {
      CollapseOfRun(t);
      assert LStripDash("-") == [];
    }
  }

  /** A character of `[a-z0-9]` comes through `Collapse` unchanged. */
  lemma {:induction false} SlugCharSurvives(t: string, k: nat) returns (m: nat)
    requires k < |t| && IsSlugChar(t[k])
    ensures m < |Collapse(t)| && Collapse(t)[m] == t[k]
  {
    assert t == t[..k] + [t[k]] + t[k + 1..];
    CollapseAround(t[..k], t[k], t[k + 1..]);
    m := |Collapse(t[..k])|;
  }

  /** Stripping dashes keeps a character that is not one. */
  lemma {:induction false} DashStripKeeps(c: string, m: nat)
    requires m < |c| && c[m] != '-'
    ensures RStripDash(LStripDash(c)) != []
  {
    var l := LStripDash(c);
    assert l != [];
  }

  /** `slugify_str` is idempotent. */
  lemma SlugifyIsIdempotent(s: string)
    ensures Slugify(Slugify(s)) == Slugify(s)
  {
    SlugifyOfSlug(Slugify(s));
  }

  // ---------------------------------------------------------------------------
  // from_env, parse_bool, cookie_kwargs
  // ---------------------------------------------------------------------------

  /** `from_env(v)`: an unset variable reads as "", a set one is stripped and lowered. */
  function FromEnv(v: Option<string>): (r: string)
    ensures v.None? ==> r == []
    ensures v.Some? ==> r == Lower(Strip(v.value))
  {
    Lower(Strip(v.GetOr([])))
  }

  const TRUE_WORDS: set<string> := {"1", "true", "yes", "on", "y"}
  const FALSE_WORDS: set<string> := {"0", "false", "no", "off", "n", ""}

  /** `parse_bool(v, fallback)` */
  function ParseBool(v: Option<string>, fallback: bool): (r: bool)
    ensures FromEnv(v) in TRUE_WORDS ==> r
    ensures FromEnv(v) in FALSE_WORDS ==> !r
    ensures FromEnv(v) !in TRUE_WORDS + FALSE_WORDS ==> r == fallback
  {
    ParseWord(FromEnv(v), fallback)
  }

  /** The word tests of `parse_bool` on the normalised value `s`. */
  function ParseWord(s: string, fallback: bool): (r: bool)
    ensures s in TRUE_WORDS ==> r
    ensures s in FALSE_WORDS ==> !r
    ensures s !in TRUE_WORDS + FALSE_WORDS ==> r == fallback
  {
    WordListsDisjoint();
    if s in TRUE_WORDS then true
    else if s in FALSE_WORDS then false
    else fallback
  }

  /** No word is both a true and a false one. */
  lemma WordListsDisjoint()
    ensures TRUE_WORDS * FALSE_WORDS == {}
  {
    forall w | w in TRUE_WORDS ensures w !in FALSE_WORDS {
      assert |w| == 1 ==> w[0] in "1y";
    }
  }

  /** An unset variable is false, whatever the fallback: "" is one of the false words. */
  lemma ParseBoolUnset(fallback: bool)
    ensures !ParseBool(None, fallback)
  {
    assert FromEnv(None) == "";
  }

  /** The value of a flag does not depend on the case of its letters. */
  lemma ParseBoolIgnoresCase(s: string, fallback: bool)
    ensures ParseBool(Some(Lower(s)), fallback) == ParseBool(Some(s), fallback)
  {
    StripOfLower(s);
    LowerIsIdempotent(Strip(s));
  }

  /** Nor on whitespace around it. */
  lemma ParseBoolIgnoresPadding(p: string, s: string, q: string, fallback: bool)
    requires AllSpace(p) && AllSpace(q)
    ensures ParseBool(Some(p + s + q), fallback) == ParseBool(Some(s), fallback)
  {
    StripIgnoresPadding(p, s, q);
  }

  /** The keyword arguments `cookie_kwargs()` passes to `set_cookie`. */
  datatype CookieOptions = CookieOptions(
    httpOnly: bool, sameSite: string, secure: bool, domain: Option<string>, path: string, maxAge: nat)

  /** `cookie_kwargs()` with the three environment variables it reads,
      `NODE_ENV`, `HTTPS_ENABLED` and `COOKIE_DOMAIN`, made parameters. */
  function CookieKwargs(nodeEnv: Option<string>, httpsEnabled: Option<string>,
                        cookieDomain: Option<string>): (r: CookieOptions)
    ensures r.secure == ParseBool(httpsEnabled, nodeEnv == Some("production"))
    ensures r.sameSite == "none" <==> r.secure
    ensures r.sameSite == (if r.secure then "none" else "lax")
    ensures r.httpOnly && r.path == "/" && r.maxAge == 604800
    ensures r.domain.None? <==> (cookieDomain.None? || cookieDomain == Some(""))
    ensures r.domain.Some? ==> r.domain == cookieDomain
  {
    var isProd := nodeEnv == Some("production");
    var https := ParseBool(httpsEnabled, isProd);
    CookieOptions(
      httpOnly := true,
      sameSite := if https then "none" else "lax",
      secure := https,
      domain := if cookieDomain.Some? && cookieDomain.value != [] then cookieDomain else None,
      path := "/",
      maxAge := 7 * 24 * 60 * 60)
  }

  /** Without `HTTPS_ENABLED` the cookie is never secure, in production too. */
  lemma CookieUnsetIsLax(nodeEnv: Option<string>, cookieDomain: Option<string>)
    ensures !CookieKwargs(nodeEnv, None, cookieDomain).secure
    ensures CookieKwargs(nodeEnv, None, cookieDomain).sameSite == "lax"
  {
    ParseBoolUnset(nodeEnv == Some("production"));
  }

  /** In production an unrecognised `HTTPS_ENABLED` value falls back to a secure cookie. */
  lemma CookieProductionFallback(v: string, cookieDomain: Option<string>)
    requires FromEnv(Some(v)) !in TRUE_WORDS + FALSE_WORDS
    ensures CookieKwargs(Some("production"), Some(v), cookieDomain).secure
  {
  }
}
