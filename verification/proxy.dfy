/**
 The locale routing gate run in front of every page request.

 A request path that already carries a supported locale prefix passes through;
 any other path is redirected to the same path under the locale negotiated from
 the `Accept-Language` header. Static assets are excluded from interception
 altogether by the route matcher.
 */
module LocaleProxy {
  import opened Wrappers
  import opened Locales

  /** Prefix test on strings, the model of JavaScript's `startsWith`. */
  predicate StartsWith(s: string, prefix: string) {
    prefix <= s
  }

  /** Suffix test on strings, the model of a regular expression anchored with `$`. */
  predicate EndsWith(s: string, suffix: string) {
    |suffix| <= |s| && s[|s| - |suffix|..] == suffix
  }

  /** What the locale-matching library does with one header: it returns a locale or throws. */
  datatype MatchOutcome = Matched(locale: string) | Threw

  /**
   The header parser and the locale matcher, composed and left abstract:
   given the raw header value, the supported locales and the default locale,
   it produces an outcome. Its internals (quality weights, subtag lookup) are
   not part of this model.
   */
  type LocaleMatcher = (string, seq<string>, string) -> MatchOutcome

  /** The one thing the matcher is trusted to do: a locale it returns is supported or the default. */
  predicate Conforms(outcome: MatchOutcome, locales: seq<string>) {
    outcome.Matched? ==> outcome.locale in locales || outcome.locale == DefaultLocale
  }

  ghost predicate ConformingMatcher(matcher: LocaleMatcher, locales: seq<string>) {
    forall header :: Conforms(matcher(header, locales, DefaultLocale), locales)
  }

  /** A header value that JavaScript treats as false: absent (null) or empty. */
  predicate Blank(header: Option<string>) {
    header.None? || header.value == ""
  }

  /**
   Picks the locale for a redirect. A blank header gives the default without
   consulting the matcher; a matcher that throws also gives the default, so the
   function never fails.
   */
  function GetLocale(header: Option<string>, locales: seq<string>, matcher: LocaleMatcher): (r: string)
    ensures Blank(header) ==> r == DefaultLocale
    ensures r == DefaultLocale || (!Blank(header) && matcher(header.value, locales, DefaultLocale) == Matched(r))
    ensures !Blank(header) && matcher(header.value, locales, DefaultLocale).Matched?
            ==> r == matcher(header.value, locales, DefaultLocale).locale
  {
    if Blank(header) then DefaultLocale
    else
      match matcher(header.value, locales, DefaultLocale)
      case Matched(l) => l
      case Threw => DefaultLocale
  }

  /** With a conforming matcher, the negotiated locale is supported or the default. */
  lemma GetLocaleInDomain(header: Option<string>, locales: seq<string>, matcher: LocaleMatcher)
    requires ConformingMatcher(matcher, locales)
    ensures GetLocale(header, locales, matcher) in locales || GetLocale(header, locales, matcher) == DefaultLocale
    ensures DefaultLocale in locales ==> GetLocale(header, locales, matcher) in locales
  {
    if !Blank(header) {
      assert Conforms(matcher(header.value, locales, DefaultLocale), locales);
    }
  }

  /** A blank header decides the locale on its own: no two matchers can disagree. */
  lemma BlankHeaderIgnoresMatcher(header: Option<string>, locales: seq<string>, m1: LocaleMatcher, m2: LocaleMatcher)
    requires Blank(header)
    ensures GetLocale(header, locales, m1) == GetLocale(header, locales, m2) == DefaultLocale
  {
  }

  /** `pathname` equals `/l` or starts with `/l/`. */
  predicate CarriesLocale(pathname: string, locale: string) {
    StartsWith(pathname, "/" + locale + "/") || pathname == "/" + locale
  }

  /** The `locales.some(...)` test: does the path already carry some supported locale? */
  function PathnameHasLocale(pathname: string, locales: seq<string>): (r: bool)
    ensures r <==> exists l :: l in locales && CarriesLocale(pathname, l)
  {
    if |locales| == 0 then false
    else CarriesLocale(pathname, locales[0]) || PathnameHasLocale(pathname, locales[1..])
  }

  /** The parts of the request URL the gate reads and rewrites. */
  datatype Url = Url(pathname: string, search: string)

  /** Returning nothing lets the request through; otherwise the gate redirects. */
  datatype Response = PassThrough | Redirect(location: Url)

  /**
   The gate proper: pass a locale-prefixed path through, otherwise redirect to
   the path with the negotiated locale in front and the query left alone.
   */
  function Proxy(url: Url, header: Option<string>, locales: seq<string>, matcher: LocaleMatcher): (r: Response)
    ensures r.PassThrough? <==> exists l :: l in locales && CarriesLocale(url.pathname, l)
    ensures r.Redirect? ==> r.location.search == url.search
    ensures r.Redirect? ==> r.location == Url("/" + GetLocale(header, locales, matcher) + url.pathname, url.search)
    ensures r.Redirect? ==> EndsWith(r.location.pathname, url.pathname)
  {
    if PathnameHasLocale(url.pathname, locales) then PassThrough
    else
      var locale := GetLocale(header, locales, matcher);
      Redirect(url.(pathname := "/" + locale + url.pathname))
  }

  /** A path under `/l` for a supported `l` is recognised as carrying a locale. */
  lemma PrefixedPathHasLocale(locale: string, pathname: string, locales: seq<string>)
    requires locale in locales
    requires StartsWith(pathname, "/")
    ensures PathnameHasLocale("/" + locale + pathname, locales)
  {
    var target := "/" + locale + pathname;
    assert target == ("/" + locale + "/") + pathname[1..];
    assert CarriesLocale(target, locale);
  }

  /**
   Idempotence: the target of a redirect passes straight through on re-entry,
   whatever header accompanies the second request.
   */
  lemma ProxyIdempotent(url: Url, header: Option<string>, locales: seq<string>, matcher: LocaleMatcher,
                        header2: Option<string>, matcher2: LocaleMatcher)
    requires StartsWith(url.pathname, "/")
    requires DefaultLocale in locales
    requires ConformingMatcher(matcher, locales)
    ensures Proxy(url, header, locales, matcher).Redirect? ==>
            Proxy(Proxy(url, header, locales, matcher).location, header2, locales, matcher2) == PassThrough
  {
    if Proxy(url, header, locales, matcher).Redirect? {
      var locale := GetLocale(header, locales, matcher);
      GetLocaleInDomain(header, locales, matcher);
      PrefixedPathHasLocale(locale, url.pathname, locales);
    }
  }

  /** Path prefixes (after the leading `/`) that the route matcher never intercepts. */
  predicate ExcludedPrefix(rest: string) {
    StartsWith(rest, "_next/static") || StartsWith(rest, "_next/image")
  }

  /** `favicon.ico` as written in the matcher: the unescaped `.` matches any character. */
  predicate FaviconLike(rest: string) {
    |rest| >= 11 && rest[..7] == "favicon" && rest[8..11] == "ico"
  }

  /** `.*\.(?:svg|png|jpg|jpeg|gif|webp)$`: the path ends in one of the image extensions. */
  predicate ImageExtension(rest: string) {
    || EndsWith(rest, ".svg") || EndsWith(rest, ".png") || EndsWith(rest, ".jpg")
    || EndsWith(rest, ".jpeg") || EndsWith(rest, ".gif") || EndsWith(rest, ".webp")
  }

  /** The negative lookahead of the matcher, applied right after the leading `/`. */
  predicate ExcludedRest(rest: string) {
    ExcludedPrefix(rest) || FaviconLike(rest) || ImageExtension(rest)
  }

  /** The route matcher `/((?!…).*)`: a path starting with `/` whose remainder is not excluded. */
  predicate Intercepted(pathname: string) {
    |pathname| > 0 && pathname[0] == '/' && !ExcludedRest(pathname[1..])
  }

  /** A request as the framework serves it: the gate runs only on intercepted paths. */
  function Gate(url: Url, header: Option<string>, locales: seq<string>, matcher: LocaleMatcher): (r: Response)
    ensures !Intercepted(url.pathname) ==> r == PassThrough
    ensures r.PassThrough? <==> !Intercepted(url.pathname) || PathnameHasLocale(url.pathname, locales)
    ensures r.Redirect? ==> Intercepted(url.pathname) && !PathnameHasLocale(url.pathname, locales)
    ensures r.Redirect? ==> r.location == Url("/" + GetLocale(header, locales, matcher) + url.pathname, url.search)
  {
    if Intercepted(url.pathname) then Proxy(url, header, locales, matcher) else PassThrough
  }

  /** Idempotence of the whole gate: a redirect target is never redirected again. */
  lemma GateIdempotent(url: Url, header: Option<string>, locales: seq<string>, matcher: LocaleMatcher,
                       header2: Option<string>, matcher2: LocaleMatcher)
    requires DefaultLocale in locales
    requires ConformingMatcher(matcher, locales)
    ensures Gate(url, header, locales, matcher).Redirect? ==>
            Gate(Gate(url, header, locales, matcher).location, header2, locales, matcher2) == PassThrough
  {
    if Gate(url, header, locales, matcher).Redirect? {
      assert StartsWith(url.pathname, "/") by {
        assert url.pathname[..1] == [url.pathname[0]];
      }
      ProxyIdempotent(url, header, locales, matcher, header2, matcher2);
    }
  }

  /** An extension suffix of a path starting with `/` is also a suffix of the path's remainder. */
  lemma ExtensionOfRest(p: string, ext: string)
    requires StartsWith(p, "/")
    requires |ext| > 0 && ext[0] == '.'
    requires EndsWith(p, ext)
    ensures EndsWith(p[1..], ext)
  {
    assert p[1..][|p[1..]| - |ext|..] == p[|p| - |ext|..];
  }

  /** Build-internal assets and images are served untouched, whatever the request's header. */
  lemma StaticAssetsPassThrough(url: Url, header: Option<string>, locales: seq<string>, matcher: LocaleMatcher)
    requires StartsWith(url.pathname, "/")
    requires || StartsWith(url.pathname, "/_next/static") || StartsWith(url.pathname, "/_next/image")
             || StartsWith(url.pathname, "/favicon.ico") || ImageExtension(url.pathname)
    ensures Gate(url, header, locales, matcher) == PassThrough
  {
    var p := url.pathname;
    var rest := p[1..];
    if StartsWith(p, "/_next/static") {
      assert rest[..12] == p[1..13] == "_next/static";
    } else if StartsWith(p, "/_next/image") {
      assert rest[..11] == p[1..12] == "_next/image";
    } else if StartsWith(p, "/favicon.ico") {
      assert rest[..7] == p[1..8] == "favicon";
      assert rest[8..11] == p[9..12] == "ico";
    } else {
      if EndsWith(p, ".svg") { ExtensionOfRest(p, ".svg"); }
      else if EndsWith(p, ".png") { ExtensionOfRest(p, ".png"); }
      else if EndsWith(p, ".jpg") { ExtensionOfRest(p, ".jpg"); }
      else if EndsWith(p, ".jpeg") { ExtensionOfRest(p, ".jpeg"); }
      else if EndsWith(p, ".gif") { ExtensionOfRest(p, ".gif"); }
      else { ExtensionOfRest(p, ".webp"); }
    }
  }

  /** The build pipeline's chunk path is never rewritten. */
  lemma ChunkPathExample(header: Option<string>, locales: seq<string>, matcher: LocaleMatcher)
    ensures Gate(Url("/_next/static/chunk.js", ""), header, locales, matcher) == PassThrough
  {
    var p := "/_next/static/chunk.js";
    assert StartsWith(p, "/") by { assert p[..1] == "/"; }
    assert StartsWith(p, "/_next/static") by { assert p[..13] == "/_next/static"; }
    StaticAssetsPassThrough(Url(p, ""), header, locales, matcher);
  }

  /** Which paths count as already localised, for the locales built by the site. */
  lemma StaticLocaleExamples()
    ensures PathnameHasLocale("/fr", StaticLocales)
    ensures PathnameHasLocale("/en/x", StaticLocales)
    ensures !PathnameHasLocale("/french", StaticLocales)
    ensures !PathnameHasLocale("/fr-CA", StaticLocales)
    ensures !PathnameHasLocale("/", StaticLocales)
  {
    assert CarriesLocale("/fr", "fr");
    assert CarriesLocale("/en/x", "en") by { assert "/en/x"[..4] == "/en/"; }
    assert !CarriesLocale("/french", "fr") by { assert "/french"[3] == 'e'; }
    assert !CarriesLocale("/french", "en") by { assert "/french"[1] == 'f'; }
    assert !CarriesLocale("/fr-CA", "fr") by { assert "/fr-CA"[3] == '-'; }
    assert !CarriesLocale("/fr-CA", "en") by { assert "/fr-CA"[1] == 'f'; }
  }

  /** `/a-propos` is an ordinary page path: intercepted, and without a locale. */
  lemma AboutPathUnlocalised(p: string)
    requires p == "/a-propos"
    ensures Intercepted(p)
    ensures !PathnameHasLocale(p, StaticLocales)
  {
    assert !CarriesLocale(p, "fr") by { assert p[1] == 'a'; }
    assert !CarriesLocale(p, "en") by { assert p[1] == 'a'; }
    var rest := p[1..];
    assert rest == "a-propos";
    assert !StartsWith(rest, "_next/static") && !StartsWith(rest, "_next/image") by { assert rest[0] == 'a'; }
    assert !FaviconLike(rest) by { assert |rest| < 11; }
    assert !ImageExtension(rest) by { assert rest[|rest| - 1] == 's'; }
  }

  /** An intercepted path without a locale is redirected under the negotiated locale. */
  lemma UnlocalisedRedirected(url: Url, header: Option<string>, locales: seq<string>, matcher: LocaleMatcher)
    requires Intercepted(url.pathname)
    requires !PathnameHasLocale(url.pathname, locales)
    ensures Gate(url, header, locales, matcher)
            == Redirect(Url("/" + GetLocale(header, locales, matcher) + url.pathname, url.search))
  {
  }

  /** Whatever the header, `/a-propos` is redirected under the negotiated locale. */
  lemma AboutPathRedirected(url: Url, header: Option<string>, matcher: LocaleMatcher)
    requires url == Url("/a-propos", "")
    ensures Gate(url, header, StaticLocales, matcher)
            == Redirect(Url("/" + GetLocale(header, StaticLocales, matcher) + url.pathname, url.search))
  {
    AboutPathUnlocalised(url.pathname);
    UnlocalisedRedirected(url, header, StaticLocales, matcher);
  }

  /** An English-preferring browser asking for `/a-propos` is sent to `/en/a-propos`. */
  lemma EnglishRedirectExample(url: Url, header: Option<string>, matcher: LocaleMatcher)
    requires url == Url("/a-propos", "") && header == Some("en-US,en;q=0.9")
    requires matcher(header.value, StaticLocales, DefaultLocale) == Matched("en")
    ensures Gate(url, header, StaticLocales, matcher) == Redirect(Url("/en/a-propos", ""))
  {
    AboutPathRedirected(url, header, matcher);
    EnglishLocale(header, matcher);
    EnAboutTarget(url.pathname);
  }

  lemma EnglishLocale(header: Option<string>, matcher: LocaleMatcher)
    requires header == Some("en-US,en;q=0.9")
    requires matcher(header.value, StaticLocales, DefaultLocale) == Matched("en")
    ensures GetLocale(header, StaticLocales, matcher) == "en"
  {
  }

  lemma EnAboutTarget(p: string)
    requires p == "/a-propos"
    ensures "/" + "en" + p == "/en/a-propos"
  {
  }

  /**
   For the locales the site is built for, a redirect issued by the gate is
   never followed by another, whatever the conforming matcher returns.
   */
  lemma StaticGateIdempotent(url: Url, header: Option<string>, matcher: LocaleMatcher,
                             header2: Option<string>, matcher2: LocaleMatcher)
    requires ConformingMatcher(matcher, StaticLocales)
    ensures Gate(url, header, StaticLocales, matcher).Redirect? ==>
            Gate(Gate(url, header, StaticLocales, matcher).location, header2, StaticLocales, matcher2) == PassThrough
  {
    DefaultIsStatic();
    GateIdempotent(url, header, StaticLocales, matcher, header2, matcher2);
  }
}
