# Portfolio locale gate, navigation highlighter and language selector

A Dafny model of the decision logic in a bilingual (French/English) portfolio site. It has three parts.

- **Locale routing gate** (`proxy.ts`, module `LocaleProxy`). The framework runs this for every request path that the route matcher intercepts. The matcher excludes build assets, the image endpoint, `favicon.ico` and image files. A path that already equals `/l` or starts with `/l/` for a supported locale `l` passes through. Any other path is redirected to `/` + locale + path, and the query string is kept. The locale comes from the `Accept-Language` header, through an abstract matcher (`LocaleMatcher`). A blank header or a matcher that throws gives the default locale `fr`.
- **Navigation** (`components/navigation.tsx`, module `Navigation`). An immutable state record `{isScrolled, menuOpen, active}` with step functions:
  - a scroll event sets `isScrolled` to `scrollY > 50`;
  - it makes the last section in declared order whose top is at most 150 px the active one, and leaves the active section alone when no section qualifies;
  - following a link closes the mobile menu;
  - the menu button toggles the menu.
  The DOM is represented by inputs: the scroll offset, and for each section id a top (`Some(top)`) or `None` when the element is missing.
- **Language selector** (`components/ui/select.tsx`, module `LanguageSelect`). It offers the options `fr` and `en`, highlights the option equal to the current language, and calls the change callback only for a language different from the current one.

The shared locale constants are in module `Locales`. The supported locales (the keys of the dictionary module) are a parameter of the gate. The idempotence results hold when the default `fr` is among them and the matcher conforms. The site builds exactly `fr` and `en` (`StaticLocales`), and the concrete examples use that pair.

A path is accepted only when it equals `/l` or starts with `/l/`, so `/french` and `/fr-CA` are redirected. The route matcher's exclusions are modelled exactly as its pattern is written.

## Model

| member | source | states |
|---|---|---|
| LocaleProxy.GetLocale | proxy.ts:11-25 | A blank (absent or empty) header gives `fr`. Otherwise the result is what the matcher returned, or `fr` when the matcher threw. No other string is ever produced, and the function never fails. |
| LocaleProxy.GetLocaleInDomain | proxy.ts:20-24 | If the matcher only returns supported locales or the default, the negotiated locale is supported or `fr`. When `fr` is supported, it is always a supported locale. |
| LocaleProxy.BlankHeaderIgnoresMatcher | proxy.ts:12-14 | With a blank header the matcher is not consulted: any two matchers give the same result, `fr`. |
| LocaleProxy.PathnameHasLocale | proxy.ts:31-33 | True exactly when some supported locale `l` makes the path equal `/l` or start with `/l/`. |
| LocaleProxy.Proxy | proxy.ts:27-42 | Passes through exactly when the path carries a supported locale. Otherwise it redirects to exactly `/` + negotiated locale + path, with the query unchanged. The original path survives as a suffix. |
| LocaleProxy.PrefixedPathHasLocale | proxy.ts:31-39 | Putting `/l` in front of a path that starts with `/`, for a supported `l`, gives a path the locale check accepts. |
| LocaleProxy.ProxyIdempotent | proxy.ts:31-39 | Suppose the path starts with `/`, `fr` is a supported locale, and the matcher only returns supported locales or `fr`. Then the redirect target passes through on re-entry, whatever header and matcher come with the second request. |
| LocaleProxy.Gate | proxy.ts:27-52 | Passes through exactly when the route matcher excludes the path or the path already carries a supported locale. Every other path is redirected to `/` + negotiated locale + path, with the query kept. |
| LocaleProxy.GateIdempotent | proxy.ts:27-51 | Suppose `fr` is a supported locale and the matcher only returns supported locales or `fr`. Then the target of any redirect the gate issues passes through the second time. Without these conditions the gate can redirect again: with no supported locales, `/x` goes to `/fr/x` and then to `/fr/fr/x`. |
| LocaleProxy.StaticGateIdempotent | proxy.ts:7-51 | With the built locales `fr` and `en` and a matcher that only returns those locales, no redirect target of the gate is redirected again. |
| LocaleProxy.StaticAssetsPassThrough | proxy.ts:51 | These paths are never intercepted, whatever the header: paths starting `/_next/static`, `/_next/image` or `/favicon.ico`, and paths ending `.svg`, `.png`, `.jpg`, `.jpeg`, `.gif` or `.webp`. |
| LocaleProxy.ChunkPathExample | proxy.ts:51 | `/_next/static/chunk.js` passes through for every header and matcher. |
| LocaleProxy.StaticLocaleExamples | proxy.ts:31-35 | With locales `fr` and `en`: `/fr` and `/en/x` carry a locale; `/french`, `/fr-CA` and `/` do not. |
| LocaleProxy.AboutPathUnlocalised | proxy.ts:31-51 | `/a-propos` is intercepted by the route matcher and carries neither `fr` nor `en`. |
| LocaleProxy.UnlocalisedRedirected | proxy.ts:35-41 | Every intercepted path that carries no supported locale is redirected to `/` + negotiated locale + path, with the query kept. |
| LocaleProxy.AboutPathRedirected | proxy.ts:35-41 | `/a-propos` is redirected to `/` + negotiated locale + `/a-propos`, whatever the header. |
| LocaleProxy.EnglishRedirectExample | proxy.ts:38-41 | `/a-propos`, with a header the matcher resolves to `en`, is redirected to `/en/a-propos`. |
| Locales.DefaultIsStatic | proxy.ts:8 | The default locale `fr` is one of the locales the layout generates pages for (`fr`, `en`), and the first of them. |
| Navigation.SectionIds | components/navigation.tsx:7-25 | One id per nav link, in the same order. Each link's href is `#` followed by its id. |
| Navigation.SectionIdsInOrder | components/navigation.tsx:7-25 | The scanned ids are accueil, a-propos, competences, projets, contact, in declared order. |
| Navigation.SectionIdsDistinct | components/navigation.tsx:7-13 | No section id is listed twice. |
| Navigation.LastQualifyingIndex | components/navigation.tsx:26-35 | The bottom-to-top scan picks a present section whose top is at most 150, and no later section in declared order qualifies. It finds nothing exactly when no present section qualifies. |
| Navigation.ScanSections | components/navigation.tsx:25-35 | The reverse loop with `break` skips missing elements. It returns the last qualifying section in declared order, or nothing when none qualifies, and agrees with the reference scan. |
| Navigation.Initial | components/navigation.tsx:16-18 | On mount: not scrolled, menu closed, the first section (`accueil`) active. |
| Navigation.HandleScroll | components/navigation.tsx:21-36 | `isScrolled` holds exactly when `scrollY > 50`, and the menu flag is untouched. The active section becomes the last qualifying section in declared order, or stays unchanged when none qualifies. |
| Navigation.ScrollSelectsPresentSection | components/navigation.tsx:27-33 | Whenever a scroll changes the active section, the new one is a present section whose top is at most 150. Missing sections are never selected. |
| Navigation.HandleScrollIdempotent | components/navigation.tsx:25-35 | Replaying the same scroll event, with the same offset and section tops, leaves the state as it was after the first. |
| Navigation.ScrollToSection | components/navigation.tsx:42-48 | The mobile menu is closed whether or not the target exists. A smooth scroll to the target is requested exactly when the element exists. The active section and the scrolled flag are unchanged. |
| Navigation.ToggleMenu | components/navigation.tsx:104 | The menu button flips the menu flag and changes nothing else. |
| Navigation.ToggleMenuTwice | components/navigation.tsx:104 | Pressing the menu button twice restores the state. |
| Navigation.Next | components/navigation.tsx:20-48 | Scroll, link and menu-button events each keep the active section one of the page's section ids. |
| Navigation.RunPreservesValid | components/navigation.tsx:20-48 | Starting from a valid state, any sequence of events keeps the active section one of the page's section ids. |
| Navigation.ReachableStatesValid | components/navigation.tsx:16-48 | Every state reachable from mount has a section id as its active section. |
| Navigation.ExactlyOneLinkActive | components/navigation.tsx:85-96 | In every valid state, which includes every reachable one, exactly one nav link is drawn as active (`activeSection === href.slice(1)`). |
| Navigation.ScrollExample | components/navigation.tsx:26-33 | With `competences` at top 100 and `projets` at 400, `competences` becomes active. |
| LanguageSelect.HandleChange | components/ui/select.tsx:18-21 | Choosing the current language calls nothing. Choosing another language calls the callback exactly once, with that value. |
| LanguageSelect.Highlights | components/ui/select.tsx:30-38 | One highlight flag per option, in option order. Each is set exactly when that option's value equals `currentLang`. |
| LanguageSelect.HighlightCount | components/ui/select.tsx:30-38 | At most one option is ever highlighted. Exactly one is highlighted when the current language is `fr` or `en`, and none otherwise. |
| LanguageSelect.PickingOption | components/ui/select.tsx:18-36 | Picking an option calls nothing exactly when that option is the highlighted one. Picking any other option forwards its value, which is one of the built locales `fr`, `en`. |
| LanguageSelect.OptionValuesAreStaticLocales | components/ui/select.tsx:11-14 | The options are exactly `fr` then `en`, the same locales the site builds. |

## Left out

- The header parser and the locale matcher (Negotiator and `match`) are modelled as one function-valued parameter, `LocaleMatcher`. It has no internals: the model does not implement quality weights or language-tag lookup. Its only assumed property is `ConformingMatcher`: a locale it returns is supported or the default.
- Header parsing happens outside the `try` in the source. The model assumes the parser itself never throws; only `match` may throw.
- The dictionary module's contents are not modelled. Its keys, the supported locales, are a parameter of the gate.
- Request and response objects are reduced to a URL of pathname and query string, and a `PassThrough | Redirect(url)` result. The HTTP status code, host, hash and headers of the redirect are not modelled.
- The route matcher is treated as a plain, anchored, case-sensitive regular expression. Its unescaped `.` in `favicon.ico` matches any character, as written. The framework's compilation of matcher strings is not modelled: case folding, trailing-slash handling, and raw line terminators in paths, which `.` would not match.
- The DOM is reduced to inputs: `window.scrollY` and each element's `getBoundingClientRect().top` become integers, not floating-point numbers. `getElementById` and `querySelector` become presence flags, and `scrollIntoView` is returned as an effect. Listener registration and removal is not modelled.
- The language-change callback is supplied by the caller. The model records the calls made to it.
- All markup and styling, the hero/about/skills/projects/contact/footer sections, the contact form's simulated submission, the custom cursor, the brand icon, the translation dictionaries and the layout's 404 guard are presentational or outside the core, so they are not modelled.
