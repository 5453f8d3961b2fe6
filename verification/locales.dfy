/**
 The closed locale domain shared by the routing gate and the language selector.
 Locales travel as plain strings; these constants pin down the values the site
 is built for.
 */
module Locales {

  /** The locale used whenever negotiation cannot decide. */
  const DefaultLocale: string := "fr"

  /** The locales whose pages are generated at build time, in declared order. */
  const StaticLocales: seq<string> := ["fr", "en"]

  lemma DefaultIsStatic()
    ensures DefaultLocale in StaticLocales
    ensures StaticLocales[0] == DefaultLocale
  {
  }
}
