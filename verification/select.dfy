/**
 The language selector: a closed list of two options and a change handler
 that forwards a new locale to its callback only when it differs from the
 current one.
 */
module LanguageSelect {
  import opened Locales

  datatype LanguageOption = LanguageOption(value: string, caption: string)

  /** The options offered, in display order. */
  const Options: seq<LanguageOption> := [
    LanguageOption("fr", "Fran\U{E7}ais"),
    LanguageOption("en", "English")
  ]

  /**
   The change handler. Its observable effect is the list of calls it makes to
   the language-change callback: none when the choice is the current language,
   exactly one, with the chosen value, otherwise.
   */
  function HandleChange(currentLang: string, newLocale: string): (calls: seq<string>)
    ensures calls == [] <==> newLocale == currentLang
    ensures newLocale != currentLang ==> |calls| == 1 && calls[0] == newLocale
  {
    if newLocale == currentLang then [] else [newLocale]
  }

  /** Per option, whether it is drawn in the highlight colour. */
  function Highlights(currentLang: string): (marks: seq<bool>)
    ensures |marks| == |Options|
    ensures forall i :: 0 <= i < |Options| ==> (marks[i] <==> Options[i].value == currentLang)
  {
    seq(|Options|, i requires 0 <= i < |Options| => Options[i].value == currentLang)
  }

  /** The option values are exactly the locales the site is built for, in the same order. */
  lemma OptionValuesAreStaticLocales()
    ensures |Options| == |StaticLocales|
    ensures forall i :: 0 <= i < |Options| ==> Options[i].value == StaticLocales[i]
  {
  }

  /** For a supported current language exactly one option is highlighted; otherwise none. */
  lemma HighlightCount(currentLang: string)
    ensures currentLang in StaticLocales ==>
              exists i :: 0 <= i < |Options| && Highlights(currentLang)[i]
    ensures forall i, j ::
              0 <= i < |Options| && 0 <= j < |Options| && Highlights(currentLang)[i] && Highlights(currentLang)[j]
              ==> i == j
    ensures currentLang !in StaticLocales ==>
              forall i :: 0 <= i < |Options| ==> !Highlights(currentLang)[i]
  {
    var marks := Highlights(currentLang);
    if currentLang == "fr" {
      assert marks[0];
    } else if currentLang == "en" {
      assert marks[1];
    }
  }

  /**
   Picking the highlighted option is the one choice that calls nothing; picking
   any other option forwards that option's value, which is a built locale.
   */
  lemma PickingOption(currentLang: string, i: int)
    requires 0 <= i < |Options|
    ensures HandleChange(currentLang, Options[i].value) == [] <==> Highlights(currentLang)[i]
    ensures forall c :: c in HandleChange(currentLang, Options[i].value) ==> c in StaticLocales
  {
    OptionValuesAreStaticLocales();
    assert Options[i].value == StaticLocales[i];
  }
}
