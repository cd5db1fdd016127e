/**
 * The bilingual text lookup of the app (`get_text`). The table maps a
 * language code to that language's key -> text dictionary; the app's own
 * table has the two languages "fr" and "en", and only the lookup rule is
 * modelled, not the literal texts.
 */
module Translations {

  type Table = map<string, map<string, string>>

  const French: string := "fr"
  const English: string := "en"

  /** The shape of the app's table: exactly the two languages. */
  predicate IsBilingual(table: Table)
  {
    table.Keys == {French, English}
  }

  /** The language whose dictionary is consulted: the requested one if the table has it, else English. */
  function EffectiveLanguage(table: Table, lang: string): (l: string)
    requires English in table
    ensures l in table
    ensures lang in table ==> l == lang
    ensures lang !in table ==> l == English
  {
    if lang in table then lang else English
  }

  /**
   * `get_text(key, lang)`: the text for `key` in the effective language's
   * dictionary, or `key` itself when that dictionary has no entry for it.
   */
  function GetText(table: Table, key: string, lang: string): string
    requires English in table
  {
    var dict := table[EffectiveLanguage(table, lang)];
    if key in dict then dict[key] else key
  }

  /** The lookup never fails: its answer is an entry of some dictionary of the table, or the key. */
  lemma GetTextTotal(table: Table, key: string, lang: string)
    requires English in table
    ensures GetText(table, key, lang) == key
         || exists l :: l in table && key in table[l] && GetText(table, key, lang) == table[l][key]
  {
  }

  /** For a language the table has and a key its dictionary has, the lookup is that entry. */
  lemma GetTextKnown(table: Table, key: string, lang: string)
    requires English in table && lang in table && key in table[lang]
    ensures GetText(table, key, lang) == table[lang][key]
  {
  }

  /** Every language outside the table (for the app's table: anything but "fr" and "en") reads as English. */
  lemma UnknownLanguageIsEnglish(table: Table, key: string, lang: string)
    requires IsBilingual(table)
    requires lang != French && lang != English
    ensures GetText(table, key, lang) == GetText(table, key, English)
  {
  }

  /** A key missing from the consulted dictionary comes back unchanged. */
  lemma MissingKeyIsEchoed(table: Table, key: string, lang: string)
    requires English in table
    requires key !in table[EffectiveLanguage(table, lang)]
    ensures GetText(table, key, lang) == key
  {
  }
}
