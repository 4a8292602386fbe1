/**
 * Localisation: the message lookup with `{key}` placeholders (`t`) and the
 * choice of the interface language from the browser's locale.
 */
module I18n {
  import opened Wrappers
  import opened Strings

  /** The loaded translation file: message code to message text. */
  type Table = map<string, string>

  /** The parameters of one message, in the order `for...in` visits them. */
  type Params = seq<(string, string)>

  /**
   * `translations[code] || code`: a missing entry, and also an entry whose
   * text is empty (a falsy value in JavaScript), falls back to the code.
   */
  function Lookup(table: Table, code: string): (text: string)
    ensures text == code || (code in table && text == table[code])
    ensures code in table && text != table[code] ==> table[code] == ""
    ensures text == "" ==> code == ""
  {
    if code in table && table[code] != "" then table[code] else code
  }

  /** The placeholder `{key}` that a parameter named `key` fills in. */
  function Placeholder(key: string): (p: string)
    ensures |p| == |key| + 2 && p[0] == '{' && p[|p| - 1] == '}'
  {
    "{" + key + "}"
  }

  /** No parameter's placeholder occurs anywhere in `text`. */
  ghost predicate NoPlaceholders(text: string, params: Params)
    decreases |params|
  {
    params == [] ||
    ((forall j :: !OccursAt(text, Placeholder(params[0].0), j)) && NoPlaceholders(text, params[1..]))
  }

  /**
   * The text after each parameter in turn has replaced the first
   * occurrence of its placeholder in the text the earlier ones left. A text
   * that holds no parameter's placeholder comes back unchanged.
   */
  function Render(text: string, params: Params): (r: string)
    ensures NoPlaceholders(text, params) ==> r == text
    decreases |params|
  {
    if params == [] then text
    else Render(ReplaceFirst(text, Placeholder(params[0].0), params[0].1), params[1..])
  }

  /** The translation function `t(code, params)`. */
  method Translate(table: Table, code: string, params: Params) returns (text: string)
    ensures text == Render(Lookup(table, code), params)
    ensures params == [] ==> text == Lookup(table, code)
  {
    text := Lookup(table, code);
    ghost var initial := text;
    var i := 0;
    while i < |params|
      invariant 0 <= i <= |params|
      invariant Render(text, params[i..]) == Render(initial, params)
    {
      var (key, value) := params[i];
      assert params[i..][1..] == params[i + 1..];
      text := ReplaceFirst(text, Placeholder(key), value);
      i := i + 1;
    }
  }

  lemma RenderSingle(text: string, key: string, value: string)
    ensures Render(text, [(key, value)]) == ReplaceFirst(text, Placeholder(key), value)
  {
    assert [(key, value)][1..] == [];
  }

  lemma RenderOneParamSplice(text: string, key: string, value: string, k: nat)
    requires IsFirstOccurrence(text, Placeholder(key), k)
    ensures Render(text, [(key, value)]) == text[..k] + value + text[k + |Placeholder(key)|..]
  {
    RenderSingle(text, key, value);
    ReplaceFirstAt(text, Placeholder(key), value, k);
  }

  lemma RenderOneParamKeepsLater(text: string, key: string, value: string, k: nat, m: nat)
    requires IsFirstOccurrence(text, Placeholder(key), k)
    requires OccursAt(text, Placeholder(key), m) && k + |Placeholder(key)| <= m
    ensures OccursAt(Render(text, [(key, value)]), Placeholder(key), m - |Placeholder(key)| + |value|)
  {
    RenderSingle(text, key, value);
    LaterOccurrenceSurvives(text, Placeholder(key), value, k, m);
  }

  /**
   * With one parameter, exactly its first placeholder is filled in: the
   * text before it is kept, and a second occurrence further on is still
   * in the result.
   */
  lemma RenderOneParam(text: string, key: string, value: string, k: nat, m: nat)
    requires IsFirstOccurrence(text, Placeholder(key), k)
    requires OccursAt(text, Placeholder(key), m) && k + |Placeholder(key)| <= m
    ensures Render(text, [(key, value)]) == text[..k] + value + text[k + |Placeholder(key)|..]
    ensures OccursAt(Render(text, [(key, value)]), Placeholder(key), m - |Placeholder(key)| + |value|)
  {
    RenderOneParamSplice(text, key, value, k);
    RenderOneParamKeepsLater(text, key, value, k, m);
  }

  // ----- Interface language -----

  /** The language tags a translation file exists for. */
  const SupportedTags: set<string> := {"zh-TW", "ja-JP", "vi", "id", "en-US"}

  /**
   * `navigator.language || navigator.userLanguage`; `None` stands for
   * `undefined`, and an empty `language` also falls through.
   */
  function BrowserLanguage(language: Option<string>, userLanguage: Option<string>): (lang: Option<string>)
    ensures language.Some? && language.value != "" ==> lang == language
    ensures language.None? || language == Some("") ==> lang == userLanguage
  {
    if language.Some? && language.value != "" then language else userLanguage
  }

  /**
   * The prefix chain that maps a browser locale to a supported tag: the
   * prefixes `zh`, `ja`, `vi` and `id` are tried in this order, and
   * anything else selects `en-US`.
   */
  function SelectLanguage(browserLang: string): (tag: string)
    ensures tag in SupportedTags
    ensures tag == "zh-TW" <==> StartsWith(browserLang, "zh")
    ensures tag == "ja-JP" <==> StartsWith(browserLang, "ja")
    ensures tag == "vi" <==> StartsWith(browserLang, "vi")
    ensures tag == "id" <==> StartsWith(browserLang, "id")
    ensures tag == "en-US" <==>
              !StartsWith(browserLang, "zh") && !StartsWith(browserLang, "ja") &&
              !StartsWith(browserLang, "vi") && !StartsWith(browserLang, "id")
  {
    if StartsWith(browserLang, "zh") then "zh-TW"
    else if StartsWith(browserLang, "ja") then "ja-JP"
    else if StartsWith(browserLang, "vi") then "vi"
    else if StartsWith(browserLang, "id") then "id"
    else "en-US"
  }

  /**
   * The language chosen when the page loads; `None` when the browser
   * reports no language at all, where `startsWith` on `undefined` throws.
   */
  function InitialLanguage(language: Option<string>, userLanguage: Option<string>): (r: Option<string>)
    ensures r.None? <==> (language.None? || language == Some("")) && userLanguage.None?
    ensures r.Some? ==> r.value in SupportedTags
    ensures language.Some? && language.value != "" ==> r == Some(SelectLanguage(language.value))
    ensures (language.None? || language == Some("")) && userLanguage.Some? ==>
              r == Some(SelectLanguage(userLanguage.value))
  {
    match BrowserLanguage(language, userLanguage)
    case None => None
    case Some(lang) => Some(SelectLanguage(lang))
  }
}
