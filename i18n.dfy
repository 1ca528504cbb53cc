/**
 * Localisation (plugin/src/i18n.ts): message templates per supported locale with `${n}`
 * placeholders, English as the fallback, and the choice of the current locale from a
 * preference or, for "auto", from the host's language candidates.
 *
 * The message dictionaries are JSON files bundled with the plugin; the model takes them as
 * a given `Catalog`. The current locale, a module-level variable in the source, is the
 * field of the class `Localization`.
 */
module I18n {
  import opened Wrappers
  import opened HabitText

  // ---------------------------------------------------------------------
  // Templates
  // ---------------------------------------------------------------------

  /** The number of leading decimal digits of `s`. */
  function DigitRun(s: string): (k: nat)
    ensures k <= |s|
    ensures All(s[..k], IsDigit)
    ensures k < |s| ==> !IsDigit(s[k])
    decreases |s|
  {
    if s == [] || !IsDigit(s[0]) then 0
    else
      var k := 1 + DigitRun(s[1..]);
      assert s[..k] == [s[0]] + s[1..][..k - 1];
      k
  }

  /**
   * A placeholder `${digits}` at the start of `t`: its number and its length. The digit
   * run is greedy, which loses nothing, since a digit can never be the closing brace.
   */
  function PlaceholderAt(t: string): (r: Option<(nat, nat)>)
    ensures r.Some? ==> 3 < r.value.1 <= |t|
  {
    if |t| < 2 || t[0] != '$' || t[1] != '{' then None
    else
      var inner := t[2..];
      var k := DigitRun(inner);
      if k > 0 && k < |inner| && inner[k] == '}' then Some((DigitsValue(inner[..k]), 3 + k))
      else None
  }

  /** The argument a placeholder number stands for: the n-th (1-based), or "" out of range. */
  function ArgAt(values: seq<string>, n: nat): string {
    var index := n - 1;
    if 0 <= index < |values| then values[index] else ""
  }

  /**
   * `format`: every `${n}` replaced by its argument, scanning left to right; text that is
   * not a placeholder is copied.
   */
  function Format(template: string, values: seq<string>): string
    decreases |template|
  {
    if template == [] then []
    else
      match PlaceholderAt(template)
      case Some((n, len)) => ArgAt(values, n) + Format(template[len..], values)
      case None => [template[0]] + Format(template[1..], values)
  }

  /** Text without a `$` is left as it is. */
  lemma {:induction false} FormatPlain(text: string, values: seq<string>)
    requires '$' !in text
    ensures Format(text, values) == text
    decreases |text|
  {
    if text != [] {
      assert text[0] in text;
      assert forall c :: c in text[1..] ==> c in text;
      FormatPlain(text[1..], values);
      assert text == [text[0]] + text[1..];
    }
  }

  /** Text without a `$` in front of the rest is copied, and the rest is formatted. */
  lemma {:induction false} FormatPlainPrefix(text: string, rest: string, values: seq<string>)
    requires '$' !in text
    ensures Format(text + rest, values) == text + Format(rest, values)
    decreases |text|
  {
    if text != [] {
      assert forall c :: c in text[1..] ==> c in text;
      FormatPlainPrefix(text[1..], rest, values);
      assert (text + rest)[1..] == text[1..] + rest;
      FormatPlainStep(text, rest, text + rest, values);
    } else {
      FormatEmptyPrefix(rest, values);
    }
  }

  /** One copied character of `FormatPlainPrefix`, from the claim for the rest of the text. */
  lemma {:induction false} FormatPlainStep(text: string, rest: string, t: string, values: seq<string>)
    requires t == text + rest && text != [] && text[0] != '$'
    requires Format(t[1..], values) == text[1..] + Format(rest, values)
    ensures Format(t, values) == text + Format(rest, values)
  {
    var c := text[0];
    var tail := text[1..];
    var f := Format(rest, values);
    assert t[0] == c;
    FormatCopy(t, values);
    assert [c] + (tail + f) == ([c] + tail) + f;
    assert text == [c] + tail;
  }

  /** A first character that does not open a placeholder is copied. */
  lemma {:induction false} FormatCopy(t: string, values: seq<string>)
    requires t != [] && t[0] != '$'
    ensures Format(t, values) == [t[0]] + Format(t[1..], values)
  {
    assert PlaceholderAt(t) == None;
  }

  lemma FormatEmptyPrefix(rest: string, values: seq<string>)
    ensures Format([] + rest, values) == [] + Format(rest, values)
  {
    assert [] + rest == rest;
  }

  /** `${digits}` at the front of a template is recognised as one placeholder. */
  lemma {:induction false} PlaceholderOf(digits: string, rest: string)
    requires digits != [] && All(digits, IsDigit)
    ensures PlaceholderAt("${" + digits + "}" + rest) == Some((DigitsValue(digits), 3 + |digits|))
  {
    var t := "${" + digits + "}" + rest;
    var inner := t[2..];
    assert inner == digits + ("}" + rest);
    PrefixDigitRun(digits, "}" + rest);
    assert inner[..|digits|] == digits;
    assert inner[|digits|] == '}';
  }

  /** `${n}` at the front of a template is replaced by the n-th argument, or "" out of range. */
  lemma {:induction false} FormatPlaceholderFront(n: nat, rest: string, values: seq<string>)
    ensures Format("${" + NatToString(n) + "}" + rest, values) == ArgAt(values, n) + Format(rest, values)
  {
    var digits := NatToString(n);
    var t := "${" + digits + "}" + rest;
    PlaceholderOf(digits, rest);
    NatToStringRoundTrip(n);
    assert t[3 + |digits|..] == rest;
  }

  lemma {:induction false} PrefixDigitRun(digits: string, rest: string)
    requires All(digits, IsDigit) && rest != [] && !IsDigit(rest[0])
    ensures DigitRun(digits + rest) == |digits|
    decreases |digits|
  {
    if digits != [] {
      assert digits[0] == (digits + rest)[0];
      assert (digits + rest)[1..] == digits[1..] + rest;
      assert All(digits[1..], IsDigit) by {
        forall i | 0 <= i < |digits[1..]| ensures IsDigit(digits[1..][i]) {
          assert digits[1..][i] == digits[i + 1];
        }
      }
      PrefixDigitRun(digits[1..], rest);
    } else {
      assert digits + rest == rest;
    }
  }

  /**
   * The property of `format`: in a template made of plain text, a placeholder and a rest,
   * the text is kept, the placeholder becomes its argument (taken as it is, never
   * formatted again), and the rest is formatted the same way.
   */
  lemma {:induction false} FormatPlaceholder(text: string, n: nat, rest: string, values: seq<string>)
    requires '$' !in text
    ensures Format(text + "${" + NatToString(n) + "}" + rest, values)
      == text + ArgAt(values, n) + Format(rest, values)
  {
    var tail := "${" + NatToString(n) + "}" + rest;
    assert text + "${" + NatToString(n) + "}" + rest == text + tail;
    FormatPlainPrefix(text, tail, values);
    FormatPlaceholderFront(n, rest, values);
  }

  /** An overdue label with one argument: `<${1}h` with 4 reads `<4h`. */
  lemma {:induction false} FormatOverdueExample()
    ensures Format("<${1}h", ["4"]) == "<4h"
  {
    FormatPlaceholder("<", 1, "h", ["4"]);
    FormatPlain("h", ["4"]);
    assert "<" + "${" + NatToString(1) + "}" + "h" == "<${1}h";
  }

  // ---------------------------------------------------------------------
  // Locales and messages
  // ---------------------------------------------------------------------

  /** The supported locales, in the order of the locale table. */
  datatype Locale = En | Ru

  function Code(l: Locale): string {
    match l
    case En => "en"
    case Ru => "ru"
  }

  const SUPPORTED: seq<Locale> := [En, Ru]

  /** The fallback locale. */
  const FALLBACK: Locale := En

  /** The bundled message dictionaries: key -> template. */
  datatype Catalog = Catalog(en: map<string, string>, ru: map<string, string>)

  function DictionaryOf(c: Catalog, l: Locale): map<string, string> {
    match l
    case En => c.en
    case Ru => c.ru
  }

  /** `localeDict[key] ?? fallbackDict[key]`. */
  function TemplateOf(c: Catalog, current: Locale, key: string): Option<string> {
    var localeDict := DictionaryOf(c, current);
    var fallbackDict := DictionaryOf(c, FALLBACK);
    if key in localeDict then Some(localeDict[key])
    else if key in fallbackDict then Some(fallbackDict[key])
    else None
  }

  /** `translate`: the template formatted with the arguments; the key itself when there is none. */
  function Translate(c: Catalog, current: Locale, key: string, args: seq<string>): string {
    var template := TemplateOf(c, current, key);
    if template.None? || template.value == "" then key else Format(template.value, args)
  }

  /**
   * The current locale's template wins, then the English one, then the key itself. An
   * empty template counts as none, but it still hides the English one.
   */
  lemma {:induction false} TranslateSpec(c: Catalog, current: Locale, key: string, args: seq<string>)
    ensures key in DictionaryOf(c, current) && DictionaryOf(c, current)[key] != "" ==>
      Translate(c, current, key, args) == Format(DictionaryOf(c, current)[key], args)
    ensures key in DictionaryOf(c, current) && DictionaryOf(c, current)[key] == "" ==>
      Translate(c, current, key, args) == key
    ensures key !in DictionaryOf(c, current) && key in c.en && c.en[key] != "" ==>
      Translate(c, current, key, args) == Format(c.en[key], args)
    ensures key !in DictionaryOf(c, current) && (key !in c.en || c.en[key] == "") ==>
      Translate(c, current, key, args) == key
  {
  }

  /** A key found nowhere is shown as itself, whatever the arguments. */
  lemma {:induction false} MissingKeyShown(c: Catalog, current: Locale, key: string, args: seq<string>)
    requires key !in c.en && key !in c.ru
    ensures Translate(c, current, key, args) == key
  {
  }

  /** `code` or `code-...` for the lowercased tag. */
  predicate MatchesCode(lower: string, l: Locale) {
    lower == Code(l) || StartsWith(lower, Code(l) + "-")
  }

  /** The first of `codes` the lowercased tag matches. */
  function FirstMatch(lower: string, codes: seq<Locale>): (r: Option<Locale>)
    ensures r.Some? ==> r.value in codes && MatchesCode(lower, r.value)
    ensures r.None? <==> forall l :: l in codes ==> !MatchesCode(lower, l)
    decreases |codes|
  {
    if codes == [] then None
    else if MatchesCode(lower, codes[0]) then Some(codes[0])
    else FirstMatch(lower, codes[1..])
  }

  /** `matchLocale`: nothing for an absent or empty tag, else the first supported code it matches. */
  function MatchLocale(locale: Option<string>): Option<Locale> {
    if locale.None? || locale.value == "" then None else FirstMatch(Lower(locale.value), SUPPORTED)
  }

  /** No tag matches two codes. */
  lemma {:induction false} CodesExclusive(lower: string)
    ensures !(MatchesCode(lower, En) && MatchesCode(lower, Ru))
  {
    LeadingLetter(lower, En);
    LeadingLetter(lower, Ru);
  }

  /** A tag that matches a code starts with the code's first letter. */
  lemma {:induction false} LeadingLetter(lower: string, l: Locale)
    ensures MatchesCode(lower, l) ==> |lower| > 0 && lower[0] == Code(l)[0]
  {
    if MatchesCode(lower, l) && lower != Code(l) {
      assert lower[..|Code(l) + "-"|][0] == lower[0];
    }
  }

  /**
   * A tag matches a locale exactly when, lowercased, it is that locale's code or starts
   * with the code and a dash.
   */
  lemma {:induction false} MatchLocaleSpec(locale: Option<string>, l: Locale)
    ensures MatchLocale(locale) == Some(l) <==>
      locale.Some? && locale.value != "" && MatchesCode(Lower(locale.value), l)
  {
    if locale.Some? && locale.value != "" {
      CodesExclusive(Lower(locale.value));
      assert l in SUPPORTED;
    }
  }

  /** The language tag `ru-RU` means Russian, in any case. */
  lemma {:induction false} MatchRegionTag()
    ensures MatchLocale(Some("ru-RU")) == Some(Ru)
    ensures MatchLocale(Some("EN")) == Some(En)
  {
    var lower := Lower("ru-RU");
    assert lower[0] == 'r' && lower[1] == 'u' && lower[2] == '-';
    assert !MatchesCode(lower, En) by {
      assert lower != "en";
      assert lower[..3] != "en-";
    }
    assert MatchesCode(lower, Ru) by {
      assert lower[..3] == "ru-";
    }
    assert MatchLocale(Some("ru-RU")) == FirstMatch(lower, [En, Ru]);
    assert [En, Ru][1..] == [Ru];
    var upper := Lower("EN");
    assert upper == "en";
  }

  /** No supported locale is called `ua`, nor anything that does not start with a code. */
  lemma {:induction false} MatchUnsupported()
    ensures MatchLocale(Some("ua")) == None
    ensures MatchLocale(Some("english")) == None
  {
    var ua := Lower("ua");
    assert ua == "ua";
    assert !MatchesCode(ua, En) && !MatchesCode(ua, Ru);
    var english := Lower("english");
    assert english[0] == 'e' && english[1] == 'n' && english[2] == 'g';
    assert !MatchesCode(english, En) by {
      assert english != "en";
      assert english[..3] != "en-";
    }
    assert !MatchesCode(english, Ru) by {
      assert english != "ru";
      assert english[..3] != "ru-";
    }
  }

  /** The first candidate that names a supported locale. */
  function FirstCandidate(candidates: seq<Option<string>>): Option<Locale>
    decreases |candidates|
  {
    if candidates == [] then None
    else if MatchLocale(candidates[0]).Some? then MatchLocale(candidates[0])
    else FirstCandidate(candidates[1..])
  }

  /** `resolveLocale`: a set preference's match or English; for "auto", the first matching candidate or English. */
  function ResolveLocale(preference: string, candidates: seq<Option<string>>): Locale {
    if preference != "auto" then MatchLocale(Some(preference)).GetOr(FALLBACK)
    else FirstCandidate(candidates).GetOr(FALLBACK)
  }

  /** The first matching candidate is the one at the least index that matches at all. */
  lemma {:induction false} FirstCandidateSpec(candidates: seq<Option<string>>)
    ensures FirstCandidate(candidates).None? <==>
      forall i :: 0 <= i < |candidates| ==> MatchLocale(candidates[i]).None?
    ensures FirstCandidate(candidates).Some? ==>
      exists i :: 0 <= i < |candidates| && MatchLocale(candidates[i]) == FirstCandidate(candidates)
        && forall j :: 0 <= j < i ==> MatchLocale(candidates[j]).None?
    decreases |candidates|
  {
    if candidates != [] {
      var rest := candidates[1..];
      FirstCandidateSpec(rest);
      assert forall i :: 0 < i < |candidates| ==> candidates[i] == rest[i - 1];
      if MatchLocale(candidates[0]).None? && FirstCandidate(rest).Some? {
        var i :| 0 <= i < |rest| && MatchLocale(rest[i]) == FirstCandidate(rest)
          && forall j :: 0 <= j < i ==> MatchLocale(rest[j]).None?;
        assert candidates[i + 1] == rest[i];
        assert forall j :: 0 < j <= i ==> candidates[j] == rest[j - 1];
      }
    }
  }

  /**
   * A set preference gives its own locale when it names one, else English, whatever the
   * candidates; "auto" gives the locale of the first candidate that names one, else English.
   */
  lemma {:induction false} ResolveLocaleSpec(preference: string, candidates: seq<Option<string>>)
    ensures preference != "auto" && MatchLocale(Some(preference)).Some? ==>
      ResolveLocale(preference, candidates) == MatchLocale(Some(preference)).value
    ensures preference != "auto" && MatchLocale(Some(preference)).None? ==>
      ResolveLocale(preference, candidates) == En
    ensures preference == "auto" && (forall i :: 0 <= i < |candidates| ==> MatchLocale(candidates[i]).None?) ==>
      ResolveLocale(preference, candidates) == En
    ensures preference == "auto" && (exists i :: 0 <= i < |candidates| && MatchLocale(candidates[i]).Some?) ==>
      exists i :: 0 <= i < |candidates| && MatchLocale(candidates[i]) == Some(ResolveLocale(preference, candidates))
        && forall j :: 0 <= j < i ==> MatchLocale(candidates[j]).None?
  {
    FirstCandidateSpec(candidates);
  }

  /** An explicit `ua` preference is not a supported locale and falls back to English. */
  lemma {:induction false} ResolveUnsupportedPreference(candidates: seq<Option<string>>)
    ensures ResolveLocale("ua", candidates) == En
  {
    MatchUnsupported();
  }

  // ---------------------------------------------------------------------
  // The current locale
  // ---------------------------------------------------------------------

  /** The module state of the localisation: the bundled dictionaries and the current locale. */
  class Localization {
    const dictionaries: Catalog
    var currentLocale: Locale

    /** The module as loaded: English until a locale is applied. */
    constructor(dictionaries: Catalog)
      ensures this.dictionaries == dictionaries && currentLocale == FALLBACK
    {
      this.dictionaries := dictionaries;
      currentLocale := FALLBACK;
    }

    /** `applyLocale`: the resolved locale becomes current and is returned. */
    method ApplyLocale(preference: string, candidates: seq<Option<string>>) returns (locale: Locale)
      modifies this
      ensures locale == ResolveLocale(preference, candidates)
      ensures currentLocale == locale
    {
      locale := ResolveLocale(preference, candidates);
      currentLocale := locale;
    }

    /** `getLocale`. */
    function GetLocale(): Locale
      reads this
    {
      currentLocale
    }

    /** `t`: the message for `key` in the current locale, with the arguments already as strings. */
    function T(key: string, args: seq<string>): string
      reads this
    {
      Translate(dictionaries, currentLocale, key, args)
    }
  }
}
