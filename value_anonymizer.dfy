/**
 * Value selection: what `anonymizeValue(key, replacement)` returns for a
 * lower-cased field name and the directive text of the rule that matched it.
 * An explicit directive is interpreted first; without one, an ordered chain
 * of tests on the field name picks a generator.
 */
module ValueAnonymizer {
  import opened Wrappers
  import opened JsStrings

  /**
   * The value put in place of a field. A generator call is recorded as the
   * request `faker[category][generator]()`, with `lowerCased` when the
   * generated text is passed through `toLowerCase()`; what faker produces is
   * not modelled. `Parsed(text)` stands for `JSON.parse(decodeURIComponent(text))`.
   */
  datatype Anonymized =
    | Generated(category: string, generator: string, lowerCased: bool)
    | Text(text: string)
    | EmptyArray
    | EmptyObject
    | NullValue
    | Parsed(text: string)

  /** The exception thrown when a JSON directive does not decode or parse. */
  datatype Failure = MalformedJson(directive: string)

  /**
   * `JSON.parse(decodeURIComponent(text))`. Both are foreign: `decodes(text)`
   * says whether they succeed on `text`; when they do not, the call throws.
   */
  function ParseJson(text: string, decodes: string -> bool): Result<Anonymized, Failure>
  {
    if decodes(text) then Ok(Parsed(text)) else Err(MalformedJson(text))
  }

  /**
   * A directive that starts with `faker`: the second and third `.`-separated
   * pieces name the generator; when either is missing or empty the directive
   * itself is the value.
   */
  function GeneratorCall(directive: string): Anonymized
  {
    var parts := Split(directive, '.');
    var two := if |parts| > 1 then parts[1] else "";
    var three := if |parts| > 2 then parts[2] else "";
    if two == "" || three == "" then Text(directive) else Generated(two, three, false)
  }

  /** A directive that goes to the JSON parser: it opens a bracket or brace and is not `[]` or `{}`. */
  predicate IsJsonDirective(directive: string) {
    (StartsWith(directive, "[") || StartsWith(directive, "{")) && directive != "[]" && directive != "{}"
  }

  /** The explicit-directive branch of `anonymizeValue`, tests in source order. */
  function Directive(directive: string, decodes: string -> bool): Result<Anonymized, Failure>
  {
    if StartsWith(directive, "faker") then Ok(GeneratorCall(directive))
    else if directive == "[]" then Ok(EmptyArray)
    else if directive == "{}" then Ok(EmptyObject)
    else if StartsWith(directive, "[") || StartsWith(directive, "{") then ParseJson(directive, decodes)
    else if directive == "null" then Ok(NullValue)
    else Ok(Text(directive))
  }

  /** The name-based chain used when there is no directive, tests in source order. */
  function Heuristic(key: string): Anonymized
  {
    if Contains(key, "email") then Generated("internet", "email", true)
    else if Contains(key, "firstname") then Generated("name", "firstName", false)
    else if Contains(key, "lastname") then Generated("name", "lastName", false)
    else if key == "description" then Generated("lorem", "sentence", false)
    else if EndsWith(key, "address") then Generated("address", "streetAddress", false)
    else if EndsWith(key, "city") then Generated("address", "city", false)
    else if EndsWith(key, "country") then Generated("address", "country", false)
    else if EndsWith(key, "phone") then Generated("phone", "phoneNumber", false)
    else if EndsWith(key, "comment") then Generated("lorem", "sentence", false)
    else if EndsWith(key, "date") then Generated("date", "past", false)
    else if EndsWith(key, "name") then Generated("name", "findName", false)
    else Generated("random", "word", false)
  }

  /**
   * `anonymizeValue(key, replacement)`. A directive is used when it is truthy,
   * that is present and non-empty; otherwise the field name decides.
   */
  function AnonymizeValue(key: string, replacement: Option<string>, decodes: string -> bool)
    : (r: Result<Anonymized, Failure>)
    ensures r.Err? <==> replacement.Some? && IsJsonDirective(replacement.value) && !decodes(replacement.value)
    ensures r.Err? ==> r.error == MalformedJson(replacement.value)
    ensures (replacement.None? || replacement == Some("")) ==> r.Ok? && r.value.Generated?
  {
    if replacement.Some? && replacement.value != "" then
      assert StartsWith(replacement.value, "faker") ==> !IsJsonDirective(replacement.value) by {
        StartsWithIsPrefix(replacement.value, "faker");
        StartsWithIsPrefix(replacement.value, "[");
        StartsWithIsPrefix(replacement.value, "{");
      }
      Directive(replacement.value, decodes)
    else
      Ok(Heuristic(key))
  }

  /** An explicit directive is never cross-checked against the field name. */
  lemma DirectiveIgnoresKey(key1: string, key2: string, directive: string, decodes: string -> bool)
    requires directive != ""
    ensures AnonymizeValue(key1, Some(directive), decodes) == AnonymizeValue(key2, Some(directive), decodes)
  {
  }

  /** An empty directive is falsy and behaves as no directive at all. */
  lemma EmptyDirectiveIsNoDirective(key: string, decodes: string -> bool)
    ensures AnonymizeValue(key, Some(""), decodes) == AnonymizeValue(key, None, decodes)
  {
  }

  /**
   * `faker.C.G...`: a directive made of `.`-free pieces, the first starting
   * with `faker` and the second and third non-empty, calls generator G of
   * category C; pieces after the third are ignored.
   */
  lemma {:induction false} GeneratorCallDirective(key: string, parts: seq<string>, decodes: string -> bool)
    requires |parts| >= 3 && forall p :: p in parts ==> '.' !in p
    requires StartsWith(parts[0], "faker")
    requires parts[1] != "" && parts[2] != ""
    ensures AnonymizeValue(key, Some(Join(parts, '.')), decodes) == Ok(Generated(parts[1], parts[2], false))
  {
    SplitJoin(parts, '.');
    StartsWithIsPrefix(parts[0], "faker");
    StartsWithIsPrefix(Join(parts, '.'), "faker");
    assert Join(parts, '.') == parts[0] + ['.'] + Join(parts[1..], '.');
  }

  /**
   * A `faker` directive with fewer than three pieces, or an empty second or
   * third piece, is returned as it is.
   */
  lemma {:induction false} MalformedGeneratorDirective(key: string, parts: seq<string>, decodes: string -> bool)
    requires |parts| >= 1 && forall p :: p in parts ==> '.' !in p
    requires StartsWith(parts[0], "faker")
    requires |parts| < 3 || parts[1] == "" || parts[2] == ""
    ensures AnonymizeValue(key, Some(Join(parts, '.')), decodes) == Ok(Text(Join(parts, '.')))
  {
    SplitJoin(parts, '.');
    StartsWithIsPrefix(parts[0], "faker");
    var s := Join(parts, '.');
    if |parts| > 1 {
      assert s == parts[0] + ['.'] + Join(parts[1..], '.');
    }
    assert parts[0] <= s;
    StartsWithIsPrefix(s, "faker");
  }

  /** The literal directives `[]`, `{}` and `null`. */
  lemma LiteralDirectives(key: string, decodes: string -> bool)
    ensures AnonymizeValue(key, Some("[]"), decodes) == Ok(EmptyArray)
    ensures AnonymizeValue(key, Some("{}"), decodes) == Ok(EmptyObject)
    ensures AnonymizeValue(key, Some("null"), decodes) == Ok(NullValue)
  {
  }

  /** Any other directive opening with `[` or `{` is handed to the JSON parser. */
  lemma JsonDirective(key: string, directive: string, decodes: string -> bool)
    requires IsJsonDirective(directive)
    ensures AnonymizeValue(key, Some(directive), decodes) == ParseJson(directive, decodes)
    ensures AnonymizeValue(key, Some(directive), decodes) ==
              if decodes(directive) then Ok(Parsed(directive)) else Err(MalformedJson(directive))
  {
    StartsWithIsPrefix(directive, "faker");
    StartsWithIsPrefix(directive, "[");
    StartsWithIsPrefix(directive, "{");
  }

  /** Every remaining non-empty directive is the value itself. */
  lemma VerbatimDirective(key: string, directive: string, decodes: string -> bool)
    requires directive != "" && directive != "null"
    requires !StartsWith(directive, "faker") && !StartsWith(directive, "[") && !StartsWith(directive, "{")
    ensures AnonymizeValue(key, Some(directive), decodes) == Ok(Text(directive))
  {
  }

  lemma ActiveIsVerbatim(decodes: string -> bool)
    ensures AnonymizeValue("status", Some("active"), decodes) == Ok(Text("active"))
  {
  }

  /** How one test of the name chain inspects the key. */
  datatype KeyTest = KeyContains | KeyEquals | KeyEndsWith

  /** One row of the name chain: a test, its pattern and the generator it selects. */
  datatype NameRule = NameRule(test: KeyTest, pattern: string, result: Anonymized)

  predicate Applies(rule: NameRule, key: string) {
    match rule.test
    case KeyContains => Contains(key, rule.pattern)
    case KeyEquals => key == rule.pattern
    case KeyEndsWith => EndsWith(key, rule.pattern)
  }

  /** The name chain as an ordered table: earlier rows take priority over later ones. */
  const NameRules: seq<NameRule> := [
    NameRule(KeyContains, "email", Generated("internet", "email", true)),
    NameRule(KeyContains, "firstname", Generated("name", "firstName", false)),
    NameRule(KeyContains, "lastname", Generated("name", "lastName", false)),
    NameRule(KeyEquals, "description", Generated("lorem", "sentence", false)),
    NameRule(KeyEndsWith, "address", Generated("address", "streetAddress", false)),
    NameRule(KeyEndsWith, "city", Generated("address", "city", false)),
    NameRule(KeyEndsWith, "country", Generated("address", "country", false)),
    NameRule(KeyEndsWith, "phone", Generated("phone", "phoneNumber", false)),
    NameRule(KeyEndsWith, "comment", Generated("lorem", "sentence", false)),
    NameRule(KeyEndsWith, "date", Generated("date", "past", false)),
    NameRule(KeyEndsWith, "name", Generated("name", "findName", false))
  ]

  /** The fallback when no row applies. */
  const RandomWord := Generated("random", "word", false)

  /** The result of the first row of `table`, from row `k` on, that applies to `key`. */
  function FirstApplicable(table: seq<NameRule>, key: string, k: nat): (r: Anonymized)
    ensures r == RandomWord || exists i :: k <= i < |table| && r == table[i].result
    decreases |table| - k
  {
    if k >= |table| then RandomWord
    else if Applies(table[k], key) then table[k].result
    else FirstApplicable(table, key, k + 1)
  }

  /** The row that applies first is the one that decides. */
  lemma {:induction false} FirstApplicableWins(table: seq<NameRule>, key: string, k: nat, i: nat)
    requires k <= i < |table| && Applies(table[i], key)
    requires forall j :: k <= j < i ==> !Applies(table[j], key)
    ensures FirstApplicable(table, key, k) == table[i].result
    decreases i - k
  {
    if k < i {
      FirstApplicableWins(table, key, k + 1, i);
    }
  }

  lemma {:induction false} NoneApplicable(table: seq<NameRule>, key: string, k: nat)
    requires forall j :: k <= j < |table| ==> !Applies(table[j], key)
    ensures FirstApplicable(table, key, k) == RandomWord
    decreases |table| - k
  {
    if k < |table| {
      NoneApplicable(table, key, k + 1);
    }
  }

  /** The if-chain of the source is the first applicable row of the table. */
  lemma HeuristicIsTableOrder(key: string)
    ensures Heuristic(key) == FirstApplicable(NameRules, key, 0)
  {
    LeadingRows(key);
    SuffixRows(key);
    LastSuffixRows(key);
  }

  /** Rows 0 to 3 of the table: the three `includes` tests and the exact match. */
  lemma LeadingRows(key: string)
    ensures FirstApplicable(NameRules, key, 0) ==
              if Contains(key, "email") then Generated("internet", "email", true)
              else if Contains(key, "firstname") then Generated("name", "firstName", false)
              else if Contains(key, "lastname") then Generated("name", "lastName", false)
              else if key == "description" then Generated("lorem", "sentence", false)
              else FirstApplicable(NameRules, key, 4)
  {
    assert FirstApplicable(NameRules, key, 2) ==
      if Contains(key, "lastname") then Generated("name", "lastName", false)
      else FirstApplicable(NameRules, key, 3);
  }

  /** Rows 4 to 7 of the table, suffix tests. */
  lemma SuffixRows(key: string)
    ensures FirstApplicable(NameRules, key, 4) ==
              if EndsWith(key, "address") then Generated("address", "streetAddress", false)
              else if EndsWith(key, "city") then Generated("address", "city", false)
              else if EndsWith(key, "country") then Generated("address", "country", false)
              else if EndsWith(key, "phone") then Generated("phone", "phoneNumber", false)
              else FirstApplicable(NameRules, key, 8)
  {
    assert FirstApplicable(NameRules, key, 6) ==
      if EndsWith(key, "country") then Generated("address", "country", false)
      else FirstApplicable(NameRules, key, 7);
  }

  /** Rows 8 to 10 of the table, suffix tests, and the fallback after them. */
  lemma LastSuffixRows(key: string)
    ensures FirstApplicable(NameRules, key, 8) ==
              if EndsWith(key, "comment") then Generated("lorem", "sentence", false)
              else if EndsWith(key, "date") then Generated("date", "past", false)
              else if EndsWith(key, "name") then Generated("name", "findName", false)
              else RandomWord
  {
    assert FirstApplicable(NameRules, key, 10) ==
      if EndsWith(key, "name") then Generated("name", "findName", false)
      else FirstApplicable(NameRules, key, 11);
  }

  /**
   * Without a directive, the first row of the name table that applies to the
   * key decides, and a key no row applies to gets a random word.
   */
  lemma NamePriority(key: string, i: nat, decodes: string -> bool)
    requires i < |NameRules| && Applies(NameRules[i], key)
    requires forall j :: 0 <= j < i ==> !Applies(NameRules[j], key)
    ensures AnonymizeValue(key, None, decodes) == Ok(NameRules[i].result)
  {
    HeuristicIsTableOrder(key);
    FirstApplicableWins(NameRules, key, 0, i);
  }

  lemma NoNameRuleApplies(key: string, decodes: string -> bool)
    requires forall j :: 0 <= j < |NameRules| ==> !Applies(NameRules[j], key)
    ensures AnonymizeValue(key, None, decodes) == Ok(RandomWord)
  {
    HeuristicIsTableOrder(key);
    NoneApplicable(NameRules, key, 0);
  }

  /** `lastname` also ends with `name`, but the earlier `lastname` row wins. */
  lemma LastNameBeatsCatchAll(decodes: string -> bool)
    ensures AnonymizeValue("lastname", None, decodes) == Ok(Generated("name", "lastName", false))
  {
  }

  /**
   * `username` reaches the catch-all `name` row. The key is a parameter
   * fixed by the precondition rather than a literal, so that the verifier
   * does not unfold the literal text eagerly; the lemma is about this one key.
   */
  lemma UserNameIsFullName(key: string, decodes: string -> bool)
    requires key == "username"
    ensures AnonymizeValue(key, None, decodes) == Ok(Generated("name", "findName", false))
  {
    assert !Contains(key, "email") by { MissingCharNotContained(key, "email", 3); }
    assert !Contains(key, "firstname") by { MissingCharNotContained(key, "firstname", 0); }
    assert !Contains(key, "lastname") by { MissingCharNotContained(key, "lastname", 0); }
    assert !EndsWith(key, "address") by { MismatchNotSuffix(key, "address", 6); }
    assert !EndsWith(key, "city") by { MismatchNotSuffix(key, "city", 3); }
    assert !EndsWith(key, "country") by { MismatchNotSuffix(key, "country", 6); }
    assert !EndsWith(key, "phone") by { MismatchNotSuffix(key, "phone", 3); }
    assert !EndsWith(key, "comment") by { MismatchNotSuffix(key, "comment", 6); }
    assert !EndsWith(key, "date") by { MismatchNotSuffix(key, "date", 2); }
    assert EndsWith(key, "name") by {
      EndsWithIsSuffix(key, "name");
      assert key[4..] == "name";
    }
  }

  /** `birthdate` reaches the `date` row; the key is fixed by the precondition as above. */
  lemma BirthDateIsPastDate(key: string, decodes: string -> bool)
    requires key == "birthdate"
    ensures AnonymizeValue(key, None, decodes) == Ok(Generated("date", "past", false))
  {
    assert !Contains(key, "email") by { MissingCharNotContained(key, "email", 1); }
    assert !Contains(key, "firstname") by { MissingCharNotContained(key, "firstname", 0); }
    assert !Contains(key, "lastname") by { MissingCharNotContained(key, "lastname", 0); }
    assert !EndsWith(key, "address") by { MismatchNotSuffix(key, "address", 6); }
    assert !EndsWith(key, "city") by { MismatchNotSuffix(key, "city", 3); }
    assert !EndsWith(key, "country") by { MismatchNotSuffix(key, "country", 6); }
    assert !EndsWith(key, "phone") by { MismatchNotSuffix(key, "phone", 3); }
    assert !EndsWith(key, "comment") by { MismatchNotSuffix(key, "comment", 6); }
    assert EndsWith(key, "date") by {
      EndsWithIsSuffix(key, "date");
      assert key[5..] == "date";
    }
  }

  /** Only the name-derived e-mail is lower-cased; an explicit faker directive is not. */
  lemma EmailIsLowerCased(decodes: string -> bool)
    ensures AnonymizeValue("email", None, decodes) == Ok(Generated("internet", "email", true))
    ensures AnonymizeValue("email", Some("faker.internet.email"), decodes) == Ok(Generated("internet", "email", false))
  {
    var parts := ["faker", "internet", "email"];
    assert Join(parts[2..], '.') == "email";
    assert Join(parts[1..], '.') == "internet.email";
    assert Join(parts, '.') == "faker.internet.email";
    GeneratorCallDirective("email", parts, decodes);
  }

  lemma AgeIsRandomWord(decodes: string -> bool)
    ensures AnonymizeValue("age", None, decodes) == Ok(RandomWord)
  {
  }
}
