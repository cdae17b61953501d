# mongodb-anonymizer: the anonymisation core in Dafny

mongodb-anonymizer copies a MongoDB database and replaces sensitive fields
with fake values as it goes. Fields are named by a list of specifications of
the form `[collection.]field[:directive]`. This project models the part of
`src/index.ts` that does the work for one collection:

- **Rule compilation** (`anonymizeCollection`, lines 101-113), in
  `rule_compiler.dfy`. The specifications that apply to the collection are
  kept: those without a `word.` scope prefix, and those whose text starts
  with `collectionName.`. Each is turned into a rule
  `{field, replacement}`: the first `collectionName.` is removed, the
  directive is cut off and the rest is lower-cased. A specification without
  a colon has no directive (`replacement` is null). Otherwise the directive
  is the text after the last colon of the first line, or the whole
  specification when only a later line has a colon.
- **The document pass** (lines 115-131), in `collection_anonymizer.dfy`. It
  is an imperative method with two nested loops that push onto growing
  sequences. A key whose lower-cased name is a compiled field gets the value
  `anonymizeValue` picks, using the first rule for that field. Every other
  key keeps its value.
- **Value selection** (`anonymizeValue`, lines 134-165), in
  `value_anonymizer.dfy`. An explicit directive is read first: a
  `faker.category.generator` call, `[]`, `{}`, a JSON text, `null` or a
  literal. Without one, an ordered chain of tests on the field name picks a
  generator.
- **JavaScript string semantics** used by the above, in `js_strings.dfy`:
  `toLowerCase`, `startsWith`, `endsWith`, `includes`, `replace` with a
  string pattern, and `split`.
- **Shared types**, in `wrappers.dfy`: `Option` and `Result`.

A generated value is modelled as the generator call it requests
(`Generated(category, generator, lowerCased)`). The random text faker would
produce is not modelled. `JSON.parse(decodeURIComponent(text))` is foreign
code. It is a parameter `decodes: string -> bool` that says whether the call
succeeds. When it fails, the exception aborts the whole pass; the model
returns `Err(MalformedJson(text))`.

Some behaviour of the code is easy to misread; the model keeps it as written:

- **Duplicate fields.** `find` returns the first matching rule, so the
  first specification for a field wins (`RuleCompiler.FirstRuleWins`).
- **Where the directive starts.** On one line the field ends at the first
  colon; in general it ends at the first colon with no line break after it
  (`/:(?:.*)$/`, which has no `m` flag), so text up to the last line break
  always stays in the field (`RuleCompiler.StripDirectiveAfterLineBreak`).
  A specification without a colon has no directive (`replacement` is null,
  `RuleCompiler.RuleShape`). Otherwise the directive is the text after the
  last colon of the first line (`/^(?:.*):/`), or the whole specification
  when only a later line has a colon
  (`RuleCompiler.DirectiveTextFirstLineWithoutColon`). In `f:m:d` the middle
  part `m` is lost
  (`RuleCompiler.FieldToFirstColonDirectiveFromLast`). For example,
  `website:https://example.org` gives the replacement `//example.org`
  (`RuleCompiler.UrlDirectiveLosesScheme`).
- **Removing the collection prefix.** `replace` with a string pattern removes
  the first occurrence of `collectionName.` wherever it is in the
  specification, not only at its start
  (`RuleCompiler.CollectionPrefixRemovedAnywhere`).
- **Scope.** The scope test compares prefixes, not names. A collection named
  `a.b` takes the specification `a.b.x` (`RuleCompiler.DottedCollectionName`).
  A specification such as `users2.email` has no `[a-z_]+.` prefix, so it
  applies to every collection (`RuleCompiler.DigitBreaksScope`).
- **Key order.** The keys of an output document are written in the input's
  iteration order, and the model keeps that order.
- **Case.** Keys are matched after `toLowerCase`, so `Email`, `EMAIL` and
  `email` all match a rule for `email`, and the output keeps the key's own
  casing (`CollectionAnonymizer.CaseInsensitiveKeys`, `JsStrings.EmailCasings`).

## Model

| member | source | states |
|---|---|---|
| CollectionAnonymizer.AnonymizeCollection | src/index.ts:95-132 | The two nested loops compute exactly the pass `AnonymizeDocuments` over the rules that `CompileRules` builds, including the early exit when `anonymizeValue` throws. |
| CollectionAnonymizer.AnonymizeEntry | src/index.ts:119-127 | The inner-loop body for one property. Its properties are in `EntryFollowsFirstSpec`, `CaseInsensitiveKeys` and `EntryFailure`. |
| CollectionAnonymizer.AnonymizeDocument | src/index.ts:116-128 | The inner loop over one document. Its properties are in `DocumentKeysKept` and, through `Traverse`, `TraversePointwise`. |
| CollectionAnonymizer.AnonymizeDocuments | src/index.ts:115-131 | The outer loop over the documents. Its properties are in `ShapeIsKept`, `EntriesInPlace`, `CollectionEntry` and `FailsOnlyOnMalformedJson`. |
| CollectionAnonymizer.Then | src/index.ts:115-130 | One iteration of either loop: an exception already thrown stays; otherwise the next result is pushed, or its exception is thrown. Its properties are in `TraverseErrorPersists` and `TraverseStep`. |
| CollectionAnonymizer.Traverse | src/index.ts:115-130 | A loop that pushes one result per element in order until a step throws. Its properties are in `TraversePointwise`, `TraverseErrorPersists` and `TraverseStep`. |
| CollectionAnonymizer.TraversePointwise | src/index.ts:115-130 | A loop that pushes one result per element succeeds exactly when every step succeeds. It then lists the step results in order. When it fails, the error is that of the first failing step. |
| CollectionAnonymizer.TraverseErrorPersists | src/index.ts:115-130 | Once the loop has thrown on a prefix of its input, the whole loop ends with that exception. |
| CollectionAnonymizer.TraverseStep | src/index.ts:115-130 | One more iteration extends the prefix result by the next step's result, or throws. |
| CollectionAnonymizer.EntryStep | src/index.ts:119-127 | One more property of a document extends what the inner loop built so far by that property's result, or throws its exception. |
| CollectionAnonymizer.DocumentStep | src/index.ts:115-130 | One more document extends what the outer loop built so far by that document's result, or throws its exception. |
| CollectionAnonymizer.AbortsAt | src/index.ts:115-131 | A property that throws, reached after all earlier documents and all earlier properties of its own document went through, ends the whole pass with its exception. |
| CollectionAnonymizer.ShapeIsKept | src/index.ts:115-131 | A successful pass returns as many documents as it was given, in the same order. Each document keeps its keys in order and with their original casing. |
| CollectionAnonymizer.DocumentKeysKept | src/index.ts:116-128 | A successfully anonymised document has exactly the keys of the original, in order and with the original casing. |
| CollectionAnonymizer.EntriesInPlace | src/index.ts:115-129 | In a successful pass, property `j` of output document `i` is what the inner-loop body gives for property `j` of input document `i`. |
| CollectionAnonymizer.EntryFollowsFirstSpec | src/index.ts:119-126 | A key that no applicable specification names, in any casing, is copied unchanged. Otherwise its value is what `anonymizeValue` gives for the lower-cased key and the directive of the first applicable specification naming it. |
| CollectionAnonymizer.CollectionEntry | src/index.ts:101-131 | End to end, in a successful pass: an output property has the input key; it keeps its value when no applicable specification names the key; otherwise it holds a successful value picked by the first specification that names it. |
| CollectionAnonymizer.CaseInsensitiveKeys | src/index.ts:119-123 | Two keys equal up to the case of ASCII letters get the same treatment: both succeed or both fail, a success gives both the same cell, a failure gives both the same error, and the output key keeps the original casing. |
| CollectionAnonymizer.EntryFailure | src/index.ts:119-124 | A property fails exactly when its rule carries a JSON directive that does not decode, and the error names that directive. |
| CollectionAnonymizer.FailsOnlyOnMalformedJson | src/index.ts:115-131 | The pass fails exactly when some property of some document has a rule with a JSON directive that does not decode. The exception is that of such a property. |
| RuleCompiler.HasScopePrefix | src/index.ts:104 | `/^[a-z_]+\./gi` matches: a non-empty leading run of letters and `_` followed by a dot. Its properties are in `ScopePrefixIsMaximalRun`, `DigitBreaksScope` and `LeadingDigitIsUnscoped`. |
| RuleCompiler.AppliesTo | src/index.ts:103-105 | The filter: unscoped, or starting with `collectionName.`. Its properties are in `UnscopedAppliesEverywhere`, `ScopedAppliesOnlyToOwner` and `DottedCollectionName`. |
| RuleCompiler.ScopePrefixIsMaximalRun | src/index.ts:104 | `/^[a-z_]+\./i` matches exactly when the maximal leading run of ASCII letters and `_` is non-empty and a dot follows it. |
| RuleCompiler.UnscopedAppliesEverywhere | src/index.ts:102-105 | A specification without a scope prefix is kept for every collection. |
| RuleCompiler.ScopedAppliesOnlyToOwner | src/index.ts:102-105 | For a collection name without a dot, a specification `owner.rest` is kept exactly when the name is `owner`. |
| RuleCompiler.DottedCollectionName | src/index.ts:104 | `a.b.x` is scoped, is kept for collection `a.b` and is not kept for `b`. |
| RuleCompiler.WordRunEnd | src/index.ts:104 | The end of the maximal run of letters and `_` from a position: every character before it is one, and the character at it is not. |
| RuleCompiler.DigitBreaksScope | src/index.ts:104 | `users2.email` has no scope prefix and so is kept for any collection. |
| RuleCompiler.NoLineBreakFromIsPointwise | src/index.ts:109 | No line terminator from position `i` on, defined character by character, equals the pointwise statement. |
| RuleCompiler.DirectiveStart | src/index.ts:109 | The match position of `/:(?:.*)$/`, searched from a given position, lies between that position and the end of the text. |
| RuleCompiler.DirectiveStartSpec | src/index.ts:109 | That match position is a colon after which no line terminator occurs, or the end of the text. No earlier position is such a colon. |
| RuleCompiler.StripDirective | src/index.ts:109 | Cutting off the directive leaves a prefix of the text. |
| RuleCompiler.StripDirectiveOneLine | src/index.ts:109 | On one line, the field part has no colon, and it ends at the first colon when there is one. |
| RuleCompiler.StripDirectiveNoColon | src/index.ts:109 | Text without a colon is left unchanged. |
| RuleCompiler.StripDirectiveAfterLineBreak | src/index.ts:109 | Without the `m` flag the match lies past every line terminator: the field part of `p + [c] + q`, for a line terminator `c`, is `p + [c]` followed by the field part of `q`. |
| RuleCompiler.NoLineBreakAcross | src/index.ts:109 | No line terminator follows a position of `p + [c] + q` exactly when that position is past `c` and none follows the matching position in `q`. |
| RuleCompiler.LineEnd | src/index.ts:111 | How far the greedy `.*` can run from a position: a place between that position and the end of the text. |
| RuleCompiler.LineEndSpec | src/index.ts:111 | No line terminator lies before that place, and one lies at it unless it is the end of the text. |
| RuleCompiler.LastColon | src/index.ts:111 | Where the `:` of `/^(?:.*):/` can stop: a position before the bound, or -1. |
| RuleCompiler.LastColonSpec | src/index.ts:111 | That position holds a colon when it is not -1, and no colon lies between it and the bound, so it is the last colon. |
| RuleCompiler.DirectiveText | src/index.ts:111 | `replace(/^(?:.*):/, "")`: the text after the last colon of the first line, or the whole text. Its properties are in `DirectiveTextOneLine` and `DirectiveTextAfterColon`. |
| RuleCompiler.DirectiveTextOneLine | src/index.ts:111 | On one line that contains a colon, the directive is the text after some colon and itself contains none, so it starts after the last colon. |
| RuleCompiler.DirectiveTextFirstLineWithoutColon | src/index.ts:111 | For a specification whose colon is on a later line, the first line has none, so `/^(?:.*):/` does not match and the directive text is the whole specification. |
| RuleCompiler.CompileRule | src/index.ts:106-111 | One specification as a rule. Its properties are in `RuleShape`, `ScopedRule`, `ScopedRuleWithoutDirective`, `UnscopedPlainRule`, `FieldToFirstColonDirectiveFromLast` and `CollectionPrefixRemovedAnywhere`. |
| RuleCompiler.RuleShape | src/index.ts:106-111 | A compiled field is lower case. The replacement is absent exactly when the specification has no colon. On one line the field has no colon and the replacement is the text after the last colon. |
| RuleCompiler.UnscopedPlainRule | src/index.ts:102-111 | An unscoped specification without a colon, in which `collectionName.` does not occur, is kept and compiles to its lower-cased text with no replacement. |
| RuleCompiler.StripDirectiveAtColon | src/index.ts:109 | On one line, the field part of `f:d` is `f` when `f` has no colon. |
| RuleCompiler.DirectiveTextAfterColon | src/index.ts:111 | On one line, the directive of `p:d` is `d` when `d` has no colon. |
| RuleCompiler.ScopedRule | src/index.ts:102-111 | `C.f:d` is kept for collection `C` and compiles to the lower-cased `f` with replacement `d`. |
| RuleCompiler.OwnerPrefixRemoved | src/index.ts:102-108 | `C.f:d` is kept for collection `C`, and removing `C.` leaves `f:d`. |
| RuleCompiler.ScopedRuleWithoutDirective | src/index.ts:102-111 | `C.f` is kept for collection `C` and compiles to the lower-cased `f` with no replacement. |
| RuleCompiler.FieldToFirstColonDirectiveFromLast | src/index.ts:102-111 | An unscoped one-line `f:m:d`, in which `collectionName.` does not occur, is kept and compiles to the lower-cased field `f` and the replacement `d`. The field ends at the first colon and the directive starts after the last one. |
| RuleCompiler.UrlDirectiveLosesScheme | src/index.ts:102-111 | `website:https://example.org` is kept for collection `users` and compiles to the field `website` and the replacement `//example.org`. |
| RuleCompiler.CollectionPrefixRemovedAnywhere | src/index.ts:102-111 | An unscoped `p` + `C.` + `q` compiles, for collection `C`, to the lower-cased `p` + `q`: the prefix is removed wherever it first occurs. |
| RuleCompiler.PrefixRemovedAt | src/index.ts:108 | In `p` + `C.` + `q`, with no `C.` starting inside `p`, removing the first `C.` leaves `p` + `q`. |
| RuleCompiler.LeadingDigitIsUnscoped | src/index.ts:104 | `9users.email` has no scope prefix, because a digit cannot start one. With `CollectionPrefixRemovedAnywhere`, it compiles to the field `9email` for collection `users`. |
| RuleCompiler.CompileRules | src/index.ts:101-112 | `filter` then `map`. Its properties are in `ApplicableSpecIsCompiled`, `CompiledRuleHasSpec`, `CompiledRulesComeFromSpecs`, `CompiledFieldsLowerCase` and `FirstRuleWins`. |
| RuleCompiler.ApplicableSpecIsCompiled | src/index.ts:101-112 | Every kept specification contributes its compiled rule. |
| RuleCompiler.CompiledRuleHasSpec | src/index.ts:101-112 | Every compiled rule comes from some kept specification. |
| RuleCompiler.CompiledRulesComeFromSpecs | src/index.ts:101-112 | A rule is in the compiled list exactly when it is the compilation of some kept specification. |
| RuleCompiler.CompiledFieldsLowerCase | src/index.ts:106-110 | Every compiled field is lower case. |
| RuleCompiler.Fields | src/index.ts:113 | The field list has one entry per rule, in the same order. |
| RuleCompiler.FindIndex | src/index.ts:122 | Where `find` stops: the first rule for the field at or after a position, or the end. |
| RuleCompiler.FindRule | src/index.ts:119-123 | `find` gives a rule exactly when the field is in the field list (`includes`), and the rule it gives is in the list and has that field. |
| RuleCompiler.FindIndexShift | src/index.ts:122 | Adding a rule in front shifts the position `find` reaches by one. |
| RuleCompiler.FindRuleCons | src/index.ts:122 | `find` checks the first rule before the rest. |
| RuleCompiler.SpecFields | src/index.ts:101-112 | One entry per specification: the field it compiles to when it is kept for the collection, and nothing otherwise. |
| RuleCompiler.FirstSpecFor | src/index.ts:101-112 | The position of the first kept specification that compiles to a field, or the end of the list: no earlier kept specification compiles to that field. |
| RuleCompiler.FirstRuleWins | src/index.ts:101-123 | Of several specifications that compile to the same field, the rule used is that of the first one kept, and there is none when no kept specification compiles to the field. |
| ValueAnonymizer.GeneratorCall | src/index.ts:137-140 | A `faker` directive: generator `three` of category `two`, or the directive itself when either piece is missing or empty. Its properties are in `GeneratorCallDirective` and `MalformedGeneratorDirective`. |
| ValueAnonymizer.Directive | src/index.ts:136-151 | The explicit-directive branch, with its tests in source order. Its properties are in `GeneratorCallDirective`, `LiteralDirectives`, `JsonDirective` and `VerbatimDirective`. |
| ValueAnonymizer.Heuristic | src/index.ts:153-164 | The name chain. Its properties are in `HeuristicIsTableOrder`, `NamePriority` and `NoNameRuleApplies`. |
| ValueAnonymizer.AnonymizeValue | src/index.ts:134-165 | Fails exactly for a JSON directive that does not decode, naming it. Without a directive, or with an empty one, it always gives a generator call. |
| ValueAnonymizer.DirectiveIgnoresKey | src/index.ts:135-151 | A non-empty directive decides the value whatever the key. |
| ValueAnonymizer.EmptyDirectiveIsNoDirective | src/index.ts:135 | An empty directive is falsy and behaves as no directive. |
| ValueAnonymizer.GeneratorCallDirective | src/index.ts:137-140 | `faker.C.G`, with non-empty `C` and `G`, calls generator `G` of category `C` without lower-casing; pieces after the third are ignored. |
| ValueAnonymizer.MalformedGeneratorDirective | src/index.ts:137-139 | A `faker` directive with fewer than three pieces, or an empty second or third piece, is returned as text. |
| ValueAnonymizer.LiteralDirectives | src/index.ts:141-148 | `[]`, `{}` and `null` give an empty array, an empty object and null. |
| ValueAnonymizer.JsonDirective | src/index.ts:145-146 | Any other directive opening with `[` or `{` goes to the JSON parser: it gives the parsed text when the text decodes, and otherwise fails with an error naming the directive. |
| ValueAnonymizer.VerbatimDirective | src/index.ts:150-151 | Every other non-empty directive is returned as it is. |
| ValueAnonymizer.ActiveIsVerbatim | src/index.ts:150-151 | The directive `active` is returned as text. |
| ValueAnonymizer.FirstApplicable | src/index.ts:153-164 | The result is the generator of some row of the name table at or after the starting row, or a random word. |
| ValueAnonymizer.FirstApplicableWins | src/index.ts:153-164 | When row `i` is the first that applies, its generator is the result. |
| ValueAnonymizer.NoneApplicable | src/index.ts:164 | When no row applies, the result is a random word. |
| ValueAnonymizer.HeuristicIsTableOrder | src/index.ts:153-164 | The twelve-step if-chain equals the first applicable row of the ordered name table. |
| ValueAnonymizer.LeadingRows | src/index.ts:153-156 | Rows 0 to 3 of the table are the three `includes` tests and the exact `description` test, in the order of the chain. |
| ValueAnonymizer.SuffixRows | src/index.ts:157-160 | Rows 4 to 7 are the `address`, `city`, `country` and `phone` suffix tests, in that order. |
| ValueAnonymizer.LastSuffixRows | src/index.ts:161-164 | Rows 8 to 10 are the `comment`, `date` and `name` suffix tests, followed by the random-word fallback. |
| ValueAnonymizer.NamePriority | src/index.ts:153-164 | Without a directive, the first applicable row of the name table decides the generator. |
| ValueAnonymizer.NoNameRuleApplies | src/index.ts:164 | Without a directive, a key that no row applies to gets a random word. |
| ValueAnonymizer.LastNameBeatsCatchAll | src/index.ts:155-163 | `lastname` gets `name.lastName`, not the catch-all `name.findName`. |
| ValueAnonymizer.UserNameIsFullName | src/index.ts:153-163 | `username` passes every earlier test and gets `name.findName`. |
| ValueAnonymizer.BirthDateIsPastDate | src/index.ts:153-162 | `birthdate` passes every earlier test and gets `date.past`. |
| ValueAnonymizer.EmailIsLowerCased | src/index.ts:137-153 | The name-derived e-mail is lower-cased; `faker.internet.email` given as a directive is not. |
| ValueAnonymizer.AgeIsRandomWord | src/index.ts:164 | `age` gets a random word. |
| JsStrings.LowerChar | src/index.ts:110 | An ASCII upper-case letter maps to the same letter in lower case. Every other character is unchanged. |
| JsStrings.ToLower | src/index.ts:110 | `toLowerCase` keeps the length. |
| JsStrings.ToLowerPointwise | src/index.ts:110 | `toLowerCase` lowers each character on its own, and its result is lower case. |
| JsStrings.ToLowerOfLowerCase | src/index.ts:110 | Lower-case text is unchanged. |
| JsStrings.ToLowerEqualIffIgnoringCase | src/index.ts:119 | Two texts lower-case to the same text exactly when they are equal up to the case of ASCII letters, defined character by character. |
| JsStrings.EmailCasings | src/index.ts:119 | `EMAIL`, `Email` and `email` all lower-case to `email`, and `EMAIL` equals `Email` up to case. |
| JsStrings.ToLowerKeepsNonLetter | src/index.ts:110 | A non-letter occurs in the lower-cased text exactly when it occurs in the original. |
| JsStrings.AgreeFromIsPointwise | src/index.ts:104 | Character-by-character agreement is the pointwise statement. |
| JsStrings.AgreeFromZeroIsOccurrence | src/index.ts:104 | Agreement from the start is an occurrence at that position. |
| JsStrings.StartsWith | src/index.ts:137-150 | `startsWith`, defined by character agreement from position 0. Its property is in `StartsWithIsPrefix`. |
| JsStrings.EndsWith | src/index.ts:157-163 | `endsWith`, defined by character agreement from `|s| - |t|`. Its property is in `EndsWithIsSuffix`. |
| JsStrings.StartsWithIsPrefix | src/index.ts:137 | `startsWith` is the prefix relation. |
| JsStrings.EndsWithIsSuffix | src/index.ts:157-163 | `endsWith` is the suffix relation. |
| JsStrings.MismatchNotSuffix | src/index.ts:157-163 | One mismatching character in the aligned tail rules `endsWith` out. |
| JsStrings.IndexOfFrom | src/index.ts:108 | A search from a position gives -1 or a place at or after it where the pattern fits in the text. |
| JsStrings.IndexOfFromSpec | src/index.ts:108 | That place is an occurrence of the pattern, and none starts earlier from the searched position on; -1 means there is none. |
| JsStrings.IndexOf | src/index.ts:108 | `indexOf` gives -1 or a place where the pattern fits in the text. |
| JsStrings.IndexOfSpec | src/index.ts:108 | `indexOf` gives the first occurrence of the pattern, or -1 when it occurs nowhere. |
| JsStrings.Contains | src/index.ts:153-155 | `includes`, defined through `indexOf`. Its property is in `ContainsIsOccurrence`. |
| JsStrings.ContainsIsOccurrence | src/index.ts:153-155 | `includes` holds exactly when the pattern occurs somewhere. |
| JsStrings.MissingCharNoOccurrence | src/index.ts:108 | A text lacking one of the pattern's characters has the pattern at no position. |
| JsStrings.MissingCharNotContained | src/index.ts:153-155 | A text lacking one of the pattern's characters does not include the pattern. |
| JsStrings.ContainsChar | src/index.ts:111 | `includes` of a one-character pattern is membership. |
| JsStrings.RemoveFirst | src/index.ts:108 | `replace` with a string pattern changes nothing when the pattern is absent. Otherwise it shortens the text by the pattern's length. |
| JsStrings.RemoveFirstPrefix | src/index.ts:108 | Removing a leading pattern leaves the rest. |
| JsStrings.RemoveFirstOccurrence | src/index.ts:108 | `p` + `t` + `q`, with no `t` starting inside `p`, loses exactly that `t`. |
| JsStrings.RemoveFirstAbsent | src/index.ts:108 | Removing an absent pattern changes nothing. |
| JsStrings.Split | src/index.ts:138 | `split` gives at least one piece, none containing the separator, which join back to the text. |
| JsStrings.SplitJoin | src/index.ts:138 | Splitting separator-free pieces joined by the separator gives the pieces back. |

## Left out

- `run()` (src/index.ts:29-94) is not part of this model. It connects to the databases, lists the collections, writes the results and logs. The command-line flags (src/index.ts:8-28) are not part of it either.
- The `this.log` call at src/index.ts:114 is not modelled: it is output only.
- Faker (including `faker.locale`) is not modelled. A generated value is recorded as the generator call it requests, not as the random text faker would produce.
- A `faker.C.G` directive naming a category or generator that faker lacks throws a `TypeError` in the source. The model records the call as `Generated(C, G, false)` and does not model that failure.
- `JSON.parse(decodeURIComponent(text))` is foreign code. `ValueAnonymizer.ParseJson` stands in for it: the parameter `decodes` says whether the call succeeds, and the parsed value is recorded as `Parsed(text)`.
- `async` is not modelled: the pass has no I/O, and a thrown exception is a `Result` error.
- JsStrings.ToLower: lower-cases ASCII letters only. `toLowerCase` also maps non-ASCII letters, and that Unicode case mapping is not modelled.
- Strings are sequences of Unicode scalar values, not UTF-16 code units. Text outside the Basic Multilingual Plane is one character here and two in the source.
- A document is the sequence of its properties in `for-in` order. Inherited enumerable properties and JavaScript's ordering of integer-like keys are outside the model. Keys in an object are distinct, so copying property by property and appending is the same as assigning, with one exception the model does not capture (next line).
- A key named `__proto__`: on the object literal `{}` at src/index.ts:116, assigning `documentAnonymized["__proto__"]` goes through the inherited accessor and creates no own property, so the source's output document lacks that key. The model appends it like every other key, so `CollectionAnonymizer.ShapeIsKept` and `CollectionAnonymizer.CollectionEntry` keep it.
- Document values are left abstract (`V`): the pass only copies them.
- The `if (!document) continue;` test at src/index.ts:118 is not modelled. It sits inside `for (const key in document)`, which has no iterations when `document` is falsy, so it never skips anything.
- `collectionName` is a string here. It is typed `any` in the source, and a non-string name would be converted to text by the template literal; the specifications are `string[]` in the source as well.
