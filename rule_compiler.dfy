/**
 * Rule compilation: the field specifications that apply to one collection,
 * each turned into a rule `{field, replacement}`. A specification reads
 * `[collection.]field[:directive]`.
 */
module RuleCompiler {
  import opened Wrappers
  import opened JsStrings

  /** A compiled rule: the lower-cased field name and the directive text, if any. */
  datatype Rule = Rule(field: string, replacement: Option<string>)

  /** The characters of the class `[a-z_]` under the case-insensitive flag. */
  predicate IsWordChar(c: char) {
    IsAsciiUpper(c) || IsAsciiLower(c) || c == '_'
  }

  /**
   * `/^[a-z_]+\./i` matches `s`: some non-empty run of word characters at
   * the start is followed by a dot.
   */
  predicate HasScopePrefix(s: string) {
    exists k :: 0 < k < |s| && s[k] == '.' && forall i :: 0 <= i < k ==> IsWordChar(s[i])
  }

  /** The end of the run of word characters that starts at `i`. */
  function WordRunEnd(s: string, i: nat): (n: nat)
    requires i <= |s|
    ensures i <= n <= |s|
    ensures forall j :: i <= j < n ==> IsWordChar(s[j])
    ensures n < |s| ==> !IsWordChar(s[n])
    decreases |s| - i
  {
    if i < |s| && IsWordChar(s[i]) then WordRunEnd(s, i + 1) else i
  }

  /**
   * Backtracking cannot help the regular expression: it matches exactly when
   * the maximal leading run of word characters is non-empty and a dot follows it.
   */
  lemma ScopePrefixIsMaximalRun(s: string)
    ensures HasScopePrefix(s) <==> (var n := WordRunEnd(s, 0); 0 < n < |s| && s[n] == '.')
  {
    var n := WordRunEnd(s, 0);
    if HasScopePrefix(s) {
      var k :| 0 < k < |s| && s[k] == '.' && forall i :: 0 <= i < k ==> IsWordChar(s[i]);
      assert !IsWordChar(s[k]);
    }
  }

  /** `!item.match(/^[a-z_]+\./gi) || item.startsWith(collectionName + ".")`. */
  predicate AppliesTo(spec: string, collectionName: string) {
    !HasScopePrefix(spec) || StartsWith(spec, collectionName + ".")
  }

  /** A specification without a scope prefix applies to every collection. */
  lemma UnscopedAppliesEverywhere(spec: string, collectionName: string)
    requires !HasScopePrefix(spec)
    ensures AppliesTo(spec, collectionName)
  {
  }

  /**
   * A specification `owner.rest`, with `owner` made of word characters only,
   * applies to a collection whose name has no dot exactly when that name is `owner`.
   */
  lemma ScopedAppliesOnlyToOwner(owner: string, rest: string, collectionName: string)
    requires owner != [] && forall i :: 0 <= i < |owner| ==> IsWordChar(owner[i])
    requires '.' !in collectionName
    ensures AppliesTo(owner + "." + rest, collectionName) <==> collectionName == owner
  {
    var spec := owner + "." + rest;
    assert spec[|owner|] == '.';
    assert forall i :: 0 <= i < |owner| ==> IsWordChar(spec[i]) by {
      forall i | 0 <= i < |owner| ensures IsWordChar(spec[i]) { assert spec[i] == owner[i]; }
    }
    assert HasScopePrefix(spec);
    StartsWithIsPrefix(spec, collectionName + ".");
    StartsWithIsPrefix(spec, owner + ".");
    assert (owner + ".") <= spec;
    if StartsWith(spec, collectionName + ".") {
      var m := |collectionName|;
      assert spec[m] == '.';
      assert collectionName == spec[..m] == owner;
    }
  }

  /**
   * The scope test compares prefixes, not names: a collection whose name has
   * a dot takes the specifications that start with that name and a dot.
   */
  lemma DottedCollectionName()
    ensures HasScopePrefix("a.b.x") && AppliesTo("a.b.x", "a.b") && !AppliesTo("a.b.x", "b")
  {
    assert "a.b.x"[1] == '.';
    assert "a.b" + "." == "a.b.";
    assert StartsWith("a.b.x", "a.b.");
    assert "b" + "." == "b.";
    assert !StartsWith("a.b.x", "b.");
  }

  /** A digit breaks the run, so `users2.email` is unscoped and applies to all collections. */
  lemma DigitBreaksScope()
    ensures !HasScopePrefix("users2.email")
    ensures AppliesTo("users2.email", "orders")
  {
    ScopePrefixIsMaximalRun("users2.email");
  }

  /** The characters the regular-expression `.` does not match. */
  predicate IsLineTerminator(c: char) {
    c == '\n' || c == '\r' || c == '\U{2028}' || c == '\U{2029}'
  }

  /** No line terminator occurs in `s[i..]`. Defined one character at a time. */
  predicate NoLineBreakFrom(s: string, i: nat)
    decreases |s| - i
  {
    i >= |s| || (!IsLineTerminator(s[i]) && NoLineBreakFrom(s, i + 1))
  }

  /** No line terminator occurs in `s`. */
  predicate NoLineBreak(s: string) {
    forall i :: 0 <= i < |s| ==> !IsLineTerminator(s[i])
  }

  lemma {:induction false} NoLineBreakFromIsPointwise(s: string, i: nat)
    ensures NoLineBreakFrom(s, i) <==> forall j :: i <= j < |s| ==> !IsLineTerminator(s[j])
    decreases |s| - i
  {
    if i < |s| {
      NoLineBreakFromIsPointwise(s, i + 1);
    }
  }

  /**
   * Where `/:(?:.*)$/` matches, searching from `i`: the first colon after
   * which no line terminator occurs (`.` does not match one), or `|s|`.
   */
  function DirectiveStart(s: string, i: nat): (j: nat)
    requires i <= |s|
    ensures i <= j <= |s|
    decreases |s| - i
  {
    if i == |s| then i
    else if s[i] == ':' && NoLineBreakFrom(s, i + 1) then i
    else DirectiveStart(s, i + 1)
  }

  /** The match is at such a colon, and no earlier position from `i` on is one. */
  lemma {:induction false} DirectiveStartSpec(s: string, i: nat)
    requires i <= |s|
    ensures var j := DirectiveStart(s, i);
            (j < |s| ==> s[j] == ':' && NoLineBreakFrom(s, j + 1)) &&
            forall m :: i <= m < j ==> !(s[m] == ':' && NoLineBreakFrom(s, m + 1))
    decreases |s| - i
  {
    if i < |s| && !(s[i] == ':' && NoLineBreakFrom(s, i + 1)) {
      DirectiveStartSpec(s, i + 1);
    }
  }

  /** `s.replace(/:(?:.*)$/, "")`: the field part of a specification. */
  function StripDirective(s: string): (r: string)
    ensures r <= s
  {
    s[..DirectiveStart(s, 0)]
  }

  /** On one line, the field part ends at the first colon. */
  lemma StripDirectiveOneLine(s: string)
    requires NoLineBreak(s)
    ensures ':' !in StripDirective(s)
    ensures ':' in s ==> |StripDirective(s)| < |s| && s[|StripDirective(s)|] == ':'
  {
    var j := DirectiveStart(s, 0);
    DirectiveStartSpec(s, 0);
    forall m | 0 <= m < j ensures s[m] != ':' {
      NoLineBreakFromIsPointwise(s, m + 1);
    }
    if ':' in s {
      var m :| 0 <= m < |s| && s[m] == ':';
      NoLineBreakFromIsPointwise(s, m + 1);
    }
  }

  /**
   * Over several lines the match is past every line terminator: text up to
   * and including one is always part of the field.
   */
  lemma StripDirectiveAfterLineBreak(p: string, c: char, q: string)
    requires IsLineTerminator(c)
    ensures StripDirective(p + [c] + q) == p + [c] + StripDirective(q)
  {
    var s := p + [c] + q;
    var n := |p| + 1;
    var j := DirectiveStart(s, 0);
    var k := DirectiveStart(q, 0);
    DirectiveStartSpec(s, 0);
    DirectiveStartSpec(q, 0);
    assert j >= n by {
      if j < n {
        NoLineBreakAcross(p, c, q, j + 1);
      }
    }
    assert j - n >= k by {
      if j - n < k {
        NoLineBreakAcross(p, c, q, j + 1);
      }
    }
    assert j - n <= k by {
      if k < j - n {
        assert s[k + n] == q[k];
        NoLineBreakAcross(p, c, q, k + n + 1);
      }
    }
    assert s[..j] == p + [c] + q[..k];
  }

  /** No line terminator follows position `x` of `p + [c] + q` exactly when `x` is past `c` and none follows in `q`. */
  lemma NoLineBreakAcross(p: string, c: char, q: string, x: nat)
    requires IsLineTerminator(c)
    ensures x <= |p| ==> !NoLineBreakFrom(p + [c] + q, x)
    ensures x > |p| ==> (NoLineBreakFrom(p + [c] + q, x) <==> NoLineBreakFrom(q, x - |p| - 1))
  {
    var s := p + [c] + q;
    NoLineBreakFromIsPointwise(s, x);
    if x <= |p| {
      assert s[|p|] == c;
    } else {
      NoLineBreakFromIsPointwise(q, x - |p| - 1);
      forall y | x <= y < |s| ensures s[y] == q[y - |p| - 1] {}
      forall z | x - |p| - 1 <= z < |q| ensures q[z] == s[z + |p| + 1] {}
    }
  }

  /** When the first line has no colon, `/^(?:.*):/` does not match and the directive is the whole text. */
  lemma DirectiveTextFirstLineWithoutColon(p: string, c: char, q: string)
    requires IsLineTerminator(c) && NoLineBreak(p) && ':' !in p
    ensures DirectiveText(p + [c] + q) == p + [c] + q
  {
    var s := p + [c] + q;
    assert s[|p|] == c;
    forall i | 0 <= i < |p| ensures s[i] == p[i] {}
    LineEndSpec(s, 0);
    assert LineEnd(s, 0) == |p|;
    LastColonSpec(s, |p|);
    assert LastColon(s, |p|) < 0;
  }

  /** Text without a colon has no directive to strip. */
  lemma StripDirectiveNoColon(s: string)
    requires ':' !in s
    ensures StripDirective(s) == s
  {
    DirectiveStartSpec(s, 0);
  }

  /** The position of the first line terminator at or after `i`, or `|s|`. */
  function LineEnd(s: string, i: nat): (e: nat)
    requires i <= |s|
    ensures i <= e <= |s|
    decreases |s| - i
  {
    if i == |s| || IsLineTerminator(s[i]) then i else LineEnd(s, i + 1)
  }

  /** No line terminator lies before the line end, and one lies at it unless it is the end of the text. */
  lemma {:induction false} LineEndSpec(s: string, i: nat)
    requires i <= |s|
    ensures var e := LineEnd(s, i);
            (forall j :: i <= j < e ==> !IsLineTerminator(s[j])) && (e < |s| ==> IsLineTerminator(s[e]))
    decreases |s| - i
  {
    if i < |s| && !IsLineTerminator(s[i]) {
      LineEndSpec(s, i + 1);
    }
  }

  /** The position of the last colon in `s[..e]`, or -1. */
  function LastColon(s: string, e: nat): (j: int)
    requires e <= |s|
    ensures -1 <= j < e
  {
    if e == 0 then -1
    else if s[e - 1] == ':' then e - 1
    else LastColon(s, e - 1)
  }

  /** `LastColon` finds a colon, and none lies after it before `e`. */
  lemma {:induction false} LastColonSpec(s: string, e: nat)
    requires e <= |s|
    ensures var j := LastColon(s, e);
            (j >= 0 ==> s[j] == ':') && forall m :: j < m < e ==> s[m] != ':'
  {
    if e > 0 && s[e - 1] != ':' {
      LastColonSpec(s, e - 1);
    }
  }

  /**
   * `s.replace(/^(?:.*):/, "")`: the greedy `.*` runs to the last colon of
   * the first line and everything up to it is removed; without a colon on
   * the first line nothing is.
   */
  function DirectiveText(s: string): (r: string)
  {
    var j := LastColon(s, LineEnd(s, 0));
    if j < 0 then s else s[j + 1..]
  }

  /** On one line, the directive is the text after the last colon. */
  lemma DirectiveTextOneLine(s: string)
    requires NoLineBreak(s) && ':' in s
    ensures exists j :: 0 <= j < |s| && s[j] == ':' && DirectiveText(s) == s[j + 1..]
    ensures ':' !in DirectiveText(s)
  {
    var e := LineEnd(s, 0);
    LineEndSpec(s, 0);
    assert e == |s|;
    var m :| 0 <= m < |s| && s[m] == ':';
    var j := LastColon(s, e);
    LastColonSpec(s, e);
    assert 0 <= m <= j < |s|;
    var t := s[j + 1..];
    assert |t| == |s| - (j + 1);
    forall i | 0 <= i < |t| ensures t[i] != ':' {
      assert t[i] == s[j + 1 + i];
      assert j < j + 1 + i < e;
    }
    assert DirectiveText(s) == t;
  }

  /**
   * One specification as a rule for collection `collectionName`: the first
   * occurrence of `collectionName.` is removed, then the directive, and the
   * rest is lower-cased; the directive, when the text has a colon, is taken
   * from the whole specification.
   */
  function CompileRule(spec: string, collectionName: string): Rule
  {
    Rule(ToLower(StripDirective(RemoveFirst(spec, collectionName + "."))),
         if Contains(spec, ":") then Some(DirectiveText(spec)) else None)
  }

  /**
   * The shape of a compiled rule: its field is lower case; its replacement is
   * absent exactly when the specification has no colon; on one line, the field
   * has no colon and the replacement is the text after the last colon.
   */
  lemma RuleShape(spec: string, collectionName: string)
    ensures IsLowerCase(CompileRule(spec, collectionName).field)
    ensures CompileRule(spec, collectionName).replacement.None? <==> ':' !in spec
    ensures NoLineBreak(spec) ==> ':' !in CompileRule(spec, collectionName).field
    ensures NoLineBreak(spec) && ':' in spec ==>
              exists j :: 0 <= j < |spec| && spec[j] == ':' &&
                CompileRule(spec, collectionName).replacement == Some(spec[j + 1..]) &&
                ':' !in spec[j + 1..]
  {
    ContainsChar(spec, ':');
    var stripped := RemoveFirst(spec, collectionName + ".");
    ToLowerPointwise(StripDirective(stripped));
    if NoLineBreak(spec) {
      StripDirectiveOneLine(stripped);
      ToLowerKeepsNonLetter(StripDirective(stripped), ':');
      if ':' in spec {
        DirectiveTextOneLine(spec);
      }
    }
  }

  /**
   * An unscoped specification without a colon, in which `collectionName.`
   * does not occur, becomes the rule for its lower-cased text with no directive.
   */
  lemma UnscopedPlainRule(spec: string, collectionName: string)
    requires !HasScopePrefix(spec) && ':' !in spec
    requires forall i: nat :: !OccursAt(spec, collectionName + ".", i)
    ensures AppliesTo(spec, collectionName)
    ensures CompileRule(spec, collectionName) == Rule(ToLower(spec), None)
  {
    ContainsChar(spec, ':');
    RemoveFirstAbsent(spec, collectionName + ".");
    StripDirectiveNoColon(spec);
  }

  /** On one line, the field part of `f:d` is `f` when `f` has no colon. */
  lemma StripDirectiveAtColon(f: string, d: string)
    requires ':' !in f && NoLineBreak(d)
    ensures StripDirective(f + ":" + d) == f
  {
    var s := f + ":" + d;
    NoLineBreakFromIsPointwise(s, |f| + 1);
    DirectiveStartSpec(s, 0);
    assert s[|f|] == ':';
    assert s[..|f|] == f;
  }

  /** On one line, the directive of `p:d` is `d` when `d` has no colon. */
  lemma DirectiveTextAfterColon(p: string, d: string)
    requires NoLineBreak(p) && NoLineBreak(d) && ':' !in d
    ensures DirectiveText(p + ":" + d) == d
  {
    var s := p + ":" + d;
    assert LineEnd(s, 0) == |s| by {
      NoLineBreakConcat(p + ":", d);
      NoLineBreakConcat(p, ":");
      LineEndSpec(s, 0);
    }
    assert LastColon(s, |s|) == |p| by {
      LastColonSpec(s, |s|);
      assert s[|p|] == ':';
    }
    assert s[|p| + 1..] == d;
  }

  /** A concatenation is on one line exactly when both parts are. */
  lemma NoLineBreakConcat(a: string, b: string)
    ensures NoLineBreak(a + b) <==> NoLineBreak(a) && NoLineBreak(b)
  {
    var s := a + b;
    if NoLineBreak(s) {
      forall i | 0 <= i < |a| ensures !IsLineTerminator(a[i]) { assert a[i] == s[i]; }
      forall i | 0 <= i < |b| ensures !IsLineTerminator(b[i]) { assert b[i] == s[|a| + i]; }
    }
  }

  /** A rule assembled from its parts: the field part and the directive text of `spec`. */
  lemma CompiledAs(spec: string, collectionName: string, field: string, d: string)
    requires StripDirective(RemoveFirst(spec, collectionName + ".")) == field
    requires ':' in spec && DirectiveText(spec) == d
    ensures CompileRule(spec, collectionName) == Rule(ToLower(field), Some(d))
  {
    ContainsChar(spec, ':');
  }

  /** A rule assembled from the field part of a specification without a colon. */
  lemma CompiledAsPlain(spec: string, collectionName: string, field: string)
    requires StripDirective(RemoveFirst(spec, collectionName + ".")) == field
    requires ':' !in spec
    ensures CompileRule(spec, collectionName) == Rule(ToLower(field), None)
  {
    ContainsChar(spec, ':');
  }

  /**
   * `C.f:d` compiled for collection `C` gives field `f` lower-cased and
   * directive `d`, when neither `f` nor `d` has a colon.
   */
  lemma ScopedRule(owner: string, f: string, d: string)
    requires ':' !in f && ':' !in d
    requires NoLineBreak(owner + "." + f + ":" + d)
    ensures AppliesTo(owner + "." + f + ":" + d, owner)
    ensures CompileRule(owner + "." + f + ":" + d, owner) == Rule(ToLower(f), Some(d))
  {
    var p := owner + "." + f;
    var spec := p + ":" + d;
    OwnerPrefixRemoved(owner, f, d);
    assert NoLineBreak(p) && NoLineBreak(d) by {
      NoLineBreakConcat(p + ":", d);
      NoLineBreakConcat(p, ":");
    }
    assert StripDirective(f + ":" + d) == f by {
      StripDirectiveAtColon(f, d);
    }
    assert DirectiveText(spec) == d by {
      DirectiveTextAfterColon(p, d);
    }
    assert ':' in spec by {
      assert spec[|p|] == ':';
    }
    CompiledAs(spec, owner, f, d);
  }

  /** `C.f:d` is scoped to `C`, and removing the prefix leaves `f:d`. */
  lemma OwnerPrefixRemoved(owner: string, f: string, d: string)
    ensures AppliesTo(owner + "." + f + ":" + d, owner)
    ensures RemoveFirst(owner + "." + f + ":" + d, owner + ".") == f + ":" + d
  {
    var spec := owner + "." + f + ":" + d;
    assert spec == (owner + ".") + (f + ":" + d);
    assert StartsWith(spec, owner + ".") by {
      StartsWithIsPrefix(spec, owner + ".");
    }
    assert RemoveFirst(spec, owner + ".") == f + ":" + d by {
      RemoveFirstPrefix(owner + ".", f + ":" + d);
    }
  }

  /** `C.f` compiled for collection `C` gives field `f` lower-cased and no directive. */
  lemma ScopedRuleWithoutDirective(owner: string, f: string)
    requires ':' !in owner && ':' !in f
    ensures AppliesTo(owner + "." + f, owner)
    ensures CompileRule(owner + "." + f, owner) == Rule(ToLower(f), None)
  {
    var spec := owner + "." + f;
    StartsWithIsPrefix(spec, owner + ".");
    RemoveFirstPrefix(owner + ".", f);
    ContainsChar(spec, ':');
    StripDirectiveNoColon(f);
  }

  /** On one line, `f:m:d` has field part `f` and directive text `d`. */
  lemma FirstAndLastColon(f: string, m: string, d: string)
    requires ':' !in f && ':' !in d
    requires NoLineBreak(f + ":" + m + ":" + d)
    ensures StripDirective(f + ":" + m + ":" + d) == f
    ensures DirectiveText(f + ":" + m + ":" + d) == d
  {
    var p := f + ":" + m;
    var rest := m + ":" + d;
    var spec := p + ":" + d;
    assert NoLineBreak(p) && NoLineBreak(d) && NoLineBreak(rest) by {
      NoLineBreakConcat(p + ":", d);
      NoLineBreakConcat(p, ":");
      assert spec == (f + ":") + rest;
      NoLineBreakConcat(f + ":", rest);
    }
    assert StripDirective(spec) == f by {
      assert spec == f + ":" + rest;
      StripDirectiveAtColon(f, rest);
    }
    DirectiveTextAfterColon(p, d);
  }

  /**
   * In an unscoped `f:m:d`, the field ends at the FIRST colon and the
   * directive starts after the LAST one, so the middle part `m` is lost.
   */
  lemma FieldToFirstColonDirectiveFromLast(f: string, m: string, d: string, collectionName: string)
    requires ':' !in f && ':' !in d
    requires NoLineBreak(f + ":" + m + ":" + d)
    requires !HasScopePrefix(f + ":" + m + ":" + d)
    requires forall i: nat :: !OccursAt(f + ":" + m + ":" + d, collectionName + ".", i)
    ensures AppliesTo(f + ":" + m + ":" + d, collectionName)
    ensures CompileRule(f + ":" + m + ":" + d, collectionName) == Rule(ToLower(f), Some(d))
  {
    var spec := f + ":" + m + ":" + d;
    assert RemoveFirst(spec, collectionName + ".") == spec by {
      RemoveFirstAbsent(spec, collectionName + ".");
    }
    FirstAndLastColon(f, m, d);
    assert ':' in spec by {
      assert spec[|f|] == ':';
    }
    CompiledAs(spec, collectionName, f, d);
  }

  /**
   * A URL in the directive loses its scheme: `website:https://example.org`,
   * that is `f:m:d` with `f = website`, `m = https` and `d = //example.org`,
   * compiles for collection `users` to the field `website` and the
   * replacement `//example.org`.
   *
   * The parts are parameters fixed by the precondition rather than literals
   * in the body, so that the verifier does not unfold the literal text
   * eagerly; the lemma is about this one specification only.
   */
  lemma UrlDirectiveLosesScheme(f: string, m: string, d: string, collectionName: string)
    requires f == "website" && m == "https" && d == "//example.org" && collectionName == "users"
    ensures AppliesTo(f + ":" + m + ":" + d, collectionName)
    ensures CompileRule(f + ":" + m + ":" + d, collectionName) == Rule("website", Some("//example.org"))
  {
    UrlSpecOneLine(f, m, d);
    UrlSpecUnscoped(f, m, d);
    MissingCharNoOccurrence(f + ":" + m + ":" + d, collectionName + ".", 0);
    FieldToFirstColonDirectiveFromLast(f, m, d, collectionName);
    ToLowerOfLowerCase(f);
  }

  /** `website:https://example.org` is on one line (parts fixed by the precondition, as above). */
  lemma UrlSpecOneLine(f: string, m: string, d: string)
    requires f == "website" && m == "https" && d == "//example.org"
    ensures NoLineBreak(f + ":" + m + ":" + d)
  {
    assert NoLineBreak(f) && NoLineBreak(":") && NoLineBreak(m) && NoLineBreak(d);
    NoLineBreakConcat(f, ":");
    NoLineBreakConcat(f + ":", m);
    NoLineBreakConcat(f + ":" + m, ":");
    NoLineBreakConcat(f + ":" + m + ":", d);
  }

  /** `website:https://example.org` has no scope prefix, and no `u` that could start `users.` (parts fixed as above). */
  lemma UrlSpecUnscoped(f: string, m: string, d: string)
    requires f == "website" && m == "https" && d == "//example.org"
    ensures !HasScopePrefix(f + ":" + m + ":" + d) && 'u' !in f + ":" + m + ":" + d
  {
    var spec := f + ":" + m + ":" + d;
    ScopePrefixIsMaximalRun(spec);
    assert spec[7] == ':';
    assert forall i :: 0 <= i < 7 ==> spec[i] == f[i];
    assert WordRunEnd(spec, 7) == 7;
  }

  /**
   * The collection prefix is removed wherever it first occurs, not only at
   * the start: an unscoped `p` + `C.` + `q` compiles, for collection `C`, to
   * the field `p` + `q` lower-cased.
   */
  lemma CollectionPrefixRemovedAnywhere(p: string, q: string, collectionName: string)
    requires !HasScopePrefix(p + collectionName + "." + q)
    requires ':' !in p + q && ':' !in collectionName
    requires forall i: nat :: i < |p| ==> !OccursAt(p + collectionName + "." + q, collectionName + ".", i)
    ensures AppliesTo(p + collectionName + "." + q, collectionName)
    ensures CompileRule(p + collectionName + "." + q, collectionName) == Rule(ToLower(p + q), None)
  {
    var spec := p + collectionName + "." + q;
    PrefixRemovedAt(p, q, collectionName);
    assert ':' !in spec by {
      NoColonAroundPrefix(p, q, collectionName);
    }
    assert StripDirective(p + q) == p + q by {
      StripDirectiveNoColon(p + q);
    }
    CompiledAsPlain(spec, collectionName, p + q);
  }

  /** The first occurrence of the prefix `C.` in `p` + `C.` + `q` is after `p` when none starts inside `p`. */
  lemma PrefixRemovedAt(p: string, q: string, collectionName: string)
    requires forall i: nat :: i < |p| ==> !OccursAt(p + collectionName + "." + q, collectionName + ".", i)
    ensures RemoveFirst(p + collectionName + "." + q, collectionName + ".") == p + q
  {
    var t := collectionName + ".";
    assert p + collectionName + "." + q == p + t + q;
    RemoveFirstOccurrence(p, t, q);
  }

  /** Splicing a colon-free collection prefix into colon-free text adds no colon. */
  lemma NoColonAroundPrefix(p: string, q: string, collectionName: string)
    requires ':' !in p + q && ':' !in collectionName
    ensures ':' !in p + collectionName + "." + q
  {
    assert ':' !in p && ':' !in q by {
      assert forall c :: c in p ==> c in p + q;
      assert forall c :: c in q ==> c in p + q;
    }
  }

  /** `9users.email` is unscoped: its leading run of letters is empty. */
  lemma LeadingDigitIsUnscoped()
    ensures !HasScopePrefix("9users.email")
  {
    ScopePrefixIsMaximalRun("9users.email");
  }

  /** `list.filter(AppliesTo).map(CompileRule)`. */
  function CompileRules(list: seq<string>, collectionName: string): seq<Rule>
  {
    if list == [] then []
    else
      (if AppliesTo(list[0], collectionName) then [CompileRule(list[0], collectionName)] else [])
      + CompileRules(list[1..], collectionName)
  }

  /** Each applicable specification contributes its compiled rule. */
  lemma {:induction false} ApplicableSpecIsCompiled(list: seq<string>, collectionName: string, i: nat)
    requires i < |list| && AppliesTo(list[i], collectionName)
    ensures CompileRule(list[i], collectionName) in CompileRules(list, collectionName)
  {
    if i > 0 {
      assert list[1..][i - 1] == list[i];
      ApplicableSpecIsCompiled(list[1..], collectionName, i - 1);
    }
  }

  /** Index of the specification a compiled rule came from. */
  lemma {:induction false} CompiledRuleHasSpec(list: seq<string>, collectionName: string, r: Rule) returns (i: nat)
    requires r in CompileRules(list, collectionName)
    ensures i < |list| && AppliesTo(list[i], collectionName) && r == CompileRule(list[i], collectionName)
  {
    var c := collectionName;
    if AppliesTo(list[0], c) && r == CompileRule(list[0], c) {
      i := 0;
    } else {
      assert r in CompileRules(list[1..], c);
      var j := CompiledRuleHasSpec(list[1..], c, r);
      i := j + 1;
      assert list[i] == list[1..][j];
    }
  }

  /** The compiled rules are those of the applicable specifications, and only those. */
  lemma CompiledRulesComeFromSpecs(list: seq<string>, collectionName: string, r: Rule)
    ensures r in CompileRules(list, collectionName) <==>
            exists i :: 0 <= i < |list| && AppliesTo(list[i], collectionName) && r == CompileRule(list[i], collectionName)
  {
    if r in CompileRules(list, collectionName) {
      var i := CompiledRuleHasSpec(list, collectionName, r);
    } else {
      forall i | 0 <= i < |list| && AppliesTo(list[i], collectionName)
        ensures r != CompileRule(list[i], collectionName)
      {
        ApplicableSpecIsCompiled(list, collectionName, i);
      }
    }
  }

  /** Every compiled field is lower case. */
  lemma CompiledFieldsLowerCase(list: seq<string>, collectionName: string)
    ensures forall r :: r in CompileRules(list, collectionName) ==> IsLowerCase(r.field)
  {
    forall r | r in CompileRules(list, collectionName) ensures IsLowerCase(r.field) {
      CompiledRulesComeFromSpecs(list, collectionName, r);
      var i :| 0 <= i < |list| && AppliesTo(list[i], collectionName) && r == CompileRule(list[i], collectionName);
      RuleShape(list[i], collectionName);
    }
  }

  /** `rules.map(r => r.field)`: the fields to anonymise. */
  function Fields(rules: seq<Rule>): (fields: seq<string>)
    ensures |fields| == |rules|
    ensures forall i :: 0 <= i < |rules| ==> fields[i] == rules[i].field
  {
    if rules == [] then [] else [rules[0].field] + Fields(rules[1..])
  }

  /** Where `find` stops: the first rule for `field` at or after `k`, or `|rules|`. */
  function FindIndex(rules: seq<Rule>, field: string, k: nat): (i: nat)
    requires k <= |rules|
    ensures k <= i <= |rules|
    ensures i < |rules| ==> rules[i].field == field
    ensures forall j :: k <= j < i ==> rules[j].field != field
    decreases |rules| - k
  {
    if k == |rules| || rules[k].field == field then k else FindIndex(rules, field, k + 1)
  }

  /**
   * `rules.find(r => r.field === field)`: the first rule for `field`, found
   * exactly when `fields.includes(field)`.
   */
  function FindRule(rules: seq<Rule>, field: string): (r: Option<Rule>)
    ensures r.None? <==> field !in Fields(rules)
    ensures r.Some? ==> r.value in rules && r.value.field == field
  {
    var i := FindIndex(rules, field, 0);
    if i < |rules| then Some(rules[i]) else None
  }

  lemma {:induction false} FindIndexShift(x: Rule, rest: seq<Rule>, field: string, k: nat)
    requires k <= |rest|
    ensures FindIndex([x] + rest, field, k + 1) == FindIndex(rest, field, k) + 1
    decreases |rest| - k
  {
    if k < |rest| && rest[k].field != field {
      FindIndexShift(x, rest, field, k + 1);
    }
  }

  /** `find` looks at the first rule before the others. */
  lemma FindRuleCons(x: Rule, rest: seq<Rule>, field: string)
    ensures FindRule([x] + rest, field) == if x.field == field then Some(x) else FindRule(rest, field)
  {
    if x.field != field {
      FindIndexShift(x, rest, field, 0);
    }
  }

  /** The field a specification compiles to, when it is kept for the collection. */
  function SpecFields(list: seq<string>, collectionName: string): (fields: seq<Option<string>>)
    ensures |fields| == |list|
    ensures forall i :: 0 <= i < |list| ==>
              fields[i] == if AppliesTo(list[i], collectionName) then Some(CompileRule(list[i], collectionName).field) else None
  {
    if list == [] then []
    else
      [if AppliesTo(list[0], collectionName) then Some(CompileRule(list[0], collectionName).field) else None]
      + SpecFields(list[1..], collectionName)
  }

  /** The first position at or after `k` that holds `Some(x)`, or `|s|`. */
  function FirstSome<T(==)>(s: seq<Option<T>>, x: T, k: nat): (i: nat)
    requires k <= |s|
    ensures k <= i <= |s|
    ensures i < |s| ==> s[i] == Some(x)
    ensures forall j :: k <= j < i ==> s[j] != Some(x)
    decreases |s| - k
  {
    if k == |s| || s[k] == Some(x) then k else FirstSome(s, x, k + 1)
  }

  lemma {:induction false} FirstSomeShift<T>(y: Option<T>, rest: seq<Option<T>>, x: T, k: nat)
    requires k <= |rest|
    ensures FirstSome([y] + rest, x, k + 1) == FirstSome(rest, x, k) + 1
    decreases |rest| - k
  {
    if k < |rest| && rest[k] != Some(x) {
      FirstSomeShift(y, rest, x, k + 1);
    }
  }

  /**
   * The position of the first specification that is kept for the collection
   * and compiles to `field`, or `|list|`.
   */
  function FirstSpecFor(list: seq<string>, collectionName: string, field: string): (i: nat)
    ensures i <= |list|
    ensures i < |list| ==> SpecFields(list, collectionName)[i] == Some(field)
    ensures forall j :: 0 <= j < i ==> SpecFields(list, collectionName)[j] != Some(field)
  {
    FirstSome(SpecFields(list, collectionName), field, 0)
  }

  /**
   * One step of `find` over the compiled list against one step of the search
   * over the specification fields: a kept head rule for `field` is found
   * first, and otherwise the search moves on to the rest.
   */
  lemma FindFirstStep(applies: bool, r0: Rule, rest: seq<Rule>, fields: seq<Option<string>>, field: string)
    ensures var head := if applies then Some(r0.field) else None;
            var i := FirstSome([head] + fields, field, 0);
            (i == 0 <==> applies && r0.field == field) &&
            (i > 0 ==> i == FirstSome(fields, field, 0) + 1) &&
            FindRule((if applies then [r0] else []) + rest, field) ==
              if i == 0 then Some(r0) else FindRule(rest, field)
  {
    var head := if applies then Some(r0.field) else None;
    FirstSomeShift(head, fields, field, 0);
    if applies {
      FindRuleCons(r0, rest, field);
    } else {
      assert [] + rest == rest;
    }
  }

  /**
   * Of several specifications that compile to the same field, the rule that
   * `find` returns is the one of the first applicable specification in the list.
   */
  lemma {:induction false} FirstRuleWins(list: seq<string>, collectionName: string, field: string)
    ensures var i := FirstSpecFor(list, collectionName, field);
            FindRule(CompileRules(list, collectionName), field) ==
              if i < |list| then Some(CompileRule(list[i], collectionName)) else None
  {
    var c := collectionName;
    var i := FirstSpecFor(list, c, field);
    if list == [] {
      assert FindRule(CompileRules(list, c), field) == None;
    } else {
      var tail := list[1..];
      var rest := CompileRules(tail, c);
      var fields := SpecFields(tail, c);
      var applies := AppliesTo(list[0], c);
      var r0 := CompileRule(list[0], c);
      var head := if applies then Some(r0.field) else None;
      FirstRuleWins(tail, c, field);
      assert SpecFields(list, c) == [head] + fields;
      assert CompileRules(list, c) == (if applies then [r0] else []) + rest;
      FindFirstStep(applies, r0, rest, fields, field);
      var j := FirstSpecFor(tail, c, field);
      if i == 0 {
        assert FindRule(CompileRules(list, c), field) == Some(CompileRule(list[i], c));
      } else if j < |tail| {
        assert tail[j] == list[i];
        assert FindRule(CompileRules(list, c), field) == Some(CompileRule(list[i], c));
      } else {
        assert FindRule(CompileRules(list, c), field) == None;
      }
    }
  }
}
