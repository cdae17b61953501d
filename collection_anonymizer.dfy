/**
 * The document pass of `anonymizeCollection`: every document of the
 * collection is copied key by key, in iteration order; a key whose
 * lower-cased name is one of the compiled fields is replaced by the value
 * `anonymizeValue` picks for it, every other key keeps its value.
 *
 * A document is the sequence of its own enumerable properties in `for-in`
 * order. Values are left abstract (`V`): they are only ever copied.
 */
module CollectionAnonymizer {
  import opened Wrappers
  import opened JsStrings
  import opened ValueAnonymizer
  import opened RuleCompiler

  type Document<V> = seq<(string, V)>

  /** A property of an anonymised document: the original value, or its replacement. */
  datatype Cell<V> = Kept(original: V) | Replaced(replacement: Anonymized)

  type AnonymizedDocument<V> = seq<(string, Cell<V>)>

  /** The keys of a document, in order and with their original casing. */
  function Keys<V>(doc: seq<(string, V)>): (keys: seq<string>)
    ensures |keys| == |doc|
    ensures forall i :: 0 <= i < |doc| ==> keys[i] == doc[i].0
  {
    if doc == [] then [] else [doc[0].0] + Keys(doc[1..])
  }

  /** The body of the inner loop for one property; an exception aborts the whole pass. */
  function AnonymizeEntry<V>(rules: seq<Rule>, entry: (string, V), decodes: string -> bool)
    : Result<(string, Cell<V>), Failure>
  {
    var lk := ToLower(entry.0);
    if lk in Fields(rules) then
      match AnonymizeValue(lk, FindRule(rules, lk).value.replacement, decodes)
      case Ok(v) => Ok((entry.0, Replaced(v)))
      case Err(e) => Err(e)
    else Ok((entry.0, Kept(entry.1)))
  }

  /** One more loop iteration: a failure already thrown stays; otherwise the next result is added or thrown. */
  function Then<T>(done: Result<seq<T>, Failure>, next: Result<T, Failure>): Result<seq<T>, Failure>
  {
    if done.Err? then done
    else if next.Err? then Err(next.error)
    else Ok(done.value + [next.value])
  }

  /** A loop that pushes `f(x)` for every `x` of `s` in order, until `f` throws. */
  function Traverse<A, B>(s: seq<A>, f: A -> Result<B, Failure>): Result<seq<B>, Failure>
  {
    if s == [] then Ok([]) else Then(Traverse(s[..|s| - 1], f), f(s[|s| - 1]))
  }

  /** The inner loop: the properties of `doc` in order. */
  function AnonymizeDocument<V>(rules: seq<Rule>, doc: Document<V>, decodes: string -> bool)
    : Result<AnonymizedDocument<V>, Failure>
  {
    Traverse(doc, entry => AnonymizeEntry(rules, entry, decodes))
  }

  /** The outer loop: the documents in order. */
  function AnonymizeDocuments<V>(rules: seq<Rule>, docs: seq<Document<V>>, decodes: string -> bool)
    : Result<seq<AnonymizedDocument<V>>, Failure>
  {
    Traverse(docs, doc => AnonymizeDocument(rules, doc, decodes))
  }

  lemma TraverseStep<A, B>(s: seq<A>, f: A -> Result<B, Failure>, j: nat)
    requires j < |s|
    ensures Traverse(s[..j + 1], f) == Then(Traverse(s[..j], f), f(s[j]))
  {
    assert s[..j + 1][..j] == s[..j];
  }

  /** Once the loop has thrown on a prefix, it has thrown that exception on the whole sequence. */
  lemma {:induction false} TraverseErrorPersists<A, B>(s: seq<A>, f: A -> Result<B, Failure>, n: nat)
    requires n <= |s| && Traverse(s[..n], f).Err?
    ensures Traverse(s, f) == Traverse(s[..n], f)
    decreases |s|
  {
    if n < |s| {
      var init := s[..|s| - 1];
      assert init[..n] == s[..n];
      TraverseErrorPersists(init, f, n);
    } else {
      assert s[..n] == s;
    }
  }

  /**
   * The loop succeeds exactly when every step does, and then lists the
   * results in order; when it fails, the exception is that of the first
   * failing step.
   */
  lemma {:induction false} TraversePointwise<A, B>(s: seq<A>, f: A -> Result<B, Failure>)
    ensures Traverse(s, f).Ok? <==> forall i :: 0 <= i < |s| ==> f(s[i]).Ok?
    ensures Traverse(s, f).Ok? ==>
              |Traverse(s, f).value| == |s| && forall i :: 0 <= i < |s| ==> f(s[i]) == Ok(Traverse(s, f).value[i])
    ensures Traverse(s, f).Err? ==>
              exists i :: 0 <= i < |s| && f(s[i]) == Err(Traverse(s, f).error) && forall j :: 0 <= j < i ==> f(s[j]).Ok?
  {
    if s != [] {
      var n := |s| - 1;
      var init := s[..n];
      TraversePointwise(init, f);
      assert forall i :: 0 <= i < n ==> init[i] == s[i];
      var done := Traverse(init, f);
      var next := f(s[n]);
      if done.Err? {
        var i :| 0 <= i < n && f(init[i]) == Err(done.error) && forall j :: 0 <= j < i ==> f(init[j]).Ok?;
        assert f(s[i]) == Err(done.error);
      } else if next.Ok? {
        assert (done.value + [next.value])[n] == next.value;
      }
    }
  }

  /**
   * `anonymizeCollection(collectionData, collectionName, list)`: compiles the
   * rules once, then copies every document property by property.
   */
  method AnonymizeCollection<V>(collectionData: seq<Document<V>>, collectionName: string, list: seq<string>,
                                decodes: string -> bool)
    returns (result: Result<seq<AnonymizedDocument<V>>, Failure>)
    ensures result == AnonymizeDocuments(CompileRules(list, collectionName), collectionData, decodes)
  {
    var keysToAnonymize := CompileRules(list, collectionName);
    var fieldsToAnonymize := Fields(keysToAnonymize);
    var collectionDataAnonymized: seq<AnonymizedDocument<V>> := [];
    for i := 0 to |collectionData|
      invariant AnonymizeDocuments(keysToAnonymize, collectionData[..i], decodes) == Ok(collectionDataAnonymized)
    {
      var document := collectionData[i];
      var documentAnonymized: AnonymizedDocument<V> := [];
      for j := 0 to |document|
        invariant AnonymizeDocument(keysToAnonymize, document[..j], decodes) == Ok(documentAnonymized)
      {
        var (key, value) := document[j];
        EntryStep(keysToAnonymize, document, j, documentAnonymized, decodes);
        var lk := ToLower(key);
        if lk in fieldsToAnonymize {
          var anonymized := AnonymizeValue(lk, FindRule(keysToAnonymize, lk).value.replacement, decodes);
          if anonymized.Err? {
            assert AnonymizeEntry(keysToAnonymize, document[j], decodes) == Err(anonymized.error);
            AbortsAt(keysToAnonymize, collectionData, i, j, decodes);
            return Err(anonymized.error);
          }
          assert AnonymizeEntry(keysToAnonymize, document[j], decodes) == Ok((key, Replaced(anonymized.value)));
          documentAnonymized := documentAnonymized + [(key, Replaced(anonymized.value))];
        } else {
          assert AnonymizeEntry(keysToAnonymize, document[j], decodes) == Ok((key, Kept(value)));
          documentAnonymized := documentAnonymized + [(key, Kept(value))];
        }
      }
      DocumentStep(keysToAnonymize, collectionData, i, collectionDataAnonymized, decodes);
      assert document[..|document|] == document;
      collectionDataAnonymized := collectionDataAnonymized + [documentAnonymized];
    }
    assert collectionData[..|collectionData|] == collectionData;
    result := Ok(collectionDataAnonymized);
  }

  /** One more property of a document whose earlier properties were copied. */
  lemma EntryStep<V>(rules: seq<Rule>, doc: Document<V>, j: nat, done: AnonymizedDocument<V>,
                     decodes: string -> bool)
    requires j < |doc| && AnonymizeDocument(rules, doc[..j], decodes) == Ok(done)
    ensures AnonymizeDocument(rules, doc[..j + 1], decodes) == Then(Ok(done), AnonymizeEntry(rules, doc[j], decodes))
  {
    TraverseStep(doc, entry => AnonymizeEntry(rules, entry, decodes), j);
  }

  /** One more document of a collection whose earlier documents were copied. */
  lemma DocumentStep<V>(rules: seq<Rule>, docs: seq<Document<V>>, i: nat, done: seq<AnonymizedDocument<V>>,
                        decodes: string -> bool)
    requires i < |docs| && AnonymizeDocuments(rules, docs[..i], decodes) == Ok(done)
    ensures AnonymizeDocuments(rules, docs[..i + 1], decodes) == Then(Ok(done), AnonymizeDocument(rules, docs[i], decodes))
  {
    TraverseStep(docs, doc => AnonymizeDocument(rules, doc, decodes), i);
  }

  /**
   * A property that throws, reached after the earlier documents and the
   * earlier properties of its own document went through, aborts the pass
   * with its exception.
   */
  lemma AbortsAt<V>(rules: seq<Rule>, docs: seq<Document<V>>, i: nat, j: nat, decodes: string -> bool)
    requires i < |docs| && j < |docs[i]|
    requires AnonymizeDocuments(rules, docs[..i], decodes).Ok?
    requires AnonymizeDocument(rules, docs[i][..j], decodes).Ok?
    requires AnonymizeEntry(rules, docs[i][j], decodes).Err?
    ensures AnonymizeDocuments(rules, docs, decodes) == Err(AnonymizeEntry(rules, docs[i][j], decodes).error)
  {
    var doc := docs[i];
    var e := AnonymizeEntry(rules, doc[j], decodes).error;
    assert AnonymizeDocument(rules, doc, decodes) == Err(e) by {
      EntryStep(rules, doc, j, AnonymizeDocument(rules, doc[..j], decodes).value, decodes);
      TraverseErrorPersists(doc, entry => AnonymizeEntry(rules, entry, decodes), j + 1);
      assert doc[..|doc|] == doc;
    }
    DocumentStep(rules, docs, i, AnonymizeDocuments(rules, docs[..i], decodes).value, decodes);
    TraverseErrorPersists(docs, doc => AnonymizeDocument(rules, doc, decodes), i + 1);
    assert docs[..|docs|] == docs;
  }

  /**
   * What one property becomes, in terms of the specification list: a key
   * that no applicable specification names (in any casing) keeps its value;
   * otherwise the first such specification's directive picks the value.
   */
  lemma EntryFollowsFirstSpec<V>(list: seq<string>, collectionName: string, key: string, value: V,
                                 decodes: string -> bool)
    ensures var field := ToLower(key);
            var k := FirstSpecFor(list, collectionName, field);
            var entry := AnonymizeEntry(CompileRules(list, collectionName), (key, value), decodes);
            (k == |list| ==> entry == Ok((key, Kept(value)))) &&
            (k < |list| ==>
               var picked := AnonymizeValue(field, CompileRule(list[k], collectionName).replacement, decodes);
               entry == if picked.Ok? then Ok((key, Replaced(picked.value))) else Err(picked.error))
  {
    FirstRuleWins(list, collectionName, ToLower(key));
  }

  /** Keys that differ only in letter case are treated alike. */
  lemma CaseInsensitiveKeys<V>(rules: seq<Rule>, key1: string, key2: string, value: V, decodes: string -> bool)
    requires EqualIgnoringCase(key1, key2)
    ensures AnonymizeEntry(rules, (key1, value), decodes).Ok? == AnonymizeEntry(rules, (key2, value), decodes).Ok?
    ensures AnonymizeEntry(rules, (key1, value), decodes).Ok? ==>
              AnonymizeEntry(rules, (key1, value), decodes).value.1 == AnonymizeEntry(rules, (key2, value), decodes).value.1
    ensures AnonymizeEntry(rules, (key1, value), decodes).Ok? ==>
              AnonymizeEntry(rules, (key1, value), decodes).value.0 == key1
    ensures AnonymizeEntry(rules, (key1, value), decodes).Err? ==>
              AnonymizeEntry(rules, (key1, value), decodes).error == AnonymizeEntry(rules, (key2, value), decodes).error
  {
    ToLowerEqualIffIgnoringCase(key1, key2);
  }

  /** A successful document keeps its keys, in order and with their casing. */
  lemma DocumentKeysKept<V>(rules: seq<Rule>, doc: Document<V>, decodes: string -> bool)
    requires AnonymizeDocument(rules, doc, decodes).Ok?
    ensures Keys(AnonymizeDocument(rules, doc, decodes).value) == Keys(doc)
  {
    var out := AnonymizeDocument(rules, doc, decodes).value;
    TraversePointwise(doc, entry => AnonymizeEntry(rules, entry, decodes));
    forall j | 0 <= j < |doc| ensures out[j].0 == doc[j].0 {
      assert AnonymizeEntry(rules, doc[j], decodes) == Ok(out[j]);
    }
  }

  /**
   * A successful pass keeps the number and order of the documents and, in
   * each, the number, order and original casing of the keys.
   */
  lemma ShapeIsKept<V>(rules: seq<Rule>, docs: seq<Document<V>>, decodes: string -> bool)
    requires AnonymizeDocuments(rules, docs, decodes).Ok?
    ensures var out := AnonymizeDocuments(rules, docs, decodes).value;
            |out| == |docs| && forall i :: 0 <= i < |docs| ==> Keys(out[i]) == Keys(docs[i])
  {
    var out := AnonymizeDocuments(rules, docs, decodes).value;
    TraversePointwise(docs, doc => AnonymizeDocument(rules, doc, decodes));
    forall i | 0 <= i < |docs| ensures Keys(out[i]) == Keys(docs[i]) {
      assert AnonymizeDocument(rules, docs[i], decodes) == Ok(out[i]);
      DocumentKeysKept(rules, docs[i], decodes);
    }
  }

  /**
   * In a successful pass, every value of every document is the one
   * `AnonymizeEntry` gives for that property: `out[i][j]` comes from
   * `docs[i][j]`.
   */
  lemma EntriesInPlace<V>(rules: seq<Rule>, docs: seq<Document<V>>, decodes: string -> bool, i: nat, j: nat)
    requires AnonymizeDocuments(rules, docs, decodes).Ok?
    requires i < |docs| && j < |docs[i]|
    ensures var out := AnonymizeDocuments(rules, docs, decodes).value;
            i < |out| && j < |out[i]| && AnonymizeEntry(rules, docs[i][j], decodes) == Ok(out[i][j])
  {
    var out := AnonymizeDocuments(rules, docs, decodes).value;
    TraversePointwise(docs, doc => AnonymizeDocument(rules, doc, decodes));
    assert AnonymizeDocument(rules, docs[i], decodes) == Ok(out[i]);
    TraversePointwise(docs[i], entry => AnonymizeEntry(rules, entry, decodes));
  }

  /**
   * In a successful pass over `collectionName` with specifications `list`,
   * an unnamed key keeps its value and a named one gets what the first
   * applicable specification for it picks.
   */
  lemma CollectionEntry<V>(list: seq<string>, collectionName: string, docs: seq<Document<V>>,
                           decodes: string -> bool, i: nat, j: nat)
    requires AnonymizeDocuments(CompileRules(list, collectionName), docs, decodes).Ok?
    requires i < |docs| && j < |docs[i]|
    ensures var out := AnonymizeDocuments(CompileRules(list, collectionName), docs, decodes).value;
            var (key, value) := docs[i][j];
            var k := FirstSpecFor(list, collectionName, ToLower(key));
            i < |out| && j < |out[i]| && out[i][j].0 == key &&
            (k == |list| ==> out[i][j].1 == Kept(value)) &&
            (k < |list| ==>
               var picked := AnonymizeValue(ToLower(key), CompileRule(list[k], collectionName).replacement, decodes);
               picked.Ok? && out[i][j].1 == Replaced(picked.value))
  {
    EntriesInPlace(CompileRules(list, collectionName), docs, decodes, i, j);
    EntryFollowsFirstSpec(list, collectionName, docs[i][j].0, docs[i][j].1, decodes);
  }

  /**
   * A key whose rule carries a JSON directive that does not decode: the one
   * case in which `anonymizeValue` throws.
   */
  predicate MalformedFor(rules: seq<Rule>, key: string, decodes: string -> bool) {
    var field := ToLower(key);
    field in Fields(rules) &&
    var replacement := FindRule(rules, field).value.replacement;
    replacement.Some? && IsJsonDirective(replacement.value) && !decodes(replacement.value)
  }

  /** One property fails exactly when its key is `MalformedFor`, with that directive. */
  lemma EntryFailure<V>(rules: seq<Rule>, entry: (string, V), decodes: string -> bool)
    ensures AnonymizeEntry(rules, entry, decodes).Err? <==> MalformedFor(rules, entry.0, decodes)
    ensures AnonymizeEntry(rules, entry, decodes).Err? ==>
              AnonymizeEntry(rules, entry, decodes).error ==
                MalformedJson(FindRule(rules, ToLower(entry.0)).value.replacement.value)
  {
  }

  /**
   * The pass fails exactly when some property of some document is to get a
   * JSON directive that does not decode, and the exception is that of such
   * a property.
   */
  lemma FailsOnlyOnMalformedJson<V>(rules: seq<Rule>, docs: seq<Document<V>>, decodes: string -> bool)
    ensures AnonymizeDocuments(rules, docs, decodes).Err? <==>
            exists i, j :: 0 <= i < |docs| && 0 <= j < |docs[i]| && MalformedFor(rules, docs[i][j].0, decodes)
    ensures AnonymizeDocuments(rules, docs, decodes).Err? ==>
            exists i, j :: 0 <= i < |docs| && 0 <= j < |docs[i]| && MalformedFor(rules, docs[i][j].0, decodes) &&
                           AnonymizeDocuments(rules, docs, decodes).error == AnonymizeEntry(rules, docs[i][j], decodes).error
  {
    var f := entry => AnonymizeEntry(rules, entry, decodes);
    var g := doc => AnonymizeDocument(rules, doc, decodes);
    var r := AnonymizeDocuments(rules, docs, decodes);
    TraversePointwise(docs, g);
    if r.Err? {
      var i :| 0 <= i < |docs| && g(docs[i]) == Err(r.error) && forall k :: 0 <= k < i ==> g(docs[k]).Ok?;
      TraversePointwise(docs[i], f);
      var j :| 0 <= j < |docs[i]| && f(docs[i][j]) == Err(r.error) && forall k :: 0 <= k < j ==> f(docs[i][k]).Ok?;
      EntryFailure(rules, docs[i][j], decodes);
    } else {
      forall i, j | 0 <= i < |docs| && 0 <= j < |docs[i]| ensures !MalformedFor(rules, docs[i][j].0, decodes) {
        TraversePointwise(docs[i], f);
        EntryFailure(rules, docs[i][j], decodes);
      }
    }
  }
}
