/**
 * The annotation merge (`parse_annotations` and its inner `parse_file`): the elements of a
 * language's base annotation file, then of its derived file, update one map from
 * codepoint key to record.
 *
 * An element with a non-empty `cp` and `type="tts"` creates or resets the record of that
 * key (its display name, no keywords, its category). Otherwise an `annotation` element
 * with text sets the keywords of that key, but only when a record for it already exists.
 */
module Annotations {
  import opened Common
  import opened Text

  /** An element of a parsed annotation file: its tag, optional `cp` and `type` attributes, text and children. */
  datatype Element = Element(
    tag: string,
    cp: Option<string>,
    kind: Option<string>,
    text: Option<string>,
    children: seq<Element>)

  /** The per-language record of one codepoint key. */
  datatype Record = Record(name: string, keywords: seq<string>, category: string)

  /** `emoji_categories.get(cp, "Unknown")`. */
  function Lookup(categories: map<string, string>, cp: string): string
  {
    if cp in categories then categories[cp] else "Unknown"
  }

  /** The elements of the trees `children`, each followed by its own descendants (document order). */
  function DescendantsOf(children: seq<Element>): seq<Element>
    decreases children
  {
    if children == [] then []
    else [children[0]] + DescendantsOf(children[0].children) + DescendantsOf(children[1..])
  }

  /** `root.findall(".//")`: every element below the root, in document order, without the root. */
  function Descendants(root: Element): seq<Element>
  {
    DescendantsOf(root.children)
  }

  /** The number of elements of a tree. */
  function Size(e: Element): nat
  {
    1 + SizeOf(e.children)
  }

  function SizeOf(children: seq<Element>): nat
    decreases children
  {
    if children == [] then 0 else Size(children[0]) + SizeOf(children[1..])
  }

  /** Every element listed for the trees `children` is no larger than all of them together. */
  lemma {:induction false} DescendantsSmaller(children: seq<Element>)
    ensures forall d :: d in DescendantsOf(children) ==> Size(d) <= SizeOf(children)
    decreases children
  {
    if children != [] {
      DescendantsSmaller(children[0].children);
      DescendantsSmaller(children[1..]);
    }
  }

  /** The scan covers the root's descendants only: the root itself is never among them. */
  lemma RootNotScanned(root: Element)
    ensures root !in Descendants(root)
  {
    DescendantsSmaller(root.children);
  }

  /** Every child of the root, and everything below it, is scanned. */
  lemma {:induction false} ChildrenScanned(root: Element, i: nat)
    requires i < |root.children|
    ensures root.children[i] in Descendants(root)
    ensures forall d :: d in Descendants(root.children[i]) ==> d in Descendants(root)
  {
    ChildrenScannedOf(root.children, i);
  }

  lemma {:induction false} ChildrenScannedOf(children: seq<Element>, i: nat)
    requires i < |children|
    ensures children[i] in DescendantsOf(children)
    ensures forall d :: d in DescendantsOf(children[i].children) ==> d in DescendantsOf(children)
    decreases children
  {
    if i > 0 {
      ChildrenScannedOf(children[1..], i - 1);
    }
  }

  /** `if cp:`: the element has a non-empty `cp` attribute. */
  predicate HasCp(e: Element)
  {
    e.cp.Some? && e.cp.value != ""
  }

  /** An element that creates or resets a record: a `cp` and `type="tts"`. */
  predicate IsTts(e: Element)
  {
    HasCp(e) && e.kind == Some("tts")
  }

  /** An element that sets keywords: a `cp`, not `tts`, tag `annotation` and non-empty text. */
  predicate IsKeywordEntry(e: Element)
  {
    HasCp(e) && e.kind != Some("tts") && e.tag == "annotation" && e.text.Some? && e.text.value != ""
  }

  /** `elem.text.strip() if elem.text else ""`. */
  function DisplayName(e: Element): string
  {
    if e.text.Some? && e.text.value != "" then Strip(e.text.value) else ""
  }

  /** `[k.strip() for k in text.split("|")]`. */
  function Keywords(text: string): (ks: seq<string>)
    ensures |ks| >= 1
    ensures forall i :: 0 <= i < |ks| ==> '|' !in ks[i]
  {
    StripEach(Split(text, '|'))
  }

  /**
   * One iteration of the element loop of `parse_file`. A tts element (re)creates the
   * record of its key; a keyword element replaces the keywords of an existing record and
   * nothing else; every other element, and every key other than the element's, is left
   * as it was.
   */
  function ApplyElement(m: map<string, Record>, categories: map<string, string>, e: Element)
    : (r: map<string, Record>)
    ensures r.Keys == if IsTts(e) then m.Keys + {e.cp.value} else m.Keys
    ensures forall k :: k in m && (!HasCp(e) || k != e.cp.value) ==> r[k] == m[k]
    ensures IsTts(e) ==> r[e.cp.value] == Record(DisplayName(e), [], Lookup(categories, e.cp.value))
    ensures IsKeywordEntry(e) && e.cp.value in m ==>
      r[e.cp.value] == m[e.cp.value].(keywords := Keywords(e.text.value))
    ensures !IsTts(e) && !(IsKeywordEntry(e) && e.cp.value in m) ==> r == m
  {
    if IsTts(e) then
      m[e.cp.value := Record(DisplayName(e), [], Lookup(categories, e.cp.value))]
    else if IsKeywordEntry(e) && e.cp.value in m then
      m[e.cp.value := m[e.cp.value].(keywords := Keywords(e.text.value))]
    else m
  }

  /** The element loop over `es`, in order, starting from the map `m`. */
  function ScanElements(m: map<string, Record>, categories: map<string, string>, es: seq<Element>)
    : map<string, Record>
  {
    if es == [] then m
    else ApplyElement(ScanElements(m, categories, es[..|es| - 1]), categories, es[|es| - 1])
  }

  /** Scanning one more element applies `ApplyElement` to the map scanned so far. */
  lemma ScanStep(m: map<string, Record>, categories: map<string, string>, es: seq<Element>, i: nat)
    requires i < |es|
    ensures ScanElements(m, categories, es[..i + 1]) == ApplyElement(ScanElements(m, categories, es[..i]), categories, es[i])
  {
    assert es[..i + 1][..i] == es[..i];
  }

  /** The elements `parse_file` visits: none for a missing file. */
  function FileElements(file: Option<Element>): seq<Element>
  {
    if file.Some? then Descendants(file.value) else []
  }

  /** `parse_file`: a missing file leaves the map unchanged. */
  function ScanFile(m: map<string, Record>, categories: map<string, string>, file: Option<Element>)
    : map<string, Record>
  {
    ScanElements(m, categories, FileElements(file))
  }

  /** A file that does not exist contributes no element, so its scan leaves the map as it was. */
  lemma MissingFileUnchanged(m: map<string, Record>, categories: map<string, string>)
    ensures ScanFile(m, categories, None) == m
  {
  }

  /** `parse_annotations`: an empty map, then the base file, then the derived file. */
  function MergeLanguage(base: Option<Element>, derived: Option<Element>, categories: map<string, string>)
    : map<string, Record>
  {
    ScanFile(ScanFile(map[], categories, base), categories, derived)
  }

  /** The index of the last tts element of `es` for key `k`, if any. */
  function LastTts(es: seq<Element>, k: string): (r: Option<nat>)
    ensures r.Some? ==> r.value < |es|
  {
    if es == [] then None
    else if IsTts(es[|es| - 1]) && es[|es| - 1].cp.value == k then Some(|es| - 1)
    else LastTts(es[..|es| - 1], k)
  }

  /** `LastTts` finds a tts element for `k` with none after it, and finds none only when there is none. */
  lemma {:induction false} LastTtsIsLast(es: seq<Element>, k: string)
    ensures var r := LastTts(es, k);
      && (r.Some? ==> IsTts(es[r.value]) && es[r.value].cp.value == k)
      && (r.Some? ==> forall j :: r.value < j < |es| ==> !(IsTts(es[j]) && es[j].cp.value == k))
      && (r.None? ==> forall j :: 0 <= j < |es| ==> !(IsTts(es[j]) && es[j].cp.value == k))
  {
    if es != [] && !(IsTts(es[|es| - 1]) && es[|es| - 1].cp.value == k) {
      var prefix := es[..|es| - 1];
      LastTtsIsLast(prefix, k);
      assert forall j :: 0 <= j < |prefix| ==> prefix[j] == es[j];
    }
  }

  /** The index of the last keyword element of `es` for key `k` at or after position `from`, if any. */
  function LastKeywords(es: seq<Element>, k: string, from: nat): (r: Option<nat>)
    ensures r.Some? ==> from <= r.value < |es| && IsKeywordEntry(es[r.value])
  {
    if |es| <= from then None
    else if IsKeywordEntry(es[|es| - 1]) && es[|es| - 1].cp.value == k then Some(|es| - 1)
    else LastKeywords(es[..|es| - 1], k, from)
  }

  /**
   * `LastKeywords` finds a keyword element for `k` at or after `from` with none after it,
   * and finds none only when there is none.
   */
  lemma {:induction false} LastKeywordsIsLast(es: seq<Element>, k: string, from: nat)
    ensures var r := LastKeywords(es, k, from);
      && (r.Some? ==> IsKeywordEntry(es[r.value]) && es[r.value].cp.value == k)
      && (r.Some? ==> forall j :: r.value < j < |es| ==> !(IsKeywordEntry(es[j]) && es[j].cp.value == k))
      && (r.None? ==> forall j :: from <= j < |es| ==> !(IsKeywordEntry(es[j]) && es[j].cp.value == k))
  {
    if from < |es| && !(IsKeywordEntry(es[|es| - 1]) && es[|es| - 1].cp.value == k) {
      var prefix := es[..|es| - 1];
      LastKeywordsIsLast(prefix, k, from);
      assert forall j :: 0 <= j < |prefix| ==> prefix[j] == es[j];
    }
  }

  /** The keywords of the last keyword element for `k` at or after `from`, or `otherwise`. */
  function KeywordsFrom(es: seq<Element>, k: string, from: nat, otherwise: seq<string>): seq<string>
  {
    match LastKeywords(es, k, from)
    case Some(j) => Keywords(es[j].text.value)
    case None => otherwise
  }

  /**
   * The record of key `k` after scanning `es` from `m`, stated without the loop. If a tts
   * element for `k` occurs, the record is the one the last of them creates, with the
   * keywords of the last keyword element after it (none if there is none). Otherwise the
   * key is present only if it was already in `m`: its record then keeps its name and
   * category and takes the keywords of the last keyword element for it. A keyword element
   * for a key that has no record is dropped.
   */
  function Expected(m: map<string, Record>, categories: map<string, string>, es: seq<Element>, k: string)
    : Option<Record>
  {
    match LastTts(es, k)
    case Some(i) => Some(Record(DisplayName(es[i]), KeywordsFrom(es, k, i + 1, []), Lookup(categories, k)))
    case None =>
      if k in m then Some(m[k].(keywords := KeywordsFrom(es, k, 0, m[k].keywords))) else None
  }

  /** `m.get(k)`. */
  function Get(m: map<string, Record>, k: string): Option<Record>
  {
    if k in m then Some(m[k]) else None
  }

  /** What one element does to the record of key `k`. */
  function StepRecord(o: Option<Record>, categories: map<string, string>, e: Element, k: string): Option<Record>
  {
    if IsTts(e) && e.cp.value == k then Some(Record(DisplayName(e), [], Lookup(categories, k)))
    else if IsKeywordEntry(e) && e.cp.value == k && o.Some? then Some(o.value.(keywords := Keywords(e.text.value)))
    else o
  }

  /** `ApplyElement` acts on each key as `StepRecord` says. */
  lemma ApplyElementStep(m: map<string, Record>, categories: map<string, string>, e: Element, k: string)
    ensures Get(ApplyElement(m, categories, e), k) == StepRecord(Get(m, k), categories, e, k)
  {
  }

  /** Appending one element changes `Expected` as `StepRecord` says, for a tts element of `k`. */
  lemma ExpectedStepTts(m: map<string, Record>, categories: map<string, string>, es: seq<Element>, k: string)
    requires es != [] && IsTts(es[|es| - 1]) && es[|es| - 1].cp.value == k
    ensures Expected(m, categories, es, k) ==
      StepRecord(Expected(m, categories, es[..|es| - 1], k), categories, es[|es| - 1], k)
  {
    assert LastTts(es, k) == Some(|es| - 1);
    assert LastKeywords(es, k, |es|) == None;
  }

  /** Appending one element changes `Expected` as `StepRecord` says, for a keyword element of `k`. */
  lemma ExpectedStepKeywords(m: map<string, Record>, categories: map<string, string>, es: seq<Element>, k: string)
    requires es != [] && IsKeywordEntry(es[|es| - 1]) && es[|es| - 1].cp.value == k
    ensures Expected(m, categories, es, k) ==
      StepRecord(Expected(m, categories, es[..|es| - 1], k), categories, es[|es| - 1], k)
  {
    var prefix := es[..|es| - 1];
    var e := es[|es| - 1];
    assert LastTts(es, k) == LastTts(prefix, k);
    match LastTts(prefix, k)
    case Some(i) => {
      assert prefix[i] == es[i];
      assert LastKeywords(es, k, i + 1) == Some(|es| - 1);
      assert KeywordsFrom(es, k, i + 1, []) == Keywords(e.text.value);
    }
    case None => {
      assert LastKeywords(es, k, 0) == Some(|es| - 1);
      assert KeywordsFrom(es, k, 0, []) == Keywords(e.text.value);
    }
  }

  /** Appending an element that concerns another key, or no key, leaves `Expected` as it was. */
  lemma ExpectedStepOther(m: map<string, Record>, categories: map<string, string>, es: seq<Element>, k: string)
    requires es != []
    requires !(IsTts(es[|es| - 1]) && es[|es| - 1].cp.value == k)
    requires !(IsKeywordEntry(es[|es| - 1]) && es[|es| - 1].cp.value == k)
    ensures Expected(m, categories, es, k) == Expected(m, categories, es[..|es| - 1], k)
  {
    var prefix := es[..|es| - 1];
    LastTtsSkip(es, k);
    match LastTts(prefix, k)
    case Some(i) => {
      assert prefix[i] == es[i];
      LastKeywordsSkip(es, k, i + 1);
      KeywordsFromEqual(es, k, i + 1, []);
      ExpectedAgree(m, categories, es, prefix, k);
    }
    case None => {
      LastKeywordsSkip(es, k, 0);
      if k in m {
        KeywordsFromEqual(es, k, 0, m[k].keywords);
      }
      ExpectedAgree(m, categories, es, prefix, k);
    }
  }

  /** Two element sequences with the same last tts element and the same keywords give the same record. */
  lemma ExpectedAgree(m: map<string, Record>, categories: map<string, string>, es1: seq<Element>, es2: seq<Element>, k: string)
    requires LastTts(es1, k) == LastTts(es2, k)
    requires LastTts(es1, k).Some? ==>
      var i := LastTts(es1, k).value;
      es1[i] == es2[i] && KeywordsFrom(es1, k, i + 1, []) == KeywordsFrom(es2, k, i + 1, [])
    requires LastTts(es1, k).None? && k in m ==>
      KeywordsFrom(es1, k, 0, m[k].keywords) == KeywordsFrom(es2, k, 0, m[k].keywords)
    ensures Expected(m, categories, es1, k) == Expected(m, categories, es2, k)
  {
  }

  /** A last element that is not a tts element for `k` does not change the search for one. */
  lemma LastTtsSkip(es: seq<Element>, k: string)
    requires es != [] && !(IsTts(es[|es| - 1]) && es[|es| - 1].cp.value == k)
    ensures LastTts(es, k) == LastTts(es[..|es| - 1], k)
  {
  }

  /** A last element that is not a keyword element for `k` does not change the search for one. */
  lemma LastKeywordsSkip(es: seq<Element>, k: string, from: nat)
    requires es != [] && !(IsKeywordEntry(es[|es| - 1]) && es[|es| - 1].cp.value == k)
    ensures LastKeywords(es, k, from) == LastKeywords(es[..|es| - 1], k, from)
  {
  }

  /** The keywords looked up in `es` agree with those in `es` without its last element, when the two last-keyword searches agree. */
  lemma KeywordsFromEqual(es: seq<Element>, k: string, from: nat, otherwise: seq<string>)
    requires es != []
    requires LastKeywords(es, k, from) == LastKeywords(es[..|es| - 1], k, from)
    ensures KeywordsFrom(es, k, from, otherwise) == KeywordsFrom(es[..|es| - 1], k, from, otherwise)
  {
    var prefix := es[..|es| - 1];
    match LastKeywords(es, k, from)
    case Some(j) => {
      assert prefix[j] == es[j];
    }
    case None => {
    }
  }

  /**
   * The element loop computes exactly the records that `Expected` describes: for every key,
   * the record after the scan is the one `Expected` gives, and the key is absent exactly
   * when `Expected` gives none.
   */
  lemma {:induction false} ScanMatchesExpected(
    m: map<string, Record>, categories: map<string, string>, es: seq<Element>, k: string)
    ensures Get(ScanElements(m, categories, es), k) == Expected(m, categories, es, k)
  {
    if es != [] {
      var prefix := es[..|es| - 1];
      var e := es[|es| - 1];
      ScanMatchesExpected(m, categories, prefix, k);
      ApplyElementStep(ScanElements(m, categories, prefix), categories, e, k);
      if IsTts(e) && e.cp.value == k {
        ExpectedStepTts(m, categories, es, k);
      } else if IsKeywordEntry(e) && e.cp.value == k {
        ExpectedStepKeywords(m, categories, es, k);
      } else {
        ExpectedStepOther(m, categories, es, k);
      }
    } else {
      assert LastTts(es, k) == None;
      assert LastKeywords(es, k, 0) == None;
    }
  }

  /** The tts keys of a sequence of elements: the keys that get a record. */
  function TtsKeys(es: seq<Element>): set<string>
  {
    set i | 0 <= i < |es| && IsTts(es[i]) :: es[i].cp.value
  }

  /** The scan adds exactly the keys of its tts elements and removes none. */
  lemma {:induction false} ScanKeys(m: map<string, Record>, categories: map<string, string>, es: seq<Element>)
    ensures ScanElements(m, categories, es).Keys == m.Keys + TtsKeys(es)
  {
    if es != [] {
      var prefix := es[..|es| - 1];
      ScanKeys(m, categories, prefix);
      assert forall j :: 0 <= j < |prefix| ==> prefix[j] == es[j];
      if IsTts(es[|es| - 1]) {
        assert TtsKeys(es) == TtsKeys(prefix) + {es[|es| - 1].cp.value};
      } else {
        assert TtsKeys(es) == TtsKeys(prefix);
      }
    }
  }

  /** Every record's category is the index's category of its key. */
  ghost predicate CategoriesMatch(m: map<string, Record>, categories: map<string, string>)
  {
    forall k :: k in m ==> m[k].category == Lookup(categories, k)
  }

  /** The scan keeps every record's category equal to the index's category of its key. */
  lemma {:induction false} ScanKeepsCategories(
    m: map<string, Record>, categories: map<string, string>, es: seq<Element>)
    requires CategoriesMatch(m, categories)
    ensures CategoriesMatch(ScanElements(m, categories, es), categories)
  {
    if es != [] {
      ScanKeepsCategories(m, categories, es[..|es| - 1]);
    }
  }

  /**
   * The merged catalog of a language: its keys are exactly the keys of the tts elements of
   * the two files (a keyword-only key is dropped), each record's category comes from the
   * index, and a tts element of the derived file decides the name of its key.
   */
  lemma MergeLanguageFacts(
    base: Option<Element>, derived: Option<Element>, categories: map<string, string>, k: string)
    ensures MergeLanguage(base, derived, categories).Keys == TtsKeys(FileElements(base)) + TtsKeys(FileElements(derived))
    ensures CategoriesMatch(MergeLanguage(base, derived, categories), categories)
    ensures LastTts(FileElements(derived), k).Some? ==>
      && k in MergeLanguage(base, derived, categories)
      && MergeLanguage(base, derived, categories)[k].name ==
           DisplayName(FileElements(derived)[LastTts(FileElements(derived), k).value])
  {
    var afterBase := ScanFile(map[], categories, base);
    ScanKeys(map[], categories, FileElements(base));
    ScanKeys(afterBase, categories, FileElements(derived));
    ScanKeepsCategories(map[], categories, FileElements(base));
    ScanKeepsCategories(afterBase, categories, FileElements(derived));
    ScanMatchesExpected(afterBase, categories, FileElements(derived), k);
  }

  /** The state `parse_file` shares with `parse_annotations`: the map it fills, and the category index. */
  class AnnotationParser {
    var data: map<string, Record>
    const categories: map<string, string>

    /** `emoji_data = {}`. */
    constructor (categories: map<string, string>)
      ensures data == map[] && this.categories == categories
    {
      data := map[];
      this.categories := categories;
    }

    /** `parse_file`: runs the element loop over the file's descendants, if the file exists. */
    method ParseFile(file: Option<Element>)
      modifies this
      ensures data == ScanFile(old(data), categories, file)
    {
      if file.Some? {
        var elements := Descendants(file.value);
        var i := 0;
        while i < |elements|
          invariant 0 <= i <= |elements|
          invariant data == ScanElements(old(data), categories, elements[..i])
        {
          var elem := elements[i];
          ScanStep(old(data), categories, elements, i);
          if elem.cp.Some? && elem.cp.value != "" {
            var cp := elem.cp.value;
            if elem.kind == Some("tts") {
              var name := if elem.text.Some? && elem.text.value != "" then Strip(elem.text.value) else "";
              data := data[cp := Record(name, [], Lookup(categories, cp))];
            } else if elem.tag == "annotation" && elem.text.Some? && elem.text.value != "" {
              var keywords := Split(elem.text.value, '|');
              if cp in data {
                data := data[cp := data[cp].(keywords := StripEach(keywords))];
              }
            }
          }
          i := i + 1;
        }
        assert elements[..i] == elements;
      }
    }
  }

  /**
   * `parse_annotations`: the base file, then the derived file, against one map. The keys
   * are those of the tts elements of the two files and each category comes from the index.
   */
  method ParseAnnotations(base: Option<Element>, derived: Option<Element>, categories: map<string, string>)
    returns (emojiData: map<string, Record>)
    ensures emojiData == MergeLanguage(base, derived, categories)
    ensures emojiData.Keys == TtsKeys(FileElements(base)) + TtsKeys(FileElements(derived))
    ensures forall k :: k in emojiData ==> emojiData[k].category == Lookup(categories, k)
  {
    var parser := new AnnotationParser(categories);
    parser.ParseFile(base);
    parser.ParseFile(derived);
    emojiData := parser.data;
    MergeLanguageFacts(base, derived, categories, "");
  }
}
