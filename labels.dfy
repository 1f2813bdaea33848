/**
 * The category index (`parse_labels_file`): the CLDR `labels.txt` lines become a map from
 * codepoint key to category name.
 *
 * A data line starts with `[` and has three `;`-separated fields: a specifier, a category
 * and a field that is ignored. A specifier containing `,` or `-` contributes the `\uXXXX`
 * escapes written in it (a range is never expanded); any other specifier is one key,
 * its brackets stripped. A later line overwrites an earlier one for the same key.
 */
module Labels {
  import opened Common
  import opened Text

  /** Unpacking the fields of line `line` failed: it had `fields` fields instead of three. */
  datatype LabelError = FieldCount(line: nat, fields: nat)

  /** `line.startswith("[")`: only such lines carry data. */
  predicate IsDataLine(line: string)
  {
    |line| > 0 && line[0] == '['
  }

  /**
   * `re.split(r"\s*;\s*", line.strip())`: the pieces between the semicolons, each without
   * the whitespace around it.
   */
  function Fields(line: string): (fs: seq<string>)
    ensures |fs| >= 1
    ensures forall i :: 0 <= i < |fs| ==> ';' !in fs[i]
  {
    StripEach(Split(Strip(line), ';'))
  }

  predicate IsHexDigit(c: char)
  {
    ('0' <= c <= '9') || ('a' <= c <= 'f') || ('A' <= c <= 'F')
  }

  /** The end of the run of hexadecimal digits of `s` that starts at `j`. */
  function HexRunEnd(s: string, j: nat): (e: nat)
    requires j <= |s|
    ensures j <= e <= |s|
    ensures forall k :: j <= k < e ==> IsHexDigit(s[k])
    ensures e < |s| ==> !IsHexDigit(s[e])
    decreases |s| - j
  {
    if j < |s| && IsHexDigit(s[j]) then HexRunEnd(s, j + 1) else j
  }

  /** The pattern `\\u[0-9a-fA-F]+` matches at position `p` of `s`. */
  predicate EscapeAt(s: string, p: nat)
  {
    p + 2 < |s| && s[p] == '\\' && s[p + 1] == 'u' && IsHexDigit(s[p + 2])
  }

  /** A whole escape token: a backslash, `u` and one or more hexadecimal digits. */
  predicate IsEscapeToken(t: string)
  {
    |t| >= 3 && t[0] == '\\' && t[1] == 'u' && forall k :: 2 <= k < |t| ==> IsHexDigit(t[k])
  }

  /**
   * `re.findall(r"\\u[0-9a-fA-F]+", s)` from position `i` on, as the start and end of each
   * match: every match is a maximal escape, and the matches are ordered and do not overlap.
   */
  function EscapeSpans(s: string, i: nat): (spans: seq<(nat, nat)>)
    requires i <= |s|
    ensures forall k :: 0 <= k < |spans| ==>
      i <= spans[k].0 && EscapeAt(s, spans[k].0) && spans[k].1 == HexRunEnd(s, spans[k].0 + 2)
    ensures forall k :: 0 <= k < |spans| - 1 ==> spans[k].1 <= spans[k + 1].0
    decreases |s| - i
  {
    if i == |s| then []
    else if EscapeAt(s, i) then
      var e := HexRunEnd(s, i + 2);
      [(i, e)] + EscapeSpans(s, e)
    else EscapeSpans(s, i + 1)
  }

  /** Every escape written in `s` at or after `i` is found by the scan from `i`. */
  lemma {:induction false} EscapeFound(s: string, i: nat, p: nat)
    requires i <= p && EscapeAt(s, p)
    ensures (p, HexRunEnd(s, p + 2)) in EscapeSpans(s, i)
    decreases |s| - i
  {
    if i < p {
      if EscapeAt(s, i) {
        var e := HexRunEnd(s, i + 2);
        // the run of digits after `\u` at `i` stops before the backslash at `p`
        assert p != i + 1;
        assert e <= p;
        EscapeFound(s, e, p);
      } else {
        EscapeFound(s, i + 1, p);
      }
    }
  }

  /** The escape tokens of `s`, as strings. */
  function EscapeTokens(s: string): (tokens: seq<string>)
    ensures forall k :: 0 <= k < |tokens| ==> IsEscapeToken(tokens[k])
  {
    var spans := EscapeSpans(s, 0);
    seq(|spans|, k requires 0 <= k < |spans| => s[spans[k].0..spans[k].1])
  }

  /** A specifier naming a list or a range: it contains `,` or `-`. */
  predicate IsList(spec: string)
  {
    ',' in spec || '-' in spec
  }

  /** The keys a specifier contributes, in the order the source assigns them. */
  function SpecifierKeys(spec: string): seq<string>
  {
    if IsList(spec) then EscapeTokens(spec) else [StripChars(spec, {'[', ']'})]
  }

  /**
   * A list specifier yields exactly the escape tokens written in it: each key is the whole
   * `\u<hex>+` escape, with all its digits, that starts at some position of the specifier
   * (so nothing between two endpoints is invented, and no key is cut short), and each
   * escape written in the specifier is a key. Any other
   * specifier yields the one key obtained by stripping `[` and `]` from both ends.
   */
  lemma {:induction false} SpecifierKeysExact(spec: string)
    ensures IsList(spec) ==>
      forall key :: key in SpecifierKeys(spec) ==>
        IsEscapeToken(key) && exists p: nat :: EscapeAt(spec, p) && key == spec[p..HexRunEnd(spec, p + 2)]
    ensures IsList(spec) ==>
      forall p: nat :: EscapeAt(spec, p) ==> spec[p..HexRunEnd(spec, p + 2)] in SpecifierKeys(spec)
    ensures !IsList(spec) ==> SpecifierKeys(spec) == [StripChars(spec, {'[', ']'})]
  {
    if IsList(spec) {
      EscapeTokensPresent(spec);
      EscapeTokensComplete(spec);
    }
  }

  /** Each escape token found is a whole escape written in `s`, with all its digits. */
  lemma EscapeTokensPresent(s: string)
    ensures forall key :: key in EscapeTokens(s) ==>
      IsEscapeToken(key) && exists p: nat :: EscapeAt(s, p) && key == s[p..HexRunEnd(s, p + 2)]
  {
    var tokens := EscapeTokens(s);
    forall key | key in tokens
      ensures exists p: nat :: EscapeAt(s, p) && key == s[p..HexRunEnd(s, p + 2)]
    {
      var k :| 0 <= k < |tokens| && tokens[k] == key;
      TokenOccurs(s, k);
    }
  }

  /** The `k`-th token found is the whole escape written in `s` where its match starts. */
  lemma TokenOccurs(s: string, k: nat)
    requires k < |EscapeTokens(s)|
    ensures var p := EscapeSpans(s, 0)[k].0;
      EscapeAt(s, p) && EscapeTokens(s)[k] == s[p..HexRunEnd(s, p + 2)]
  {
    var spans := EscapeSpans(s, 0);
    assert EscapeTokens(s)[k] == s[spans[k].0..spans[k].1];
  }

  /** Each escape written in `s` is among the tokens found. */
  lemma EscapeTokensComplete(s: string)
    ensures forall p: nat :: EscapeAt(s, p) ==> s[p..HexRunEnd(s, p + 2)] in EscapeTokens(s)
  {
    var spans := EscapeSpans(s, 0);
    var tokens := EscapeTokens(s);
    forall p: nat | EscapeAt(s, p)
      ensures s[p..HexRunEnd(s, p + 2)] in tokens
    {
      EscapeFound(s, 0, p);
      var k :| 0 <= k < |spans| && spans[k] == (p, HexRunEnd(s, p + 2));
      assert tokens[k] == s[p..HexRunEnd(s, p + 2)];
    }
  }

  /** What one line of `labels.txt` amounts to. */
  datatype LabelLine =
    | Ignored                                    // does not start with `[`
    | Malformed(fields: nat)                     // a data line without exactly three fields
    | Entry(keys: seq<string>, category: string) // the keys of a data line and their category

  /** Reads one line: the test for `[`, the split into fields and the keys of the specifier. */
  function ClassifyLine(line: string): (l: LabelLine)
    ensures l.Ignored? <==> !IsDataLine(line)
    ensures l.Malformed? <==> IsDataLine(line) && |Fields(line)| != 3
    ensures l.Malformed? ==> l.fields == |Fields(line)|
    ensures l.Entry? ==> l.keys == SpecifierKeys(Fields(line)[0]) && l.category == Fields(line)[1]
  {
    if !IsDataLine(line) then Ignored
    else
      var fields := Fields(line);
      if |fields| != 3 then Malformed(|fields|)
      else Entry(SpecifierKeys(fields[0]), fields[1])
  }

  /** Every line of the file, read. */
  function ClassifyAll(lines: seq<string>): (ls: seq<LabelLine>)
    ensures |ls| == |lines|
    ensures forall i :: 0 <= i < |lines| ==> ls[i] == ClassifyLine(lines[i])
  {
    seq(|lines|, i requires 0 <= i < |lines| => ClassifyLine(lines[i]))
  }

  /** The keys a line contributes: none unless it is a well-formed data line. */
  function KeysOf(l: LabelLine): seq<string>
  {
    if l.Entry? then l.keys else []
  }

  /**
   * One iteration of the loop over the lines, the line having index `index`. A line that
   * does not start with `[` changes nothing; a data line with the wrong number of fields
   * is an error; otherwise each key of the line maps to the line's category and no other
   * key changes.
   */
  function ApplyLine(m: map<string, string>, l: LabelLine, index: nat): (r: Result<map<string, string>, LabelError>)
    ensures l.Ignored? ==> r == Ok(m)
    ensures r.Err? <==> l.Malformed?
    ensures r.Err? ==> r.error == FieldCount(index, l.fields)
    ensures r.Ok? ==> r.value.Keys == m.Keys + set k | k in KeysOf(l)
    ensures r.Ok? ==> forall k :: k in r.value ==>
      r.value[k] == if k in KeysOf(l) then l.category else m[k]
  {
    match l
    case Ignored => Ok(m)
    case Malformed(n) => Err(FieldCount(index, n))
    case Entry(keys, category) => Ok(m + map k | k in keys :: category)
  }

  /** The fold of `ApplyLine` over read lines, stopping at the first error. */
  function ParseLines(ls: seq<LabelLine>): (r: Result<map<string, string>, LabelError>)
    ensures r.Err? ==>
      && r.error.line < |ls|
      && ls[r.error.line] == Malformed(r.error.fields)
      && forall j :: 0 <= j < r.error.line ==> !ls[j].Malformed?
    ensures r.Ok? <==> forall j :: 0 <= j < |ls| ==> !ls[j].Malformed?
  {
    if ls == [] then Ok(map[])
    else
      var prefix := ls[..|ls| - 1];
      assert forall j :: 0 <= j < |prefix| ==> prefix[j] == ls[j];
      match ParseLines(prefix)
      case Err(e) => Err(e)
      case Ok(m) => ApplyLine(m, ls[|ls| - 1], |ls| - 1)
  }

  /**
   * `parse_labels_file` on the lines of the file: the error of the first data line that
   * does not have three fields, if there is one, and otherwise the category index.
   */
  function ParseLabels(lines: seq<string>): (r: Result<map<string, string>, LabelError>)
    ensures r.Err? ==>
      && r.error.line < |lines|
      && IsDataLine(lines[r.error.line])
      && r.error.fields == |Fields(lines[r.error.line])| != 3
      && forall j :: 0 <= j < r.error.line ==> !IsDataLine(lines[j]) || |Fields(lines[j])| == 3
    ensures r.Ok? <==> forall j :: 0 <= j < |lines| ==> !IsDataLine(lines[j]) || |Fields(lines[j])| == 3
  {
    ParseLines(ClassifyAll(lines))
  }

  /** The index of the last line of `ls` that contributes key `k`, if any. */
  function LastMention(ls: seq<LabelLine>, k: string): (r: Option<nat>)
    ensures r.Some? ==> r.value < |ls| && k in KeysOf(ls[r.value])
    ensures r.Some? ==> forall j :: r.value < j < |ls| ==> k !in KeysOf(ls[j])
    ensures r.None? ==> forall j :: 0 <= j < |ls| ==> k !in KeysOf(ls[j])
  {
    if ls == [] then None
    else if k in KeysOf(ls[|ls| - 1]) then Some(|ls| - 1)
    else
      var prefix := ls[..|ls| - 1];
      assert forall j :: 0 <= j < |prefix| ==> prefix[j] == ls[j];
      LastMention(prefix, k)
  }

  /**
   * Last line wins: in a successfully parsed index, a key is present exactly when some
   * line contributes it, and its category is the category of the last such line.
   */
  lemma {:induction false} LastLineWins(ls: seq<LabelLine>, k: string)
    requires ParseLines(ls).Ok?
    ensures k in ParseLines(ls).value <==> LastMention(ls, k).Some?
    ensures k in ParseLines(ls).value ==> ParseLines(ls).value[k] == ls[LastMention(ls, k).value].category
  {
    if ls != [] {
      var prefix := ls[..|ls| - 1];
      assert forall j :: 0 <= j < |prefix| ==> prefix[j] == ls[j];
      LastLineWins(prefix, k);
    }
  }

  /**
   * `parse_labels_file`: reads the lines in order, writing each key of a data line into the
   * index; stops with the error of the first data line that does not have three fields.
   */
  method ParseLabelsFile(lines: seq<string>) returns (r: Result<map<string, string>, LabelError>)
    ensures r == ParseLabels(lines)
  {
    var categories: map<string, string> := map[];
    var i := 0;
    while i < |lines|
      invariant 0 <= i <= |lines|
      invariant ParseLines(ClassifyAll(lines)[..i]) == Ok(categories)
    {
      var line := lines[i];
      if IsDataLine(line) {
        var fields := Fields(line);
        if |fields| != 3 {
          MalformedLineStep(lines, i, categories);
          return Err(FieldCount(i, |fields|));
        }
        var emojis := SpecifierKeys(fields[0]);
        DataLineStep(lines, i, categories);
        categories := AssignAll(categories, emojis, fields[1]);
      } else {
        IgnoredLineStep(lines, i, categories);
      }
      i := i + 1;
    }
    assert ClassifyAll(lines)[..i] == ClassifyAll(lines);
    r := Ok(categories);
  }

  /** After a successful parse of the lines before it, a line not starting with `[` changes nothing. */
  lemma IgnoredLineStep(lines: seq<string>, i: nat, m: map<string, string>)
    requires i < |lines|
    ensures ParseLines(ClassifyAll(lines)[..i]) == Ok(m) && !IsDataLine(lines[i]) ==>
      ParseLines(ClassifyAll(lines)[..i + 1]) == Ok(m)
  {
    var ls := ClassifyAll(lines);
    if ParseLines(ls[..i]) == Ok(m) {
      ParseLinesStep(ls, i, m);
    }
  }

  /**
   * After a successful parse of the lines before it, a data line without three fields ends
   * the whole parse with its error.
   */
  lemma MalformedLineStep(lines: seq<string>, i: nat, m: map<string, string>)
    requires i < |lines|
    ensures ParseLines(ClassifyAll(lines)[..i]) == Ok(m) && IsDataLine(lines[i]) && |Fields(lines[i])| != 3 ==>
      ParseLabels(lines) == Err(FieldCount(i, |Fields(lines[i])|))
  {
    var ls := ClassifyAll(lines);
    if ParseLines(ls[..i]) == Ok(m) && ls[i].Malformed? {
      ParseLinesStep(ls, i, m);
      ParseLinesStopsAtError(ls, i + 1);
      assert ls[..|ls|] == ls;
    }
  }

  /** After a successful parse of the lines before it, a data line with three fields writes its keys. */
  lemma DataLineStep(lines: seq<string>, i: nat, m: map<string, string>)
    requires i < |lines|
    ensures ParseLines(ClassifyAll(lines)[..i]) == Ok(m) && IsDataLine(lines[i]) && |Fields(lines[i])| == 3 ==>
      ParseLines(ClassifyAll(lines)[..i + 1]) ==
        Ok(m + map k | k in SpecifierKeys(Fields(lines[i])[0]) :: Fields(lines[i])[1])
  {
    var ls := ClassifyAll(lines);
    if ParseLines(ls[..i]) == Ok(m) {
      ParseLinesStep(ls, i, m);
    }
  }

  /** `for emoji in emojis: emoji_categories[emoji] = category`. */
  method AssignAll(m: map<string, string>, emojis: seq<string>, category: string)
    returns (r: map<string, string>)
    ensures r == m + map k | k in emojis :: category
  {
    r := m;
    var j := 0;
    while j < |emojis|
      invariant 0 <= j <= |emojis|
      invariant r == m + map k | k in emojis[..j] :: category
    {
      assert emojis[..j + 1] == emojis[..j] + [emojis[j]];
      r := r[emojis[j] := category];
      j := j + 1;
    }
    assert emojis[..j] == emojis;
  }

  /** One more line extends a successful parse by `ApplyLine`. */
  lemma ParseLinesStep(ls: seq<LabelLine>, i: nat, m: map<string, string>)
    requires i < |ls| && ParseLines(ls[..i]) == Ok(m)
    ensures ParseLines(ls[..i + 1]) == ApplyLine(m, ls[i], i)
  {
    assert ls[..i + 1][..i] == ls[..i];
  }

  /** Once a prefix of the lines fails to parse, every longer prefix fails the same way. */
  lemma {:induction false} ParseLinesStopsAtError(ls: seq<LabelLine>, n: nat)
    requires 0 < n <= |ls|
    requires ParseLines(ls[..n]).Err?
    ensures ParseLines(ls[..|ls|]) == ParseLines(ls[..n])
    decreases |ls| - n
  {
    if n < |ls| {
      assert ls[..n + 1][..n] == ls[..n];
      ParseLinesStopsAtError(ls, n + 1);
    }
  }
}
