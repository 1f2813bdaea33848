/**
 * Shortcode derivation (`generate_shortcode`): a display name such as "Grinning Face!"
 * becomes the token ":grinning_face:".
 */
module Shortcodes {
  import opened Text

  /**
   * The characters above ASCII that are neither letters nor digits for Python and so are
   * not matched by `\w`: the controls, spaces, punctuation and symbols of Latin-1, the
   * Ogham space, the General Punctuation block (U+2000 to U+206F: spaces, dashes, quotation
   * marks, invisible operators) and the ideographic space.
   */
  predicate IsNonWordAboveAscii(c: char)
  {
    || ('\U{80}' <= c <= '\U{BF}' && c != '\U{AA}' && c != '\U{B2}' && c != '\U{B3}' && c != '\U{B5}'
        && c != '\U{B9}' && c != '\U{BA}' && !('\U{BC}' <= c <= '\U{BE}'))
    || c == '\U{D7}' || c == '\U{F7}' || c == '\U{1680}' || ('\U{2000}' <= c <= '\U{206F}') || c == '\U{3000}'
  }

  /**
   * The characters matched by the regular-expression class `\w`: ASCII letters, digits and
   * the underscore. A character outside ASCII counts as a word character unless
   * `IsNonWordAboveAscii` excludes it, in place of Python's Unicode alphanumeric tables.
   */
  predicate IsWordChar(c: char)
  {
    || ('a' <= c <= 'z') || ('A' <= c <= 'Z') || ('0' <= c <= '9') || c == '_'
    || (c >= '\U{80}' && !IsNonWordAboveAscii(c))
  }

  /** The word characters that are not underscores: the letters and digits of a name. */
  predicate IsAlnum(c: char)
  {
    IsWordChar(c) && c != '_'
  }

  /** `str.lower()` on one character, for ASCII upper-case letters. */
  function LowerChar(c: char): char
  {
    if 'A' <= c <= 'Z' then (c as int + 32) as char else c
  }

  /** `str.lower()`, character by character. */
  function Lower(s: string): (r: string)
    ensures |r| == |s|
    ensures forall i :: 0 <= i < |s| ==> r[i] == LowerChar(s[i])
  {
    seq(|s|, i requires 0 <= i < |s| => LowerChar(s[i]))
  }

  /** The letters and digits of `s`, in order: everything but non-word characters and underscores. */
  function Alnums(s: string): string
  {
    if s == [] then []
    else if IsAlnum(s[0]) then [s[0]] + Alnums(s[1..])
    else Alnums(s[1..])
  }

  /** Drops the leading run of non-word characters. */
  function DropNonWord(s: string): (r: string)
    ensures |r| <= |s| && r == s[|s| - |r|..]
    ensures forall k :: 0 <= k < |s| - |r| ==> !IsWordChar(s[k])
    ensures r != [] ==> IsWordChar(r[0])
  {
    if s != [] && !IsWordChar(s[0]) then
      var r := DropNonWord(s[1..]);
      assert forall k :: 1 <= k < |s| - |r| ==> s[k] == s[1..][k - 1];
      r
    else s
  }

  /** Characters without letters or digits contribute nothing to `Alnums`. */
  lemma {:induction false} AlnumsOfSkipped(s: string, n: nat)
    requires n <= |s|
    requires forall k :: 0 <= k < n ==> !IsAlnum(s[k])
    ensures Alnums(s[n..]) == Alnums(s)
  {
    if n > 0 {
      assert s[1..][n - 1..] == s[n..];
      AlnumsOfSkipped(s[1..], n - 1);
    }
  }

  /** `re.sub(r"[\W]+", "_", s)`: every maximal run of non-word characters becomes one underscore. */
  function ReplaceNonWordRuns(s: string): string
    decreases |s|
  {
    if s == [] then []
    else if IsWordChar(s[0]) then [s[0]] + ReplaceNonWordRuns(s[1..])
    else "_" + ReplaceNonWordRuns(DropNonWord(s[1..]))
  }

  /** The replacement leaves only word characters and keeps every letter and digit, in order. */
  lemma {:induction false} ReplaceNonWordRunsKeepsAlnums(s: string)
    ensures forall k :: 0 <= k < |ReplaceNonWordRuns(s)| ==> IsWordChar(ReplaceNonWordRuns(s)[k])
    ensures Alnums(ReplaceNonWordRuns(s)) == Alnums(s)
    decreases |s|
  {
    if s == [] {
    } else if IsWordChar(s[0]) {
      ReplaceNonWordRunsKeepsAlnums(s[1..]);
      var r := ReplaceNonWordRuns(s);
      assert r[1..] == ReplaceNonWordRuns(s[1..]);
    } else {
      var rest := DropNonWord(s[1..]);
      AlnumsOfSkipped(s[1..], |s| - 1 - |rest|);
      ReplaceNonWordRunsKeepsAlnums(rest);
      var r := ReplaceNonWordRuns(s);
      assert r[1..] == ReplaceNonWordRuns(rest);
    }
  }

  /** A string of word characters is left as it is by `ReplaceNonWordRuns`. */
  lemma {:induction false} ReplaceKeepsWords(s: string)
    requires forall k :: 0 <= k < |s| ==> IsWordChar(s[k])
    ensures ReplaceNonWordRuns(s) == s
  {
    if s != [] {
      ReplaceKeepsWords(s[1..]);
    }
  }

  /** A prefix of word characters passes through `ReplaceNonWordRuns` unchanged. */
  lemma {:induction false} ReplaceWordPrefix(w: string, rest: string)
    requires forall k :: 0 <= k < |w| ==> IsWordChar(w[k])
    ensures ReplaceNonWordRuns(w + rest) == w + ReplaceNonWordRuns(rest)
  {
    if w != [] {
      var s := w + rest;
      var tail := w[1..];
      assert s[0] == w[0] && IsWordChar(s[0]);
      assert s[1..] == tail + rest;
      assert forall k :: 0 <= k < |tail| ==> tail[k] == w[k + 1];
      ReplaceWordPrefix(tail, rest);
      assert [w[0]] + tail == w;
      ConcatAssoc([w[0]], tail, ReplaceNonWordRuns(rest));
    } else {
      assert w + rest == rest;
    }
  }

  /** Concatenation regrouped, as the inductive steps on sequences need it. */
  lemma ConcatAssoc(a: string, b: string, c: string)
    ensures a + (b + c) == (a + b) + c
  {
  }

  /** A whole run of non-word characters, up to the next word character, becomes one underscore. */
  lemma {:induction false} ReplaceRun(run: string, rest: string)
    requires run != []
    requires forall k :: 0 <= k < |run| ==> !IsWordChar(run[k])
    requires rest != [] ==> IsWordChar(rest[0])
    ensures ReplaceNonWordRuns(run + rest) == "_" + ReplaceNonWordRuns(rest)
  {
    var s := run + rest;
    assert s[1..] == run[1..] + rest;
    DropNonWordRun(run[1..], rest);
  }

  /** `DropNonWord` removes exactly a leading run of non-word characters. */
  lemma {:induction false} DropNonWordRun(run: string, rest: string)
    requires forall k :: 0 <= k < |run| ==> !IsWordChar(run[k])
    requires rest != [] ==> IsWordChar(rest[0])
    ensures DropNonWord(run + rest) == rest
  {
    if run != [] {
      assert (run + rest)[1..] == run[1..] + rest;
      DropNonWordRun(run[1..], rest);
    } else {
      assert run + rest == rest;
    }
  }

  /** Removing only underscores from the ends leaves the letters and digits as they were. */
  lemma {:induction false} StripUnderscoresKeepsAlnums(s: string)
    ensures Alnums(StripChars(s, {'_'})) == Alnums(s)
  {
    var n := LeadingRun(s, {'_'});
    var r := StripChars(s, {'_'});
    assert forall k :: 0 <= k < n ==> s[k] == '_';
    AlnumsOfSkipped(s, n);
    var tail := s[n..];
    assert forall k :: |r| <= k < |tail| ==> tail[k] == s[n + k] && s[n + k] == '_';
    AlnumsOfTail(tail, |r|);
    assert tail[..|r|] == r;
  }

  /** Characters without letters or digits at the end contribute nothing to `Alnums`. */
  lemma {:induction false} AlnumsOfTail(s: string, m: nat)
    requires m <= |s|
    requires forall k :: m <= k < |s| ==> !IsAlnum(s[k])
    ensures Alnums(s[..m]) == Alnums(s)
  {
    if m > 0 {
      assert s[..m][1..] == s[1..][..m - 1];
      AlnumsOfTail(s[1..], m - 1);
    } else {
      AlnumsOfSkipped(s, |s|);
    }
  }

  /**
   * The text between the colons of a shortcode:
   * `re.sub(r"[\W]+", "_", name.lower()).strip("_")`.
   */
  function ShortcodeToken(name: string): (t: string)
    ensures forall k :: 0 <= k < |t| ==> IsWordChar(t[k])
    ensures t != [] ==> t[0] != '_' && t[|t| - 1] != '_'
  {
    var replaced := ReplaceNonWordRuns(Lower(name));
    ReplaceNonWordRunsKeepsAlnums(Lower(name));
    StripChars(replaced, {'_'})
  }

  /** The token has exactly the letters and digits of the lower-cased name, in order. */
  lemma ShortcodeTokenAlnums(name: string)
    ensures Alnums(ShortcodeToken(name)) == Alnums(Lower(name))
  {
    ReplaceNonWordRunsKeepsAlnums(Lower(name));
    StripUnderscoresKeepsAlnums(ReplaceNonWordRuns(Lower(name)));
  }

  /** `generate_shortcode`: the empty name gives the empty string, any other its token between colons. */
  function GenerateShortcode(name: string): (r: string)
    ensures r == "" <==> name == ""
    ensures r != "" ==> r == ":" + ShortcodeToken(name) + ":"
  {
    if name == "" then "" else ":" + ShortcodeToken(name) + ":"
  }

  /**
   * The shape of every shortcode: an empty name gives the empty string; any other name
   * gives a token between two colons. The token holds only word characters, neither
   * begins nor ends with an underscore, has exactly the letters and digits of the
   * lower-cased name, and is empty exactly when the name has no letter or digit ("::").
   */
  lemma {:induction false} ShortcodeShape(name: string)
    ensures GenerateShortcode(name) == "" <==> name == ""
    ensures var r := GenerateShortcode(name);
      r != "" ==>
        && |r| >= 2 && r[0] == ':' && r[|r| - 1] == ':'
        && (forall k :: 1 <= k < |r| - 1 ==> IsWordChar(r[k]))
        && (|r| > 2 ==> r[1] != '_' && r[|r| - 2] != '_')
        && Alnums(r[1..|r| - 1]) == Alnums(Lower(name))
        && (|r| == 2 <==> Alnums(Lower(name)) == "")
  {
    if name != "" {
      var t := ShortcodeToken(name);
      ShortcodeTokenAlnums(name);
      var r := ":" + t + ":";
      assert r[1..|r| - 1] == t;
      if t != "" {
        assert Alnums(t) == [t[0]] + Alnums(t[1..]);
      }
    }
  }

  /**
   * Two words separated by a run of non-word characters give the two words joined by
   * exactly one underscore, whatever the length of the run: "ab cd" and "ab -- cd" both
   * give ":ab_cd:". Underscores inside the words are kept as they are.
   */
  lemma ShortcodeSeparatesWords(name: string, w1: string, run: string, w2: string)
    requires Lower(name) == w1 + run + w2
    requires w1 != [] && w2 != [] && run != []
    requires forall k :: 0 <= k < |w1| ==> IsWordChar(w1[k])
    requires forall k :: 0 <= k < |w2| ==> IsWordChar(w2[k])
    requires forall k :: 0 <= k < |run| ==> !IsWordChar(run[k])
    requires w1[0] != '_' && w2[|w2| - 1] != '_'
    ensures GenerateShortcode(name) == ":" + w1 + "_" + w2 + ":"
  {
    var tail := run + w2;
    assert Lower(name) == w1 + tail;
    ReplaceWordPrefix(w1, tail);
    ReplaceRun(run, w2);
    ReplaceKeepsWords(w2);
    var t := w1 + ("_" + w2);
    assert ReplaceNonWordRuns(Lower(name)) == t;
    assert t[0] == w1[0] && t[|t| - 1] == w2[|w2| - 1];
    StripNothing(t, {'_'});
    assert ShortcodeToken(name) == t;
    assert |name| == |Lower(name)| > 0;
    assert GenerateShortcode(name) == ":" + t + ":";
    assert ":" + t + ":" == ":" + w1 + "_" + w2 + ":" by {
      ConcatAssoc(w1, "_", w2);
      ConcatAssoc(":", w1 + "_", w2);
      ConcatAssoc(":", w1, "_");
    }
  }

  /**
   * A non-empty name without any letter or digit, such as a name of spaces only, gives
   * "::", not the empty string.
   */
  lemma ShortcodeWithoutAlnums(name: string)
    requires name != []
    requires forall k :: 0 <= k < |name| ==> !IsAlnum(name[k])
    ensures GenerateShortcode(name) == "::"
  {
    ShortcodeShape(name);
    var lowered := Lower(name);
    assert forall k :: 0 <= k < |lowered| ==> lowered[k] == name[k];
    AlnumsOfSkipped(lowered, |lowered|);
    assert lowered[|lowered|..] == [];
    var r := GenerateShortcode(name);
    assert |r| == 2 && r[0] == ':' && r[1] == ':';
  }
}
