# cldr-emojis-updater, modelled in Dafny

`script.py` of cldr-emojis-updater turns the Unicode CLDR emoji data into JSON catalogs. This
project models the four transformations at its centre and proves what each of them promises:

- **Shortcode derivation** (`generate_shortcode`). A display name becomes `":token:"`. To get the
  token, the name is lower-cased, every run of non-word characters becomes one `_`, and `_` is
  stripped from both ends. An empty name gives `""`. Module `Shortcodes`, file `shortcodes.dfy`.
- **Category index** (`parse_labels_file`). Each line of `labels.txt` that starts with `[` is split
  on `;` into exactly three fields. A specifier with `,` or `-` in it contributes the `\uXXXX`
  escapes written in it. Any other specifier is one key, with its brackets stripped. Every key maps
  to the line's category, and a later line overwrites an earlier one. Module `Labels`, file
  `labels.dfy`.
- **Annotation merge** (`parse_annotations` and its inner `parse_file`). The base annotation file
  is scanned first, then the derived file, and both update one shared map.
  - An element with a `cp` and `type="tts"` creates or resets a record.
  - An `annotation` element with text sets the keywords of a record that already exists.
  - The shared map is the field `data` of the class `Annotations.AnnotationParser`, which
    `ParseFile` updates in place.
- **Global fold** (the body of `update_global_json`). Every key of one language's map gets three
  things: the category from the index, at most one shortcode, and the non-empty emoticon list of
  the previous global catalog, if there is one. Module `GlobalCatalog`, file `global_catalog.dfy`.

Python's `str.strip` and `str.split` are modelled in module `Text` (`text.dfy`). `Option` and
`Result` are in module `Common` (`common.dfy`).

Each loop of the source becomes a method. Each method is proved equal to a prefix-recursive
specification function (`ParseLines`, `ScanElements`) or a map comprehension (`GlobalCatalogOf`).
The lemmas then state, without any loop, what those functions compute:
- `LastLineWins`: the last line that mentions a key decides its category.
- `ScanMatchesExpected`: the last tts element decides a record, and the last keyword element after
  it decides the record's keywords.

Four details of the code that are easy to get wrong:
- `\W` does not match `_`, so runs of underscores in a name are kept, not collapsed.
- The global fold takes the single map it is given. The script passes it the map of the last
  language processed, not a union across languages.
- An element with `type="tts"` creates a record whatever its tag is.
- A missing `cp` and an empty `cp` are treated alike.

## Model

| member | source | states |
|---|---|---|
| `Text.StripChars` | script.py:97 | the result is the slice of the input left after removing the leading and trailing characters of the given set; the characters removed are all in the set, and the result neither begins nor ends with one |
| `Text.Split` | script.py:127 | splitting gives at least one piece, and no piece contains the separator |
| `Text.StripNothing` | script.py:97 | stripping leaves a string unchanged when neither of its ends is a character to strip |
| `Text.JoinSplit` | script.py:127 | joining the pieces of a split with the separator gives the string back |
| `Text.SplitJoin` | script.py:155 | splitting the join of pieces without the separator gives the pieces back |
| `Shortcodes.ShortcodeToken` | script.py:97 | the token holds only word characters and does not begin or end with `_` |
| `Shortcodes.ShortcodeTokenAlnums` | script.py:97 | the token has exactly the letters and digits of the lower-cased name, in order |
| `Shortcodes.ReplaceNonWordRunsKeepsAlnums` | script.py:97 | replacing the runs of non-word characters leaves only word characters and keeps every letter and digit in order |
| `Shortcodes.ReplaceKeepsWords` | script.py:97 | a string of word characters, underscores included, is left unchanged, so a run of `_` is kept as it is |
| `Shortcodes.ReplaceWordPrefix` | script.py:97 | a prefix of word characters passes through the replacement unchanged |
| `Shortcodes.ReplaceRun` | script.py:97 | a whole run of non-word characters, of any length, up to the next word character becomes exactly one `_` |
| `Shortcodes.ShortcodeShape` | script.py:93-98 | the shortcode is `""` exactly when the name is empty; any other shortcode begins and ends with `:`, has only word characters between them, has no `_` next to either colon, keeps the name's letters and digits, and is `"::"` exactly when the name has no letter or digit |
| `Shortcodes.ShortcodeSeparatesWords` | script.py:93-98 | if the lower-cased name is `w1 + run + w2`, where `w1` and `w2` are non-empty strings of word characters, `w1` does not start with `_`, `w2` does not end with `_`, and `run` is a non-empty run of non-word characters, then the shortcode is `":" + w1 + "_" + w2 + ":"`: a run of any length becomes one `_`, so "Ab  Cd" gives ":ab_cd:" |
| `Shortcodes.ShortcodeWithoutAlnums` | script.py:95-98 | every non-empty name without a letter or digit, a name of spaces only among them, gives `"::"`, not `""` |
| `Labels.Fields` | script.py:127 | a line has at least one field, and no field contains `;` |
| `Labels.EscapeSpans` | script.py:130 | each match of `\\u[0-9a-fA-F]+` starts at a backslash followed by `u` and a hexadecimal digit and runs to the end of the digits; the matches are ordered and do not overlap |
| `Labels.EscapeFound` | script.py:130 | every escape written in the specifier at or after the scan position is among the matches |
| `Labels.EscapeTokensPresent` | script.py:130 | each token found is an escape starting at some position of the specifier, with every hexadecimal digit that follows it there |
| `Labels.EscapeTokensComplete` | script.py:130 | each escape written in the specifier is among the tokens found |
| `Labels.SpecifierKeysExact` | script.py:129-132 | a specifier with `,` or `-` yields exactly the escape tokens written in it (each key is a whole escape starting at some position of it, with all its digits; each escape in it is a key; no range is expanded); any other specifier yields the one key obtained by stripping `[` and `]` |
| `Labels.ApplyLine` | script.py:126-134 | an ignored line leaves the index unchanged; a malformed line, and only such a line, is the error naming the line and its field count; otherwise the line's keys map to its category and every other key keeps its value |
| `Labels.ParseLines` | script.py:125-135 | the fold fails exactly when some line is malformed, and its error names the first malformed line |
| `Labels.ParseLabels` | script.py:121-135 | the index is built exactly when every line starting with `[` has three fields; otherwise the error names the first such line that does not |
| `Labels.LastMention` | script.py:133-134 | the last line contributing a key is found, and no later line contributes it |
| `Labels.LastLineWins` | script.py:133-134 | a key is in the index exactly when some line contributes it, and its category is that of the last such line |
| `Labels.AssignAll` | script.py:133-134 | writing each key of a line overwrites exactly those keys with the line's category |
| `Labels.ParseLabelsFile` | script.py:121-135 | the loop over the lines returns exactly `ParseLabels` of the lines: the error of the first malformed data line, or the category index |
| `Annotations.RootNotScanned` | script.py:148 | the root element is not among the elements scanned |
| `Annotations.ChildrenScanned` | script.py:148 | every child of the root, and everything below it, is scanned |
| `Annotations.Keywords` | script.py:155-157 | splitting on `\|` gives at least one keyword, and no keyword contains `\|` |
| `Annotations.ApplyElement` | script.py:149-157 | a tts element sets its key's record to the stripped name, no keywords and the looked-up category; a keyword element replaces only the keywords of an existing record; anything else, and every other key, is unchanged |
| `Annotations.LastTtsIsLast` | script.py:151-153 | the search finds a tts element for the key with no later one, and finds none only when there is none |
| `Annotations.LastKeywordsIsLast` | script.py:154-157 | the search finds a keyword element for the key at or after the position with no later one, and finds none only when there is none |
| `Annotations.ScanMatchesExpected` | script.py:148-157 | after the scan, the record of a key is the one its last tts element creates, with the keywords of the last keyword element after it; without a tts element, an existing record keeps its name and category and takes the last keywords; a key with neither stays absent |
| `Annotations.ScanKeys` | script.py:148-157 | the scan adds exactly the keys of its tts elements and removes none |
| `Annotations.ScanKeepsCategories` | script.py:153 | the scan keeps every record's category equal to the index's category of its key |
| `Annotations.MissingFileUnchanged` | script.py:145 | a file that does not exist leaves the map unchanged |
| `Annotations.MergeLanguageFacts` | script.py:138-161 | the merged keys are those of the tts elements of both files, every category comes from the index, and a tts element of the derived file decides the name of its key |
| `Annotations.AnnotationParser.ParseFile` | script.py:144-157 | the loop over the file's descendants leaves `data` equal to the scan of the file applied to the map it had before |
| `Annotations.ParseAnnotations` | script.py:138-161 | parsing the base file and then the derived file into one map gives the merged catalog, with the keys of the tts elements of both files and categories from the index |
| `GlobalCatalog.PreviousEmoticons` | script.py:172-174 | the previous emoticons hold exactly the keys whose previous entry has a non-empty list, each with that list |
| `GlobalCatalog.ShortcodeList` | script.py:178 | the shortcode list has at most one element; it is empty exactly when the name is empty, and otherwise holds a non-empty shortcode |
| `GlobalCatalog.FoldGlobal` | script.py:175-180 | the loop over the keys gives the catalog that maps each key to its looked-up category, its shortcode list and its carried-over emoticons |
| `GlobalCatalog.UpdateGlobalJson` | script.py:164-180 | the keys of the global catalog are those of the language map; each category is the looked-up one; the shortcodes are `[GenerateShortcode(name)]` for a non-empty name and `[]` otherwise; the emoticons are the previous non-empty list, or `[]`, and all are `[]` without a previous catalog |
| `GlobalCatalog.EmoticonsCarriedOver` | script.py:172-179 | a key takes its previous list unchanged, and dropping empty lists makes no difference to the result |
| `GlobalCatalog.GlobalCategoryMatchesLanguage` | script.py:177 | for a merged language map, the global catalog has the same keys, and each category equals the record's category |

## Left out

- Downloading and unpacking the CLDR release (`download_cldr`, `extract_cldr`), `main`, logging,
  and the `LANGUAGE_MAPPING` table. These are network, filesystem and configuration code with no
  logic to prove.
- File I/O. `labels.txt` is a sequence of lines, and each annotation file is an optional, already
  parsed element tree (`None` when the file does not exist). The previous `global.json` is an
  optional map from key to entry. The encodings, `json.load`/`json.dump`, the output key order,
  indentation, and `update_language_json` are left out.
- The XML parser. A malformed file raises an exception in the source, and the model has no value
  for such a file. Only the `cp` and `type` attributes, the tag and the text of an element are kept.
- The regular-expression engine.
  - `re.split(r"\s*;\s*", line.strip())` is modelled as a split on `;` with every field stripped.
    The two agree because the stripped line has no whitespace at either end.
  - `re.findall(r"\\u[0-9a-fA-F]+", s)` is modelled as a left-to-right scan for maximal escapes.
- Shortcodes.IsWordChar: this is an approximation of Unicode `\w`. It holds for ASCII letters,
  digits and `_`, and for every non-ASCII character except the controls, spaces, punctuation
  and symbols of Latin-1, the General Punctuation block (U+2000 to U+206F, which holds `’`, `“`,
  `”` and the dashes) and the Ogham and ideographic spaces. Python's tables of Unicode letters
  and digits are not modelled: any other non-ASCII punctuation or symbol (for example `・` or
  `★`) counts as a word character here, so a name containing one keeps it in its shortcode
  where Python would write `_`.
- Shortcodes.LowerChar: lowers ASCII letters only. Unicode case mapping, including mappings that
  change a string's length, is not modelled.
- GlobalCatalog.PreviousEntry: an `emoticons` value that is not a list is not modelled. The source
  would treat a truthy non-list value as the emoticons and copy it unchanged.
- Labels.ParseLabelsFile: the error stands for the `ValueError` that the tuple unpacking raises.
  Its line index counts from 0, and its message is not modelled.
