/**
 * The global fold of `update_global_json`: for every key of one language's map, the
 * category from the index, at most one shortcode derived from the name, and the emoticons
 * carried over from the previously published global catalog.
 */
module GlobalCatalog {
  import opened Common
  import opened Shortcodes
  import opened Annotations

  /** One entry of `global.json`. */
  datatype GlobalRecord = GlobalRecord(category: string, shortcodes: seq<string>, emoticons: seq<string>)

  /** An entry of the previously published `global.json`; only its optional `emoticons` list is read. */
  datatype PreviousEntry = PreviousEntry(emoticons: Option<seq<string>>)

  /** `if entry.get("emoticons")`: the entry has a non-empty emoticon list. */
  predicate HasEmoticons(entry: PreviousEntry)
  {
    entry.emoticons.Some? && entry.emoticons.value != []
  }

  /**
   * The `previous_emoticons` comprehension: the keys of the previous catalog that have a
   * non-empty emoticon list, each with that list.
   */
  function PreviousEmoticons(previous: map<string, PreviousEntry>): (r: map<string, seq<string>>)
    ensures forall cp :: cp in r <==> cp in previous && HasEmoticons(previous[cp])
    ensures forall cp :: cp in r ==> previous[cp].emoticons == Some(r[cp]) && r[cp] != []
  {
    map cp | cp in previous && HasEmoticons(previous[cp]) :: previous[cp].emoticons.value
  }

  /** The emoticons loaded before the fold: none when there is no previous catalog. */
  function LoadedEmoticons(previous: Option<map<string, PreviousEntry>>): map<string, seq<string>>
  {
    if previous.Some? then PreviousEmoticons(previous.value) else map[]
  }

  /** `[generate_shortcode(name)] if name else []`. */
  function ShortcodeList(name: string): (r: seq<string>)
    ensures |r| <= 1
    ensures r == [] <==> name == ""
    ensures r != [] ==> r[0] != ""
  {
    if name != "" then [GenerateShortcode(name)] else []
  }

  /** `previous_emoticons.get(cp, [])`. */
  function EmoticonsFor(emoticons: map<string, seq<string>>, cp: string): seq<string>
  {
    if cp in emoticons then emoticons[cp] else []
  }

  /** The global entry the fold writes for key `cp`. */
  function GlobalEntry(cp: string, record: Record, categories: map<string, string>, emoticons: map<string, seq<string>>)
    : GlobalRecord
  {
    GlobalRecord(Lookup(categories, cp), ShortcodeList(record.name), EmoticonsFor(emoticons, cp))
  }

  /** The global catalog as a map comprehension over the language's keys. */
  function GlobalCatalogOf(
    emojiData: map<string, Record>, categories: map<string, string>, emoticons: map<string, seq<string>>)
    : map<string, GlobalRecord>
  {
    map cp | cp in emojiData :: GlobalEntry(cp, emojiData[cp], categories, emoticons)
  }

  /** `for cp, data in emoji_data.items(): global_data[cp] = {...}`. */
  method FoldGlobal(
    emojiData: map<string, Record>, categories: map<string, string>, emoticons: map<string, seq<string>>)
    returns (globalData: map<string, GlobalRecord>)
    ensures globalData == GlobalCatalogOf(emojiData, categories, emoticons)
  {
    globalData := map[];
    var remaining := emojiData.Keys;
    while remaining != {}
      invariant remaining <= emojiData.Keys
      invariant globalData.Keys == emojiData.Keys - remaining
      invariant forall cp :: cp in globalData ==>
        globalData[cp] == GlobalEntry(cp, emojiData[cp], categories, emoticons)
      decreases remaining
    {
      var cp :| cp in remaining;
      var entry := BuildEntry(cp, emojiData[cp], categories, emoticons);
      globalData := globalData[cp := entry];
      remaining := remaining - {cp};
    }
  }

  /** The dictionary the fold writes for `cp`: category, shortcode list and emoticons. */
  method BuildEntry(cp: string, data: Record, categories: map<string, string>, emoticons: map<string, seq<string>>)
    returns (entry: GlobalRecord)
    ensures entry == GlobalEntry(cp, data, categories, emoticons)
  {
    var shortcodes := if data.name != "" then [GenerateShortcode(data.name)] else [];
    var carried := if cp in emoticons then emoticons[cp] else [];
    entry := GlobalRecord(Lookup(categories, cp), shortcodes, carried);
  }

  /**
   * `update_global_json` without its file I/O: `previous` is the previous catalog, or
   * `None` when there is none. Every key of `emojiData`, and no other, gets an entry; its
   * category comes from the index (`"Unknown"` when absent); it has exactly one shortcode,
   * derived from the name, when the name is non-empty and none otherwise; its emoticons
   * are the previous entry's non-empty list, and empty when there was none.
   */
  method UpdateGlobalJson(
    emojiData: map<string, Record>, categories: map<string, string>,
    previous: Option<map<string, PreviousEntry>>)
    returns (globalData: map<string, GlobalRecord>)
    ensures globalData == GlobalCatalogOf(emojiData, categories, LoadedEmoticons(previous))
    ensures globalData.Keys == emojiData.Keys
    ensures forall cp :: cp in globalData ==> globalData[cp].category == Lookup(categories, cp)
    ensures forall cp :: cp in globalData ==>
      globalData[cp].shortcodes == if emojiData[cp].name != "" then [GenerateShortcode(emojiData[cp].name)] else []
    ensures forall cp :: cp in globalData ==>
      globalData[cp].emoticons ==
        if previous.Some? && cp in previous.value && HasEmoticons(previous.value[cp])
        then previous.value[cp].emoticons.value else []
    ensures previous.None? ==> forall cp :: cp in globalData ==> globalData[cp].emoticons == []
  {
    var emoticons: map<string, seq<string>> := map[];
    if previous.Some? {
      emoticons := PreviousEmoticons(previous.value);
    }
    globalData := FoldGlobal(emojiData, categories, emoticons);
  }

  /**
   * Carried-over emoticons never change, and the non-empty filter makes no difference to
   * the fold: a key takes its previous list when one was recorded, empty or not, and the
   * empty list otherwise.
   */
  lemma EmoticonsCarriedOver(
    emojiData: map<string, Record>, categories: map<string, string>,
    previous: map<string, PreviousEntry>, cp: string)
    requires cp in emojiData
    ensures GlobalCatalogOf(emojiData, categories, PreviousEmoticons(previous))[cp].emoticons ==
      if cp in previous && previous[cp].emoticons.Some? then previous[cp].emoticons.value else []
  {
  }

  /** Every key of the fold has the category its record got while the annotations were merged. */
  lemma GlobalCategoryMatchesLanguage(
    base: Option<Element>, derived: Option<Element>, categories: map<string, string>,
    emoticons: map<string, seq<string>>)
    ensures var emojiData := MergeLanguage(base, derived, categories);
      var g := GlobalCatalogOf(emojiData, categories, emoticons);
      g.Keys == emojiData.Keys && forall cp :: cp in g ==> g[cp].category == emojiData[cp].category
  {
    MergeLanguageFacts(base, derived, categories, "");
  }
}
