/**
 * The custom term dictionary: a term -> replacement mapping kept in the
 * browser store, a cached longest-first key order, and the substitution
 * that applies every term to a text in that order.
 */
module Dictionary {
  import opened Wrappers
  import opened JsString

  // ---------------------------------------------------------------------
  // escapeRegExp and the pattern it builds
  // ---------------------------------------------------------------------

  /** The characters `escapeRegExp` prefixes with a backslash: . * + ? ^ $ { } ( ) | [ ] \ */
  predicate IsRegExpSpecial(c: char) {
    c in ".*+?^${}()|[]\\"
  }

  /** `escapeRegExp`: a backslash goes before each metacharacter, every other character is kept. */
  function EscapeRegExp(s: string): (r: string)
    ensures |r| >= |s|
    ensures (forall i :: 0 <= i < |s| ==> !IsRegExpSpecial(s[i])) ==> r == s
  {
    if s == [] then []
    else (if IsRegExpSpecial(s[0]) then ['\\', s[0]] else [s[0]]) + EscapeRegExp(s[1..])
  }

  function Prepend(c: char, o: Option<string>): Option<string> {
    match o
    case None => None
    case Some(t) => Some([c] + t)
  }

  /**
   * The text a regular-expression source matches when it is made only of
   * plain characters and backslash-escaped metacharacters; `None` for any
   * other source (an unescaped metacharacter, a dangling backslash, or an
   * escape such as `\d` that is not a literal).
   */
  function PatternLiteral(p: string): Option<string>
    decreases |p|
  {
    if p == [] then Some([])
    else if p[0] == '\\' then
      if |p| >= 2 && IsRegExpSpecial(p[1]) then Prepend(p[1], PatternLiteral(p[2..])) else None
    else if IsRegExpSpecial(p[0]) then None
    else Prepend(p[0], PatternLiteral(p[1..]))
  }

  /** The escaped key is a literal pattern for exactly the key: removing the inserted backslashes gives it back. */
  lemma {:induction false} EscapeIsLiteral(s: string)
    ensures PatternLiteral(EscapeRegExp(s)) == Some(s)
    decreases |s|
  {
    if s != [] {
      EscapeIsLiteral(s[1..]);
      var tail := EscapeRegExp(s[1..]);
      if IsRegExpSpecial(s[0]) {
        var p := ['\\', s[0]] + tail;
        assert p[0] == '\\' && p[1] == s[0] && p[2..] == tail;
      } else {
        var p := [s[0]] + tail;
        assert p[0] == s[0] && p[1..] == tail;
      }
      assert [s[0]] + s[1..] == s;
    }
  }

  /** `text.replace(new RegExp(pattern, 'g'), v)` for a literal pattern. */
  function GlobalReplace(text: string, pattern: string, v: string): string
    requires PatternLiteral(pattern).Some? && PatternLiteral(pattern).value != []
  {
    ReplaceAll(text, PatternLiteral(pattern).value, v)
  }

  // ---------------------------------------------------------------------
  // Longest-first key order
  // ---------------------------------------------------------------------

  ghost predicate LongestFirst(order: seq<string>) {
    forall i, j :: 0 <= i < j < |order| ==> |order[i]| >= |order[j]|
  }

  /** What `getSortedEntries` promises: a permutation of the keys with non-increasing length. */
  ghost predicate IsMatchOrder(order: seq<string>, keys: set<string>) {
    multiset(order) == multiset(keys) && LongestFirst(order)
  }

  /** The head of a longest-first order is at least as long as every element. */
  lemma HeadIsLongest(s: seq<string>)
    requires s != [] && LongestFirst(s)
    ensures forall x :: x in s ==> |x| <= |s[0]|
  {
    forall x | x in s ensures |x| <= |s[0]| {
      var j :| 0 <= j < |s| && s[j] == x;
      if j > 0 {
        assert |s[0]| >= |s[j]|;
      }
    }
  }

  /** Putting an element at least as long as all others in front keeps the order longest first. */
  lemma ConsLongestFirst(x: string, s: seq<string>)
    requires LongestFirst(s) && forall y :: y in s ==> |y| <= |x|
    ensures LongestFirst([x] + s)
  {
    var r := [x] + s;
    forall i, j | 0 <= i < j < |r| ensures |r[i]| >= |r[j]| {
      assert r[j] == s[j - 1];
      if i > 0 {
        assert r[i] == s[i - 1];
      } else {
        assert r[j] in s;
      }
    }
  }

  /** Insertion of `k` before the first element that is not longer than it. */
  function InsertByLength(k: string, s: seq<string>): (r: seq<string>)
    requires LongestFirst(s)
    ensures multiset(r) == multiset(s) + multiset{k}
    ensures forall x :: x in r ==> x == k || x in s
    ensures LongestFirst(r)
  {
    if s == [] then [k]
    else if |s[0]| <= |k| then
      HeadIsLongest(s);
      ConsLongestFirst(k, s);
      [k] + s
    else
      assert s == [s[0]] + s[1..];
      assert LongestFirst(s[1..]) by {
        forall i, j | 0 <= i < j < |s[1..]| ensures |s[1..][i]| >= |s[1..][j]| {
          assert s[1..][i] == s[i + 1] && s[1..][j] == s[j + 1];
        }
      }
      var rest := InsertByLength(k, s[1..]);
      HeadIsLongest(s);
      ConsLongestFirst(s[0], rest);
      [s[0]] + rest
  }

  /** `keys.sort((a, b) => b.length - a.length)`: the keys reordered longest first. */
  function SortByLength(keys: seq<string>): (r: seq<string>)
    ensures multiset(r) == multiset(keys)
    ensures LongestFirst(r)
  {
    if keys == [] then []
    else
      assert keys == [keys[0]] + keys[1..];
      InsertByLength(keys[0], SortByLength(keys[1..]))
  }

  // ---------------------------------------------------------------------
  // Substitution
  // ---------------------------------------------------------------------

  /**
   * One turn of the loop in `convertWithDictionary`: a key that is empty,
   * absent, mapped to an empty value or mapped to itself is skipped;
   * otherwise every occurrence of the key is replaced through the escaped
   * pattern.
   */
  function ApplyTerm(s: string, k: string, m: map<string, string>): string {
    if k == [] || k !in m || m[k] == [] || m[k] == k then s
    else
      EscapeIsLiteral(k);
      GlobalReplace(s, EscapeRegExp(k), m[k])
  }

  /** The terms of `order` applied one after the other, first to last. */
  function ApplyTerms(s: string, order: seq<string>, m: map<string, string>): string
    decreases |order|
  {
    if order == [] then s else ApplyTerms(ApplyTerm(s, order[0], m), order[1..], m)
  }

  /** A term that is applied replaces every occurrence of itself, exactly as `split(k).join(v)` does. */
  lemma ApplyTermIsSplitJoin(s: string, k: string, m: map<string, string>)
    requires k != [] && k in m && m[k] != []
    ensures ApplyTerm(s, k, m) == Join(Split(s, k), m[k])
  {
    EscapeIsLiteral(k);
    if m[k] == k {
      SplitJoinRoundTrip(s, k);
    } else {
      ReplaceAllIsSplitJoin(s, k, m[k]);
    }
  }

  /** Skipping a self-mapped pair is only a shortcut: replacing the key by itself would leave the text as it is. */
  lemma SelfMappedTermIsNoOp(s: string, k: string, m: map<string, string>)
    requires k != [] && k in m && m[k] == k
    ensures ReplaceAll(s, k, m[k]) == s
    ensures ApplyTerm(s, k, m) == s
  {
    ReplaceAllSelf(s, k);
  }

  /** With no entries, substitution leaves any text unchanged, whatever key order (even a stale one) is used. */
  lemma {:induction false} ApplyTermsEmptyDictionary(s: string, order: seq<string>)
    ensures ApplyTerms(s, order, map[]) == s
    decreases |order|
  {
    if order != [] {
      ApplyTermsEmptyDictionary(s, order[1..]);
    }
  }

  /** The dictionary leaves an empty text empty. */
  lemma {:induction false} ApplyTermsEmptyText(order: seq<string>, terms: map<string, string>)
    ensures ApplyTerms([], order, terms) == []
    decreases |order|
  {
    if order != [] {
      var k := order[0];
      if !(k == [] || k !in terms || terms[k] == [] || terms[k] == k) {
        EscapeIsLiteral(k);
      }
      assert ApplyTerm([], k, terms) == [];
      ApplyTermsEmptyText(order[1..], terms);
    }
  }

  /**
   * Substitution only consults the entries of the keys in the order it is
   * given: entries added or changed for other keys are ignored. This is
   * what a stale cached order does after a failed save.
   */
  lemma {:induction false} ApplyTermsAgreeOnOrder(s: string, order: seq<string>, m1: map<string, string>, m2: map<string, string>)
    requires forall k :: k in order ==> (k in m1 <==> k in m2) && (k in m1 ==> m1[k] == m2[k])
    ensures ApplyTerms(s, order, m1) == ApplyTerms(s, order, m2)
    decreases |order|
  {
    if order != [] {
      assert order[0] in order;
      assert forall k :: k in order[1..] ==> k in order;
      ApplyTermsAgreeOnOrder(ApplyTerm(s, order[0], m1), order[1..], m1, m2);
    }
  }

  /** A key order of a two-key dictionary with keys of different lengths is forced: longer key first. */
  lemma TwoKeyOrder(order: seq<string>, long: string, short: string)
    requires |long| > |short|
    requires IsMatchOrder(order, {long, short})
    ensures order == [long, short]
  {
    assert |multiset(order)| == |order|;
    assert |multiset({long, short})| == 2;
    assert |order| == 2;
    assert order == [order[0], order[1]];
    assert multiset(order) == multiset{order[0], order[1]};
    assert order[0] in multiset({long, short}) && order[1] in multiset({long, short});
  }

  /** A two-term order applies the first term, then the second. */
  lemma ApplyTwoTerms(s: string, a: string, b: string, m: map<string, string>)
    ensures ApplyTerms(s, [a, b], m) == ApplyTerm(ApplyTerm(s, a, m), b, m)
  {
    var t := ApplyTerm(s, a, m);
    assert [a, b][0] == a && [a, b][1..] == [b];
    assert ApplyTerms(s, [a, b], m) == ApplyTerms(t, [b], m);
    assert [b][0] == b && [b][1..] == [];
    assert ApplyTerms(t, [b], m) == ApplyTerms(ApplyTerm(t, b, m), [], m);
  }

  /** A term with a non-empty value other than itself is replaced everywhere. */
  lemma ApplyTermReplaces(s: string, k: string, m: map<string, string>)
    requires k != [] && k in m && m[k] != [] && m[k] != k
    ensures ApplyTerm(s, k, m) == ReplaceAll(s, k, m[k])
  {
    EscapeIsLiteral(k);
  }

  /**
   * Longer terms go first: with "設置"→"設定" and "置"→"Y", the text
   * "設置檔案" becomes "設定檔案"; applying the shorter term first would
   * have produced "設Y檔案".
   */
  lemma LongerTermTakesPrecedence(order: seq<string>)
    requires IsMatchOrder(order, {"設置", "置"})
    ensures ApplyTerms("設置檔案", order, map["設置" := "設定", "置" := "Y"]) == "設定檔案"
    ensures ApplyTerms("設置檔案", ["置", "設置"], map["設置" := "設定", "置" := "Y"]) == "設Y檔案"
  {
    var m := map["設置" := "設定", "置" := "Y"];
    TwoKeyOrder(order, "設置", "置");
    ApplyTwoTerms("設置檔案", "設置", "置", m);
    ApplyTwoTerms("設置檔案", "置", "設置", m);
    ApplyTermReplaces("設置檔案", "設置", m);
    ApplyTermReplaces("設定檔案", "置", m);
    ApplyTermReplaces("設置檔案", "置", m);
    ApplyTermReplaces("設Y檔案", "設置", m);
    ReplaceLongTerm();
    ReplaceAllWithoutFirstChar("設定檔案", "置", "Y");
    ReplaceShortTerm();
    ReplaceLongTermAfterShort();
  }

  lemma ReplaceLongTermAfterShort()
    ensures ReplaceAll("設Y檔案", "設置", "設定") == "設Y檔案"
  {
    ReplaceAllWithoutFirstChar("Y檔案", "設置", "設定");
    assert "設Y檔案"[..2][1] != "設置"[1];
    assert "設Y檔案"[1..] == "Y檔案";
  }

  lemma ReplaceLongTerm()
    ensures ReplaceAll("設置檔案", "設置", "設定") == "設定檔案"
  {
  }

  lemma ReplaceShortTerm()
    ensures ReplaceAll("設置檔案", "置", "Y") == "設Y檔案"
  {
  }

  /**
   * Replacements are scanned again by the shorter terms that follow: with
   * "設置"→"設定" and "設"→"X", "設置檔案" becomes "X定檔案", because the
   * "設" inside the inserted "設定" is replaced too.
   */
  lemma ReplacementsAreRescanned(order: seq<string>)
    requires IsMatchOrder(order, {"設置", "設"})
    ensures ApplyTerms("設置檔案", order, map["設置" := "設定", "設" := "X"]) == "X定檔案"
  {
    var m := map["設置" := "設定", "設" := "X"];
    TwoKeyOrder(order, "設置", "設");
    ApplyTwoTerms("設置檔案", "設置", "設", m);
    ApplyTermReplaces("設置檔案", "設置", m);
    ApplyTermReplaces("設定檔案", "設", m);
    ReplaceLongTerm();
    ReplaceShortTermInReplacement();
  }

  lemma ReplaceShortTermInReplacement()
    ensures ReplaceAll("設定檔案", "設", "X") == "X定檔案"
  {
    ReplaceAllWithoutFirstChar("定檔案", "設", "X");
    assert "設定檔案"[..1] == "設" && "設定檔案"[1..] == "定檔案";
  }

  /**
   * Substitution is not idempotent even when no replacement is also a key:
   * with "ab"→"a", "abb" becomes "ab" and a second pass gives "a".
   */
  lemma SubstitutionNotIdempotent(order: seq<string>)
    requires IsMatchOrder(order, {"ab"})
    ensures ApplyTerms("abb", order, map["ab" := "a"]) == "ab"
    ensures ApplyTerms("ab", order, map["ab" := "a"]) == "a"
  {
    var m := map["ab" := "a"];
    assert |multiset(order)| == |order| == 1;
    assert order[0] in multiset({"ab"});
    assert order == ["ab"];
    assert ["ab"][1..] == [];
    ApplyTermReplaces("abb", "ab", m);
    ApplyTermReplaces("ab", "ab", m);
    assert ReplaceAll("abb", "ab", "a") == "ab" by {
      assert ReplaceAll("b", "ab", "a") == "b";
      assert "abb"[..2] == "ab" && "abb"[2..] == "b";
    }
    assert ReplaceAll("ab", "ab", "a") == "a" by {
      assert ReplaceAll("", "ab", "a") == "";
      assert "ab"[..2] == "ab" && "ab"[2..] == "";
    }
  }

  // ---------------------------------------------------------------------
  // Merging
  // ---------------------------------------------------------------------

  /** The pairs a merge takes: all of them, or (for an import) only those with a non-empty key and value. */
  function Eligible(incoming: map<string, string>, skipEmpty: bool): (e: map<string, string>)
    ensures e.Keys <= incoming.Keys
    ensures forall k :: k in e ==> e[k] == incoming[k]
  {
    map k | k in incoming && (!skipEmpty || (k != [] && incoming[k] != [])) :: incoming[k]
  }

  /** Keys a merge of `incoming` into `current` counts as new. */
  ghost function AddedKeys(current: map<string, string>, incoming: map<string, string>): set<string> {
    set k | k in incoming && k !in current
  }

  /** Keys a merge of `incoming` into `current` counts as updated. */
  ghost function UpdatedKeys(current: map<string, string>, incoming: map<string, string>): set<string> {
    set k | k in incoming && k in current && current[k] != incoming[k]
  }

  /** A merge grows the dictionary by exactly the number of keys it reports as new. */
  lemma MergeGrowsByAdded(current: map<string, string>, incoming: map<string, string>)
    ensures |(current + incoming).Keys| == |current.Keys| + |AddedKeys(current, incoming)|
  {
    var added := AddedKeys(current, incoming);
    assert (current + incoming).Keys == current.Keys + added;
    assert current.Keys !! added;
  }

  /**
   * Merging the same pairs a second time reports nothing new and nothing
   * updated; so does importing an export of the dictionary into itself.
   */
  lemma RemergeReportsNothing(current: map<string, string>, incoming: map<string, string>)
    ensures AddedKeys(current + incoming, incoming) == {}
    ensures UpdatedKeys(current + incoming, incoming) == {}
    ensures AddedKeys(current, current) == {} && UpdatedKeys(current, current) == {}
  {
  }

  /** The sequence of merges {"a":"1"}, {"a":"2"}, {"a":"2"} into an empty dictionary reports (1,0), (0,1), (0,0). */
  lemma MergeSequenceCounts()
    ensures AddedKeys(map[], map["a" := "1"]) == {"a"}
    ensures UpdatedKeys(map[], map["a" := "1"]) == {}
    ensures AddedKeys(map["a" := "1"], map["a" := "2"]) == {}
    ensures UpdatedKeys(map["a" := "1"], map["a" := "2"]) == {"a"}
    ensures AddedKeys(map["a" := "2"], map["a" := "2"]) == {}
    ensures UpdatedKeys(map["a" := "2"], map["a" := "2"]) == {}
  {
  }

  // ---------------------------------------------------------------------
  // The dictionary object
  // ---------------------------------------------------------------------

  /** What reading the store can give: nothing saved, text that does not parse, or a saved mapping. */
  datatype StoreRead = Absent | Malformed | Saved(saved: map<string, string>)

  /**
   * The page the dictionary finds when it starts: no entries panel; a panel
   * but no first refresh, because a required editor element is missing or
   * wiring the event listeners fails (the import button is not among the
   * required elements); or the full editor, whose panel is refreshed at once.
   */
  datatype Page = NoPanel | PartialEditor | FullEditor

  /**
   * The cache after a panel refresh, given the cache before it: without a
   * panel nothing happens; with one, a cached order is kept and a missing
   * one is filled with a longest-first order of the keys.
   */
  ghost predicate Refreshed(before: Option<seq<string>>, after: Option<seq<string>>, keys: set<string>, panel: bool) {
    if !panel then after == before
    else after.Some? && (before.Some? ==> after == before) && (before.None? ==> IsMatchOrder(after.value, keys))
  }

  datatype DictStats = DictStats(entryCount: nat, isEmpty: bool, hasCustomEntries: bool)

  datatype MergeCounts = MergeCounts(added: nat, updated: nat)

  /**
   * `CustomDictionary`. `entries` is the mapping, `sortedCache` the cached
   * key order (`None` for JavaScript's `null`), and `persisted` the mapping
   * this instance last wrote to the store, if any. Every write to the store
   * is given as a flag saying whether the store accepted it.
   */
  class TermDictionary {
    var entries: map<string, string>
    var sortedCache: Option<seq<string>>
    var persisted: Option<map<string, string>>
    /** Whether the page has the entries panel that `updateDictionaryUI` fills. */
    const panel: bool

    /** A cached order, fresh or stale, is always longest first. */
    ghost predicate Valid()
      reads this`sortedCache
    {
      sortedCache.Some? ==> LongestFirst(sortedCache.value)
    }

    /** The cache is empty or is an order of exactly the current keys. */
    ghost predicate CacheFresh()
      reads this`sortedCache, this`entries
    {
      sortedCache.None? || IsMatchOrder(sortedCache.value, entries.Keys)
    }

    /**
     * The constructor starts empty, loads whatever the store holds and, when
     * the full editor is on the page, refreshes the panel.
     */
    constructor (stored: StoreRead, page: Page)
      ensures Valid() && CacheFresh()
      ensures panel == (page != NoPanel)
      ensures entries == (if stored.Saved? then stored.saved else map[])
      ensures persisted.None? && Refreshed(None, sortedCache, entries.Keys, page == FullEditor)
    {
      entries := map[];
      sortedCache := None;
      persisted := None;
      panel := page != NoPanel;
      new;
      LoadFromStorage(stored);
      if page == FullEditor {
        RefreshPanel();
      }
    }

    /**
     * `loadFromStorage`: a saved mapping replaces the entries and resets the
     * cache; nothing saved changes nothing; text that does not parse empties
     * the entries and leaves the cache as it was.
     */
    method LoadFromStorage(stored: StoreRead)
      requires Valid()
      modifies this`entries, this`sortedCache
      ensures Valid()
      ensures stored.Absent? ==> entries == old(entries) && sortedCache == old(sortedCache)
      ensures stored.Saved? ==> entries == stored.saved && sortedCache.None?
      ensures stored.Malformed? ==> entries == map[] && sortedCache == old(sortedCache)
    {
      match stored
      case Absent =>
      case Saved(m) =>
        entries := m;
        sortedCache := None;
      case Malformed =>
        entries := map[];
    }

    /** `saveToStorage`: an accepted write stores the entries and resets the cache; a rejected one changes nothing. */
    method SaveToStorage(writeOk: bool)
      requires Valid()
      modifies this`sortedCache, this`persisted
      ensures Valid()
      ensures writeOk ==> persisted == Some(entries) && sortedCache.None? && CacheFresh()
      ensures !writeOk ==> persisted == old(persisted) && sortedCache == old(sortedCache)
    {
      if writeOk {
        persisted := Some(entries);
        sortedCache := None;
      }
    }

    /**
     * `getSortedEntries`: returns the cached order when there is one;
     * otherwise sorts the current keys longest first and caches the result.
     */
    method GetSortedEntries() returns (order: seq<string>)
      requires Valid()
      modifies this`sortedCache
      ensures Valid()
      ensures sortedCache == Some(order) && LongestFirst(order)
      ensures old(sortedCache).Some? ==> order == old(sortedCache).value
      ensures old(sortedCache).None? ==> IsMatchOrder(order, entries.Keys)
      ensures old(CacheFresh()) ==> IsMatchOrder(order, entries.Keys) && CacheFresh()
    {
      if sortedCache.Some? {
        return sortedCache.value;
      }
      // Object.keys: the keys in some order.
      var keys: seq<string> := [];
      var rest := entries.Keys;
      while rest != {}
        invariant rest <= entries.Keys
        invariant multiset(keys) + multiset(rest) == multiset(entries.Keys)
        decreases rest
      {
        var k :| k in rest;
        assert rest == (rest - {k}) + {k};
        assert multiset(rest) == multiset(rest - {k}) + multiset{k};
        keys := keys + [k];
        rest := rest - {k};
      }
      order := SortByLength(keys);
      sortedCache := Some(order);
    }

    /**
     * `updateDictionaryUI`, for its effect on the cache: with a panel on the
     * page it lists the keys through `getSortedEntries`, which fills the
     * cache when it is empty.
     */
    method RefreshPanel()
      requires Valid()
      modifies this`sortedCache
      ensures Valid()
      ensures Refreshed(old(sortedCache), sortedCache, entries.Keys, panel)
      ensures old(CacheFresh()) ==> CacheFresh()
    {
      if panel {
        var shown := GetSortedEntries();
      }
    }

    /**
     * `convertWithDictionary`: an empty text is returned as it is;
     * otherwise the terms are applied in the (possibly cached) longest-first
     * order.
     */
    method ConvertWithDictionary(text: string) returns (r: string)
      requires Valid()
      modifies this`sortedCache
      ensures Valid()
      ensures text == [] ==> r == text && sortedCache == old(sortedCache)
      ensures text != [] ==> sortedCache.Some? && r == ApplyTerms(text, sortedCache.value, entries)
      ensures old(sortedCache).Some? ==> sortedCache == old(sortedCache)
      ensures old(sortedCache).None? && text != [] ==> IsMatchOrder(sortedCache.value, entries.Keys)
      ensures old(CacheFresh()) ==> CacheFresh()
      ensures entries == map[] ==> r == text
    {
      if text == [] {
        return text;
      }
      var order := GetSortedEntries();
      if |order| == 0 {
        return text;
      }
      r := text;
      var i := 0;
      while i < |order|
        invariant 0 <= i <= |order| && sortedCache == Some(order)
        invariant ApplyTerms(r, order[i..], entries) == ApplyTerms(text, order, entries)
      {
        var key := order[i];
        assert order[i..][0] == key && order[i..][1..] == order[i + 1..];
        if key != [] && key in entries {
          var value := entries[key];
          if value != [] && value != key {
            EscapeIsLiteral(key);
            r := GlobalReplace(r, EscapeRegExp(key), value);
          }
        }
        i := i + 1;
      }
      ApplyTermsEmptyDictionary(text, order);
    }

    /**
     * `addEntry`: both inputs are trimmed; an empty one, or a pair already
     * present, is refused without any change; otherwise the term is mapped
     * to the replacement (overwriting an old value) and the entries saved.
     */
    method AddEntry(termInput: string, replacementInput: string, writeOk: bool) returns (ok: bool)
      requires Valid()
      modifies this
      ensures Valid()
      ensures ok == (Trim(termInput) != [] && Trim(replacementInput) != []
                     && !(Trim(termInput) in old(entries) && old(entries)[Trim(termInput)] == Trim(replacementInput)))
      ensures !ok ==> entries == old(entries) && sortedCache == old(sortedCache) && persisted == old(persisted)
      ensures ok ==> entries == old(entries)[Trim(termInput) := Trim(replacementInput)]
      ensures ok && writeOk ==> persisted == Some(entries) && Refreshed(None, sortedCache, entries.Keys, panel)
      ensures ok && !writeOk ==> persisted == old(persisted) && Refreshed(old(sortedCache), sortedCache, entries.Keys, panel)
    {
      var term := Trim(termInput);
      var replacement := Trim(replacementInput);
      if term != [] && replacement != [] {
        if term in entries && entries[term] == replacement {
          return false;
        }
        entries := entries[term := replacement];
        SaveToStorage(writeOk);
        RefreshPanel();
        return true;
      }
      return false;
    }

    /** `removeEntry`: a key whose value is non-empty is deleted and the entries saved; otherwise nothing changes. */
    method RemoveEntry(key: string, writeOk: bool) returns (ok: bool)
      requires Valid()
      modifies this
      ensures Valid()
      ensures ok == (key in old(entries) && old(entries)[key] != [])
      ensures !ok ==> entries == old(entries) && sortedCache == old(sortedCache) && persisted == old(persisted)
      ensures ok ==> entries == old(entries) - {key} && |entries| == |old(entries)| - 1
      ensures ok && writeOk ==> persisted == Some(entries) && Refreshed(None, sortedCache, entries.Keys, panel)
      ensures ok && !writeOk ==> persisted == old(persisted) && Refreshed(old(sortedCache), sortedCache, entries.Keys, panel)
    {
      if key in entries && entries[key] != [] {
        entries := entries - {key};
        SaveToStorage(writeOk);
        RefreshPanel();
        return true;
      }
      return false;
    }

    /**
     * `addEntries`: no object adds nothing; otherwise every pair with a
     * non-empty key and value is stored, their number is returned, and the
     * entries are saved only when that number is positive.
     */
    method AddEntries(incoming: Option<map<string, string>>, writeOk: bool) returns (count: nat)
      requires Valid()
      modifies this
      ensures Valid()
      ensures incoming.None? ==> count == 0
      ensures incoming.Some? ==> count == |Eligible(incoming.value, true)|
      ensures incoming.Some? ==> entries == old(entries) + Eligible(incoming.value, true)
      ensures incoming.None? ==> entries == old(entries)
      ensures count == 0 ==> sortedCache == old(sortedCache) && persisted == old(persisted)
      ensures count > 0 && writeOk ==> persisted == Some(entries) && Refreshed(None, sortedCache, entries.Keys, panel)
      ensures count > 0 && !writeOk ==> persisted == old(persisted) && Refreshed(old(sortedCache), sortedCache, entries.Keys, panel)
    {
      if incoming.None? {
        return 0;
      }
      var merged;
      merged, count := AddPairs(entries, incoming.value);
      entries := merged;
      if count > 0 {
        SaveToStorage(writeOk);
        RefreshPanel();
      }
    }

    /** `clearDictionary`: an empty dictionary is left alone; otherwise it is emptied and saved. */
    method ClearDictionary(writeOk: bool) returns (ok: bool)
      requires Valid()
      modifies this
      ensures Valid()
      ensures ok == (|old(entries)| != 0)
      ensures !ok ==> entries == old(entries) && sortedCache == old(sortedCache) && persisted == old(persisted)
      ensures ok ==> entries == map[]
      ensures ok && writeOk ==> persisted == Some(map[]) && Refreshed(None, sortedCache, {}, panel)
      ensures ok && !writeOk ==> persisted == old(persisted) && Refreshed(old(sortedCache), sortedCache, {}, panel)
    {
      if |entries| == 0 {
        return false;
      }
      entries := map[];
      SaveToStorage(writeOk);
      RefreshPanel();
      return true;
    }

    /**
     * The merge loop shared by `importDictionary` (which skips pairs with an
     * empty key or value) and `loadDefaultDictionary` (which takes every
     * pair): each pair taken overwrites its key; a key that was absent counts
     * as added, a key present with another value as updated; the entries are
     * saved once at the end.
     */
    method Merge(incoming: map<string, string>, skipEmpty: bool, writeOk: bool) returns (counts: MergeCounts)
      requires Valid()
      modifies this
      ensures Valid()
      ensures entries == old(entries) + Eligible(incoming, skipEmpty)
      ensures counts.added == |AddedKeys(old(entries), Eligible(incoming, skipEmpty))|
      ensures counts.updated == |UpdatedKeys(old(entries), Eligible(incoming, skipEmpty))|
      ensures writeOk ==> persisted == Some(entries) && Refreshed(None, sortedCache, entries.Keys, panel)
      ensures !writeOk ==> persisted == old(persisted) && Refreshed(old(sortedCache), sortedCache, entries.Keys, panel)
    {
      var merged, added, updated := MergePairs(entries, incoming, skipEmpty);
      entries := merged;
      SaveToStorage(writeOk);
      RefreshPanel();
      counts := MergeCounts(added, updated);
    }

    /** `importDictionary`: an unreadable or unparsable file changes nothing; a parsed object is merged, skipping empty keys and values. */
    method ImportDictionary(parsed: Option<map<string, string>>, writeOk: bool) returns (report: Option<MergeCounts>)
      requires Valid()
      modifies this
      ensures Valid()
      ensures parsed.None? ==> report.None? && entries == old(entries) && sortedCache == old(sortedCache) && persisted == old(persisted)
      ensures parsed.Some? ==> report.Some? && entries == old(entries) + Eligible(parsed.value, true)
      ensures parsed.Some? ==> report.value.added == |AddedKeys(old(entries), Eligible(parsed.value, true))|
      ensures parsed.Some? ==> report.value.updated == |UpdatedKeys(old(entries), Eligible(parsed.value, true))|
      ensures parsed.Some? && writeOk ==> persisted == Some(entries) && Refreshed(None, sortedCache, entries.Keys, panel)
      ensures parsed.Some? && !writeOk ==> persisted == old(persisted) && Refreshed(old(sortedCache), sortedCache, entries.Keys, panel)
    {
      if parsed.None? {
        return None;
      }
      var counts := Merge(parsed.value, true, writeOk);
      return Some(counts);
    }

    /** `loadDefaultDictionary`: a failed fetch changes nothing; the fetched object is merged pair by pair, empty ones included. */
    method LoadDefaultDictionary(fetched: Option<map<string, string>>, writeOk: bool) returns (report: Option<MergeCounts>)
      requires Valid()
      modifies this
      ensures Valid()
      ensures fetched.None? ==> report.None? && entries == old(entries) && sortedCache == old(sortedCache) && persisted == old(persisted)
      ensures fetched.Some? ==> report.Some? && entries == old(entries) + fetched.value
      ensures fetched.Some? ==> report.value.added == |AddedKeys(old(entries), fetched.value)|
      ensures fetched.Some? ==> report.value.updated == |UpdatedKeys(old(entries), fetched.value)|
      ensures fetched.Some? && writeOk ==> persisted == Some(entries) && Refreshed(None, sortedCache, entries.Keys, panel)
      ensures fetched.Some? && !writeOk ==> persisted == old(persisted) && Refreshed(old(sortedCache), sortedCache, entries.Keys, panel)
    {
      if fetched.None? {
        return None;
      }
      assert Eligible(fetched.value, false) == fetched.value;
      var counts := Merge(fetched.value, false, writeOk);
      return Some(counts);
    }

    /** `getStats`: the number of keys, whether it is zero, and whether it is positive. */
    function GetStats(): (r: DictStats)
      reads this
      ensures r.entryCount == |entries|
      ensures r.isEmpty <==> |entries| == 0
      ensures r.hasCustomEntries <==> |entries| > 0
    {
      var n := |entries|;
      if n == 0 then DictStats(0, true, false) else DictStats(n, false, true)
    }
  }

  /**
   * After a rejected write the full editor's panel decides what a
   * conversion sees: the order shown at start-up (no keys) stays cached, so
   * the new pair "a"→"b" is not applied.
   */
  method PanelKeepsShownOrder() returns (r: string)
    ensures r == "a"
  {
    var d := new TermDictionary(Absent, FullEditor);
    var ok := d.AddEntry("a", "b", false);
    r := d.ConvertWithDictionary("a");
  }

  /** With no panel the same rejected write leaves no order cached, so the conversion sorts afresh and applies "a"→"b". */
  method NoPanelSortsAfresh() returns (r: string)
    ensures r == "b"
  {
    var d := new TermDictionary(Absent, NoPanel);
    TrimKeepsWord();
    var ok := d.AddEntry("a", "b", false);
    assert d.entries == map["a" := "b"];
    r := d.ConvertWithDictionary("a");
    OnlyKeyApplied(d.sortedCache.value);
  }

  /** "a" and "b" have no whitespace to trim. */
  lemma TrimKeepsWord()
    ensures Trim("a") == "a" && Trim("b") == "b"
  {
    assert !IsJsWhitespace('a') && !IsJsWhitespace('b');
  }

  /** The only order of the single key "a" applies "a"→"b" to the text "a". */
  lemma OnlyKeyApplied(order: seq<string>)
    requires IsMatchOrder(order, {"a"})
    ensures ApplyTerms("a", order, map["a" := "b"]) == "b"
  {
    assert order[0] in multiset(order);
    assert order == ["a"];
    ApplyTermReplaces("a", "a", map["a" := "b"]);
    assert ReplaceAll("a", "a", "b") == "b";
  }

  /**
   * The loop of `addEntries`, on a copy of the entries: every pair with a
   * non-empty key and value overwrites its key, and they are counted.
   */
  method AddPairs(current: map<string, string>, pairs: map<string, string>)
    returns (merged: map<string, string>, count: nat)
    ensures merged == current + Eligible(pairs, true)
    ensures count == |Eligible(pairs, true)|
  {
    ghost var eligible := Eligible(pairs, true);
    merged := current;
    count := 0;
    var rest := pairs.Keys;
    ghost var done: set<string> := {};
    NothingTakenYet(current, eligible, pairs.Keys);
    while rest != {}
      invariant rest <= pairs.Keys && done == pairs.Keys - rest
      invariant merged == current + Restrict(eligible, done)
      invariant count == |Restrict(eligible, done)|
      decreases rest
    {
      var key :| key in rest;
      var value := pairs[key];
      AddLoopStep(current, pairs, eligible, done, rest, key, merged, count);
      if key != [] && value != [] {
        merged := merged[key := value];
        count := count + 1;
      }
      rest := rest - {key};
      done := done + {key};
    }
    assert done == pairs.Keys;
    RestrictToAll(eligible, done);
  }

  /**
   * The merge loop of `importDictionary` and `loadDefaultDictionary`, on a
   * copy of the entries: each pair taken overwrites its key, counted as
   * added when the key was absent and as updated when it held another value.
   */
  method MergePairs(current: map<string, string>, incoming: map<string, string>, skipEmpty: bool)
    returns (merged: map<string, string>, added: nat, updated: nat)
    ensures merged == current + Eligible(incoming, skipEmpty)
    ensures added == |AddedKeys(current, Eligible(incoming, skipEmpty))|
    ensures updated == |UpdatedKeys(current, Eligible(incoming, skipEmpty))|
  {
    ghost var eligible := Eligible(incoming, skipEmpty);
    merged := current;
    added, updated := 0, 0;
    var rest := incoming.Keys;
    ghost var done: set<string> := {};
    NothingTakenYet(current, eligible, incoming.Keys);
    while rest != {}
      invariant rest <= incoming.Keys && done == incoming.Keys - rest
      invariant MergedSoFar(current, eligible, done, merged, added, updated)
      decreases rest
    {
      var key :| key in rest;
      merged, added, updated := MergeOne(current, incoming, skipEmpty, eligible, done, rest, key, merged, added, updated);
      rest := rest - {key};
      done := done + {key};
    }
    MergedAll(current, eligible, incoming.Keys, rest, done, merged, added, updated);
  }

  /** Once every key is visited, the loop's invariant is the merge of all eligible pairs. */
  lemma MergedAll(current: map<string, string>, eligible: map<string, string>, keys: set<string>, rest: set<string>,
                  done: set<string>, merged: map<string, string>, added: nat, updated: nat)
    requires eligible.Keys <= keys && rest == {} && done == keys - rest
    requires MergedSoFar(current, eligible, done, merged, added, updated)
    ensures merged == current + eligible
    ensures added == |AddedKeys(current, eligible)| && updated == |UpdatedKeys(current, eligible)|
  {
    RestrictToAll(eligible, done);
  }

  /** The merge loop's invariant: `merged` and the counts are those of merging the eligible pairs under the keys in `done`. */
  ghost predicate MergedSoFar(current: map<string, string>, eligible: map<string, string>, done: set<string>,
                              merged: map<string, string>, added: nat, updated: nat) {
    && merged == current + Restrict(eligible, done)
    && added == |AddedKeys(current, Restrict(eligible, done))|
    && updated == |UpdatedKeys(current, Restrict(eligible, done))|
  }

  /** One turn of the merge loop: the pair under `key` is taken if eligible, and counted as new or updated. */
  method MergeOne(current: map<string, string>, incoming: map<string, string>, skipEmpty: bool,
                  ghost eligible: map<string, string>, ghost done: set<string>, ghost rest: set<string>, key: string,
                  merged: map<string, string>, added: nat, updated: nat)
    returns (merged': map<string, string>, added': nat, updated': nat)
    requires eligible == Eligible(incoming, skipEmpty)
    requires rest <= incoming.Keys && done == incoming.Keys - rest && key in rest
    requires MergedSoFar(current, eligible, done, merged, added, updated)
    ensures rest - {key} <= incoming.Keys && done + {key} == incoming.Keys - (rest - {key})
    ensures MergedSoFar(current, eligible, done + {key}, merged', added', updated')
  {
    var value := incoming[key];
    MergeLoopStep(current, incoming, skipEmpty, eligible, done, rest, key, merged, added, updated);
    merged', added', updated' := merged, added, updated;
    if !skipEmpty || (key != [] && value != []) {
      if key !in merged {
        added' := added + 1;
      } else if merged[key] != value {
        updated' := updated + 1;
      }
      merged' := merged[key := value];
    }
  }

  /** The pairs of `m` whose keys are in `keys`. */
  function Restrict(m: map<string, string>, keys: set<string>): map<string, string>
  {
    map k | k in m && k in keys :: m[k]
  }

  /** Restricting to a superset of the keys changes nothing. */
  lemma RestrictToAll(e: map<string, string>, keys: set<string>)
    requires e.Keys <= keys
    ensures Restrict(e, keys) == e
  {
  }

  /** Taking one more key: the pairs taken grow by that key exactly when `e` has it. */
  lemma TakeStep(e: map<string, string>, done: set<string>, key: string)
    requires key !in done
    ensures key in e ==> Restrict(e, done + {key}) == Restrict(e, done)[key := e[key]] && key !in Restrict(e, done)
    ensures key !in e ==> Restrict(e, done + {key}) == Restrict(e, done)
  {
  }

  /** The keys visited grow by the key just taken from those remaining. */
  lemma VisitStep(all: set<string>, rest: set<string>, key: string)
    requires key in rest && rest <= all
    ensures all - (rest - {key}) == (all - rest) + {key}
    ensures key !in all - rest
  {
  }

  /** Overwriting one key of a union is overwriting it in the right operand. */
  lemma UnionUpdate(before: map<string, string>, taken: map<string, string>, key: string, value: string)
    ensures before + taken[key := value] == (before + taken)[key := value]
  {
  }

  /** Before the first turn of a merge loop nothing is taken, added or updated. */
  lemma NothingTakenYet(current: map<string, string>, eligible: map<string, string>, keys: set<string>)
    ensures keys - keys == {}
    ensures current + Restrict(eligible, {}) == current && |Restrict(eligible, {})| == 0
    ensures MergedSoFar(current, eligible, {}, current, 0, 0)
  {
    assert Restrict(eligible, {}) == map[];
    assert AddedKeys(current, map[]) == {};
    assert UpdatedKeys(current, map[]) == {};
  }

  /** One turn of the loop of `AddPairs`: the invariant holds again for the keys visited so far plus `key`. */
  lemma AddLoopStep(current: map<string, string>, pairs: map<string, string>, eligible: map<string, string>,
                    done: set<string>, rest: set<string>, key: string, merged: map<string, string>, count: nat)
    requires eligible == Eligible(pairs, true)
    requires rest <= pairs.Keys && done == pairs.Keys - rest && key in rest
    requires merged == current + Restrict(eligible, done) && count == |Restrict(eligible, done)|
    ensures rest - {key} <= pairs.Keys && done + {key} == pairs.Keys - (rest - {key})
    ensures key != [] && pairs[key] != [] ==>
      merged[key := pairs[key]] == current + Restrict(eligible, done + {key})
      && count + 1 == |Restrict(eligible, done + {key})|
    ensures !(key != [] && pairs[key] != []) ==>
      merged == current + Restrict(eligible, done + {key}) && count == |Restrict(eligible, done + {key})|
  {
    TakeStep(eligible, done, key);
    VisitStep(pairs.Keys, rest, key);
    UnionUpdate(current, Restrict(eligible, done), key, pairs[key]);
  }

  /** One turn of the loop of `MergePairs`: the invariant holds again for the keys visited so far plus `key`. */
  lemma MergeLoopStep(current: map<string, string>, incoming: map<string, string>, skipEmpty: bool,
                      eligible: map<string, string>, done: set<string>, rest: set<string>, key: string,
                      merged: map<string, string>, added: nat, updated: nat)
    requires eligible == Eligible(incoming, skipEmpty)
    requires rest <= incoming.Keys && done == incoming.Keys - rest && key in rest
    requires merged == current + Restrict(eligible, done)
    requires added == |AddedKeys(current, Restrict(eligible, done))|
    requires updated == |UpdatedKeys(current, Restrict(eligible, done))|
    ensures rest - {key} <= incoming.Keys && done + {key} == incoming.Keys - (rest - {key})
    ensures !skipEmpty || (key != [] && incoming[key] != []) ==>
      merged[key := incoming[key]] == current + Restrict(eligible, done + {key})
      && added + (if key !in merged then 1 else 0) == |AddedKeys(current, Restrict(eligible, done + {key}))|
      && updated + (if key in merged && merged[key] != incoming[key] then 1 else 0)
         == |UpdatedKeys(current, Restrict(eligible, done + {key}))|
    ensures !(!skipEmpty || (key != [] && incoming[key] != [])) ==>
      merged == current + Restrict(eligible, done + {key})
      && added == |AddedKeys(current, Restrict(eligible, done + {key}))|
      && updated == |UpdatedKeys(current, Restrict(eligible, done + {key}))|
  {
    TakeStep(eligible, done, key);
    VisitStep(incoming.Keys, rest, key);
    var taken := Restrict(eligible, done);
    if !skipEmpty || (key != [] && incoming[key] != []) {
      AddedStep(current, taken, key, incoming[key]);
      UpdatedStep(current, taken, key, incoming[key]);
      UnionUpdate(current, taken, key, incoming[key]);
    }
  }

  /** How the set of added keys changes when one more pair is taken. */
  lemma AddedStep(before: map<string, string>, taken: map<string, string>, key: string, value: string)
    requires key !in taken
    ensures |AddedKeys(before, taken[key := value])| == |AddedKeys(before, taken)| + (if key in before then 0 else 1)
  {
    var a, a' := AddedKeys(before, taken), AddedKeys(before, taken[key := value]);
    var extra: set<string> := if key in before then {} else {key};
    forall x ensures x in a' <==> x in a + extra {
      assert x in taken[key := value] <==> x in taken || x == key;
    }
    assert a' == a + extra;
    assert a !! extra;
  }

  /** How the set of updated keys changes when one more pair is taken. */
  lemma UpdatedStep(before: map<string, string>, taken: map<string, string>, key: string, value: string)
    requires key !in taken
    ensures |UpdatedKeys(before, taken[key := value])|
            == |UpdatedKeys(before, taken)| + (if key in before && before[key] != value then 1 else 0)
  {
    var u, u' := UpdatedKeys(before, taken), UpdatedKeys(before, taken[key := value]);
    if key in before && before[key] != value {
      assert u' == u + {key};
      assert key !in u;
    } else {
      assert u' == u;
    }
  }
}
