/**
 * Keyword inclusion. The script turns the keyword into a regular expression
 * made of one `[...]` character class per keyword character and searches the
 * address for it; here the pattern is the sequence of those classes and the
 * search is the leftmost contiguous window whose characters lie in them.
 */
module Inclusion {
  import opened Wrappers
  import opened Ascii
  import opened VanityConfig
  import opened Leet

  /** The characters listed in a `[...]` class body. */
  function Chars(s: string): (r: set<char>)
    ensures forall c :: c in r <==> c in s
  {
    set c | c in s
  }

  /**
   * `char_class`: a table entry wins whenever substitution is on and the
   * lower-cased character has one; otherwise `register_accuracy` accepts both
   * cases; otherwise only the character itself.
   */
  function CharClass(cfg: Config, ch: char): (r: set<char>)
    requires IsAlnum(ch)
    ensures ch in r
    ensures !cfg.useLeet && !cfg.registerAccuracy ==> r == {ch}
    ensures !cfg.useLeet && cfg.registerAccuracy ==> forall c :: c in r <==> Lower(c) == Lower(ch)
    ensures cfg.useLeet && Lower(ch) in LeetMap ==> forall c :: c in r <==> c in LeetMap[Lower(ch)]
    ensures cfg.useLeet && Lower(ch) !in LeetMap && !cfg.registerAccuracy ==> r == {ch}
    ensures cfg.useLeet && Lower(ch) !in LeetMap && cfg.registerAccuracy ==>
              forall c :: c in r <==> Lower(c) == Lower(ch)
  {
    var key := Lower(ch);
    if cfg.useLeet && key in LeetMap && |LeetMap[key]| > 0 then
      EntriesListBothCases(key);
      SameLowerAlnum(ch);
      Chars(LeetMap[key])
    else if cfg.registerAccuracy then
      SameLowerAlnum(ch);
      {Lower(ch), Upper(ch)}
    else
      {ch}
  }

  /** For a letter or digit, `{ch.lower(), ch.upper()}` is its case-equivalence class. */
  lemma SameLowerAlnum(ch: char)
    requires IsAlnum(ch)
    ensures ch == Lower(ch) || ch == Upper(ch)
    ensures forall c :: Lower(c) == Lower(ch) <==> c == Lower(ch) || c == Upper(ch)
  {
    forall c ensures Lower(c) == Lower(ch) <==> c == Lower(ch) || c == Upper(ch) {
      SameLower(c, ch);
    }
  }

  /** The pattern `"".join(char_class(ch) for ch in keyword)`, one class per character. */
  function Pattern(cfg: Config, keyword: string): (p: seq<set<char>>)
    requires IsAlnumString(keyword)
    ensures |p| == |keyword|
    ensures forall j :: 0 <= j < |p| ==> keyword[j] in p[j]
  {
    seq(|keyword|, j requires 0 <= j < |keyword| => CharClass(cfg, keyword[j]))
  }

  /** The window of `s` starting at `i` matches the pattern class by class. */
  predicate MatchesAt(p: seq<set<char>>, s: string, i: int) {
    0 <= i && i + |p| <= |s| && forall j :: 0 <= j < |p| ==> s[i + j] in p[j]
  }

  /** `regex.search`: the start of the leftmost matching window at or after `from`. */
  function FirstWindow(p: seq<set<char>>, s: string, from: nat): (r: Option<nat>)
    ensures r.Some? ==> from <= r.value && MatchesAt(p, s, r.value)
    ensures r.Some? ==> forall i :: from <= i < r.value ==> !MatchesAt(p, s, i)
    ensures r.None? ==> forall i :: from <= i ==> !MatchesAt(p, s, i)
    decreases |s| - from
  {
    if from + |p| > |s| then None
    else if MatchesAt(p, s, from) then Some(from)
    else FirstWindow(p, s, from + 1)
  }

  /** The inclusion criterion: the search finds a match. */
  function Included(cfg: Config, address: string): (r: bool)
    requires IsAlnumString(cfg.keywordIncluded)
    ensures r <==> exists i :: MatchesAt(Pattern(cfg, cfg.keywordIncluded), address, i)
  {
    FirstWindow(Pattern(cfg, cfg.keywordIncluded), address, 0).Some?
  }

  /** The keyword verbatim at index `i` of `s`. */
  predicate OccursAt(keyword: string, s: string, i: int) {
    0 <= i && i + |keyword| <= |s| && s[i..i + |keyword|] == keyword
  }

  /** The keyword at index `i` of `s`, up to letter case. */
  predicate OccursFoldedAt(keyword: string, s: string, i: int) {
    0 <= i && i + |keyword| <= |s| && LowerString(s[i..i + |keyword|]) == LowerString(keyword)
  }

  /** The empty pattern matches at index 0 of every address. */
  lemma EmptyKeywordIncluded(cfg: Config, address: string)
    requires cfg.keywordIncluded == ""
    ensures Included(cfg, address)
  {
    assert MatchesAt(Pattern(cfg, cfg.keywordIncluded), address, 0);
  }

  /** A verbatim occurrence of the keyword is a matching window in every mode. */
  lemma {:induction false} LiteralKeywordIncluded(cfg: Config, address: string, i: int)
    requires IsAlnumString(cfg.keywordIncluded)
    requires OccursAt(cfg.keywordIncluded, address, i)
    ensures Included(cfg, address)
  {
    var k := cfg.keywordIncluded;
    var p := Pattern(cfg, k);
    forall j | 0 <= j < |p| ensures address[i + j] in p[j] {
      assert address[i + j] == address[i..i + |k|][j] == k[j];
    }
    assert MatchesAt(p, address, i);
  }

  /** Without substitution and with `register_accuracy` off, a window is a verbatim occurrence. */
  lemma PlainWindow(cfg: Config, address: string, i: int)
    requires IsAlnumString(cfg.keywordIncluded)
    requires !cfg.useLeet && !cfg.registerAccuracy
    ensures MatchesAt(Pattern(cfg, cfg.keywordIncluded), address, i) <==>
            OccursAt(cfg.keywordIncluded, address, i)
  {
    var k := cfg.keywordIncluded;
    var p := Pattern(cfg, k);
    if MatchesAt(p, address, i) {
      assert forall j :: 0 <= j < |k| ==> p[j] == {k[j]};
      assert address[i..i + |k|] == k by {
        forall j | 0 <= j < |k| ensures address[i..i + |k|][j] == k[j] {
          assert address[i + j] in p[j];
        }
      }
    }
    if OccursAt(k, address, i) {
      forall j | 0 <= j < |p| ensures address[i + j] in p[j] {
        assert address[i + j] == address[i..i + |k|][j];
      }
    }
  }

  /** Plain mode is ordinary case-sensitive substring containment. */
  lemma PlainSubstring(cfg: Config, address: string)
    requires IsAlnumString(cfg.keywordIncluded)
    requires !cfg.useLeet && !cfg.registerAccuracy
    ensures Included(cfg, address) <==> exists i :: OccursAt(cfg.keywordIncluded, address, i)
  {
    forall i ensures MatchesAt(Pattern(cfg, cfg.keywordIncluded), address, i) <==>
                     OccursAt(cfg.keywordIncluded, address, i) {
      PlainWindow(cfg, address, i);
    }
  }

  /** Without substitution and with `register_accuracy` on, a window is an occurrence up to case. */
  lemma FoldedWindow(cfg: Config, address: string, i: int)
    requires IsAlnumString(cfg.keywordIncluded)
    requires !cfg.useLeet && cfg.registerAccuracy
    ensures MatchesAt(Pattern(cfg, cfg.keywordIncluded), address, i) <==>
            OccursFoldedAt(cfg.keywordIncluded, address, i)
  {
    var k := cfg.keywordIncluded;
    var p := Pattern(cfg, k);
    if 0 <= i && i + |k| <= |address| {
      var w := address[i..i + |k|];
      assert forall j :: 0 <= j < |k| ==> w[j] == address[i + j];
      assert forall j :: 0 <= j < |k| ==> (address[i + j] in p[j] <==> Lower(w[j]) == Lower(k[j]));
      if MatchesAt(p, address, i) {
        assert LowerString(w) == LowerString(k) by {
          forall j | 0 <= j < |k| ensures LowerString(w)[j] == LowerString(k)[j] {
            assert address[i + j] in p[j];
          }
        }
      }
      if OccursFoldedAt(k, address, i) {
        forall j | 0 <= j < |p| ensures address[i + j] in p[j] {
          assert LowerString(w)[j] == LowerString(k)[j];
        }
      }
    }
  }

  /** `register_accuracy` on (and no substitution) is case-insensitive substring containment. */
  lemma CaseInsensitiveSubstring(cfg: Config, address: string)
    requires IsAlnumString(cfg.keywordIncluded)
    requires !cfg.useLeet && cfg.registerAccuracy
    ensures Included(cfg, address) <==> exists i :: OccursFoldedAt(cfg.keywordIncluded, address, i)
  {
    forall i ensures MatchesAt(Pattern(cfg, cfg.keywordIncluded), address, i) <==>
                     OccursFoldedAt(cfg.keywordIncluded, address, i) {
      FoldedWindow(cfg, address, i);
    }
  }

  /** With substitution on, a letter that has a table entry ignores `register_accuracy`. */
  lemma LeetOverridesCase(cfg: Config, ch: char)
    requires IsAlnum(ch) && cfg.useLeet && Lower(ch) in LeetMap
    ensures CharClass(cfg, ch) == CharClass(cfg.(registerAccuracy := !cfg.registerAccuracy), ch)
  {
  }

  /** With substitution on, `register_accuracy` matters only for characters without an entry. */
  lemma LeetIgnoresCaseSetting(cfg: Config, address: string)
    requires IsAlnumString(cfg.keywordIncluded) && cfg.useLeet
    requires forall j :: 0 <= j < |cfg.keywordIncluded| ==> Lower(cfg.keywordIncluded[j]) in LeetMap
    ensures Included(cfg, address) == Included(cfg.(registerAccuracy := !cfg.registerAccuracy), address)
  {
    var cfg' := cfg.(registerAccuracy := !cfg.registerAccuracy);
    var k := cfg.keywordIncluded;
    forall j | 0 <= j < |k| ensures Pattern(cfg, k)[j] == Pattern(cfg', k)[j] {
      LeetOverridesCase(cfg, k[j]);
    }
    assert Pattern(cfg, k) == Pattern(cfg', k);
  }
}
