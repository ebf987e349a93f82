/** The letter-substitution table used by keyword inclusion. */
module Leet {
  import opened Ascii

  /** Each listed lower-case letter maps to the characters accepted in its place. */
  const LeetMap: map<char, string> := map[
    'a' := "aA4",
    'b' := "bB8",
    'e' := "eE3",
    'i' := "iIl1",
    'l' := "lLi1",
    'o' := "oO0",
    's' := "sS5",
    't' := "tT7",
    'z' := "zZ2",
    'g' := "gG9",
    'k' := "kK",
    'p' := "pP",
    'r' := "rR",
    'n' := "nN",
    'm' := "mM",
    'c' := "cC",
    'd' := "dD",
    'y' := "yY",
    'h' := "hH",
    'v' := "vV"
  ]

  /** Keys are lower-case letters, and every entry lists its own letter in both cases. */
  lemma EntriesListBothCases(k: char)
    requires k in LeetMap
    ensures IsLower(k)
    ensures |LeetMap[k]| >= 2 && LeetMap[k][0] == k && LeetMap[k][1] == Upper(k)
    ensures k in LeetMap[k] && Upper(k) in LeetMap[k]
  {
  }

  /** Every entry holds only letters and digits, so `[entry]` is a plain character class. */
  lemma EntriesAreAlnum(k: char)
    requires k in LeetMap
    ensures IsAlnumString(LeetMap[k])
  {
  }

  /** These twenty letters, and no others, have an entry. */
  lemma TwentyLetters()
    ensures LeetMap.Keys == {'a', 'b', 'e', 'i', 'l', 'o', 's', 't', 'z', 'g',
                             'k', 'p', 'r', 'n', 'm', 'c', 'd', 'y', 'h', 'v'}
  {
  }
}
