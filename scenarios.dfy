/** Concrete configurations and addresses, with the filter's verdict on each. */
module Scenarios {
  import opened Wrappers
  import opened Ascii
  import opened VanityConfig
  import opened Palindrome
  import opened Inclusion
  import opened Filter

  /** A configuration with every criterion off. */
  function Unfiltered(): (c: Config)
    ensures !c.isIncluded && !c.isSimetric && !Configured(c.startWith) && !Configured(c.endWith)
  {
    Config(
      numProcesses := 1, showLog := false, logCount := 10000,
      isIncluded := false, keywordIncluded := "", registerAccuracy := false, useLeet := false,
      startWith := None, endWith := None, isSimetric := false, simetricDeep := 0,
      stopOnFound := true)
  }

  /** Case-sensitive inclusion of "Bad": the exact spelling passes. */
  lemma ExactKeyword()
    ensures Matches(Unfiltered().(isIncluded := true, keywordIncluded := "Bad"), "TBadExample123")
  {
    var cfg := Unfiltered().(isIncluded := true, keywordIncluded := "Bad");
    assert OccursAt("Bad", "TBadExample123", 1);
    PlainSubstring(cfg, "TBadExample123");
  }

  /** Case-sensitive inclusion of "Bad": a lower-case b does not pass. */
  lemma WrongCaseKeyword()
    ensures !Matches(Unfiltered().(isIncluded := true, keywordIncluded := "Bad"), "TbadExample123")
  {
    var cfg := Unfiltered().(isIncluded := true, keywordIncluded := "Bad");
    var a := "TbadExample123";
    var p := Pattern(cfg, "Bad");
    assert p[0] == {'B'};
    assert 'B' !in a;
    forall i ensures !MatchesAt(p, a, i) {
      if 0 <= i && i + |p| <= |a| {
        assert a[i] in a;
      }
    }
    assert !Included(cfg, a);
  }

  /** With substitution on, "8Ad" spells "Bad": `8` stands for b and `A` for a. */
  lemma LeetKeyword()
    ensures Matches(Unfiltered().(isIncluded := true, keywordIncluded := "Bad", useLeet := true), "T8Ad4Example")
  {
    var cfg := Unfiltered().(isIncluded := true, keywordIncluded := "Bad", useLeet := true);
    assert MatchesAt(Pattern(cfg, "Bad"), "T8Ad4Example", 1);
  }

  /** The shipped configuration accepts "BadBoy" written with substitutions. */
  lemma DefaultKeyword()
    ensures Matches(DefaultConfig(8), "TB4dB0yxyz")
  {
    var cfg := DefaultConfig(8);
    assert MatchesAt(Pattern(cfg, "BadBoy"), "TB4dB0yxyz", 1);
  }

  /** Depth 2: the centre X of "abXba" reaches two pairs; "TabcdeY" has no pair at all. */
  lemma SymmetricDepthTwo()
    ensures Matches(Unfiltered().(isSimetric := true, simetricDeep := 2), "TabXbaY")
    ensures !Matches(Unfiltered().(isSimetric := true, simetricDeep := 2), "TabcdeY")
  {
    var s := LowerString("TabXbaY");
    assert s == "tabxbay";
    assert OddPairs(s, 3) == 2;
    var t := LowerString("TabcdeY");
    assert t == "tabcdey";
    assert !HasShortRepeat(t);
    DepthOne(t);
    if HasPalindrome(t, 2) {
      MonotoneInDepth(t, 2, 1);
    }
  }

  /** `register_accuracy` on makes the palindrome test case-sensitive; off, it folds case. */
  lemma SymmetryCaseQuirk()
    ensures !Matches(Unfiltered().(isSimetric := true, simetricDeep := 1, registerAccuracy := true), "TaAx")
    ensures Matches(Unfiltered().(isSimetric := true, simetricDeep := 1, registerAccuracy := false), "TaAx")
  {
    assert !HasShortRepeat("TaAx");
    DepthOne("TaAx");
    var s := LowerString("TaAx");
    assert s == "taax";
    assert EvenPairs(s, 1) >= 1;
  }

  /** `register_accuracy` on makes inclusion case-insensitive. */
  lemma InclusionCaseQuirk()
    ensures Matches(Unfiltered().(isIncluded := true, keywordIncluded := "Bad", registerAccuracy := true), "TbADExample")
  {
    var cfg := Unfiltered().(isIncluded := true, keywordIncluded := "Bad", registerAccuracy := true);
    assert MatchesAt(Pattern(cfg, "Bad"), "TbADExample", 1);
  }

  /** Prefix "T1" and suffix "9Z" are compared exactly. */
  lemma PrefixAndSuffix()
    ensures Matches(Unfiltered().(startWith := Some("T1"), endWith := Some("9Z")), "T1middle9Z")
    ensures !Matches(Unfiltered().(startWith := Some("T1"), endWith := Some("9Z")), "T2middle9Z")
  {
    assert "T2middle9Z"[..2] != "T1" by {
      assert "T2middle9Z"[..2][1] == '2';
    }
  }
}
