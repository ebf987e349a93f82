/**
 * The combined address filter: keyword inclusion, palindromic run, prefix and
 * suffix, each consulted only when configured, and all of them required.
 */
module Filter {
  import opened Wrappers
  import opened Ascii
  import opened VanityConfig
  import opened Palindrome
  import opened Inclusion

  /** Python's `str.startswith`. */
  function StartsWith(s: string, prefix: string): (r: bool)
    ensures r <==> |prefix| <= |s| && forall i :: 0 <= i < |prefix| ==> s[i] == prefix[i]
  {
    |prefix| <= |s| && s[..|prefix|] == prefix
  }

  /** Python's `str.endswith`. */
  function EndsWith(s: string, suffix: string): (r: bool)
    ensures r <==> |suffix| <= |s| &&
                   forall i :: 0 <= i < |suffix| ==> s[|s| - |suffix| + i] == suffix[i]
  {
    if |suffix| <= |s| then
      var tail := s[|s| - |suffix|..];
      assert forall i :: 0 <= i < |suffix| ==> tail[i] == s[|s| - |suffix| + i];
      tail == suffix
    else
      false
  }

  /** The palindrome criterion as the filter applies it. */
  predicate Symmetric(cfg: Config, address: string) {
    HasPalindrome(SymmetryInput(cfg, address), cfg.simetricDeep)
  }

  /**
   * Reference definition: the conjunction of the configured criteria only. It
   * agrees with the script's list form, where an unconfigured criterion is `None`.
   */
  function Matches(cfg: Config, address: string): (r: bool)
    requires KeywordWellFormed(cfg)
    ensures r == NoFailure([
      if cfg.isIncluded then Some(Included(cfg, address)) else None,
      if cfg.isSimetric then Some(Symmetric(cfg, address)) else None,
      if Configured(cfg.startWith) then Some(StartsWith(address, cfg.startWith.value)) else None,
      if Configured(cfg.endWith) then Some(EndsWith(address, cfg.endWith.value)) else None])
  {
    && (cfg.isIncluded ==> Included(cfg, address))
    && (cfg.isSimetric ==> Symmetric(cfg, address))
    && (Configured(cfg.startWith) ==> StartsWith(address, cfg.startWith.value))
    && (Configured(cfg.endWith) ==> EndsWith(address, cfg.endWith.value))
  }

  /** `False not in [...]`: no criterion was evaluated and failed. */
  function NoFailure(flags: seq<Option<bool>>): (ok: bool)
    ensures ok <==> forall i :: 0 <= i < |flags| ==> flags[i] != Some(false)
  {
    Some(false) !in flags
  }

  /**
   * `find_possible_addresses`: each criterion leaves its flag `None` when it is
   * not configured, and sets it to the outcome of its test otherwise.
   */
  method FindPossibleAddresses(cfg: Config, address: string) returns (ok: bool)
    requires KeywordWellFormed(cfg)
    ensures ok == Matches(cfg, address)
  {
    var included: Option<bool> := None;
    if cfg.isIncluded {
      var m := FirstWindow(Pattern(cfg, cfg.keywordIncluded), address, 0);
      if m.Some? {
        included := Some(true);
      } else {
        included := Some(false);
      }
    }

    var isSimetric: Option<bool> := None;
    if cfg.isSimetric {
      var sym := HasPalindromeOfDepth(cfg, address, cfg.simetricDeep, !cfg.registerAccuracy);
      if sym {
        isSimetric := Some(true);
      } else {
        isSimetric := Some(false);
      }
    }

    var startWith: Option<bool> := None;
    if Configured(cfg.startWith) {
      if StartsWith(address, cfg.startWith.value) {
        startWith := Some(true);
      } else {
        startWith := Some(false);
      }
    }

    var endWith: Option<bool> := None;
    if Configured(cfg.endWith) {
      if EndsWith(address, cfg.endWith.value) {
        endWith := Some(true);
      } else {
        endWith := Some(false);
      }
    }

    var flags := [included, isSimetric, startWith, endWith];
    ok := NoFailure(flags);
    assert flags[0] == included && flags[1] == isSimetric;
    assert flags[2] == startWith && flags[3] == endWith;
  }

  /** The inclusion and palindrome tests read only their own configuration fields. */
  lemma SameCriteria(cfg: Config, cfg': Config, address: string)
    requires cfg.useLeet == cfg'.useLeet && cfg.registerAccuracy == cfg'.registerAccuracy
    requires cfg.keywordIncluded == cfg'.keywordIncluded && cfg.simetricDeep == cfg'.simetricDeep
    ensures IsAlnumString(cfg.keywordIncluded) ==> Included(cfg, address) == Included(cfg', address)
    ensures Symmetric(cfg, address) == Symmetric(cfg', address)
  {
    var k := cfg.keywordIncluded;
    if IsAlnumString(k) {
      assert Pattern(cfg, k) == Pattern(cfg', k);
    }
  }

  /** With nothing configured every address passes. */
  lemma NothingConfiguredMatchesAll(cfg: Config, address: string)
    requires !cfg.isIncluded && !cfg.isSimetric
    requires !Configured(cfg.startWith) && !Configured(cfg.endWith)
    ensures Matches(cfg, address)
  {
  }

  /** A configured prefix or suffix is a hard, case-sensitive requirement. */
  lemma AffixesAreExact(cfg: Config, address: string)
    requires KeywordWellFormed(cfg) && Matches(cfg, address)
    ensures Configured(cfg.startWith) ==>
            |cfg.startWith.value| <= |address| &&
            forall i :: 0 <= i < |cfg.startWith.value| ==> address[i] == cfg.startWith.value[i]
    ensures Configured(cfg.endWith) ==>
            |cfg.endWith.value| <= |address| &&
            forall i :: 0 <= i < |cfg.endWith.value| ==>
              address[|address| - |cfg.endWith.value| + i] == cfg.endWith.value[i]
  {
    if Configured(cfg.startWith) {
      var p := cfg.startWith.value;
      assert forall i :: 0 <= i < |p| ==> address[..|p|][i] == address[i];
    }
    if Configured(cfg.endWith) {
      var q := cfg.endWith.value;
      var tail := address[|address| - |q|..];
      assert forall i :: 0 <= i < |q| ==> tail[i] == address[|address| - |q| + i];
    }
  }

  /** An empty prefix behaves exactly like an unset one, whatever the suffix is. */
  lemma EmptyPrefixIsUnset(cfg: Config, address: string)
    requires KeywordWellFormed(cfg) && cfg.startWith == Some("")
    ensures Matches(cfg, address) == Matches(cfg.(startWith := None), address)
  {
    SameCriteria(cfg, cfg.(startWith := None), address);
  }

  /** An empty suffix behaves exactly like an unset one, whatever the prefix is. */
  lemma EmptySuffixIsUnset(cfg: Config, address: string)
    requires KeywordWellFormed(cfg) && cfg.endWith == Some("")
    ensures Matches(cfg, address) == Matches(cfg.(endWith := None), address)
  {
    SameCriteria(cfg, cfg.(endWith := None), address);
  }

  /** Dropping a criterion never turns a match into a mismatch. */
  lemma FewerCriteriaMatchMore(cfg: Config, address: string)
    requires KeywordWellFormed(cfg) && Matches(cfg, address)
    ensures Matches(cfg.(isIncluded := false), address)
    ensures Matches(cfg.(isSimetric := false), address)
    ensures Matches(cfg.(startWith := None), address)
    ensures Matches(cfg.(endWith := None), address)
  {
    SameCriteria(cfg, cfg.(isIncluded := false), address);
    SameCriteria(cfg, cfg.(isSimetric := false), address);
    SameCriteria(cfg, cfg.(startWith := None), address);
    SameCriteria(cfg, cfg.(endWith := None), address);
  }

  /** A criterion that is on and fails rejects the address, whatever the others say. */
  lemma AnyFailureRejects(cfg: Config, address: string)
    requires KeywordWellFormed(cfg)
    requires (cfg.isIncluded && !Included(cfg, address)) ||
             (cfg.isSimetric && !Symmetric(cfg, address)) ||
             (Configured(cfg.startWith) && !StartsWith(address, cfg.startWith.value)) ||
             (Configured(cfg.endWith) && !EndsWith(address, cfg.endWith.value))
    ensures !Matches(cfg, address)
  {
  }
}
