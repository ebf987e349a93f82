/**
 * The palindromic-run detector: expand outward from every odd and every even
 * centre and accept once some centre reaches the required number of mirrored
 * equal pairs.
 */
module Palindrome {
  import opened Ascii
  import opened VanityConfig

  /**
   * The number of equal mirrored pairs `s[l] == s[r]`, `s[l-1] == s[r+1]`, ...
   * before an index leaves `[0, |s|)` or a pair differs.
   */
  function Pairs(s: string, l: int, r: int): (p: nat)
    requires l < r
    ensures p > 0 ==> p <= l + 1 && p <= |s| - r
    ensures forall i :: l - p < i <= l ==> s[i] == s[l + r - i]
    ensures !(0 <= l - p && r + p < |s| && s[l - p] == s[r + p])
    decreases l + 1
  {
    if 0 <= l && r < |s| && s[l] == s[r] then 1 + Pairs(s, l - 1, r + 1) else 0
  }

  /** Pairs around the character at index `c` (odd-length runs). */
  function OddPairs(s: string, c: int): nat {
    Pairs(s, c - 1, c + 1)
  }

  /** Pairs around the boundary between indices `c` and `c + 1` (even-length runs). */
  function EvenPairs(s: string, c: int): nat {
    Pairs(s, c, c + 1)
  }

  /** Some odd centre or some even centre reaches `depth` pairs. */
  predicate HasPalindrome(s: string, depth: int) {
    (exists c :: 0 <= c < |s| && OddPairs(s, c) >= depth) ||
    (exists c :: 0 <= c < |s| - 1 && EvenPairs(s, c) >= depth)
  }

  /** The string the detector scans: lower-cased only when `register_accuracy` is off. */
  function SymmetryInput(cfg: Config, s: string): (t: string)
    ensures |t| == |s|
    ensures forall i :: 0 <= i < |s| ==> Lower(t[i]) == Lower(s[i])
    ensures !cfg.registerAccuracy ==> forall i :: 0 <= i < |t| ==> !IsUpper(t[i])
    ensures cfg.registerAccuracy ==> t == s
  {
    if cfg.registerAccuracy then s else LowerString(s)
  }

  /** The inner `count_pairs` loop. */
  method CountPairs(s: string, l0: int, r0: int) returns (pairs: nat)
    requires l0 < r0
    ensures pairs == Pairs(s, l0, r0)
  {
    pairs := 0;
    var l, r := l0, r0;
    while l >= 0 && r < |s| && s[l] == s[r]
      invariant l == l0 - pairs && r == r0 + pairs && l < r
      invariant pairs + Pairs(s, l, r) == Pairs(s, l0, r0)
      decreases l + 1
    {
      pairs := pairs + 1;
      l := l - 1;
      r := r + 1;
    }
  }

  /**
   * `has_palindrome_of_depth`. The `caseSensitive` argument is accepted and
   * ignored, as in the script; case folding follows `cfg.registerAccuracy`.
   */
  method HasPalindromeOfDepth(cfg: Config, s: string, depth: int, caseSensitive: bool)
    returns (found: bool)
    ensures found == HasPalindrome(SymmetryInput(cfg, s), depth)
  {
    var t := SymmetryInput(cfg, s);
    found := ScanCentres(t, depth);
  }

  /** The two centre loops of `has_palindrome_of_depth`, with their early returns. */
  method ScanCentres(t: string, depth: int) returns (found: bool)
    ensures found == HasPalindrome(t, depth)
  {
    var n := |t|;
    for c := 0 to n
      invariant forall c' :: 0 <= c' < c ==> OddPairs(t, c') < depth
    {
      var p := CountPairs(t, c - 1, c + 1);
      if p >= depth {
        assert OddPairs(t, c) >= depth;
        return true;
      }
    }
    var c := 0;
    while c < n - 1
      invariant 0 <= c <= if n > 0 then n - 1 else 0
      invariant forall c' :: 0 <= c' < c ==> EvenPairs(t, c') < depth
    {
      var p := CountPairs(t, c, c + 1);
      if p >= depth {
        assert EvenPairs(t, c) >= depth;
        return true;
      }
      c := c + 1;
    }
    return false;
  }

  /** No centre holds more than `|s| / 2` pairs. */
  lemma CentreBound(s: string, c: int)
    ensures 0 <= c < |s| ==> OddPairs(s, c) <= |s| / 2
    ensures 0 <= c < |s| - 1 ==> EvenPairs(s, c) <= |s| / 2
  {
  }

  /** A depth of at least one that exceeds half the length is never reached. */
  lemma DepthTooLarge(s: string, depth: int)
    requires depth >= 1 && depth > |s| / 2
    ensures !HasPalindrome(s, depth)
  {
    forall c | 0 <= c < |s| ensures OddPairs(s, c) < depth {
      CentreBound(s, c);
    }
    forall c | 0 <= c < |s| - 1 ensures EvenPairs(s, c) < depth {
      CentreBound(s, c);
    }
  }

  /** Passing at some depth means passing at every smaller depth. */
  lemma MonotoneInDepth(s: string, d: int, d': int)
    requires HasPalindrome(s, d) && d' <= d
    ensures HasPalindrome(s, d')
  {
    if exists c :: 0 <= c < |s| && OddPairs(s, c) >= d {
      var c :| 0 <= c < |s| && OddPairs(s, c) >= d;
      assert OddPairs(s, c) >= d';
    } else {
      var c :| 0 <= c < |s| - 1 && EvenPairs(s, c) >= d;
      assert EvenPairs(s, c) >= d';
    }
  }

  /** At depth zero (or below) exactly the non-empty strings pass: centre 0 has 0 >= 0. */
  lemma DepthZero(s: string, depth: int)
    requires depth <= 0
    ensures HasPalindrome(s, depth) <==> |s| > 0
  {
    if |s| > 0 {
      assert OddPairs(s, 0) >= depth;
    }
  }

  /** An adjacent repeat or a repeat one character apart. */
  predicate HasShortRepeat(s: string) {
    exists i :: 0 <= i < |s| - 1 && (s[i] == s[i + 1] || (i < |s| - 2 && s[i] == s[i + 2]))
  }

  /** At depth one the detector accepts exactly the strings with a short repeat. */
  lemma DepthOne(s: string)
    ensures HasPalindrome(s, 1) <==> HasShortRepeat(s)
  {
    if HasPalindrome(s, 1) {
      if exists c :: 0 <= c < |s| && OddPairs(s, c) >= 1 {
        var c :| 0 <= c < |s| && OddPairs(s, c) >= 1;
        assert s[c - 1] == s[c + 1];
        assert 0 <= c - 1 < |s| - 1 && c - 1 < |s| - 2;
      } else {
        var c :| 0 <= c < |s| - 1 && EvenPairs(s, c) >= 1;
        assert s[c] == s[c + 1];
      }
    }
    if HasShortRepeat(s) {
      var i :| 0 <= i < |s| - 1 && (s[i] == s[i + 1] || (i < |s| - 2 && s[i] == s[i + 2]));
      if s[i] == s[i + 1] {
        assert EvenPairs(s, i) >= 1;
      } else {
        assert OddPairs(s, i + 1) >= 1;
      }
    }
  }

  /** `w` reads the same forwards and backwards. */
  predicate IsPalindrome(w: string) {
    forall k :: 0 <= k < |w| ==> w[k] == w[|w| - 1 - k]
  }

  /** `s[i..j]` is a palindromic run of `s`. */
  predicate RunAt(s: string, i: int, j: int) {
    0 <= i <= j <= |s| && IsPalindrome(s[i..j])
  }

  /** `m` mirrored pairs that are in range and equal give a count of at least `m`. */
  lemma {:induction false} PairsAtLeast(s: string, l: int, r: int, m: nat)
    requires l < r && m <= l + 1 && r + m <= |s|
    requires forall i :: l - m < i <= l ==> s[i] == s[l + r - i]
    ensures Pairs(s, l, r) >= m
  {
    if m > 0 {
      assert s[l] == s[r];
      PairsAtLeast(s, l - 1, r + 1, m - 1);
    }
  }

  /** A centre with `d` pairs spans a palindromic run of length `2d + 1` or `2d`. */
  lemma CentreGivesRun(s: string, c: int, d: nat)
    ensures 0 <= c < |s| && OddPairs(s, c) >= d ==> RunAt(s, c - d, c + d + 1)
    ensures 0 <= c < |s| - 1 && EvenPairs(s, c) >= d ==> RunAt(s, c - d + 1, c + d + 1)
  {
    if 0 <= c < |s| && OddPairs(s, c) >= d {
      var w := s[c - d..c + d + 1];
      forall k | 0 <= k < |w| ensures w[k] == w[|w| - 1 - k] {
        if k < d {
          assert w[k] == s[c - d + k] && w[|w| - 1 - k] == s[(c - 1) + (c + 1) - (c - d + k)];
        } else if k > d {
          var k' := |w| - 1 - k;
          assert w[k'] == s[c - d + k'] && w[k] == s[(c - 1) + (c + 1) - (c - d + k')];
        }
      }
    }
    if 0 <= c < |s| - 1 && EvenPairs(s, c) >= d {
      var w := s[c - d + 1..c + d + 1];
      forall k | 0 <= k < |w| ensures w[k] == w[|w| - 1 - k] {
        if k < d {
          assert w[k] == s[c - d + 1 + k] && w[|w| - 1 - k] == s[c + (c + 1) - (c - d + 1 + k)];
        } else {
          var k' := |w| - 1 - k;
          assert w[k'] == s[c - d + 1 + k'] && w[k] == s[c + (c + 1) - (c - d + 1 + k')];
        }
      }
    }
  }

  /** A palindromic run of length `L` has a centre with `L / 2` pairs. */
  lemma RunGivesCentre(s: string, i: int, j: int)
    requires RunAt(s, i, j) && j - i >= 1
    ensures (j - i) % 2 == 1 ==> OddPairs(s, i + (j - i) / 2) >= (j - i) / 2
    ensures (j - i) % 2 == 0 ==> EvenPairs(s, i + (j - i) / 2 - 1) >= (j - i) / 2
  {
    var w := s[i..j];
    var h := (j - i) / 2;
    if (j - i) % 2 == 1 {
      var c := i + h;
      forall x | (c - 1) - h < x <= c - 1 ensures s[x] == s[(c - 1) + (c + 1) - x] {
        assert w[x - i] == w[|w| - 1 - (x - i)];
      }
      PairsAtLeast(s, c - 1, c + 1, h);
    } else {
      var c := i + h - 1;
      forall x | c - h < x <= c ensures s[x] == s[c + (c + 1) - x] {
        assert w[x - i] == w[|w| - 1 - (x - i)];
      }
      PairsAtLeast(s, c, c + 1, h);
    }
  }

  /**
   * An independent reading of the detector: at depth one or more it accepts
   * exactly the strings with a palindromic substring of length at least `2 * depth`.
   */
  lemma PalindromicRun(s: string, depth: int)
    requires depth >= 1
    ensures HasPalindrome(s, depth) <==> exists i, j :: RunAt(s, i, j) && j - i >= 2 * depth
  {
    if HasPalindrome(s, depth) {
      if exists c :: 0 <= c < |s| && OddPairs(s, c) >= depth {
        var c :| 0 <= c < |s| && OddPairs(s, c) >= depth;
        CentreGivesRun(s, c, depth);
        assert RunAt(s, c - depth, c + depth + 1);
      } else {
        var c :| 0 <= c < |s| - 1 && EvenPairs(s, c) >= depth;
        CentreGivesRun(s, c, depth);
        assert RunAt(s, c - depth + 1, c + depth + 1);
      }
    }
    if exists i, j :: RunAt(s, i, j) && j - i >= 2 * depth {
      var i, j :| RunAt(s, i, j) && j - i >= 2 * depth;
      RunGivesCentre(s, i, j);
      if (j - i) % 2 == 1 {
        assert OddPairs(s, i + (j - i) / 2) >= depth;
      } else {
        assert EvenPairs(s, i + (j - i) / 2 - 1) >= depth;
      }
    }
  }

  /** With `register_accuracy` off, only the lower-cased address matters. */
  lemma CaseFolding(cfg: Config, a: string, b: string, depth: int)
    requires !cfg.registerAccuracy && LowerString(a) == LowerString(b)
    ensures HasPalindrome(SymmetryInput(cfg, a), depth) == HasPalindrome(SymmetryInput(cfg, b), depth)
  {
  }
}
