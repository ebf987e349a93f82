/**
 * One worker's generate-and-test loop and its progress reporting. Key
 * generation is replaced by a given sequence of candidates; running out of
 * candidates stands for the loop being stopped from outside.
 */
module Worker {
  import opened Wrappers
  import opened VanityConfig
  import opened Filter

  /** A generated wallet, as `iterate` returns it. */
  datatype Wallet = Wallet(address: string, seedPhrase: string, privateKey: string, publicKey: string)

  /** Python's `a % d` for `d != 0`: the remainder takes the sign of the divisor. */
  function PyMod(a: int, d: int): (r: int)
    requires d != 0
    ensures d > 0 ==> 0 <= r < d
    ensures d < 0 ==> d < r <= 0
    ensures r == 0 <==> a % d == 0
    ensures (a - r) % d == 0
  {
    var q := if d > 0 || a % d == 0 then a / d else a / d - 1;
    assert a == d * (a / d) + a % d;
    var r := if d > 0 || a % d == 0 then a % d else a % d + d;
    assert a - r == q * d;
    ModOfMultiple(q, d);
    r
  }

  /** A multiple of `d` leaves remainder zero. */
  lemma ModOfMultiple(q: int, d: int)
    requires d != 0
    ensures (q * d) % d == 0
  {
    var m := q * d;
    var q', r' := m / d, m % d;
    assert m == q' * d + r' && 0 <= r' < if d > 0 then d else -d;
    assert (q - q') * d == r';
    if q != q' {
      var gap := if q > q' then q - q' else q' - q;
      var size := if d > 0 then d else -d;
      MulAtLeast(gap, size);
    }
  }

  /** The condition in `log_progress`; `log_count` is only read when `show_log` is on. */
  function ShouldLog(cfg: Config, attempts: int): (emit: bool)
    requires cfg.showLog ==> cfg.logCount != 0
    ensures emit <==> cfg.showLog && attempts % cfg.logCount == 0
  {
    cfg.showLog && PyMod(attempts, cfg.logCount) == 0
  }

  /** The attempt numbers reported during the first `n` attempts, in order. */
  function ProgressEvents(cfg: Config, n: nat): (ev: seq<nat>)
    requires cfg.showLog ==> cfg.logCount != 0
    ensures forall e :: e in ev <==> 1 <= e <= n && ShouldLog(cfg, e)
    ensures forall i, j :: 0 <= i < j < |ev| ==> ev[i] < ev[j]
  {
    if n == 0 then []
    else
      var earlier := ProgressEvents(cfg, n - 1);
      assert forall i :: 0 <= i < |earlier| ==> earlier[i] < n by {
        forall i | 0 <= i < |earlier| ensures earlier[i] < n {
          assert earlier[i] in earlier;
        }
      }
      earlier + (if ShouldLog(cfg, n) then [n] else [])
  }

  /** One more attempt adds one to the quotient exactly when it is a multiple. */
  lemma DivStep(n: int, d: int)
    requires n >= 1 && d > 0
    ensures n / d == (n - 1) / d + (if n % d == 0 then 1 else 0)
  {
    var q, r := (n - 1) / d, (n - 1) % d;
    assert n - 1 == q * d + r && 0 <= r < d;
    if r == d - 1 {
      assert n == (q + 1) * d;
      DivUnique(n, d, q + 1, 0);
    } else {
      assert n == q * d + (r + 1);
      DivUnique(n, d, q, r + 1);
    }
  }

  /** Quotient and remainder are determined by `n == q * d + r` with `0 <= r < d`. */
  lemma DivUnique(n: int, d: int, q: int, r: int)
    requires d > 0 && n == q * d + r && 0 <= r < d
    ensures n / d == q && n % d == r
  {
    var q', r' := n / d, n % d;
    assert n == q' * d + r' && 0 <= r' < d;
    assert (q - q') * d == r' - r;
    if q != q' {
      var gap := if q > q' then q - q' else q' - q;
      MulAtLeast(gap, d);
    }
  }

  lemma MulAtLeast(x: int, d: int)
    requires x >= 1 && d > 0
    ensures x * d >= d
  {
  }

  /** With a positive interval, `n` attempts report `n / log_count` times. */
  lemma {:induction false} ProgressCount(cfg: Config, n: nat)
    requires cfg.logCount > 0
    ensures |ProgressEvents(cfg, n)| == if cfg.showLog then n / cfg.logCount else 0
  {
    if n > 0 {
      ProgressCount(cfg, n - 1);
      DivStep(n, cfg.logCount);
    }
  }

  /**
   * `iterate`: count the attempt, report progress when due, test the
   * candidate's address, and return the first wallet that passes.
   */
  method Iterate(cfg: Config, processId: int, candidates: seq<Wallet>)
    returns (wallet: Option<Wallet>, attempts: nat, progress: seq<nat>)
    requires KeywordWellFormed(cfg)
    requires cfg.showLog ==> cfg.logCount != 0
    ensures attempts <= |candidates|
    ensures progress == ProgressEvents(cfg, attempts)
    ensures wallet.Some? ==>
              attempts >= 1 && wallet.value == candidates[attempts - 1] &&
              Matches(cfg, wallet.value.address)
    ensures wallet.None? ==> attempts == |candidates|
    ensures forall k :: 0 <= k < attempts && (wallet.None? || k < attempts - 1) ==>
              !Matches(cfg, candidates[k].address)
  {
    var i: nat := 0;
    progress := [];
    while i < |candidates|
      invariant i <= |candidates|
      invariant progress == ProgressEvents(cfg, i)
      invariant forall k :: 0 <= k < i ==> !Matches(cfg, candidates[k].address)
    {
      i := i + 1;
      if ShouldLog(cfg, i) {
        progress := progress + [i];
      }
      var candidate := candidates[i - 1];
      var ok := FindPossibleAddresses(cfg, candidate.address);
      if ok {
        return Some(candidate), i, progress;
      }
    }
    return None, i, progress;
  }
}
