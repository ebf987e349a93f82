/**
 * The search configuration. In the Python script this is a module-level
 * dictionary; here it is an immutable value passed to every operation that
 * reads it.
 */
module VanityConfig {
  import opened Wrappers
  import opened Ascii

  datatype Config = Config(
    numProcesses: int,         // worker process count
    showLog: bool,             // print progress lines or not
    logCount: int,             // print progress every N attempts
    isIncluded: bool,          // keyword inclusion criterion on or off
    keywordIncluded: string,   // keyword searched for
    registerAccuracy: bool,    // case flag, read by both inclusion and symmetry
    useLeet: bool,             // letter substitution on or off
    startWith: Option<string>, // required prefix, `None` when unset
    endWith: Option<string>,   // required suffix, `None` when unset
    isSimetric: bool,          // palindromic-run criterion on or off
    simetricDeep: int,         // required number of mirrored pairs
    stopOnFound: bool          // stop every worker on the first match
  )

  /** The shipped configuration; the process count depends on the machine's core count. */
  function DefaultConfig(cpuCount: int): (c: Config)
    ensures c.numProcesses >= 1 && c.numProcesses >= cpuCount - 1
    ensures c.numProcesses == 1 || c.numProcesses == cpuCount - 1
    ensures c.showLog && c.logCount == 10000
    ensures c.isIncluded && c.keywordIncluded == "BadBoy" && IsAlnumString(c.keywordIncluded)
    ensures c.registerAccuracy && c.useLeet
    ensures c.startWith == None && c.endWith == None
    ensures !c.isSimetric && c.simetricDeep == 4 && c.stopOnFound
  {
    Config(
      numProcesses := if cpuCount - 1 > 1 then cpuCount - 1 else 1,
      showLog := true,
      logCount := 10000,
      isIncluded := true,
      keywordIncluded := "BadBoy",
      registerAccuracy := true,
      useLeet := true,
      startWith := None,
      endWith := None,
      isSimetric := false,
      simetricDeep := 4,
      stopOnFound := true)
  }

  /** The filter is only modelled for keywords without regex metacharacters. */
  predicate KeywordWellFormed(cfg: Config) {
    cfg.isIncluded ==> IsAlnumString(cfg.keywordIncluded)
  }

  /** Python truthiness of `start_with` / `end_with`: `None` and `""` are both unset. */
  predicate Configured(affix: Option<string>) {
    affix.Some? && |affix.value| > 0
  }
}
