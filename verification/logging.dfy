/** The verbosity-to-level mapping of `init_log` (cp/src/main.rs). Only the
    choice of the maximum enabled level is modelled; the logger itself is
    not. */
module Logging {

  type u8 = v: nat | v < 256

  /** Message severities, from the most to the least severe. */
  datatype Level = Error | Warn | Info | Debug | Trace

  /** Position of a level, 1 for `Error` up to 5 for `Trace`. */
  function Rank(l: Level): nat {
    match l
    case Error => 1
    case Warn => 2
    case Info => 3
    case Debug => 4
    case Trace => 5
  }

  /** A message of severity `msg` is emitted under the filter `max`. */
  predicate Enabled(max: Level, msg: Level) {
    Rank(msg) <= Rank(max)
  }

  /** The most verbose level emitted for `verbose` occurrences of `-v`:
      errors and warnings always; the final total (info) from one `-v`; the
      per-file lines (debug) from two; byte counts and the argument dump
      (trace) from three on. */
  function MaxLevel(verbose: u8): (r: Level)
    ensures Enabled(r, Error) && Enabled(r, Warn)
    ensures Enabled(r, Info) <==> verbose >= 1
    ensures Enabled(r, Debug) <==> verbose >= 2
    ensures Enabled(r, Trace) <==> verbose >= 3
  {
    match verbose
    case 0 => Warn
    case 1 => Info
    case 2 => Debug
    case _ => Trace
  }

  /** More `-v` flags never emit fewer messages. */
  lemma MaxLevelMonotone(v: u8, w: u8, msg: Level)
    requires v <= w
    requires Enabled(MaxLevel(v), msg)
    ensures Enabled(MaxLevel(w), msg)
  {
  }
}
