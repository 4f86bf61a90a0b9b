/** What a `subprocess.run` call made by the program can come back with:
    the process ran and exited with a code (and printed `stdout`), or the call
    itself raised. The operating system is not modelled; every call the
    program makes is answered by one of these values.
 */
module Subprocess {

  datatype RunOutcome = Exited(code: int, stdout: string) | Raised

  /** `result.returncode == 0`. */
  predicate Succeeded(o: RunOutcome) {
    o.Exited? && o.code == 0
  }

  /** The process ran but exited with a non-zero code. */
  predicate ExitedWithError(o: RunOutcome) {
    o.Exited? && o.code != 0
  }
}
