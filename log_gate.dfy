/** The decision `log` makes before it appends a line to the server's log
    file: the caller names its level (1 for the engine itself, 2 for the
    application built on it) and the server's configured level (0 none,
    1 engine only, 2 application only, 3 all) decides whether the line is
    written. Writing the file is not part of the model. */
module LogGate {

  /** What one call of `log` does. */
  datatype Outcome =
    | InvalidCaller  // the caller level is not 1 or 2: a complaint goes to PHP's error log
    | Written        // the line is appended to the log file
    | Skipped        // the configured level filters the line out

  /** The configured level lets a line of `caller`'s level through, as the
      three-way disjunction of the source computes it. */
  predicate LevelAdmits(log: int, caller: int)
  {
    || (log == 3 && (caller == 2 || caller == 1))
    || (log == 2 && caller == 2)
    || (log == 1 && caller == 1)
  }

  /** The outcome of `log` for the configured level `log` and the caller's
      level `caller`. */
  function Decide(log: int, caller: int): (o: Outcome)
    ensures o == InvalidCaller <==> caller != 1 && caller != 2
  {
    if caller != 1 && caller != 2 then InvalidCaller
    else if log != 0 && LevelAdmits(log, caller) then Written
    else Skipped
  }

  /** A line is written exactly when the caller's level is valid and the
      configured level is "all" or that very level. */
  lemma WrittenIff(log: int, caller: int)
    ensures Decide(log, caller) == Written <==> (caller == 1 || caller == 2) && (log == 3 || log == caller)
  {
  }

  /** Level 0 silences the log whatever the caller; a level outside 0..3
      does too. */
  lemma SilentLevels(log: int, caller: int)
    requires log == 0 || log < 0 || log > 3
    ensures Decide(log, caller) != Written
  {
  }

  /** The separate test `log !== 0` never changes the outcome: the
      disjunction already rejects level 0. */
  lemma ZeroTestRedundant(log: int, caller: int)
    requires caller == 1 || caller == 2
    ensures Decide(log, caller) == (if LevelAdmits(log, caller) then Written else Skipped)
  {
  }
}
