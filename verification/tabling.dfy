/** The append discipline of the device table, abstracted to counts.

    Every first open of an inode creates a device record and, if the append
    guard lets it, writes the record to table slot n_dev and increments
    n_dev. The table has MYKMOD_MAX_DEVS slots. This module follows n_dev
    through a run of first opens, once with the guard as the driver writes
    it (`n_dev <= MYKMOD_MAX_DEVS`) and once with the guard the table's size
    calls for (`n_dev < MYKMOD_MAX_DEVS`). */
module Tabling {

  /** Number of slots of the device table (MYKMOD_MAX_DEVS). */
  const MYKMOD_MAX_DEVS: nat := 256

  /** What one first open does to the table. */
  datatype Append = Written(slot: nat) | Skipped

  /** The append guard as the driver writes it. */
  predicate AppendGuardAsWritten(nDev: nat)
  {
    nDev <= MYKMOD_MAX_DEVS
  }

  /** The append guard that keeps every write inside the table. */
  predicate AppendGuard(nDev: nat)
  {
    nDev < MYKMOD_MAX_DEVS
  }

  /** The effect of a first open on a table holding nDev records. */
  function AppendAt(nDev: nat, asWritten: bool): (a: Append)
    ensures a.Written? ==> a.slot == nDev
    ensures !asWritten && a.Written? ==> a.slot < MYKMOD_MAX_DEVS
    ensures asWritten && a.Written? ==> a.slot <= MYKMOD_MAX_DEVS
    ensures nDev < MYKMOD_MAX_DEVS ==> a.Written?
  {
    if (if asWritten then AppendGuardAsWritten(nDev) else AppendGuard(nDev)) then Written(nDev) else Skipped
  }

  /** n_dev after `opens` first opens of distinct inodes, starting from the
      freshly loaded module, where n_dev is 0. */
  function NDevAfter(opens: nat, asWritten: bool): (n: nat)
    ensures n <= opens
    ensures n <= if asWritten then MYKMOD_MAX_DEVS + 1 else MYKMOD_MAX_DEVS
  {
    if opens == 0 then 0
    else
      var n := NDevAfter(opens - 1, asWritten);
      if AppendAt(n, asWritten).Written? then n + 1 else n
  }

  function Min(a: nat, b: nat): nat
  {
    if a < b then a else b
  }

  /** With the guard as written, n_dev climbs to MYKMOD_MAX_DEVS + 1. */
  lemma {:induction false} NDevAfterAsWritten(opens: nat)
    ensures NDevAfter(opens, true) == Min(opens, MYKMOD_MAX_DEVS + 1)
  {
    if opens > 0 {
      NDevAfterAsWritten(opens - 1);
    }
  }

  /** With the strict guard, n_dev stops at MYKMOD_MAX_DEVS. */
  lemma {:induction false} NDevAfterGuarded(opens: nat)
    ensures NDevAfter(opens, false) == Min(opens, MYKMOD_MAX_DEVS)
  {
    if opens > 0 {
      NDevAfterGuarded(opens - 1);
    }
  }

  /** The first open of the 257th distinct inode writes slot
      MYKMOD_MAX_DEVS, one past the last slot of the table. */
  lemma AsWrittenWritesPastTable()
    ensures AppendAt(NDevAfter(MYKMOD_MAX_DEVS, true), true) == Written(MYKMOD_MAX_DEVS)
  {
    NDevAfterAsWritten(MYKMOD_MAX_DEVS);
  }

  /** With the strict guard every first open, however many came before it,
      either writes a slot inside the table or writes nothing, and it writes
      exactly while there is a free slot. */
  lemma {:induction false} GuardedWritesInsideTable(opensBefore: nat)
    ensures AppendAt(NDevAfter(opensBefore, false), false).Written?
        <==> opensBefore < MYKMOD_MAX_DEVS
    ensures AppendAt(NDevAfter(opensBefore, false), false).Written? ==>
        AppendAt(NDevAfter(opensBefore, false), false).slot == opensBefore < MYKMOD_MAX_DEVS
  {
    NDevAfterGuarded(opensBefore);
  }
}
