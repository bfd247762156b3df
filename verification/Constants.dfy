// Process-table layout and the special pids of message passing
// (include/proc.h:2-12, include/const.h:113-123).
module Constants {
  const NR_TASKS := 5
  const NR_PROCS := 16
  const NR_NATIVE_PROCS := 4
  const NR_ALL := NR_TASKS + NR_PROCS

  const TASK_TTY := 0
  const TASK_HD := 2
  const TASK_FS := 3
  const PROC_INIT := 5
  // First slot of the table that is free when the system starts.
  const FIRST_FORKED := NR_TASKS + NR_NATIVE_PROCS

  const ANY := NR_ALL + 10
  const NO_TASK := NR_ALL + 20
  const INTERRUPT := -10

  const HARD_INT := 1

  const SEND := 1
  const RECEIVE := 2

  // The bits of p_flags; a set of flags stands for the bit mask, {} for 0.
  datatype Flag = SENDING | RECEIVING | WAITING | HANGING | FREE_SLOT

  predicate IsPid(p: int) { 0 <= p < NR_ALL }
}
