/** The kernel's limits, from param.h, and the file types of stat.h. */
module Params {
  const NPROC: nat := 64
  const NBUF: nat := 30
  const MAXOPBLOCKS: nat := 10
  const LOGSIZE: nat := 30
  const ROOTDEV: nat := 1

  const T_DIR: nat := 1
  const T_FILE: nat := 2
  const T_DEV: nat := 3
}
