// What several parts of the kernel share: include/linux/sched.h, include/linux/fs.h and mm.

module Kernel {
  datatype Option<+T> = None | Some(value: T)

  type byte = x: int | 0 <= x < 0x100

  const PAGE_SIZE: nat := 4096
  const NR_TASKS: nat := 64

  /** One block of a device. */
  type Block = b: seq<byte> | |b| == 1024 witness seq(1024, _ => 0)

  datatype TaskState = Running | Interruptible | Uninterruptible | Zombie | Stopped
}
