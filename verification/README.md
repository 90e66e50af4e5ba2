# mykmod: a verified model of a demand-paged character device

mykmod is a Linux character-device module. Each device special file is backed
by a one-mebibyte buffer in kernel memory. The buffer is created the first
time one of the file's inodes is opened, and processes map it into their
address space with `mmap`. The driver maps no pages up front. Every access to
an unmapped page raises a fault, and the driver's fault handler answers it
with the matching page of the buffer.

This project models the driver's bookkeeping as a state machine. Every kernel
primitive is replaced by plain data:

- `Paging` (`paging.dfy`) holds the page arithmetic.
  - `FitsAsWritten` is the bound mmap tests, computed in 64-bit `unsigned long` exactly as written.
  - `FitsChecked` is the same bound in a form that cannot overflow.
  - `Fits` is the same bound in exact arithmetic.
  - `FaultOffsetAsWritten` is the offset formula of the fault handler.
  - `PageOffset` is the byte offset of a device page.
- `Tabling` (`tabling.dfy`) reduces the device table's append guard to counts. It compares n_dev under the guard as written with n_dev under the strict guard.
- `Mykmod` (`mykmod.dfy`) is the driver itself:
  - the device record `DevInfo`, the open `File`, the memory area `Vma` and the per-mapping `VmaInfo`;
  - the module's global state `DeviceTable`, which holds the 256-slot table, `nDev`, and every inode's private pointer as a map from inode to record;
  - the entry points open, close, unload walk, mmap, vm_open, vm_close and vm_fault.
- `Scenarios` (`scenarios.dfy`) holds call sequences a host makes. Each states what the driver's contracts alone let a caller conclude about them.

Constants:

- `PAGE_SIZ` is 4096 and `MYKMOD_MAX_DEVS` is 256.
- `MYDEV_LEN` comes from `mydev.h`, which is not part of this model. It is fixed at 1 MiB (256 pages), the size that the comment at mykmod_main.c:112 gives.

Arithmetic:

- The driver's `unsigned long` arithmetic is reduced modulo 2^64 by `Wrap64` in the functions that model the code as written: `Paging.FitsAsWritten` for the mmap bound and `Paging.FaultOffsetAsWritten` for the fault offset. The state machine also wraps the fault counter this way.
- Everything else is exact.

As-written and corrected behaviour:

- Three places in the driver are defects; they are listed under "## Findings" below. For each, the code as written is modelled by a pure function, with a lemma that exhibits the failing input:
  - `Tabling.NDevAfter(_, true)` and `Tabling.AppendAt(_, true)` model the append guard at mykmod_main.c:116.
  - `Paging.FitsAsWritten` models the mmap bound at mykmod_main.c:139.
  - `Paging.FaultOffsetAsWritten` models the fault offset at mykmod_main.c:184.
- The state machine implements the corrected behaviour of those three rows:
  - `DeviceTable.Open` appends only while `n_dev < MYKMOD_MAX_DEVS`.
  - `Mmap` tests the bound without overflow.
  - `VmFault` resolves `vmf->pgoff * PAGE_SIZ`.
- Under the corrected guard, once 256 inodes have been opened, further first opens still create a record and store it in the inode, but put nothing in the table. As written, the 257th record would be stored one slot past the table's end.

Everywhere else the state machine follows the code, including where the driver's own comments describe something else:

- The comment at mykmod_main.c:80 describes one table slot per minor number. The code fills the table in order of first open instead, and never looks at the minor number.
- vm_close resets the fault counter but leaves the area's private data in place. A later fault on the same area therefore still resolves (`Scenarios.FaultAfterVmClose`). It is not refused.

## Model

| member | source | states |
|---|---|---|
| `Paging.FitsAsWritten` | mykmod_main.c:139 | the test as written, with each step wrapped, accepts exactly when the exact sum vm_pgoff*PAGE_SIZ + length, reduced modulo 2^64, is at most MYDEV_LEN |
| `Paging.FitsCheckedIsExact` | mykmod_main.c:139 | the overflow-free form of the mmap bound accepts a mapping exactly when vm_pgoff*PAGE_SIZ + length <= MYDEV_LEN |
| `Paging.FitsAsWrittenExactWithoutWrap` | mykmod_main.c:139 | while vm_pgoff*PAGE_SIZ + length stays below 2^64, the 64-bit test as written accepts exactly the mappings that fit |
| `Paging.FitsAsWrittenAdmitsWrappedOffset` | mykmod_main.c:139 | the test as written accepts vm_pgoff = 2^52-1 with a one-page length, whose sum wraps to 0, although that page lies far outside the buffer |
| `Paging.PageOffset` | mykmod_main.c:184 | the byte offset of a device page is page-aligned, and dividing it by PAGE_SIZ gives the page back |
| `Paging.FaultOffsetAsWritten` | mykmod_main.c:184 | the offset as written is the offset of page vmf_pgoff + vm_pgoff, reduced modulo 2^64, and is always page-aligned |
| `Paging.PageInBuffer` | mykmod_main.c:184 | in a mapping accepted by the bound, every page lies entirely inside the buffer: offset + PAGE_SIZ <= MYDEV_LEN |
| `Paging.RelativeFaultInBuffer` | mykmod_main.c:184-186 | with the fault offset counted from the start of the area, as the driver's comment reads it, the formula as written picks page vm_pgoff + k, and that page lies inside the buffer for every k below the area's page count |
| `Paging.AsWrittenCountsOffsetTwice` | mykmod_main.c:184 | given the host's device-relative fault offset, the formula as written adds vm_pgoff*PAGE_SIZ on top of the right offset |
| `Paging.OffsetsAgreeAtOffsetZero` | mykmod_main.c:184 | for an area at device offset 0, the formula as written and the device page's offset coincide |
| `Paging.AsWrittenFaultLeavesBuffer` | mykmod_main.c:184 | the formula as written resolves the first page of an accepted mapping of the buffer's second half to offset MYDEV_LEN, past the buffer's end |
| `Tabling.AppendAt` | mykmod_main.c:116-120 | a first open writes slot n_dev or nothing; with the strict guard the slot is below 256, with the guard as written it can be 256; whenever fewer than 256 records are tabled, both guards write |
| `Tabling.NDevAfter` | mykmod_main.c:116-120 | n_dev after k first opens never exceeds k, and never exceeds 256 with the strict guard or 257 with the guard as written |
| `Tabling.NDevAfterAsWritten` | mykmod_main.c:116-120 | with the `<=` guard, n_dev after k first opens is min(k, 257) |
| `Tabling.NDevAfterGuarded` | mykmod_main.c:116-120 | with the strict guard, n_dev after k first opens is min(k, 256) |
| `Tabling.AsWrittenWritesPastTable` | mykmod_main.c:116-120 | with the `<=` guard, the first open of the 257th inode writes slot 256 of the 256-slot table |
| `Tabling.GuardedWritesInsideTable` | mykmod_main.c:116-120 | with the strict guard, a first open writes a slot exactly when fewer than 256 inodes came before it, and the slot it writes is below 256 |
| `Mykmod.DevInfo.constructor` | mykmod_main.c:110-113 | a new record has size MYDEV_LEN, a fresh buffer of that many zero bytes, and no page references |
| `Mykmod.DevInfo.GetPage` | mykmod_main.c:187 | get_page adds one reference to the page at the given offset and changes no other page's count |
| `Mykmod.VmaInfo.constructor` | mykmod_main.c:150-151 | the per-mapping record refers to the given device record |
| `Mykmod.DeviceTable.constructor` | mykmod_main.c:62-80 | module load leaves an empty 256-slot table, n_dev = 0, and no inode with a record |
| `Mykmod.AppendKeepsInvariant` | mykmod_main.c:116-120 | when a slot is free, writing a new record to slot n_dev and counting it keeps the table invariant: tabled records are distinct, each belongs to exactly one inode, and n_dev = min(inodes opened, 256) |
| `Mykmod.FullTableKeepsInvariant` | mykmod_main.c:108-121 | when the table is full, a new record that is stored only in the inode keeps the table invariant |
| `Mykmod.DeviceTable.Open` | mykmod_main.c:99-126 | the first open of an inode creates exactly one fresh zero-filled record of size MYDEV_LEN and stores it in the inode; it writes that record to slot n_dev and increments n_dev only while a slot is free; a repeated open changes neither the table, nor n_dev, nor the inode map; every open points the file at the inode's record; n_dev always equals the count that `Tabling.NDevAfter` predicts |
| `Mykmod.DeviceTable.Close` | mykmod_main.c:128-133 | release changes neither the module's state nor the file |
| `Mykmod.DeviceTable.Cleanup` | mykmod_main.c:84-97 | the unload walk visits exactly slots 0..n_dev-1 in order; no record is released twice; as long as at most 256 inodes were opened, every inode's record is released |
| `Mykmod.VmOpen` | mykmod_main.c:158-164 | vm_open sets the area's fault count to 0 |
| `Mykmod.VmClose` | mykmod_main.c:166-172 | vm_close sets the fault count to 0; the area and the device record are unchanged |
| `Mykmod.Mmap` | mykmod_main.c:135-156 | mmap returns 0 exactly when the mapping fits the buffer, and otherwise -EINVAL with the area untouched; on success the area gets the driver's operations and fresh per-mapping data that refers to the file's record, with a fault count of 0 |
| `Mykmod.VmFault` | mykmod_main.c:174-199 | an area without private data gets -VM_FAULT_SIGSEGV and nothing changes; otherwise the fault count grows by exactly one (mod 2^64), the page at vmf_pgoff*PAGE_SIZ gains one reference, that offset is returned, and the page lies inside the record's buffer |
| `Scenarios.RepeatedOpenSharesRecord` | mykmod_main.c:108-133 | two opens of one inode give both files the same record, which is tabled once |
| `Scenarios.MmapChecksLength` | mykmod_main.c:139-155 | a mapping of the whole buffer is accepted; one page more is refused with -EINVAL, and no operations or private data are installed |
| `Scenarios.RepeatedFaultSamePage` | mykmod_main.c:180-188 | two faults on one page resolve to the same offset, leave a fault count of 2, and take two references on the page |
| `Scenarios.FaultWithoutPrivateData` | mykmod_main.c:192-196 | a fault on an area that mmap never set up gets -VM_FAULT_SIGSEGV |
| `Scenarios.FaultAfterVmClose` | mykmod_main.c:169-184 | after vm_close, a fault on the same area still resolves, and the count restarts at 1 |
| `Scenarios.MappingsShareRecord` | mykmod_main.c:151-184 | mappings made through two files on one inode share one record, and a mapping at device page 128 resolves device page 129 for a fault on it |

## Findings

| source | as written | input that shows it | evidently intended | confidence | as-written member | corrected member |
|---|---|---|---|---|---|---|
| mykmod_main.c:116 | the guard `n_dev <= MYKMOD_MAX_DEVS` lets the code store to `dev_table[n_dev]` when n_dev is 256. The table allocated at :80 has 256 slots | first opens of 257 distinct inodes: the 257th writes `dev_table[256]`, and the unload loop at :90-94 later reads it | `n_dev < MYKMOD_MAX_DEVS` | high; not executed | `Tabling.AsWrittenWritesPastTable` | `Mykmod.DeviceTable.Open` |
| mykmod_main.c:139 | `vm_pgoff * PAGE_SIZ + vm_end - vm_start` is summed in `unsigned long` and can wrap past 2^64 | vm_pgoff = 2^52-1 (file offset 2^64-4096) with a one-page area: the sum wraps to 0 and mmap accepts. Kernels whose mmap path bounds only the page count let this offset through | the bound in exact arithmetic, tested without overflow as `length <= MYDEV_LEN && vm_pgoff <= (MYDEV_LEN - length) / PAGE_SIZ` | medium; not executed; depends on the host's own limit on file offsets | `Paging.FitsAsWrittenAdmitsWrappedOffset` | `Mykmod.Mmap` |
| mykmod_main.c:184 | the handler adds `vma->vm_pgoff` to `vmf->pgoff`. The host's `vmf->pgoff` already counts pages from the start of the file (the area's linear page index), so the mapping's offset is counted twice | an area at vm_pgoff = 128 that is 128 pages long passes the check at :139. A fault on its first page arrives with vmf->pgoff = 128 and resolves to offset (128 + 128) * 4096 = MYDEV_LEN, past the buffer | offset `vmf->pgoff * PAGE_SIZ` | medium; not executed; rests on the host's definition of vmf->pgoff | `Paging.AsWrittenFaultLeavesBuffer` | `Mykmod.VmFault` |

## Left out

- Character-device registration and unregistration, module load and unload hooks, and the `file_operations` and `vm_operations_struct` tables are host plumbing. Module load appears only as `DeviceTable`'s constructor. Installing the operations appears as the `vmOps` flag.
- `printk` logging throughout is left out.
- Allocation failure is left out. None of `kmalloc`/`kzalloc` at :80, :111-112 and :150 is checked for NULL, so the model's allocations always succeed.
- `kfree` is left out. `DeviceTable.Cleanup` returns the records the unload loop releases, rather than releasing them.
- Three leaks in the driver are visible in the model but are not stated as properties:
  - Records created after the table is full are never released.
  - Per-mapping data is never freed.
  - The unload loop at mykmod_main.c:92 frees each record but never its 1 MiB buffer, allocated at :112.
- The `VM_DONTEXPAND | VM_DONTDUMP` flags set at :148 are left out.
- `virt_to_page` and `get_page` are foreign kernel calls. A page is its byte offset in the record's buffer. `DevInfo.pageRefs` counts only the references the fault handler takes, not the page's own allocation reference.
- Byte reads and writes by processes through a mapping are left out. The buffer's contents are only stated at creation (all zero).
- Concurrency and atomicity of the `n_dev` and `npagefaults` updates are left out. The driver takes no locks, and every operation is modelled as one sequential step.
- The host duplicating an area (for example on fork) and calling vm_open on the copy, which then shares the original's per-mapping data, is left out. `VmOpen` is modelled on its own and as called from mmap.
- `mykmod_open` and `mykmod_close` always return 0. The model's `Open` and `Close` return nothing.
- Mykmod.VmFault: requires the fault's page to lie inside the area, because the host only delivers such faults. A corrupted or hand-made `vmf->pgoff` is not modelled.
- Mykmod.Mmap: requires the file to have been opened (non-null private data), as the host calls mmap only on an open file. The driver would dereference NULL otherwise.
