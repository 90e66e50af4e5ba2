/** The mykmod character device: a table of device records created lazily
    on first open of an inode, and memory mappings of a record's buffer that
    are filled in page by page from a fault handler.

    Host objects the driver writes to (the inode's private pointer, the open
    file, the virtual memory area) are plain objects here; the kernel's page
    lookup and page reference counting become a byte offset and a counter
    per page of the device record. */
module Mykmod {
  import opened Paging
  import opened Tabling

  /** Identity of an inode (the host's `struct inode *`). */
  type InodeId = nat

  /** Result of mmap: 0, or -EINVAL when the mapping would not fit. */
  datatype MmapStatus = MmapOk | Einval

  /** Result of the fault handler: 0 with the page at a byte offset of the
      device buffer installed in the fault, or -VM_FAULT_SIGSEGV. */
  datatype FaultResult = Resolved(offset: nat) | SigSegv

  /** A device record (struct mykmod_dev_info): the device's buffer and its
      size, plus the references taken on the buffer's pages by faults. */
  class DevInfo {
    const data: array<bv8>
    const size: nat
    /** Page references taken with get_page, by byte offset of the page. */
    var pageRefs: map<nat, nat>

    ghost predicate Valid()
    {
      size == MYDEV_LEN && data.Length == size
    }

    ghost predicate Zeroed()
      reads data
    {
      forall i :: 0 <= i < data.Length ==> data[i] == 0
    }

    /** References taken so far on the page at byte offset `off`. */
    function RefCount(off: nat): nat
      reads this
    {
      if off in pageRefs then pageRefs[off] else 0
    }

    /** A record as first open allocates it: MYDEV_LEN zero bytes. */
    constructor ()
      ensures Valid() && fresh(data) && Zeroed()
      ensures pageRefs == map[]
    {
      data := new bv8[MYDEV_LEN](_ => 0);
      size := MYDEV_LEN;
      pageRefs := map[];
    }

    /** get_page on the page at byte offset `off`: one more reference on
        that page, none on any other. */
    method GetPage(off: nat)
      modifies this
      ensures pageRefs == old(pageRefs)[off := old(RefCount(off)) + 1]
      ensures RefCount(off) == old(RefCount(off)) + 1
      ensures forall o :: o != off ==> RefCount(o) == old(RefCount(o))
    {
      pageRefs := pageRefs[off := RefCount(off) + 1];
    }
  }

  /** An open file (struct file); only its private pointer is modelled. */
  class File {
    var privateData: DevInfo?

    constructor ()
      ensures privateData == null
    {
      privateData := null;
    }
  }

  /** Per-mapping bookkeeping (struct mykmod_vma_info). */
  class VmaInfo {
    const devInfo: DevInfo
    var npagefaults: U64

    constructor (dev: DevInfo)
      ensures devInfo == dev && npagefaults == 0
    {
      devInfo := dev;
      npagefaults := 0;
    }
  }

  /** A virtual memory area (struct vm_area_struct): its address range and
      device page offset, fixed by the host, and the two fields mmap sets. */
  class Vma {
    const vmStart: U64
    const vmEnd: U64
    const vmPgoff: U64
    /** Whether the driver's vm_operations are installed. */
    var vmOps: bool
    var vmPrivateData: VmaInfo?

    /** The host's page-aligned range, and: private data is present only on
        an area that mmap accepted. */
    ghost predicate Valid()
      reads this
    {
      && vmStart <= vmEnd
      && vmStart % PAGE_SIZ == 0
      && vmEnd % PAGE_SIZ == 0
      && (vmPrivateData != null ==>
            vmOps && Fits(vmPgoff, vmEnd - vmStart) && vmPrivateData.devInfo.Valid())
    }

    function Length(): nat
      requires vmStart <= vmEnd
    {
      vmEnd - vmStart
    }

    /** An area as the host hands it to mmap. */
    constructor (start: U64, end: U64, pgoff: U64)
      requires start <= end && start % PAGE_SIZ == 0 && end % PAGE_SIZ == 0
      ensures Valid()
      ensures vmStart == start && vmEnd == end && vmPgoff == pgoff
      ensures !vmOps && vmPrivateData == null
    {
      vmStart, vmEnd, vmPgoff := start, end, pgoff;
      vmOps := false;
      vmPrivateData := null;
    }
  }

  /** The invariant of the device table, on its contents `t`, its fill
      count and the inodes' private pointers: the first nDev slots hold
      distinct records, each the record of some inode; every inode has its
      own valid record; and while at most MYKMOD_MAX_DEVS inodes have been
      opened every record is in the table, so nDev counts the inodes opened
      so far, up to the table's size. */
  ghost predicate TableInvariant(t: seq<DevInfo?>, nDev: nat, iPrivate: map<InodeId, DevInfo>)
  {
    && |t| == MYKMOD_MAX_DEVS
    && nDev == Min(|iPrivate|, MYKMOD_MAX_DEVS)
    && (forall i :: 0 <= i < nDev ==> t[i] != null && t[i] in iPrivate.Values)
    && (forall i, j :: 0 <= i < j < nDev ==> t[i] != t[j])
    && (forall ino :: ino in iPrivate ==> iPrivate[ino].Valid())
    && (forall a, b :: a in iPrivate && b in iPrivate && a != b ==> iPrivate[a] != iPrivate[b])
    && (|iPrivate| <= MYKMOD_MAX_DEVS ==> forall ino :: ino in iPrivate ==> iPrivate[ino] in t[..nDev])
  }

  /** Giving a new inode a new record keeps every record the map had. */
  lemma AddRecordKeepsValues(iPrivate: map<InodeId, DevInfo>, inode: InodeId, info: DevInfo)
    requires inode !in iPrivate
    ensures forall v :: v in iPrivate.Values ==> v in iPrivate[inode := info].Values
    ensures |iPrivate[inode := info]| == |iPrivate| + 1
  {
    forall v | v in iPrivate.Values
      ensures v in iPrivate[inode := info].Values
    {
      var ino :| ino in iPrivate && iPrivate[ino] == v;
      assert iPrivate[inode := info][ino] == v;
    }
  }

  /** A first open with a free slot: the new record goes into slot nDev. */
  lemma AppendKeepsInvariant(t: seq<DevInfo?>, nDev: nat, iPrivate: map<InodeId, DevInfo>,
                             inode: InodeId, info: DevInfo)
    requires TableInvariant(t, nDev, iPrivate)
    requires AppendGuard(nDev) && inode !in iPrivate && info.Valid()
    requires info !in iPrivate.Values
    ensures TableInvariant(t[nDev := info], nDev + 1, iPrivate[inode := info])
  {
    AddRecordKeepsValues(iPrivate, inode, info);
    var t', m' := t[nDev := info], iPrivate[inode := info];
    assert m'[inode] == info;
    assert Min(|m'|, MYKMOD_MAX_DEVS) == nDev + 1;
    forall i | 0 <= i < nDev + 1
      ensures t'[i] != null && t'[i] in m'.Values
    {
      if i < nDev {
        assert t'[i] == t[i] && t[i] in iPrivate.Values;
      }
    }
    forall i, j | 0 <= i < j < nDev + 1
      ensures t'[i] != t'[j]
    {
      if j == nDev {
        assert t[i] in iPrivate.Values;
      }
    }
    forall a, b | a in m' && b in m' && a != b
      ensures m'[a] != m'[b]
    {
      if a == inode {
        assert m'[b] == iPrivate[b] && iPrivate[b] in iPrivate.Values;
      } else if b == inode {
        assert m'[a] == iPrivate[a] && iPrivate[a] in iPrivate.Values;
      }
    }
    assert t'[..nDev + 1] == t[..nDev] + [info];
    forall ino | ino in m'
      ensures m'[ino] in t'[..nDev + 1]
    {
      if ino != inode {
        assert m'[ino] == iPrivate[ino];
        assert iPrivate[ino] in t[..nDev];
      }
    }
  }

  /** A first open with the table full: the new record is not tabled. */
  lemma FullTableKeepsInvariant(t: seq<DevInfo?>, nDev: nat, iPrivate: map<InodeId, DevInfo>,
                                inode: InodeId, info: DevInfo)
    requires TableInvariant(t, nDev, iPrivate)
    requires !AppendGuard(nDev) && inode !in iPrivate && info.Valid()
    requires info !in iPrivate.Values
    ensures TableInvariant(t, nDev, iPrivate[inode := info])
  {
    AddRecordKeepsValues(iPrivate, inode, info);
  }

  /** The module's global state: the device table and its fill count, and
      the private pointer of every inode the module has seen. An inode
      absent from `iPrivate` has a null private pointer. */
  class DeviceTable {
    const table: array<DevInfo?>
    var nDev: nat
    var iPrivate: map<InodeId, DevInfo>

    ghost predicate Valid()
      reads this, table
    {
      table.Length == MYKMOD_MAX_DEVS && TableInvariant(table[..], nDev, iPrivate)
    }

    /** Module load: a table of MYKMOD_MAX_DEVS empty slots, n_dev = 0. */
    constructor ()
      ensures Valid() && fresh(table)
      ensures nDev == 0 && iPrivate == map[]
    {
      table := new DevInfo?[MYKMOD_MAX_DEVS](_ => null);
      nDev := 0;
      iPrivate := map[];
    }

    /** Open of `inode` through the file `filp`. The first open of an inode
        creates its zero-filled record, stores it as the inode's private
        pointer and appends it to the table while a slot is free; every
        open points the file at the inode's record. */
    method Open(inode: InodeId, filp: File)
      requires Valid()
      modifies this, table, filp
      ensures Valid()
      ensures inode in iPrivate && filp.privateData == iPrivate[inode]
      ensures nDev == NDevAfter(|iPrivate|, false)
      ensures inode in old(iPrivate) ==>
        iPrivate == old(iPrivate) && nDev == old(nDev) && table[..] == old(table[..])
      ensures inode !in old(iPrivate) ==>
        && fresh(iPrivate[inode]) && iPrivate[inode].size == MYDEV_LEN
        && iPrivate[inode].Zeroed() && iPrivate[inode].pageRefs == map[]
        && iPrivate == old(iPrivate)[inode := iPrivate[inode]]
      ensures inode !in old(iPrivate) && AppendGuard(old(nDev)) ==>
        nDev == old(nDev) + 1 && table[..] == old(table[..])[old(nDev) := iPrivate[inode]]
      ensures inode !in old(iPrivate) && !AppendGuard(old(nDev)) ==>
        nDev == old(nDev) && table[..] == old(table[..])
    {
      if inode !in iPrivate {
        var info := new DevInfo();
        ghost var t := table[..];
        if AppendGuard(nDev) {
          AppendKeepsInvariant(t, nDev, iPrivate, inode, info);
          table[nDev] := info;
          nDev := nDev + 1;
        } else {
          FullTableKeepsInvariant(t, nDev, iPrivate, inode, info);
        }
        iPrivate := iPrivate[inode := info];
      }
      filp.privateData := iPrivate[inode];
      NDevAfterGuarded(|iPrivate|);
    }

    /** Release of a file: nothing of the module's state changes. */
    method Close(inode: InodeId, filp: File)
      requires Valid()
      ensures Valid()
      ensures unchanged(this, table, filp)
    {
    }

    /** The walk of module unload over the table: the records it releases,
        in slot order. No record is released twice, and as long as at most
        MYKMOD_MAX_DEVS inodes were opened, every inode's record is among
        them. */
    method Cleanup() returns (freed: seq<DevInfo>)
      requires Valid()
      ensures |freed| == nDev
      ensures forall i :: 0 <= i < nDev ==> freed[i] == table[i]
      ensures forall i, j :: 0 <= i < j < |freed| ==> freed[i] != freed[j]
      ensures |iPrivate| <= MYKMOD_MAX_DEVS ==> forall ino :: ino in iPrivate ==> iPrivate[ino] in freed
    {
      freed := [];
      var i := 0;
      while i < nDev
        invariant 0 <= i <= nDev
        invariant |freed| == i
        invariant forall k :: 0 <= k < i ==> freed[k] == table[k]
      {
        var record: DevInfo := table[i];
        freed := freed + [record];
        i := i + 1;
      }
      assert table[..nDev] == freed;
    }
  }

  /** vm_open: the fault count of the area starts again at 0. */
  method VmOpen(vma: Vma)
    requires vma.vmPrivateData != null
    modifies vma.vmPrivateData
    ensures vma.vmPrivateData.npagefaults == 0
  {
    var info := vma.vmPrivateData;
    info.npagefaults := 0;
  }

  /** vm_close: the fault count is reset to 0; the area keeps its private
      data and the record is untouched. */
  method VmClose(vma: Vma)
    requires vma.vmPrivateData != null
    modifies vma.vmPrivateData
    ensures vma.vmPrivateData.npagefaults == 0
    ensures unchanged(vma, vma.vmPrivateData.devInfo)
  {
    var info := vma.vmPrivateData;
    info.npagefaults := 0;
  }

  /** mmap of the file `filp` into the area `vma`. A mapping that would
      reach past the buffer is refused with -EINVAL and the area is left as
      it was; otherwise the driver's operations and fresh per-mapping data,
      referring to the file's record with a fault count of 0, are attached. */
  method Mmap(filp: File, vma: Vma) returns (r: MmapStatus)
    requires vma.Valid()
    requires filp.privateData != null && filp.privateData.Valid()
    modifies vma
    ensures vma.Valid()
    ensures r == MmapOk <==> Fits(vma.vmPgoff, vma.Length())
    ensures r == Einval ==> unchanged(vma)
    ensures r == MmapOk ==>
      && vma.vmOps && vma.vmPrivateData != null && fresh(vma.vmPrivateData)
      && vma.vmPrivateData.devInfo == filp.privateData
      && vma.vmPrivateData.npagefaults == 0
  {
    FitsCheckedIsExact(vma.vmPgoff, vma.Length());
    if !FitsChecked(vma.vmPgoff, vma.Length()) {
      return Einval;
    }
    vma.vmOps := true;
    var info := new VmaInfo(filp.privateData);
    vma.vmPrivateData := info;
    VmOpen(vma);
    r := MmapOk;
  }

  /** The fault handler, for a fault on device page `vmfPgoff` (the host
      counts fault offsets from the start of the device, so the page lies
      inside the area). Without private data the fault is refused with
      -VM_FAULT_SIGSEGV and nothing changes. Otherwise the area's fault
      count grows by one, the page at byte offset vmfPgoff * PAGE_SIZ of the
      record's buffer gains one reference and is returned, and that page
      lies entirely inside the buffer. */
  method VmFault(vma: Vma, vmfPgoff: U64) returns (r: FaultResult)
    requires vma.Valid()
    requires InMapping(vma.vmPgoff, vma.Length(), vmfPgoff)
    modifies if vma.vmPrivateData == null then {} else {vma.vmPrivateData, vma.vmPrivateData.devInfo}
    ensures vma.vmPrivateData == null ==> r == SigSegv
    ensures vma.vmPrivateData != null ==>
      && r == Resolved(PageOffset(vmfPgoff))
      && r.offset + PAGE_SIZ <= vma.vmPrivateData.devInfo.size
      && vma.vmPrivateData.npagefaults == Wrap64(old(vma.vmPrivateData.npagefaults) + 1)
      && vma.vmPrivateData.devInfo.pageRefs
           == old(vma.vmPrivateData.devInfo.pageRefs)[r.offset := old(vma.vmPrivateData.devInfo.RefCount(r.offset)) + 1]
  {
    var info := vma.vmPrivateData;
    if info == null {
      return SigSegv;
    }
    info.npagefaults := Wrap64(info.npagefaults + 1);
    var off := PageOffset(vmfPgoff);
    PageInBuffer(vma.vmPgoff, vma.Length(), vmfPgoff);
    info.devInfo.GetPage(off);
    r := Resolved(off);
  }
}
