/** Call sequences a host makes against the driver, with what the driver's
    contracts alone let a caller conclude about them. */
module Scenarios {
  import opened Paging
  import opened Tabling
  import opened Mykmod

  /** Two files opened on one inode share one record, which is tabled once,
      and closing a file changes nothing. */
  method RepeatedOpenSharesRecord(inode: InodeId) returns (first: DevInfo?, second: DevInfo?, tabled: nat)
    ensures first != null && first == second
    ensures tabled == 1
  {
    var devices := new DeviceTable();
    var f1 := new File();
    var f2 := new File();
    devices.Open(inode, f1);
    devices.Open(inode, f2);
    devices.Close(inode, f1);
    first, second, tabled := f1.privateData, f2.privateData, devices.nDev;
  }

  /** A mapping of the whole buffer is accepted; one page longer is refused
      and the area gets neither operations nor private data. */
  method MmapChecksLength() returns (whole: MmapStatus, tooLong: MmapStatus, untouched: bool)
    ensures whole == MmapOk
    ensures tooLong == Einval && untouched
  {
    var devices := new DeviceTable();
    var f := new File();
    devices.Open(1, f);
    var a := new Vma(0x1000, 0x1000 + MYDEV_LEN, 0);
    whole := Mmap(f, a);
    var b := new Vma(0x1000, 0x1000 + MYDEV_LEN + PAGE_SIZ, 0);
    tooLong := Mmap(f, b);
    untouched := !b.vmOps && b.vmPrivateData == null;
  }

  /** Two faults on the same page resolve to the same offset, leave the
      area's fault count at 2 and take two references on the page. */
  method RepeatedFaultSamePage() returns (first: FaultResult, second: FaultResult, faults: U64, refs: nat)
    ensures first == second == Resolved(0)
    ensures faults == 2 && refs == 2
  {
    var devices := new DeviceTable();
    var f := new File();
    devices.Open(3, f);
    var vma := new Vma(0x1000, 0x2000, 0);
    var status := Mmap(f, vma);
    first := VmFault(vma, 0);
    second := VmFault(vma, 0);
    faults := vma.vmPrivateData.npagefaults;
    refs := vma.vmPrivateData.devInfo.RefCount(0);
  }

  /** A fault on an area that mmap never set up is refused. */
  method FaultWithoutPrivateData() returns (r: FaultResult)
    ensures r == SigSegv
  {
    var vma := new Vma(0x1000, 0x3000, 0);
    r := VmFault(vma, 1);
  }

  /** vm_close resets the count but keeps the private data, so a later fault
      on the same area still resolves, and counts from 1 again. */
  method FaultAfterVmClose() returns (r: FaultResult, faults: U64)
    ensures r == Resolved(PAGE_SIZ)
    ensures faults == 1
  {
    var devices := new DeviceTable();
    var f := new File();
    devices.Open(5, f);
    var vma := new Vma(0x4000, 0x6000, 0);
    var status := Mmap(f, vma);
    r := VmFault(vma, 1);
    VmClose(vma);
    r := VmFault(vma, 1);
    faults := vma.vmPrivateData.npagefaults;
  }

  /** Mappings made through two files on one inode share the record's
      buffer, and a mapping at a device offset resolves the device's pages,
      not the area's. */
  method MappingsShareRecord() returns (same: bool, r: FaultResult)
    ensures same
    ensures r == Resolved(PageOffset(129))
  {
    var devices := new DeviceTable();
    var f1 := new File();
    var f2 := new File();
    devices.Open(9, f1);
    devices.Open(9, f2);
    var v1 := new Vma(0x1000, 0x2000, 0);
    var v2 := new Vma(0x8000, 0x8000 + 128 * PAGE_SIZ, 128);
    var s1 := Mmap(f1, v1);
    var s2 := Mmap(f2, v2);
    same := v1.vmPrivateData.devInfo == v2.vmPrivateData.devInfo;
    r := VmFault(v2, 129);
  }
}
