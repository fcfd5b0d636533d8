/**
 * The client's sampling of its host: the static description it registers
 * with, and the periodic CPU report. The host readings (sysinfo's answers)
 * are inputs of the model.
 */
module Sampling {
  import opened Common
  import opened Proto

  /** `kib.saturating_mul(1024)`: KiB to bytes, stuck at u64::MAX when the product does not fit. */
  function KibToBytes(kib: u64): (bytes: u64)
    ensures bytes == kib * 1024 <==> kib <= U64_MAX / 1024
    ensures bytes != kib * 1024 ==> bytes == U64_MAX && kib * 1024 > U64_MAX
  {
    if kib * 1024 <= U64_MAX then kib * 1024 else U64_MAX
  }

  /** More KiB never give fewer bytes, and the bytes give the KiB back whenever the product fits. */
  lemma KibToBytesOrder(a: u64, b: u64)
    ensures a <= b ==> KibToBytes(a) <= KibToBytes(b)
    ensures a <= U64_MAX / 1024 ==> KibToBytes(a) / 1024 == a && KibToBytes(a) % 1024 == 0
  {
  }

  /** The sum of a list of sizes, without any bound. */
  function Sum(sizes: seq<u64>): int {
    if sizes == [] then 0 else Sum(sizes[..|sizes| - 1]) + sizes[|sizes| - 1]
  }

  /** Summing two lists one after the other is summing their concatenation. */
  lemma {:induction false} SumAppend(a: seq<u64>, b: seq<u64>)
    ensures Sum(a + b) == Sum(a) + Sum(b)
    decreases |b|
  {
    if b != [] {
      var b' := b[..|b| - 1];
      assert (a + b)[..|a + b| - 1] == a + b';
      SumAppend(a, b');
    } else {
      assert a + b == a;
    }
  }

  /** Sizes are never negative, so a prefix never sums to more than the whole list. */
  lemma {:induction false} SumPrefix(sizes: seq<u64>, i: nat)
    requires i <= |sizes|
    ensures 0 <= Sum(sizes[..i]) <= Sum(sizes)
  {
    SumAppend(sizes[..i], sizes[i..]);
    assert sizes[..i] + sizes[i..] == sizes;
    SumNonNegative(sizes[..i]);
    SumNonNegative(sizes[i..]);
  }

  lemma {:induction false} SumNonNegative(sizes: seq<u64>)
    ensures Sum(sizes) >= 0
  {
    if sizes != [] {
      SumNonNegative(sizes[..|sizes| - 1]);
    }
  }

  /**
   * The `for disk in disks.list()` loop that adds up `total_space`. The
   * `+=` is on u64: an overflow panics (in a debug build), shown as None.
   */
  method TotalDiskSpace(sizes: seq<u64>) returns (total: Option<u64>)
    ensures total.Some? <==> Sum(sizes) <= U64_MAX
    ensures total.Some? ==> total.value == Sum(sizes)
  {
    var space: u64 := 0;
    for i := 0 to |sizes|
      invariant space == Sum(sizes[..i])
    {
      assert sizes[..i + 1][..i] == sizes[..i];
      if space + sizes[i] > U64_MAX {
        SumPrefix(sizes, i + 1);
        return None;
      }
      space := space + sizes[i];
    }
    assert sizes[..|sizes|] == sizes;
    return Some(space);
  }

  /** What sysinfo reports about the host. */
  datatype HostReadings = HostReadings(
    hostName: Option<string>,
    systemName: Option<string>,
    kernelVersion: Option<string>,
    osVersion: Option<string>,
    physicalCores: Option<u64>,   // `System::physical_core_count()`
    cpuCount: u64,                // `sys.cpus().len()`
    totalMemory: u64,             // `sys.total_memory()`, which the code takes to be KiB
    totalSwap: u64,               // `sys.total_swap()`, likewise
    diskSizes: seq<u64>)          // `total_space()` of each disk, in bytes

  /**
   * `collect_static_info`: None when the call panics, that is, when the
   * disk sizes overflow a u64 or one of the four host strings is missing
   * and its `unwrap` fails.
   */
  method CollectStaticInfo(uuid: Option<string>, host: HostReadings) returns (info: Option<MachineInfo>)
    ensures info.Some? <==>
      && Sum(host.diskSizes) <= U64_MAX
      && host.hostName.Some? && host.systemName.Some? && host.kernelVersion.Some? && host.osVersion.Some?
    ensures info.Some? ==>
      && info.value.uuid == uuid
      && info.value.hostName == host.hostName.value
      && info.value.systemName == host.systemName.value
      && info.value.ipAddress == ""
      && info.value.kernelVersion == host.kernelVersion.value
      && info.value.osVersion == host.osVersion.value
      && info.value.cpuCores == (if host.physicalCores.Some? then host.physicalCores.value else host.cpuCount)
      && info.value.totalMemory == KibToBytes(host.totalMemory)
      && info.value.totalSwap == KibToBytes(host.totalSwap)
      && info.value.totalDisk == Sum(host.diskSizes)
  {
    var cores := match host.physicalCores case Some(n) => n case None => host.cpuCount;
    var memory := KibToBytes(host.totalMemory);
    var swap := KibToBytes(host.totalSwap);
    var disk := TotalDiskSpace(host.diskSizes);
    if disk.None? || host.hostName.None? || host.systemName.None? || host.kernelVersion.None? || host.osVersion.None? {
      return None;
    }
    info := Some(MachineInfo(
      uuid, host.hostName.value, host.systemName.value, "", host.kernelVersion.value, host.osVersion.value,
      cores, memory, swap, disk.value));
  }

  /** One CPU as sysinfo lists it: its name and its current usage. */
  datatype Cpu = Cpu(name: string, usage: real)

  /** The usage map after inserting every CPU in order; a later CPU with the same name replaces an earlier one. */
  function UsageMap(cpus: seq<Cpu>): map<string, real> {
    if cpus == [] then map[] else UsageMap(cpus[..|cpus| - 1])[cpus[|cpus| - 1].name := cpus[|cpus| - 1].usage]
  }

  /** The map has one key per CPU name, and nothing else. */
  lemma {:induction false} UsageMapKeys(cpus: seq<Cpu>)
    ensures forall n :: n in UsageMap(cpus) <==> exists i :: 0 <= i < |cpus| && cpus[i].name == n
  {
    if cpus != [] {
      var init := cpus[..|cpus| - 1];
      UsageMapKeys(init);
      assert UsageMap(cpus) == UsageMap(init)[cpus[|cpus| - 1].name := cpus[|cpus| - 1].usage];
      forall n | n in UsageMap(cpus)
        ensures exists i :: 0 <= i < |cpus| && cpus[i].name == n
      {
        if n != cpus[|cpus| - 1].name {
          assert n in UsageMap(init);
          var i :| 0 <= i < |init| && init[i].name == n;
          assert cpus[i] == init[i];
        }
      }
      forall n, i | 0 <= i < |cpus| && cpus[i].name == n
        ensures n in UsageMap(cpus)
      {
        if i < |init| {
          assert init[i] == cpus[i];
        }
      }
    }
  }

  /** Each name maps to the usage of the last CPU listed under that name. */
  lemma {:induction false} UsageMapLastWins(cpus: seq<Cpu>, i: nat)
    requires i < |cpus|
    requires forall j :: i < j < |cpus| ==> cpus[j].name != cpus[i].name
    ensures cpus[i].name in UsageMap(cpus) && UsageMap(cpus)[cpus[i].name] == cpus[i].usage
  {
    var init := cpus[..|cpus| - 1];
    if i < |init| {
      forall j | i < j < |init|
        ensures init[j].name != init[i].name
      {
        assert init[j] == cpus[j];
      }
      UsageMapLastWins(init, i);
      assert init[i] == cpus[i];
    }
  }

  /**
   * `collect_dynamic_info`: the report carries `uuid` as given and the usage
   * of every CPU, inserted into the map one CPU at a time.
   */
  method CollectDynamicInfo(cpus: seq<Cpu>, uuid: string) returns (info: MachineDynamicInfo)
    ensures info.uuid == uuid
    ensures info.cpuUsage == UsageMap(cpus)
  {
    var usage: map<string, real> := map[];
    for i := 0 to |cpus|
      invariant usage == UsageMap(cpus[..i])
    {
      assert cpus[..i + 1][..i] == cpus[..i];
      usage := usage[cpus[i].name := cpus[i].usage];
    }
    assert cpus[..|cpus|] == cpus;
    info := MachineDynamicInfo(uuid, usage);
  }
}
