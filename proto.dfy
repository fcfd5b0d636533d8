/** The messages of the machine service that the modelled code builds or reads. */
module Proto {
  import opened Common

  /** What a client reports about itself when it registers. */
  datatype MachineInfo = MachineInfo(
    uuid: Option<string>,   // an identifier the client already holds, if any
    hostName: string,
    systemName: string,
    ipAddress: string,
    kernelVersion: string,
    osVersion: string,
    cpuCores: u64,
    totalMemory: u64,       // bytes
    totalSwap: u64,         // bytes
    totalDisk: u64)         // bytes, summed over all disks

  /** The identifier the service answers a registration with. */
  datatype MachineClientId = MachineClientId(uuid: string)

  /**
   * A periodic CPU report. The usage figures are single-precision floats in
   * the message; the model only carries them and never computes with them.
   */
  datatype MachineDynamicInfo = MachineDynamicInfo(uuid: string, cpuUsage: map<string, real>)
}
