/** One sample of the host's metrics: what the rings store and the scheduler reads. */
module Samples {

  /** The metric groups a sample may carry (the bits of Sample::groups). */
  datatype Group =
    | Cpu | Mem | Swap | Load | Disk | Net | Proc | Entropy | Self | Thermal
    | FileWatch | Uptime | Tcp | Udp | Fs | Clock | Icmp

  /** Every numeric reading. A reading its sample lacks is 0, as in a zeroed struct. */
  datatype Field =
    | CpuTotal | CpuCount | CpuUser | CpuSystem | CpuIowait | CpuIrq | CpuSteal | CpuIdle
    | MemTotal | MemAvailable | MemAvailablePercent
    | SwapTotal | SwapUsed | SwapUsedPercent
    | Load1m | Load5m | Load15m
    | DiskRead | DiskWrite | DiskDevices
    | NetRx | NetTx | NetInterfaces
    | ProcTotal | ProcRunning | ProcSleeping | ProcBlocked | ProcStopped | ProcZombie | ProcThreads
    | EntropyBits
    | SelfRss | SelfPeakRss | SelfCpuUser | SelfCpuSystem
    | ThermalMax | ThermalSensors
    | FileEvents | FileWatched
    | UptimeSeconds
    | TcpEstablished | TcpTimeWait
    | TcpActive | TcpPassive | TcpRetransmits | TcpIn | TcpOut | TcpErrors
    | UdpIn | UdpOut | UdpNoPort | UdpErrors
    | FsCount | FsUsedPercent | FsInodesPercent
    | ClockOffset | ClockMaxError
    | IcmpIn | IcmpOut | IcmpErrors | IcmpUnreachable

  datatype Sample = Sample(
    ts: nat,                    // timestamp_nanos
    level: nat,                 // 1 = L1, 2 = L2, 3 = L3, 4.. custom
    folded: bool,
    groups: set<Group>,
    present: set<Group>,        // the groups' present flags
    synced: bool,               // clock.synced
    vals: map<Field, real>)
  {
    function Val(f: Field): real {
      if f in vals then vals[f] else 0.0
    }
  }

  const L1: nat := 1
  const L2: nat := 2
  const L3: nat := 3
  const FIRST_CUSTOM_LEVEL: nat := 4
  const MAX_LEVEL_ID: nat := 19
  const CUSTOM_RING_TIER: nat := 0x80
}
