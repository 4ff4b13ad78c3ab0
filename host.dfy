/** The monitor's view of the machine it runs on: the external programs it
    launches, what they give back, and the trace of a run. */
module Host {

  /** The outcome of `subprocess.run`: the program ran and exited with a
      status and captured standard output, or it could not be launched at
      all (the call raised). */
  datatype Proc = Exited(code: int, out: string) | LaunchFailed

  /** The external commands the monitor issues. */
  datatype Command =
    | ListDisks                       // lsblk -dn -o NAME,TYPE
    | ListPartitions(disk: string)    // lsblk -ln -o NAME,TYPE <disk>
    | SmartHealth(disk: string)       // smartctl -H <disk>
    | MountPoint(device: string)      // mountpoint -q <device>
    | Unmount(device: string)         // umount <device>
    | Fsck(device: string)            // fsck -y <device>

  /** The host answers every command; within one run the same command gets
      the same answer. */
  type Tool = Command -> Proc

  /** One entry of a repair session's trace: a command and what it returned,
      a line the operator typed at the prompt for a partition, or the
      return value of one repair attempt on a partition. */
  datatype Event =
    | Ran(cmd: Command, result: Proc)
    | Asked(part: string, answer: string)
    | Attempted(part: string, ok: bool)

  /** A run that ended with exit status 0. */
  predicate Succeeded(p: Proc)
  {
    p.Exited? && p.code == 0
  }
}
