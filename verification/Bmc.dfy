/** The BMC as the control loop sees it: a mode, and the commands it was sent with their outcome. */
module Bmc {

  datatype Mode = Auto | Manual

  datatype Command = EnableManual | RestoreAuto | SetFan(speed: int)

  /** One command sent over IPMI, and whether the BMC acknowledged it. */
  datatype Attempt = Attempt(command: Command, ok: bool) {
    predicate AcceptedEnable() { command.EnableManual? && ok }
    predicate AcceptedRestore() { command.RestoreAuto? && ok }
  }

  /** `log` is an observer: every attempt so far, oldest first. */
  datatype Bmc = Bmc(mode: Mode, log: seq<Attempt>) {

    /** An acknowledged mode command takes effect; a failed command changes nothing. */
    function Execute(c: Command, ok: bool): Bmc {
      Bmc(if !ok then mode else match c
          case EnableManual => Manual
          case RestoreAuto => Auto
          case SetFan(_) => mode,
          log + [Attempt(c, ok)])
    }
  }
}
