/** The liveness of a session's resources, and why a resource call is refused. */
module ResourceStates {
  import opened Machine

  datatype Liveness = Active | Poisoned | Closed

  datatype ResourceError =
    | LimitReached
    | NotActive(state: Liveness)
    | LeasesRemain(regions: nat, bytes: nat)
    | MappedLengthMismatch(reserved: u64, actual: u64)
}
