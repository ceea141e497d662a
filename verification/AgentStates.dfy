/** The fused verdict for one agent pane (`cyclops-proto` state). */
module AgentStates {

  datatype AgentState =
    Unknown | Idle | IdleWithInput | Working | BlockedModal | BlockedPermission | BlockedQuota | Dead

  // The states that raise operator attention.
  predicate IsBlocked(s: AgentState) {
    s.BlockedModal? || s.BlockedPermission? || s.BlockedQuota?
  }
}
