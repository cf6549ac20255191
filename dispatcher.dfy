/*
 * The x86-32 dispatcher's "disabled" test: a dispatcher runs disabled when
 * its disabled flag is set or when the user-level instruction pointer lies
 * in its critical section, the half-open range [crit_pc_low, crit_pc_high).
 */
module DispatcherShared {

  /** The fields of the shared dispatcher state that the test reads */
  datatype Dispatcher = Dispatcher(disabled: bool, critPcLow: nat, critPcHigh: nat)

  /** dispatcher_is_disabled_ip */
  function IsDisabledIp(d: Dispatcher, rip: nat): (r: bool)
    ensures d.disabled ==> r
    ensures d.critPcLow <= rip < d.critPcHigh ==> r
    ensures r ==> d.disabled || d.critPcLow <= rip < d.critPcHigh
  {
    d.disabled || (d.critPcLow <= rip && rip < d.critPcHigh)
  }

  /** The critical section's upper bound is exclusive */
  lemma CritPcHighExcluded(d: Dispatcher)
    ensures IsDisabledIp(d, d.critPcHigh) == d.disabled
  {
  }

  /** An empty critical section never disables the dispatcher */
  lemma EmptyCriticalSection(d: Dispatcher, rip: nat)
    requires d.critPcLow >= d.critPcHigh
    ensures IsDisabledIp(d, rip) == d.disabled
  {
  }
}
