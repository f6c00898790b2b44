/** The breakpoint decision rule of the interception gate: given an intercepted
    message, its direction and the caller's scope restriction, decide whether the
    message must be offered for interception. Pure: it reads the controller's
    global break flags and the enabled breakpoint list and changes nothing. */
module BreakRules {

  /** The intercepted message. Only the force-intercept and in-scope flags are read
      by the rule; `content` stands for everything else a breakpoint may inspect. */
  datatype Message = Message(forceIntercept: bool, inScope: bool, content: string)

  /** The controller's global break flags (isBreakRequest, isBreakResponse, isStepping). */
  datatype Flags = Flags(breakRequest: bool, breakResponse: bool, stepping: bool)

  /** An enabled breakpoint: a foreign predicate match(message, isRequest, onlyIfInScope). */
  datatype Breakpoint = Breakpoint(matches: (Message, bool, bool) -> bool)

  /** The answer of the rule, with the number of enabled breakpoints whose `match`
      was called, in list order, while reaching it. */
  datatype Verdict = Verdict(isBreak: bool, consulted: nat)

  /** A Java reference that may be null. */
  datatype Option<+T> = None | Some(value: T)

  datatype Fault = NullPointerException

  /** A Java call either returns a value or lets an exception escape. */
  datatype Outcome<+T> = Returned(value: T) | Threw(fault: Fault)

  /** Break on all requests: never fires for a response; for a request, fires
      exactly when the controller's break-request flag is on. */
  function IsBreakOnAllRequests(flags: Flags, isRequest: bool): (r: bool)
    ensures !isRequest ==> !r
    ensures isRequest ==> (r <==> flags.breakRequest)
  {
    isRequest && flags.breakRequest
  }

  /** Break on all responses: the mirror image of IsBreakOnAllRequests. */
  function IsBreakOnAllResponses(flags: Flags, isRequest: bool): (r: bool)
    ensures isRequest ==> !r
    ensures !isRequest ==> (r <==> flags.breakResponse)
  {
    !isRequest && flags.breakResponse
  }

  /** Stepping: fires in either direction exactly when stepping is on. */
  function IsBreakOnStepping(flags: Flags, isRequest: bool): (r: bool)
    ensures r <==> flags.stepping
  {
    flags.stepping
  }

  /** Some breakpoint of the list matches the message. */
  ghost predicate AnyMatches(bps: seq<Breakpoint>, m: Message, isRequest: bool, onlyIfInScope: bool) {
    exists i :: 0 <= i < |bps| && bps[i].matches(m, isRequest, onlyIfInScope)
  }

  /** The iterator loop over the enabled breakpoints: stops at the first match. */
  function Search(bps: seq<Breakpoint>, m: Message, isRequest: bool, onlyIfInScope: bool): (v: Verdict)
    ensures v.consulted <= |bps|
    ensures v.isBreak <==> AnyMatches(bps, m, isRequest, onlyIfInScope)
    ensures !v.isBreak ==> v.consulted == |bps|
    ensures v.isBreak ==> 0 < v.consulted && bps[v.consulted - 1].matches(m, isRequest, onlyIfInScope)
    ensures forall i :: 0 <= i < v.consulted - 1 ==> !bps[i].matches(m, isRequest, onlyIfInScope)
    decreases |bps|
  {
    if bps == [] then Verdict(false, 0)
    else if bps[0].matches(m, isRequest, onlyIfInScope) then Verdict(true, 1)
    else
      var rest := Search(bps[1..], m, isRequest, onlyIfInScope);
      assert forall i :: 1 <= i < |bps| ==> bps[i] == bps[1..][i - 1];
      Verdict(rest.isBreak, rest.consulted + 1)
  }

  /** isBreakOnEnabledBreakpoint: a list never set is Java's null, which throws; an
      empty list answers false without consulting anything; otherwise the answer is
      "some enabled breakpoint matches". */
  function IsBreakOnEnabledBreakpoint(enabled: Option<seq<Breakpoint>>, m: Message, isRequest: bool,
                                      onlyIfInScope: bool): (r: Outcome<Verdict>)
    ensures enabled.None? <==> r == Threw(NullPointerException)
    ensures enabled.Some? ==>
              r.Returned? && r.value.consulted <= |enabled.value| &&
              (r.value.isBreak <==> AnyMatches(enabled.value, m, isRequest, onlyIfInScope))
    ensures enabled == Some([]) ==> r == Returned(Verdict(false, 0))
  {
    match enabled
    case None => Threw(NullPointerException)
    case Some(bps) =>
      if bps == [] then Returned(Verdict(false, 0))
      else Returned(Search(bps, m, isRequest, onlyIfInScope))
  }

  /** One of the rules before the breakpoint search decides the message. */
  predicate DecidedEarly(flags: Flags, m: Message, isRequest: bool, onlyIfInScope: bool) {
    m.forceIntercept || (onlyIfInScope && !m.inScope) ||
    (isRequest && flags.breakRequest) || (!isRequest && flags.breakResponse) || flags.stepping
  }

  /** Reference meaning of the rule as one formula, without precedence. */
  ghost predicate BreakSpec(flags: Flags, bps: seq<Breakpoint>, m: Message, isRequest: bool, onlyIfInScope: bool) {
    m.forceIntercept ||
    (!(onlyIfInScope && !m.inScope) &&
     ((isRequest && flags.breakRequest) || (!isRequest && flags.breakResponse) || flags.stepping ||
      AnyMatches(bps, m, isRequest, onlyIfInScope)))
  }

  /** isBreakpoint: first true wins, in the order force-intercept, scope filter,
      break on all requests, break on all responses, stepping, enabled breakpoints.
      It agrees with the one-formula meaning BreakSpec; it throws only when no earlier
      rule decides and the list was never set; an early decision consults no breakpoint. */
  function IsBreakpoint(flags: Flags, enabled: Option<seq<Breakpoint>>, m: Message, isRequest: bool,
                        onlyIfInScope: bool): (r: Outcome<Verdict>)
    ensures r.Threw? <==> enabled.None? && !DecidedEarly(flags, m, isRequest, onlyIfInScope)
    ensures r.Returned? && DecidedEarly(flags, m, isRequest, onlyIfInScope) ==> r.value.consulted == 0
    ensures enabled.Some? ==>
              r.Returned? && r.value.consulted <= |enabled.value| &&
              (r.value.isBreak <==> BreakSpec(flags, enabled.value, m, isRequest, onlyIfInScope))
  {
    if m.forceIntercept then Returned(Verdict(true, 0))
    else if onlyIfInScope && !m.inScope then Returned(Verdict(false, 0))
    else if IsBreakOnAllRequests(flags, isRequest) then Returned(Verdict(true, 0))
    else if IsBreakOnAllResponses(flags, isRequest) then Returned(Verdict(true, 0))
    else if IsBreakOnStepping(flags, isRequest) then Returned(Verdict(true, 0))
    else IsBreakOnEnabledBreakpoint(enabled, m, isRequest, onlyIfInScope)
  }

  // ---- Properties of the decision rule ----

  /** A force-intercepted message is a breakpoint whatever the scope, the flags or
      the enabled list (even a list never set), and no breakpoint is consulted. */
  lemma ForceInterceptWins(flags: Flags, enabled: Option<seq<Breakpoint>>, m: Message, isRequest: bool,
                           onlyIfInScope: bool)
    requires m.forceIntercept
    ensures IsBreakpoint(flags, enabled, m, isRequest, onlyIfInScope) == Returned(Verdict(true, 0))
  {
  }

  /** With the scope restriction on, an out-of-scope message that is not forced is
      never a breakpoint, whatever the flags, and no breakpoint is consulted. */
  lemma OutOfScopeRejects(flags: Flags, enabled: Option<seq<Breakpoint>>, m: Message, isRequest: bool)
    requires !m.forceIntercept && !m.inScope
    ensures IsBreakpoint(flags, enabled, m, isRequest, true) == Returned(Verdict(false, 0))
  {
  }

  /** Break-on-all-requests stops every request that passes the scope filter, and the
      decision for a response does not depend on it. */
  lemma BreakRequestFlag(flags: Flags, enabled: Option<seq<Breakpoint>>, m: Message, onlyIfInScope: bool, b: bool)
    ensures flags.breakRequest && !(onlyIfInScope && !m.inScope) ==>
              IsBreakpoint(flags, enabled, m, true, onlyIfInScope) == Returned(Verdict(true, 0))
    ensures IsBreakpoint(flags.(breakRequest := b), enabled, m, false, onlyIfInScope) ==
              IsBreakpoint(flags, enabled, m, false, onlyIfInScope)
  {
  }

  /** Break-on-all-responses is the mirror image of break-on-all-requests. */
  lemma BreakResponseFlag(flags: Flags, enabled: Option<seq<Breakpoint>>, m: Message, onlyIfInScope: bool, b: bool)
    ensures flags.breakResponse && !(onlyIfInScope && !m.inScope) ==>
              IsBreakpoint(flags, enabled, m, false, onlyIfInScope) == Returned(Verdict(true, 0))
    ensures IsBreakpoint(flags.(breakResponse := b), enabled, m, true, onlyIfInScope) ==
              IsBreakpoint(flags, enabled, m, true, onlyIfInScope)
  {
  }

  /** Stepping stops every message that passes the scope filter, in both directions. */
  lemma SteppingBreaksBoth(flags: Flags, enabled: Option<seq<Breakpoint>>, m: Message, isRequest: bool,
                           onlyIfInScope: bool)
    requires flags.stepping && !(onlyIfInScope && !m.inScope)
    ensures IsBreakpoint(flags, enabled, m, isRequest, onlyIfInScope) == Returned(Verdict(true, 0))
  {
  }

  /** When no earlier rule fires, the answer is "some enabled breakpoint matches": an
      empty list answers false, a list never set throws, and otherwise the answer is
      exactly the search's, so with StopsAtFirstMatch the breakpoints after the first
      match are never evaluated. */
  lemma FallThroughToEnabled(flags: Flags, enabled: Option<seq<Breakpoint>>, m: Message, isRequest: bool,
                             onlyIfInScope: bool)
    requires !DecidedEarly(flags, m, isRequest, onlyIfInScope)
    ensures enabled.None? ==> IsBreakpoint(flags, enabled, m, isRequest, onlyIfInScope) == Threw(NullPointerException)
    ensures enabled == Some([]) ==> IsBreakpoint(flags, enabled, m, isRequest, onlyIfInScope) == Returned(Verdict(false, 0))
    ensures enabled.Some? ==>
              var r := IsBreakpoint(flags, enabled, m, isRequest, onlyIfInScope);
              r.Returned? && (r.value.isBreak <==> AnyMatches(enabled.value, m, isRequest, onlyIfInScope))
    ensures enabled.Some? ==>
              IsBreakpoint(flags, enabled, m, isRequest, onlyIfInScope) == Returned(Search(enabled.value, m, isRequest, onlyIfInScope))
  {
  }

  /** The search stops at the first matching breakpoint: those after it are never
      evaluated. */
  lemma StopsAtFirstMatch(bps: seq<Breakpoint>, m: Message, isRequest: bool, onlyIfInScope: bool, k: nat)
    requires k < |bps| && bps[k].matches(m, isRequest, onlyIfInScope)
    requires forall i :: 0 <= i < k ==> !bps[i].matches(m, isRequest, onlyIfInScope)
    ensures Search(bps, m, isRequest, onlyIfInScope) == Verdict(true, k + 1)
  {
  }
}
