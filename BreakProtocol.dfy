/** The per-message interception protocol, as the sequence of calls a handler makes
    on the controller (breakpoint management) and on the event publisher once a
    message has been found to be a breakpoint. The controller's answers to
    isHoldMessage are given as a script, consumed one per check. */
module BreakProtocol {
  import opened BreakRules

  /** One call made by a handler on its collaborators. */
  datatype Event =
    | Hit                                          // breakMgmt.breakpointHit()
    | Active(msg: Message)                         // publisher.publishActiveEvent(msg)
    | HoldCheck(hold: bool)                        // breakMgmt.isHoldMessage(msg), with its answer
    | SetMessage(msg: Message, isRequest: bool)    // breakMgmt.setMessage(msg, isRequest)
    | Displayed                                    // breakMgmt.breakpointDisplayed()
    | Save(isRequest: bool)                        // breakMgmt.saveMessage(isRequest)
    | ClearRequest                                 // breakMgmt.clearAndDisableRequest()
    | ClearResponse                                // breakMgmt.clearAndDisableResponse()
    | Inactive(msg: Message)                       // publisher.publishInactiveEvent(msg)
    | DropCheck(dropped: bool)                     // breakMgmt.isToBeDropped(), with its answer

  /** The operator eventually releases the hold: some check answers false. */
  predicate Released(answers: seq<bool>) {
    false in answers
  }

  /** Index of the first check that answers false. */
  function FirstRelease(answers: seq<bool>): (k: nat)
    requires Released(answers)
    ensures k < |answers| && !answers[k]
    ensures forall i :: 0 <= i < k ==> answers[i]
  {
    if !answers[0] then 0
    else
      assert answers == [answers[0]] + answers[1..];
      1 + FirstRelease(answers[1..])
  }

  /** The polling loop of waitUntilContinue: check until the answer is false. One
      check per answer up to the first false; every check but the last answers true. */
  function WaitEvents(answers: seq<bool>): (w: seq<Event>)
    requires Released(answers)
    ensures |w| == FirstRelease(answers) + 1
    ensures w[|w| - 1] == HoldCheck(false)
    ensures forall i :: 0 <= i < |w| - 1 ==> w[i] == HoldCheck(true)
  {
    if !answers[0] then [HoldCheck(false)]
    else
      assert answers == [answers[0]] + answers[1..];
      [HoldCheck(true)] + WaitEvents(answers[1..])
  }

  function Clear(isRequest: bool): Event {
    if isRequest then ClearRequest else ClearResponse
  }

  /** The region guarded by the global lock: check the hold once, and only if it is
      held display the message, wait for the release and save the message. It opens
      with that one check; held, it adds display, the polls and the save. */
  function HoldRegion(m: Message, isRequest: bool, answers: seq<bool>): (h: seq<Event>)
    requires Released(answers)
    ensures |h| == if answers[0] then 4 + FirstRelease(answers) else 1
    ensures h[0] == HoldCheck(answers[0])
  {
    [HoldCheck(answers[0])] +
    (if answers[0] then
       assert answers == [answers[0]] + answers[1..];
       [SetMessage(m, isRequest), Displayed] + WaitEvents(answers[1..]) + [Save(isRequest)]
     else [])
  }

  /** Everything a handler does for a breakpoint message: announce, the hold region,
      then clear, announce the end and ask whether to drop the message. It opens with
      hit, active and the first hold check and closes with the clear call for its
      direction, inactive and the drop check, which the controller answers `dropped`. */
  function Protocol(m: Message, isRequest: bool, answers: seq<bool>, dropped: bool): (p: seq<Event>)
    requires Released(answers)
    ensures |p| == if answers[0] then 9 + FirstRelease(answers) else 6
    ensures p[0] == Hit && p[1] == Active(m) && p[2] == HoldCheck(answers[0])
    ensures p[|p| - 3] == Clear(isRequest) && p[|p| - 2] == Inactive(m) && p[|p| - 1] == DropCheck(dropped)
  {
    [Hit, Active(m)] + HoldRegion(m, isRequest, answers) + [Clear(isRequest), Inactive(m), DropCheck(dropped)]
  }

  /** How many hold answers the protocol consumes. */
  function Consumed(answers: seq<bool>): (n: nat)
    requires Released(answers)
    ensures 0 < n <= |answers|
  {
    FirstRelease(answers) + 1
  }

  /** The nesting of a held protocol's pieces does not matter. */
  lemma Regroup(a: seq<Event>, b: seq<Event>, d: seq<Event>, r: seq<Event>, c: seq<Event>, f: seq<Event>,
                e: seq<Event>)
    ensures a + (b + d + (r + c) + f) + e == (a + b + d) + r + (c + f + e)
  {
  }

  /** Five calls written as pieces of one, one and three or of two, one and two. */
  lemma Flatten(x1: Event, x2: Event, x3: Event, x4: Event, x5: Event)
    ensures [x1, x2] + [x3] + [x4, x5] == [x1, x2, x3, x4, x5]
    ensures [x1] + [x2] + [x3, x4, x5] == [x1, x2, x3, x4, x5]
  {
  }

  /** Appending four pieces one by one appends their concatenation. */
  lemma AppendFour(log: seq<Event>, a: seq<Event>, b: seq<Event>, c: seq<Event>, d: seq<Event>)
    ensures log + a + b + c + d == log + (a + b + c + d)
  {
  }

  /** A log extended call by call with a handler's calls ends up extended by Protocol. */
  lemma ProtocolAppend(log: seq<Event>, m: Message, isRequest: bool, answers: seq<bool>, dropped: bool)
    requires Released(answers)
    ensures log + [Hit] + [Active(m)] + HoldRegion(m, isRequest, answers) +
            [Clear(isRequest)] + [Inactive(m)] + [DropCheck(dropped)] ==
            log + Protocol(m, isRequest, answers, dropped)
  {
  }

  /** One turn of the polling loop: the first check, then, only if it answers true,
      the checks that follow it; the answers left over are the same either way. */
  lemma WaitStep(answers: seq<bool>)
    requires Released(answers)
    ensures answers[0] ==> Released(answers[1..])
    ensures WaitEvents(answers) ==
            [HoldCheck(answers[0])] + (if answers[0] then WaitEvents(answers[1..]) else [])
    ensures answers[0] ==> answers[Consumed(answers)..] == answers[1..][Consumed(answers[1..])..]
    ensures !answers[0] ==> answers[Consumed(answers)..] == answers[1..]
  {
    assert answers == [answers[0]] + answers[1..];
  }

  /** The locked region when the first check answers true: display, the polls on
      the remaining answers, save. */
  lemma HoldStep(m: Message, isRequest: bool, answers: seq<bool>)
    requires Released(answers) && answers[0]
    ensures Released(answers[1..])
    ensures HoldRegion(m, isRequest, answers) ==
            [HoldCheck(true)] + [SetMessage(m, isRequest), Displayed] + WaitEvents(answers[1..]) + [Save(isRequest)]
    ensures answers[Consumed(answers)..] == answers[1..][Consumed(answers[1..])..]
  {
    WaitStep(answers);
  }

  /** `n` copies of event `e`. */
  function Repeat(e: Event, n: nat): (s: seq<Event>)
    ensures |s| == n && forall i :: 0 <= i < n ==> s[i] == e
  {
    if n == 0 then [] else [e] + Repeat(e, n - 1)
  }

  /** The same call made for the other direction. */
  function Mirror(e: Event): Event {
    match e
    case SetMessage(m, d) => SetMessage(m, !d)
    case Save(d) => Save(!d)
    case ClearRequest => ClearResponse
    case ClearResponse => ClearRequest
    case _ => e
  }

  /** A whole call sequence made for the other direction. */
  function MirrorAll(s: seq<Event>): (r: seq<Event>)
  {
    seq(|s|, i requires 0 <= i < |s| => Mirror(s[i]))
  }

  // ---- Properties of the protocol ----

  /** The polling loop makes one check per answer up to and including the first false:
      a run of true checks, then one false check. */
  lemma WaitEventsShape(answers: seq<bool>)
    requires Released(answers)
    ensures WaitEvents(answers) == Repeat(HoldCheck(true), FirstRelease(answers)) + [HoldCheck(false)]
  {
  }

  /** The exact order of calls for a breakpoint whose first hold check answers true:
      hit, active, the check, display, the further checks until the release, save,
      clear, inactive, and last the drop check. */
  lemma ProtocolOrderHeld(m: Message, isRequest: bool, answers: seq<bool>, dropped: bool)
    requires Released(answers) && answers[0]
    ensures Protocol(m, isRequest, answers, dropped) ==
            [Hit, Active(m), HoldCheck(true), SetMessage(m, isRequest), Displayed] +
            Repeat(HoldCheck(true), FirstRelease(answers) - 1) +
            [HoldCheck(false), Save(isRequest), Clear(isRequest), Inactive(m), DropCheck(dropped)]
  {
    var rest := answers[1..];
    HoldStep(m, isRequest, answers);
    WaitEventsShape(rest);
    assert FirstRelease(answers) - 1 == FirstRelease(rest);
    var tail := [Clear(isRequest), Inactive(m), DropCheck(dropped)];
    Regroup([Hit, Active(m)], [HoldCheck(true)], [SetMessage(m, isRequest), Displayed],
            Repeat(HoldCheck(true), FirstRelease(rest)), [HoldCheck(false)], [Save(isRequest)], tail);
    Flatten(Hit, Active(m), HoldCheck(true), SetMessage(m, isRequest), Displayed);
    Flatten(HoldCheck(false), Save(isRequest), Clear(isRequest), Inactive(m), DropCheck(dropped));
  }

  /** The exact order of calls for a breakpoint whose first hold check answers false:
      hit, active, the check, clear, inactive, the drop check; nothing is displayed or
      saved. */
  lemma ProtocolOrderNotHeld(m: Message, isRequest: bool, answers: seq<bool>, dropped: bool)
    requires Released(answers) && !answers[0]
    ensures Protocol(m, isRequest, answers, dropped) ==
            [Hit, Active(m), HoldCheck(false), Clear(isRequest), Inactive(m), DropCheck(dropped)]
  {
  }

  /** The polling loop only checks the hold state. */
  lemma WaitEventsOnlyChecks(answers: seq<bool>)
    requires Released(answers)
    ensures forall e :: e in WaitEvents(answers) ==> e.HoldCheck?
  {
  }

  /** Display and save happen exactly when the first hold check answers true. */
  lemma DisplayOnlyIfHeld(m: Message, isRequest: bool, answers: seq<bool>, dropped: bool)
    requires Released(answers)
    ensures SetMessage(m, isRequest) in Protocol(m, isRequest, answers, dropped) <==> answers[0]
    ensures Displayed in Protocol(m, isRequest, answers, dropped) <==> answers[0]
    ensures Save(isRequest) in Protocol(m, isRequest, answers, dropped) <==> answers[0]
  {
  }

  /** The polling loop makes the same calls for either direction. */
  lemma MirrorWait(answers: seq<bool>)
    requires Released(answers)
    ensures MirrorAll(WaitEvents(answers)) == WaitEvents(answers)
  {
  }

  /** The response protocol is the request protocol with every direction-dependent
      call made for the other direction, and nothing else changed. */
  lemma RequestResponseMirror(m: Message, answers: seq<bool>, dropped: bool)
    requires Released(answers)
    ensures Protocol(m, false, answers, dropped) == MirrorAll(Protocol(m, true, answers, dropped))
  {
  }

  /** A worked case: one breakpoint that matches the URL "/admin", all global flags
      off. A request for "/login" is not a breakpoint; a request for "/admin" is, and
      when the operator releases it after one further check the calls are, in order,
      hit, active, the checks, display, save, clear the request, inactive, and the drop
      check, here answered "keep". */
  lemma AdminScenario()
    ensures var admin := Breakpoint((m: Message, isRequest: bool, onlyIfInScope: bool) => m.content == "/admin");
            var off := Flags(false, false, false);
            var login := Message(false, true, "/login");
            var adminReq := Message(false, true, "/admin");
            IsBreakpoint(off, Some([admin]), login, true, false) == Returned(Verdict(false, 1)) &&
            IsBreakpoint(off, Some([admin]), adminReq, true, false) == Returned(Verdict(true, 1)) &&
            Protocol(adminReq, true, [true, true, false], false) ==
            [Hit, Active(adminReq), HoldCheck(true), SetMessage(adminReq, true), Displayed,
             HoldCheck(true), HoldCheck(false), Save(true), ClearRequest, Inactive(adminReq),
             DropCheck(false)]
  {
  }
}
