/** The breakpoint message handler and the collaborators it drives, as objects: the
    controller (breakpoint management), the event publisher, and the log of calls
    both of them receive, in the order they receive them. */
module BreakHandler {
  import opened BreakRules
  import opened BreakProtocol

  /** The calls the collaborators have received so far, oldest first. */
  class EventLog {
    var events: seq<Event>

    constructor ()
      ensures events == []
    {
      events := [];
    }
  }

  /** The controller the handler reports to. Its global break flags, its drop
      decision and its answers to isHoldMessage are set from outside; the answers
      are a script, consumed one per check. */
  class Controller {
    const log: EventLog
    var breakRequest: bool
    var breakResponse: bool
    var stepping: bool
    var holdAnswers: seq<bool>
    var toBeDropped: bool

    constructor (log: EventLog, flags: Flags, holdAnswers: seq<bool>, toBeDropped: bool)
      ensures this.log == log && Flags() == flags
      ensures this.holdAnswers == holdAnswers && this.toBeDropped == toBeDropped
    {
      this.log := log;
      breakRequest, breakResponse, stepping := flags.breakRequest, flags.breakResponse, flags.stepping;
      this.holdAnswers := holdAnswers;
      this.toBeDropped := toBeDropped;
    }

    /** isBreakRequest, isBreakResponse and isStepping, read together. */
    function Flags(): BreakRules.Flags
      reads this
    {
      BreakRules.Flags(breakRequest, breakResponse, stepping)
    }

    method BreakpointHit()
      modifies log
      ensures log.events == old(log.events) + [Hit]
    {
      log.events := log.events + [Hit];
    }

    method IsHoldMessage(m: Message) returns (hold: bool)
      requires |holdAnswers| > 0
      modifies this`holdAnswers, log
      ensures hold == old(holdAnswers[0]) && holdAnswers == old(holdAnswers[1..])
      ensures log.events == old(log.events) + [HoldCheck(hold)]
    {
      hold := holdAnswers[0];
      holdAnswers := holdAnswers[1..];
      log.events := log.events + [HoldCheck(hold)];
    }

    method SetMessage(m: Message, isRequest: bool)
      modifies log
      ensures log.events == old(log.events) + [Event.SetMessage(m, isRequest)]
    {
      log.events := log.events + [Event.SetMessage(m, isRequest)];
    }

    method BreakpointDisplayed()
      modifies log
      ensures log.events == old(log.events) + [Displayed]
    {
      log.events := log.events + [Displayed];
    }

    method SaveMessage(isRequest: bool)
      modifies log
      ensures log.events == old(log.events) + [Save(isRequest)]
    {
      log.events := log.events + [Save(isRequest)];
    }

    method ClearAndDisableRequest()
      modifies log
      ensures log.events == old(log.events) + [ClearRequest]
    {
      log.events := log.events + [ClearRequest];
    }

    method ClearAndDisableResponse()
      modifies log
      ensures log.events == old(log.events) + [ClearResponse]
    {
      log.events := log.events + [ClearResponse];
    }

    method IsToBeDropped() returns (dropped: bool)
      modifies log
      ensures dropped == toBeDropped
      ensures log.events == old(log.events) + [DropCheck(dropped)]
    {
      dropped := toBeDropped;
      log.events := log.events + [DropCheck(dropped)];
    }
  }

  /** The publisher of breakpoint lifecycle events. */
  class Publisher {
    const log: EventLog

    constructor (log: EventLog)
      ensures this.log == log
    {
      this.log := log;
    }

    method PublishActiveEvent(m: Message)
      modifies log
      ensures log.events == old(log.events) + [Active(m)]
    {
      log.events := log.events + [Active(m)];
    }

    method PublishInactiveEvent(m: Message)
      modifies log
      ensures log.events == old(log.events) + [Inactive(m)]
    {
      log.events := log.events + [Inactive(m)];
    }
  }

  class BreakpointMessageHandler2 {
    const breakMgmt: Controller
    const publisher: Publisher
    /** None until the first call of SetEnabledBreakpoints (a null list). */
    var enabledBreakpoints: Option<seq<Breakpoint>>
    var enabledKeyBreakpoints: seq<string>

    /** The controller and the publisher report to one log. */
    ghost predicate Valid()
    {
      publisher.log == breakMgmt.log
    }

    constructor (breakMgmt: Controller, publisher: Publisher)
      requires publisher.log == breakMgmt.log
      ensures Valid() && this.breakMgmt == breakMgmt && this.publisher == publisher
      ensures enabledBreakpoints == None && enabledKeyBreakpoints == []
    {
      this.breakMgmt := breakMgmt;
      this.publisher := publisher;
      enabledBreakpoints := None;
      enabledKeyBreakpoints := [];
    }

    method GetEnabledKeyBreakpoints() returns (keys: seq<string>)
      ensures keys == enabledKeyBreakpoints
    {
      keys := enabledKeyBreakpoints;
    }

    method SetEnabledKeyBreakpoints(keys: seq<string>)
      modifies this`enabledKeyBreakpoints
      ensures enabledKeyBreakpoints == keys
    {
      enabledKeyBreakpoints := keys;
    }

    method SetEnabledBreakpoints(breakpoints: seq<Breakpoint>)
      modifies this`enabledBreakpoints
      ensures enabledBreakpoints == Some(breakpoints)
      ensures forall m, isRequest, onlyIfInScope ::
                IsBreakpoint(m, isRequest, onlyIfInScope) ==
                BreakRules.IsBreakpoint(breakMgmt.Flags(), Some(breakpoints), m, isRequest, onlyIfInScope)
    {
      enabledBreakpoints := Some(breakpoints);
    }

    /** isBreakpoint, on the controller's current flags and the current list: a forced
        message always breaks; it throws only while the list is unset and no earlier
        rule decides; once the list is set, it answers the rule's one-formula meaning. */
    function IsBreakpoint(m: Message, isRequest: bool, onlyIfInScope: bool): (r: Outcome<Verdict>)
      reads this, breakMgmt
      ensures m.forceIntercept ==> r == Returned(Verdict(true, 0))
      ensures r.Threw? <==> enabledBreakpoints.None? && !DecidedEarly(breakMgmt.Flags(), m, isRequest, onlyIfInScope)
      ensures enabledBreakpoints.Some? ==>
                r.Returned? &&
                (r.value.isBreak <==> BreakSpec(breakMgmt.Flags(), enabledBreakpoints.value, m, isRequest, onlyIfInScope))
    {
      BreakRules.IsBreakpoint(breakMgmt.Flags(), enabledBreakpoints, m, isRequest, onlyIfInScope)
    }

    /** The message is found to be a breakpoint (without an exception). */
    predicate Breaks(m: Message, isRequest: bool, onlyIfInScope: bool)
      reads this, breakMgmt
    {
      var d := IsBreakpoint(m, isRequest, onlyIfInScope);
      d.Returned? && d.value.isBreak
    }

    /** Handles a request on its way from the client; false means drop it. */
    method HandleMessageReceivedFromClient(m: Message, onlyIfInScope: bool) returns (r: Outcome<bool>)
      requires Valid()
      requires Breaks(m, true, onlyIfInScope) ==> Released(breakMgmt.holdAnswers)
      modifies breakMgmt`holdAnswers, breakMgmt.log
      ensures var d := old(IsBreakpoint(m, true, onlyIfInScope));
              if d.Threw? then
                r == Threw(d.fault) &&
                breakMgmt.log.events == old(breakMgmt.log.events) && breakMgmt.holdAnswers == old(breakMgmt.holdAnswers)
              else if !d.value.isBreak then
                r == Returned(true) &&
                breakMgmt.log.events == old(breakMgmt.log.events) && breakMgmt.holdAnswers == old(breakMgmt.holdAnswers)
              else
                r == Returned(!breakMgmt.toBeDropped) &&
                breakMgmt.log.events == old(breakMgmt.log.events) + Protocol(m, true, old(breakMgmt.holdAnswers), breakMgmt.toBeDropped) &&
                breakMgmt.holdAnswers == old(breakMgmt.holdAnswers)[Consumed(old(breakMgmt.holdAnswers))..]
    {
      var d := IsBreakpoint(m, true, onlyIfInScope);
      if d.Threw? {
        return Threw(d.fault);
      }
      if !d.value.isBreak {
        return Returned(true);
      }
      ghost var start, answers := breakMgmt.log.events, breakMgmt.holdAnswers;
      breakMgmt.BreakpointHit();
      publisher.PublishActiveEvent(m);
      HoldRegion(m, true);
      breakMgmt.ClearAndDisableRequest();
      publisher.PublishInactiveEvent(m);
      var dropped := breakMgmt.IsToBeDropped();
      ProtocolAppend(start, m, true, answers, dropped);
      r := Returned(!dropped);
    }

    /** Handles a response on its way from the server; false means drop it. */
    method HandleMessageReceivedFromServer(m: Message, onlyIfInScope: bool) returns (r: Outcome<bool>)
      requires Valid()
      requires Breaks(m, false, onlyIfInScope) ==> Released(breakMgmt.holdAnswers)
      modifies breakMgmt`holdAnswers, breakMgmt.log
      ensures var d := old(IsBreakpoint(m, false, onlyIfInScope));
              if d.Threw? then
                r == Threw(d.fault) &&
                breakMgmt.log.events == old(breakMgmt.log.events) && breakMgmt.holdAnswers == old(breakMgmt.holdAnswers)
              else if !d.value.isBreak then
                r == Returned(true) &&
                breakMgmt.log.events == old(breakMgmt.log.events) && breakMgmt.holdAnswers == old(breakMgmt.holdAnswers)
              else
                r == Returned(!breakMgmt.toBeDropped) &&
                breakMgmt.log.events == old(breakMgmt.log.events) + Protocol(m, false, old(breakMgmt.holdAnswers), breakMgmt.toBeDropped) &&
                breakMgmt.holdAnswers == old(breakMgmt.holdAnswers)[Consumed(old(breakMgmt.holdAnswers))..]
    {
      var d := IsBreakpoint(m, false, onlyIfInScope);
      if d.Threw? {
        return Threw(d.fault);
      }
      if !d.value.isBreak {
        return Returned(true);
      }
      ghost var start, answers := breakMgmt.log.events, breakMgmt.holdAnswers;
      breakMgmt.BreakpointHit();
      publisher.PublishActiveEvent(m);
      HoldRegion(m, false);
      breakMgmt.ClearAndDisableResponse();
      publisher.PublishInactiveEvent(m);
      var dropped := breakMgmt.IsToBeDropped();
      ProtocolAppend(start, m, false, answers, dropped);
      r := Returned(!dropped);
    }

    /** The block run under the global lock: if the controller holds the message,
        display it and wait for the release. */
    method HoldRegion(m: Message, isRequest: bool)
      requires Released(breakMgmt.holdAnswers)
      modifies breakMgmt`holdAnswers, breakMgmt.log
      ensures breakMgmt.log.events == old(breakMgmt.log.events) + BreakProtocol.HoldRegion(m, isRequest, old(breakMgmt.holdAnswers))
      ensures breakMgmt.holdAnswers == old(breakMgmt.holdAnswers)[Consumed(old(breakMgmt.holdAnswers))..]
    {
      ghost var answers := breakMgmt.holdAnswers;
      ghost var start := breakMgmt.log.events;
      var hold := breakMgmt.IsHoldMessage(m);
      if hold {
        HoldStep(m, isRequest, answers);
        SetBreakDisplay(m, isRequest);
        WaitUntilContinue(m, isRequest);
        AppendFour(start, [HoldCheck(true)], [Event.SetMessage(m, isRequest), Displayed],
                   WaitEvents(answers[1..]), [Save(isRequest)]);
      }
    }

    method SetBreakDisplay(m: Message, isRequest: bool)
      modifies breakMgmt.log
      ensures breakMgmt.log.events == old(breakMgmt.log.events) + [Event.SetMessage(m, isRequest), Displayed]
    {
      breakMgmt.SetMessage(m, isRequest);
      breakMgmt.BreakpointDisplayed();
    }

    /** Polls the hold state until the controller releases it, then saves the message. */
    method WaitUntilContinue(m: Message, isRequest: bool)
      requires Released(breakMgmt.holdAnswers)
      modifies breakMgmt`holdAnswers, breakMgmt.log
      ensures breakMgmt.log.events == old(breakMgmt.log.events) + WaitEvents(old(breakMgmt.holdAnswers)) + [Save(isRequest)]
      ensures breakMgmt.holdAnswers == old(breakMgmt.holdAnswers)[Consumed(old(breakMgmt.holdAnswers))..]
    {
      ghost var answers := breakMgmt.holdAnswers;
      ghost var start := breakMgmt.log.events;
      WaitStep(answers);
      var hold := breakMgmt.IsHoldMessage(m);
      while hold
        invariant hold ==> Released(breakMgmt.holdAnswers)
        invariant hold ==> start + WaitEvents(answers) == breakMgmt.log.events + WaitEvents(breakMgmt.holdAnswers)
        invariant !hold ==> start + WaitEvents(answers) == breakMgmt.log.events
        invariant hold ==> answers[Consumed(answers)..] == breakMgmt.holdAnswers[Consumed(breakMgmt.holdAnswers)..]
        invariant !hold ==> answers[Consumed(answers)..] == breakMgmt.holdAnswers
        decreases |breakMgmt.holdAnswers|
      {
        WaitStep(breakMgmt.holdAnswers);
        hold := breakMgmt.IsHoldMessage(m);
      }
      breakMgmt.SaveMessage(isRequest);
    }
  }
}
