# Breakpoint interception gate (ZAP `BreakpointMessageHandler2`)

This project models the breakpoint gate of the ZAP intercepting proxy: the rule that
decides whether a request or response passing through the proxy is a breakpoint, and
the per-message protocol a handler runs with the breakpoint controller
(`BreakpointManagementInterface`) and the event publisher (`BreakEventPublisher`)
when it is.

- `BreakRules.dfy` (module `BreakRules`): the decision rule `IsBreakpoint`, its helpers
  `IsBreakOnAllRequests`, `IsBreakOnAllResponses`, `IsBreakOnStepping`,
  `IsBreakOnEnabledBreakpoint`, and the first-match search over the enabled
  breakpoints (`Search`). Each result carries the number of breakpoints whose `match`
  was called, so the short-circuiting can be stated. The enabled list is an `Option`:
  Java leaves the field `null` until `setEnabledBreakpoints` is first called. If the
  search is reached with a null list, `IsBreakpoint` returns `Threw(NullPointerException)`.
- `BreakProtocol.dfy` (module `BreakProtocol`): the calls a handler makes for a
  breakpoint, as a sequence of `Event`s (`Protocol`). The controller's answers to
  `isHoldMessage` come from a finite script. The module holds the lemmas on call order,
  on display and save, and on the request/response symmetry.
- `BreakHandler.dfy` (module `BreakHandler`): the handler as a class
  (`BreakpointMessageHandler2`) with its two fields and their setters and getter.
  The two entry points are methods. Beside them are `HoldRegion` (the block run under
  the global lock), `SetBreakDisplay` and `WaitUntilContinue`. The collaborators are small classes (`Controller`, `Publisher`) that
  append each call they receive to a shared `EventLog`, except the three reads of
  the global break flags (see "## Left out"); `isHoldMessage` and `isToBeDropped`
  are recorded with their answers. Each entry point is proved
  against `Protocol`: the new log is the old log plus the protocol's events. The
  unconsumed hold answers and the return value are stated too.

The message is a record with the two flags the gate reads (`forceIntercept`,
`inScope`) and an opaque `content` for the breakpoint predicates. A breakpoint is
a total function `match(message, isRequest, onlyIfInScope)`. The global flags
`isBreakRequest`, `isBreakResponse` and `isStepping` are the controller's fields.
The publisher is a static singleton in the source. Here it is a constructor argument
that shares the controller's log.

## Model

| member | source | states |
|---|---|---|
| `BreakRules.IsBreakpoint` | src/org/zaproxy/zap/extension/brk/BreakpointMessageHandler2.java:140-162 | first-true-wins cascade; its contract: it agrees with the one-formula reference meaning `BreakSpec` for every set list, it throws only when no earlier rule decides and the list is null, and an early decision consults no breakpoint; the precedence cases are the lemmas ForceInterceptWins, OutOfScopeRejects, BreakRequestFlag, BreakResponseFlag, SteppingBreaksBoth and FallThroughToEnabled |
| `BreakRules.IsBreakOnAllRequests` | src/org/zaproxy/zap/extension/brk/BreakpointMessageHandler2.java:164-166 | never fires for a response; for a request, fires exactly when the break-request flag is on (used by BreakRequestFlag) |
| `BreakRules.IsBreakOnAllResponses` | src/org/zaproxy/zap/extension/brk/BreakpointMessageHandler2.java:168-170 | never fires for a request; for a response, fires exactly when the break-response flag is on (used by BreakResponseFlag) |
| `BreakRules.IsBreakOnStepping` | src/org/zaproxy/zap/extension/brk/BreakpointMessageHandler2.java:172-174 | fires in either direction exactly when stepping is on (used by SteppingBreaksBoth) |
| `BreakRules.IsBreakOnEnabledBreakpoint` | src/org/zaproxy/zap/extension/brk/BreakpointMessageHandler2.java:176-196 | a null list throws and only it; an empty list answers false with nothing consulted; otherwise the answer is "some enabled breakpoint matches" and at most the whole list is consulted (with Search and StopsAtFirstMatch) |
| `BreakRules.Search` | src/org/zaproxy/zap/extension/brk/BreakpointMessageHandler2.java:183-195 | the loop answers true exactly when some breakpoint matches; on a match, the last breakpoint consulted is the first that matches and every earlier one did not match; with no match, all breakpoints were consulted |
| `BreakRules.ForceInterceptWins` | src/org/zaproxy/zap/extension/brk/BreakpointMessageHandler2.java:141-144 | a force-intercepted message is a breakpoint whatever the scope, flags or list (even a null list), and no breakpoint is consulted |
| `BreakRules.OutOfScopeRejects` | src/org/zaproxy/zap/extension/brk/BreakpointMessageHandler2.java:146-148 | with onlyIfInScope set, an out-of-scope, non-forced message is not a breakpoint, whatever the break-all or stepping flags; no breakpoint is consulted |
| `BreakRules.BreakRequestFlag` | src/org/zaproxy/zap/extension/brk/BreakpointMessageHandler2.java:150-152 | break-on-all-requests makes every request that passes the scope filter a breakpoint; the decision for a response does not depend on that flag |
| `BreakRules.BreakResponseFlag` | src/org/zaproxy/zap/extension/brk/BreakpointMessageHandler2.java:153-155 | break-on-all-responses makes every response that passes the scope filter a breakpoint; the decision for a request does not depend on that flag |
| `BreakRules.SteppingBreaksBoth` | src/org/zaproxy/zap/extension/brk/BreakpointMessageHandler2.java:156-158 | stepping makes every message that passes the scope filter a breakpoint, in both directions |
| `BreakRules.FallThroughToEnabled` | src/org/zaproxy/zap/extension/brk/BreakpointMessageHandler2.java:176-196 | when no earlier rule fires: a null list throws, an empty list answers false, otherwise the answer is "some enabled breakpoint matches" and is exactly the search's answer and count, so with StopsAtFirstMatch no breakpoint after the first match is evaluated |
| `BreakRules.StopsAtFirstMatch` | src/org/zaproxy/zap/extension/brk/BreakpointMessageHandler2.java:186-191 | if breakpoint k is the first match, the search answers true after consulting exactly k+1 breakpoints; later ones are never evaluated |
| `BreakProtocol.FirstRelease` | src/org/zaproxy/zap/extension/brk/BreakpointMessageHandler2.java:122 | the poll loop stops at the first false answer: every earlier answer is true |
| `BreakProtocol.WaitEvents` | src/org/zaproxy/zap/extension/brk/BreakpointMessageHandler2.java:122-128 | the polling loop's calls: one check per answer up to the first false, every check true but the last, which is false (the same run as WaitEventsShape) |
| `BreakProtocol.HoldRegion` | src/org/zaproxy/zap/extension/brk/BreakpointMessageHandler2.java:75-80 | the locked block opens with one hold check; only if it answers true does it add setMessage, breakpointDisplayed, the polls and saveMessage, so its length is 1, or 4 plus the number of true hold checks, the first one included (see DisplayOnlyIfHeld) |
| `BreakProtocol.Protocol` | src/org/zaproxy/zap/extension/brk/BreakpointMessageHandler2.java:72-83 | a handled breakpoint always opens with hit, active and the first hold check and closes with the direction's clear call, inactive and the isToBeDropped check, in that order; 6 calls when not held, 9 plus the number of true hold checks, the first one included, when held (exact order in ProtocolOrderHeld/ProtocolOrderNotHeld, direction symmetry in RequestResponseMirror) |
| `BreakProtocol.WaitEventsShape` | src/org/zaproxy/zap/extension/brk/BreakpointMessageHandler2.java:122-128 | waitUntilContinue's checks are a run of true answers followed by exactly one false answer |
| `BreakProtocol.ProtocolOrderHeld` | src/org/zaproxy/zap/extension/brk/BreakpointMessageHandler2.java:72-83 | when the first hold check is true, the exact call order is: hit, active, check, setMessage, breakpointDisplayed, the further true checks, the releasing check, save, clear, inactive, isToBeDropped |
| `BreakProtocol.ProtocolOrderNotHeld` | src/org/zaproxy/zap/extension/brk/BreakpointMessageHandler2.java:72-83 | when the first hold check is false, the calls are hit, active, check, clear, inactive, isToBeDropped |
| `BreakProtocol.WaitEventsOnlyChecks` | src/org/zaproxy/zap/extension/brk/BreakpointMessageHandler2.java:122-128 | the polling loop makes no call other than isHoldMessage |
| `BreakProtocol.DisplayOnlyIfHeld` | src/org/zaproxy/zap/extension/brk/BreakpointMessageHandler2.java:76-79 | setMessage, breakpointDisplayed and saveMessage happen if and only if the first hold check answers true |
| `BreakProtocol.MirrorWait` | src/org/zaproxy/zap/extension/brk/BreakpointMessageHandler2.java:119-128 | the polling loop is the same for both directions |
| `BreakProtocol.RequestResponseMirror` | src/org/zaproxy/zap/extension/brk/BreakpointMessageHandler2.java:93-112 | the response protocol is the request protocol with only the direction flag of setMessage/saveMessage and the clear call changed |
| `BreakProtocol.AdminScenario` | src/org/zaproxy/zap/extension/brk/BreakpointMessageHandler2.java:65-84 | worked case: one "/admin" breakpoint, flags off; "/login" is not a breakpoint, "/admin" is; the full call sequence when released after one more check |
| `BreakHandler.BreakpointMessageHandler2.constructor` | src/org/zaproxy/zap/extension/brk/BreakpointMessageHandler2.java:38-52 | keeps the controller; the breakpoint list starts null, the key list empty |
| `BreakHandler.BreakpointMessageHandler2.GetEnabledKeyBreakpoints` | src/org/zaproxy/zap/extension/brk/BreakpointMessageHandler2.java:42-44 | returns the key list last set |
| `BreakHandler.BreakpointMessageHandler2.SetEnabledKeyBreakpoints` | src/org/zaproxy/zap/extension/brk/BreakpointMessageHandler2.java:46-48 | replaces the key list with the given one, nothing else changes |
| `BreakHandler.BreakpointMessageHandler2.SetEnabledBreakpoints` | src/org/zaproxy/zap/extension/brk/BreakpointMessageHandler2.java:54-56 | replaces the breakpoint list; from then on every decision consults exactly the given list |
| `BreakHandler.BreakpointMessageHandler2.IsBreakpoint` | src/org/zaproxy/zap/extension/brk/BreakpointMessageHandler2.java:140-162 | the decision on the controller's current flags and the handler's current list: a forced message breaks, it throws only while the list is null and no earlier rule decides, and with a list set it answers `BreakSpec` |
| `BreakHandler.BreakpointMessageHandler2.HoldRegion` | src/org/zaproxy/zap/extension/brk/BreakpointMessageHandler2.java:75-80 | the block under the lock appends exactly `HoldRegion`'s calls to the log and consumes the hold answers up to the release |
| `BreakHandler.BreakpointMessageHandler2.HandleMessageReceivedFromClient` | src/org/zaproxy/zap/extension/brk/BreakpointMessageHandler2.java:65-84 | a non-breakpoint returns true and makes no recorded call (no controller mutator, hold check, drop check or publisher event); a breakpoint appends exactly the request protocol to the log, ending with the isToBeDropped check after publishInactiveEvent, and consumes the hold answers up to the release; it returns "not to be dropped"; a null list throws before any recorded call |
| `BreakHandler.BreakpointMessageHandler2.HandleMessageReceivedFromServer` | src/org/zaproxy/zap/extension/brk/BreakpointMessageHandler2.java:93-112 | the same for responses, with direction false and clearAndDisableResponse |
| `BreakHandler.BreakpointMessageHandler2.SetBreakDisplay` | src/org/zaproxy/zap/extension/brk/BreakpointMessageHandler2.java:114-117 | calls setMessage(msg, direction), then breakpointDisplayed |
| `BreakHandler.BreakpointMessageHandler2.WaitUntilContinue` | src/org/zaproxy/zap/extension/brk/BreakpointMessageHandler2.java:119-130 | polls isHoldMessage until it answers false, consuming exactly those answers, then calls saveMessage(direction) |

## Left out

- The `synchronized(SEMAPHORE)` region and the process-wide guarantee that at most one message is displayed at a time. These concern mutual exclusion between threads. The model is one thread's sequential behaviour.
- `synchronized (enabledBreakpoints)`: also thread exclusion. The search inside it is modelled sequentially.
- `Thread.sleep(100)`, the swallowed `InterruptedException` and the logger in the polling loop. These are timing, thread signals and logging. Each loop turn is one `isHoldMessage` check.
- BreakHandler.BreakpointMessageHandler2.WaitUntilContinue: requires that the script of hold answers contains a false answer. In the source the loop may never end, because release depends on an external operator. Non-termination is not modelled. The handlers require the same, but only for messages that are breakpoints.
- The internals of the controller, the publisher and the breakpoint predicates. These are foreign collaborators. The controller and publisher only record the calls they receive (all but the flag reads below). A predicate is a total function, so a predicate that throws is not modelled.
- The controller's hold and drop state changes asynchronously in the source. Here the answers to `isHoldMessage` come from a script, and `isToBeDropped` is read once, at the end, as in the source.
- The reads of `isBreakRequest`, `isBreakResponse` and `isStepping` are not recorded in the event log. The decision reads them as the controller's current flags.
- Aliasing of the lists passed to the setters and returned by the getter. Java shares the list object, so a caller's later changes are visible. The model copies values.
- `setEnabledBreakpoints(null)` and `setEnabledKeyBreakpoints(null)`: the setters take lists. Only the null breakpoint list left by the constructor is modelled. A null key list, which `getEnabledKeyBreakpoints` would then return, is not.
- The message passed to `isHoldMessage`: the script of hold answers does not depend on the message, and a `HoldCheck` event does not record which message was checked. Each handler checks only its own message, so the log still shows the order of checks.
- The rule that the handlers are not called in safe mode. The caller enforces it, not this code.
- Message contents other than the two flags. `content` is opaque and is only read by breakpoint predicates.
