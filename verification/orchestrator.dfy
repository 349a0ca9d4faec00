/**
  main: read the state, probe, notify on the transition to "available",
  then record the new status and the run's timestamp.

  The timestamp, the browser outcome, the environment, the relay's answer
  and the outcome of writing the state file are inputs of a run.
*/
module Orchestrator {
  import opened Wrappers
  import opened StateStore
  import Probe
  import Notifier

  /** Everything one run of main takes from the outside world. */
  datatype Invocation = Invocation(
    outcome: Probe.BrowserOutcome,
    env: Notifier.SmtpEnv,
    relayAccepted: bool,
    now: string,
    save: WriteOutcome)

  /** `state.get("last_status", "unavailable")` */
  function PriorStatus(state: map<string, Json>): (status: Json)
    ensures LastStatusKey in state ==> status == state[LastStatusKey]
    ensures LastStatusKey !in state ==> status == JString(Unavailable)
  {
    if LastStatusKey in state then state[LastStatusKey] else JString(Unavailable)
  }

  /** `"available" if available else "unavailable"` */
  function StatusName(available: bool): (name: string)
    ensures available ==> name == Available
    ensures !available ==> name == Unavailable
  {
    if available then Available else Unavailable
  }

  /** The transition test: the new status is "available" and the prior one is anything else. */
  predicate NotifyDue(prior: Json, available: bool) {
    StatusName(available) == Available && prior != JString(Available)
  }

  /** The state after `state["last_status"] = ...` and `state["last_seen_at"] = ...`. */
  function NextState(state: map<string, Json>, available: bool, now: string): (next: map<string, Json>)
    ensures next.Keys == state.Keys + {LastStatusKey, LastSeenAtKey}
    ensures next[LastStatusKey] == JString(if available then Available else Unavailable)
    ensures next[LastSeenAtKey] == JString(now)
    ensures forall k :: k in state && k != LastStatusKey && k != LastSeenAtKey ==> next[k] == state[k]
  {
    state[LastStatusKey := JString(StatusName(available))][LastSeenAtKey := JString(now)]
  }

  /** Whether a run on `file` attempts a notification. */
  predicate Notifies(file: StateFile, inv: Invocation) {
    NotifyDue(PriorStatus(ReadState(file)), Probe.ProbeAvailable(inv.outcome))
  }

  /** The state file a run leaves behind. */
  function Successor(file: StateFile, inv: Invocation): StateFile {
    WriteState(file, NextState(ReadState(file), Probe.ProbeAvailable(inv.outcome), inv.now), inv.save)
  }

  /**
    One run of main on the state file `file`. `delivery` is the send
    attempted, if any; `written` is the dictionary handed to write_state.
  */
  method Run(file: StateFile, inv: Invocation)
    returns (delivery: Option<Notifier.Delivery>, written: map<string, Json>, file': StateFile)
    ensures delivery.Some? <==>
      Probe.ProbeAvailable(inv.outcome) && PriorStatus(ReadState(file)) != JString(Available)
    ensures delivery.Some? ==> delivery.value == Notifier.SendEmailBrevo(inv.env, inv.relayAccepted)
    ensures written.Keys == ReadState(file).Keys + {LastStatusKey, LastSeenAtKey}
    ensures written[LastStatusKey] == JString(if Probe.ProbeAvailable(inv.outcome) then Available else Unavailable)
    ensures written[LastSeenAtKey] == JString(inv.now)
    ensures forall k :: k in ReadState(file) && k != LastStatusKey && k != LastSeenAtKey ==>
      written[k] == ReadState(file)[k]
    ensures written == NextState(ReadState(file), Probe.ProbeAvailable(inv.outcome), inv.now)
    ensures file' == WriteState(file, written, inv.save)
    ensures delivery.Some? <==> Notifies(file, inv)
    ensures file' == Successor(file, inv)
  {
    var state := ReadState(file);
    var lastStatus := PriorStatus(state);
    var available, debug := Probe.CheckAvailability(inv.outcome);
    var newStatus := StatusName(available);
    if newStatus == Available && lastStatus != JString(Available) {
      var d := Notifier.SendEmailBrevo(inv.env, inv.relayAccepted);
      delivery := Some(d);
    } else {
      delivery := None;
    }
    state := state[LastStatusKey := JString(newStatus)];
    state := state[LastSeenAtKey := JString(inv.now)];
    written := state;
    file' := WriteState(file, written, inv.save);
  }

  /** The number of notifications attempted over consecutive runs. */
  function Attempts(file: StateFile, runs: seq<Invocation>): nat
    decreases |runs|
  {
    if runs == [] then 0
    else (if Notifies(file, runs[0]) then 1 else 0) + Attempts(Successor(file, runs[0]), runs[1..])
  }

  /** The number of false-to-true steps in `verdicts`, starting from `previous`. */
  function RisingEdges(previous: bool, verdicts: seq<bool>): nat
    decreases |verdicts|
  {
    if verdicts == [] then 0
    else (if verdicts[0] && !previous then 1 else 0) + RisingEdges(verdicts[0], verdicts[1..])
  }

  function Verdicts(runs: seq<Invocation>): (vs: seq<bool>)
    ensures |vs| == |runs|
    ensures forall i :: 0 <= i < |runs| ==> vs[i] == Probe.ProbeAvailable(runs[i].outcome)
  {
    seq(|runs|, i requires 0 <= i < |runs| => Probe.ProbeAvailable(runs[i].outcome))
  }

  predicate AllSaved(runs: seq<Invocation>) {
    forall i :: 0 <= i < |runs| ==> runs[i].save == Written
  }

  /** Runs that record the state: the file afterwards reads back as one of the two statuses. */
  lemma SavedRunRecordsVerdict(file: StateFile, inv: Invocation)
    requires inv.save == Written
    ensures PriorStatus(ReadState(Successor(file, inv))) ==
      JString(if Probe.ProbeAvailable(inv.outcome) then Available else Unavailable)
    ensures ReadState(Successor(file, inv))[LastSeenAtKey] == JString(inv.now)
  {
  }

  /**
    When every run records its state, the notifications attempted are the
    rising edges of the verdicts, the prior status counting as the first.
  */
  lemma {:induction false} AttemptsAreRisingEdges(file: StateFile, runs: seq<Invocation>)
    requires AllSaved(runs)
    ensures Attempts(file, runs) ==
      RisingEdges(PriorStatus(ReadState(file)) == JString(Available), Verdicts(runs))
    decreases |runs|
  {
    if runs != [] {
      var prior := PriorStatus(ReadState(file)) == JString(Available);
      var vs := Verdicts(runs);
      var next := Successor(file, runs[0]);
      SavedRunRecordsVerdict(file, runs[0]);
      assert (PriorStatus(ReadState(next)) == JString(Available)) == vs[0];
      assert AllSaved(runs[1..]) by {
        forall i | 0 <= i < |runs[1..]| ensures runs[1..][i].save == Written {
          assert runs[1..][i] == runs[i + 1];
        }
      }
      AttemptsAreRisingEdges(next, runs[1..]);
      assert Verdicts(runs[1..]) == vs[1..];
      assert Notifies(file, runs[0]) == (vs[0] && !prior);
      assert RisingEdges(prior, vs) == (if vs[0] && !prior then 1 else 0) + RisingEdges(vs[0], vs[1..]);
    }
  }

  /** A run of true verdicts has a rising edge only at its start, and only if the previous one was false. */
  lemma {:induction false} RisingEdgesOfAllTrue(previous: bool, verdicts: seq<bool>)
    requires |verdicts| > 0
    requires forall i :: 0 <= i < |verdicts| ==> verdicts[i]
    ensures RisingEdges(previous, verdicts) == if previous then 0 else 1
    decreases |verdicts|
  {
    if |verdicts| > 1 {
      RisingEdgesOfAllTrue(true, verdicts[1..]);
    }
  }

  /**
    N consecutive runs that all find the film available send exactly one
    notification, or none when the state already says "available".
  */
  lemma RepeatedAvailabilityNotifiesOnce(file: StateFile, runs: seq<Invocation>)
    requires |runs| > 0 && AllSaved(runs)
    requires forall i :: 0 <= i < |runs| ==> Probe.ProbeAvailable(runs[i].outcome)
    ensures Attempts(file, runs) == if PriorStatus(ReadState(file)) == JString(Available) then 0 else 1
  {
    AttemptsAreRisingEdges(file, runs);
    RisingEdgesOfAllTrue(PriorStatus(ReadState(file)) == JString(Available), Verdicts(runs));
  }

  /** Available, then unavailable, then available again: the drop re-arms the notification. */
  lemma DropReArmsNotification(file: StateFile, a: Invocation, b: Invocation, c: Invocation)
    requires a.save == Written && b.save == Written && c.save == Written
    requires Probe.ProbeAvailable(a.outcome) && !Probe.ProbeAvailable(b.outcome) && Probe.ProbeAvailable(c.outcome)
    ensures Attempts(file, [a, b, c]) == if PriorStatus(ReadState(file)) == JString(Available) then 1 else 2
  {
    var runs := [a, b, c];
    assert AllSaved(runs);
    AttemptsAreRisingEdges(file, runs);
    var vs := Verdicts(runs);
    assert vs == [true, false, true];
    assert vs[1..] == [false, true] && vs[1..][1..] == [true];
    assert RisingEdges(false, [true]) == 1;
    assert RisingEdges(true, [false, true]) == 1;
  }

  /**
    When `open` keeps failing, nothing is recorded: every available run
    from a non-"available" state notifies again.
  */
  lemma {:induction false} UnsavedRunsNotifyEveryTime(file: StateFile, runs: seq<Invocation>)
    requires PriorStatus(ReadState(file)) != JString(Available)
    requires forall i :: 0 <= i < |runs| ==> runs[i].save == OpenFailed && Probe.ProbeAvailable(runs[i].outcome)
    ensures Attempts(file, runs) == |runs|
    decreases |runs|
  {
    if runs != [] {
      assert Successor(file, runs[0]) == file;
      UnsavedRunsNotifyEveryTime(file, runs[1..]);
    }
  }

  /** A failed dump leaves a truncated file, read back as the default: the next available run notifies again. */
  lemma DumpFailureReArmsNotification(file: StateFile, inv: Invocation, next: Invocation)
    requires inv.save == DumpFailed && Probe.ProbeAvailable(next.outcome)
    ensures Notifies(Successor(file, inv), next)
  {
  }

  /** `state.get(...)` on what read_state as written returns: AttributeError unless it is a dict. */
  function PriorStatusAsWritten(doc: Json): (r: Result<Json, string>)
    ensures r.Err? <==> !doc.JObject?
    ensures doc.JObject? ==> r == Ok(PriorStatus(doc.fields))
  {
    match doc
    case JObject(fields) => Ok(PriorStatus(fields))
    case _ => Err("AttributeError")
  }

  /** A state file holding valid JSON that is not an object makes main raise before probing. */
  lemma NonObjectStateFileCrashes(doc: Json)
    requires !doc.JObject?
    ensures PriorStatusAsWritten(ReadStateAsWritten(Stored(doc))).Err?
  {
  }

  /** With the corrected read, every state file yields a prior status, and a non-object one yields "unavailable". */
  lemma CorrectedReadNeverCrashes(file: StateFile)
    ensures PriorStatusAsWritten(JObject(ReadState(file))).Ok?
    ensures file.Stored? && !file.doc.JObject? ==> PriorStatus(ReadState(file)) == JString(Unavailable)
  {
  }
}
