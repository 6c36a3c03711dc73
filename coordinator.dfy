/**
 * The rebuild coordinator: the body of the watcher's main loop. Each change event is
 * filtered; an accepted one records the file and the time, cancels the context of the
 * previous build-and-run (if there is one), creates a fresh context and dispatches one
 * build-and-run under it. An error notification is only logged.
 *
 * A context is identified by its generation: the n-th accepted event creates context n.
 * Cancelling a context and dispatching a build-and-run are recorded, not executed.
 */
module Coordinator {
  import opened Optional
  import opened GoStrings
  import opened Filter

  /** One message of the main loop's select: a change event (with the time it is handled) or an error. */
  datatype Input = Changed(e: Event, now: int) | Failed

  /**
   * The loop's state: lastModFile, lastModTime and the current cancel handle, with the
   * number of build-and-runs dispatched and of cancels issued so far.
   */
  datatype State = State(lastModFile: string, lastModTime: int, cancel: Option<nat>, dispatches: nat, cancels: nat)

  /** The loop's state before the first message: empty name, zero time, no cancel func. */
  const Initial := State("", 0, None, 0, 0)

  /**
   * Supersession: the current handle is the newest context, and every older context has
   * been cancelled, so exactly one dispatched build-and-run is not cancelled.
   */
  predicate Superseding(s: State) {
    && s.cancel == (if s.dispatches == 0 then None else Some(s.dispatches))
    && s.cancels == (if s.dispatches == 0 then 0 else s.dispatches - 1)
  }

  /** Whether the input is a change event that passes the filter in state s. */
  predicate Accepts(p: Policy, s: State, input: Input) {
    input.Changed? && !SkipChange(input.e, s.lastModFile, s.lastModTime, input.now, p)
  }

  /**
   * The loop acts on a message exactly when it is a change event that is a write or a
   * create, is not the last accepted file again within the delay, names a Go file, and
   * whose base name starts with no excluded prefix. An error is never acted on.
   */
  lemma AcceptsExactly(p: Policy, s: State, input: Input)
    ensures Accepts(p, s, input) <==>
      && input.Changed?
      && (input.e.op & Write != 0 || input.e.op & Create != 0)
      && !(input.e.name == s.lastModFile && input.now - s.lastModTime <= p.delay)
      && HasSuffix(input.e.name, WatchedSuffix)
      && forall i :: 0 <= i < |p.excludePrefixes| ==> !HasPrefix(Base(input.e.name), p.excludePrefixes[i])
  {
  }

  /** One iteration of the main loop. */
  function Step(p: Policy, s: State, input: Input): (r: State)
    ensures !Accepts(p, s, input) ==> r == s
    ensures Accepts(p, s, input) ==>
      && r.lastModFile == input.e.name && r.lastModTime == input.now
      && r.dispatches == s.dispatches + 1
      && r.cancel == Some(s.dispatches + 1)
      && r.cancels == s.cancels + (if s.cancel.Some? then 1 else 0)
    ensures Superseding(s) ==> Superseding(r)
  {
    if Accepts(p, s, input) then
      State(input.e.name, input.now, Some(s.dispatches + 1), s.dispatches + 1,
            s.cancels + (if s.cancel.Some? then 1 else 0))
    else s
  }

  /** The state after the main loop has handled inputs, in order, from state s. */
  function Run(p: Policy, s: State, inputs: seq<Input>): (r: State)
    ensures Superseding(s) ==> Superseding(r)
    ensures r.dispatches >= s.dispatches && r.cancels >= s.cancels
  {
    if inputs == [] then s
    else Step(p, Run(p, s, inputs[..|inputs| - 1]), inputs[|inputs| - 1])
  }

  /** The names of the changes the main loop accepts while it handles inputs from state s. */
  function Accepted(p: Policy, s: State, inputs: seq<Input>): seq<string>
  {
    if inputs == [] then []
    else
      var before := inputs[..|inputs| - 1];
      var last := inputs[|inputs| - 1];
      Accepted(p, s, before) + (if Accepts(p, Run(p, s, before), last) then [last.e.name] else [])
  }

  /**
   * Every accepted change dispatches exactly one build-and-run, and cancels the previous
   * one if there was one; the last accepted name is the one remembered. Without an
   * accepted change nothing changes.
   */
  lemma {:induction false} RunCounts(p: Policy, s: State, inputs: seq<Input>)
    ensures Run(p, s, inputs).dispatches == s.dispatches + |Accepted(p, s, inputs)|
    ensures Run(p, s, inputs).cancels == s.cancels +
      (if Accepted(p, s, inputs) == [] || s.cancel.Some? then |Accepted(p, s, inputs)| else |Accepted(p, s, inputs)| - 1)
    ensures Accepted(p, s, inputs) == [] ==> Run(p, s, inputs) == s
    ensures Accepted(p, s, inputs) != [] ==>
      && Run(p, s, inputs).lastModFile == Accepted(p, s, inputs)[|Accepted(p, s, inputs)| - 1]
      && Run(p, s, inputs).cancel == Some(Run(p, s, inputs).dispatches)
  {
    if inputs != [] {
      var before := inputs[..|inputs| - 1];
      var last := inputs[|inputs| - 1];
      RunCounts(p, s, before);
      var r0 := Run(p, s, before);
      var a0 := Accepted(p, s, before);
      assert Run(p, s, inputs) == Step(p, r0, last);
      if Accepts(p, r0, last) {
        var a := a0 + [last.e.name];
        assert Accepted(p, s, inputs) == a;
        assert r0.cancel.Some? <==> a0 != [] || s.cancel.Some?;
      } else {
        assert Accepted(p, s, inputs) == a0;
      }
    }
  }

  /** From the start of the loop, N accepted changes make N dispatches and N - 1 cancels. */
  lemma {:induction false} SupersessionFromStart(p: Policy, inputs: seq<Input>)
    ensures var r := Run(p, Initial, inputs);
            var n := |Accepted(p, Initial, inputs)|;
            && r.dispatches == n
            && r.cancels == (if n == 0 then 0 else n - 1)
            && r.cancel == (if n == 0 then None else Some(n))
  {
    RunCounts(p, Initial, inputs);
  }

  /**
   * Debounce: once a change to a file is accepted at time t, another change to the same
   * file at t + d is ignored exactly when d is within the delay.
   */
  lemma {:induction false} DebounceWindow(p: Policy, s: State, e: Event, t: int, d: int)
    requires Accepts(p, s, Changed(e, t))
    ensures var s1 := Step(p, s, Changed(e, t));
            Accepts(p, s1, Changed(e, t + d)) <==> d > p.delay
  {
    var s1 := Step(p, s, Changed(e, t));
    assert s1.lastModFile == e.name && s1.lastModTime == t;
  }

  /**
   * The initial empty name and zero time never matter: an event with the empty name is
   * always ignored, since it does not end in ".go".
   */
  lemma EmptyNameNeverAccepted(p: Policy, s: State, op: Op, now: int)
    ensures !Accepts(p, s, Changed(Event("", op), now))
  {
  }

  /**
   * A save burst: two writes to main.go (or any plain Go file) 50ms apart under the
   * default flags are one accepted change, one dispatch and no cancel.
   */
  lemma {:induction false} BurstCoalesced(name: string, t: int)
    requires PlainGoName(name)
    ensures var inputs := [Changed(Event(name, Write), t), Changed(Event(name, Write), t + 50_000_000)];
            && Accepted(Defaults, Initial, inputs) == [name]
            && Run(Defaults, Initial, inputs) == State(name, t, Some(1), 1, 0)
  {
    var p := Defaults;
    var e := Event(name, Write);
    var inputs := [Changed(e, t), Changed(e, t + 50_000_000)];
    FirstWriteAccepted(name, t);
    assert inputs[..1] == [Changed(e, t)];
    DebounceWindow(p, Initial, e, t, 50_000_000);
    assert !Accepts(p, Run(p, Initial, inputs[..1]), inputs[1]);
  }

  /**
   * From the start of the loop, a write to a Go file in the root directory whose name
   * starts with none of the default excluded prefixes (main.go, say) is accepted.
   */
  lemma {:induction false} FirstWriteAccepted(name: string, t: int)
    requires PlainGoName(name)
    ensures Accepts(Defaults, Initial, Changed(Event(name, Write), t))
    ensures Run(Defaults, Initial, [Changed(Event(name, Write), t)]) == State(name, t, Some(1), 1, 0)
    ensures Accepted(Defaults, Initial, [Changed(Event(name, Write), t)]) == [name]
  {
    var p := Defaults;
    var e := Event(name, Write);
    PlainNameNotExcluded(name);
    assert !SkipChange(e, "", 0, t, p);
    assert [Changed(e, t)][..0] == [];
  }

  /** A file name in the root directory that ends in ".go" and starts with none of '.', '#' and 'f'. */
  predicate PlainGoName(name: string) {
    && HasSuffix(name, WatchedSuffix) && '/' !in name
    && name[0] != '.' && name[0] != '#' && name[0] != 'f'
  }

  /**
   * The main loop's local variables as an object. The ghost logs record, in order, the
   * contexts each build-and-run was dispatched under and the contexts cancelled.
   */
  class Loop {
    const policy: Policy
    var lastModFile: string
    var lastModTime: int
    var cancel: Option<nat>
    ghost var dispatched: seq<nat>
    ghost var cancelled: seq<nat>

    /**
     * Contexts are numbered 1, 2, ... in creation order; each was dispatched once; all
     * but the newest were cancelled once, in order; the cancel handle is the newest.
     */
    ghost predicate Valid()
      reads this
    {
      && (forall i :: 0 <= i < |dispatched| ==> dispatched[i] == i + 1)
      && |cancelled| == (if |dispatched| == 0 then 0 else |dispatched| - 1)
      && (forall i :: 0 <= i < |cancelled| ==> cancelled[i] == i + 1)
      && cancel == (if |dispatched| == 0 then None else Some(|dispatched|))
    }

    /** The loop's state as a value. */
    ghost function Snapshot(): State
      reads this
    {
      State(lastModFile, lastModTime, cancel, |dispatched|, |cancelled|)
    }

    constructor (p: Policy)
      ensures Valid() && policy == p
      ensures Snapshot() == Initial && dispatched == [] && cancelled == []
    {
      policy := p;
      lastModFile, lastModTime, cancel := "", 0, None;
      dispatched, cancelled := [], [];
    }

    /** The event case of the select, handled at time now. */
    method HandleEvent(e: Event, now: int)
      requires Valid()
      modifies this
      ensures Valid()
      ensures Snapshot() == Step(policy, old(Snapshot()), Changed(e, now))
      ensures SkipChange(e, old(lastModFile), old(lastModTime), now, policy) ==>
        lastModFile == old(lastModFile) && lastModTime == old(lastModTime) && cancel == old(cancel)
        && dispatched == old(dispatched) && cancelled == old(cancelled)
      ensures !SkipChange(e, old(lastModFile), old(lastModTime), now, policy) ==>
        && lastModFile == e.name && lastModTime == now
        && cancelled == old(cancelled) + (if old(cancel).Some? then [old(cancel).value] else [])
        && dispatched == old(dispatched) + [|old(dispatched)| + 1]
        && cancel == Some(|old(dispatched)| + 1)
    {
      if SkipChange(e, lastModFile, lastModTime, now, policy) {
        return;
      }
      lastModFile := e.name;
      lastModTime := now;
      var next := 1;
      if cancel.Some? {
        cancelled := cancelled + [cancel.value];
        next := cancel.value + 1;
      }
      cancel := Some(next);
      dispatched := dispatched + [next];
    }

    /** The error case of the select: the error is logged and nothing else happens. */
    method HandleError()
      ensures unchanged(this)
    {
    }

    /** The main loop over a finite run of messages. */
    method Serve(inputs: seq<Input>)
      requires Valid()
      modifies this
      ensures Valid()
      ensures Snapshot() == Run(policy, old(Snapshot()), inputs)
    {
      for i := 0 to |inputs|
        invariant Valid()
        invariant Snapshot() == Run(policy, old(Snapshot()), inputs[..i])
      {
        assert inputs[..i + 1][..i] == inputs[..i];
        match inputs[i]
        case Changed(e, now) => HandleEvent(e, now);
        case Failed => HandleError();
      }
      assert inputs[..|inputs|] == inputs;
    }
  }
}
