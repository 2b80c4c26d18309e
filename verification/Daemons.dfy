/** The two programs of the protocol, each step of theirs a run of the transition system: the server's
    container table with its end of the socket, and the worker with its buffer and JAIL_DICT. */
module Daemons {
  import opened Framing
  import opened Protocol

  class JailManager {
    var status: map<string, Status>
    var wire: string

    constructor ()
      ensures forall room :: Shows(Initial(room))
    {
      status, wire := map[], "";
    }

    ghost predicate Shows(s: State)
      reads this
    {
      s.status == status && s.wire == wire
    }

    /** start_jail, the lock held throughout, when the socket has room for the line. */
    method StartJail(name: string, ghost s: State) returns (reply: string)
      requires Shows(s) && s.lock.Free?
      requires Enabled(s, Send(name)) ==> |wire| + |name| + 1 <= s.room
      modifies this
      ensures Shows(Run(s, [Send(name), Commit])) && Run(s, [Send(name), Commit]).lock.Free?
      ensures reply == "running" <==> IsRunning(Run(s, [Send(name), Commit]), name)
      ensures reply != "running" ==> reply == "NOJAIL" && name !in status
    {
      RunTwo(s, Send(name), Commit);
      if name !in status {
        return "NOJAIL";
      }
      if status[name] == Running {
        return "running";
      }
      wire := wire + (name + "\n");
      status := status[name := Running];
      return "running";
    }

    /** update_exit_code, the lock held throughout. Whoever calls it sets the status of a row there
        is; called by the worker with a notice in hand, it is the notice event. */
    method UpdateExitCode(name: string)
      modifies this
      ensures wire == old(wire) && status == Recorded(old(status), name, Exited)
      ensures status.Keys == old(status).Keys
      ensures forall m :: m in status ==> status[m] == if m == name then Exited else old(status[m])
      ensures forall s: State :: old(Shows(s)) && s.lock.Free? && s.phase == Notifying(name) ==> Shows(Step(s, Notify))
    {
      if name in status {
        status := status[name := Exited];
      }
    }
  }

  /** What becomes of one start: a child process, a jail refused or half made and left, or half made
      and destroyed. */
  datatype Outcome = Started(pid: nat) | Refused | Destroyed

  /** The events of one line. */
  function LineEvents(known: bool, outcome: Outcome): seq<Event>
  {
    if !known then [Look]
    else match outcome
      case Started(pid) => [Look, Create(pid)]
      case Refused => [Look, Fail(false), Notify]
      case Destroyed => [Look, Fail(true), Notify]
  }

  predicate Makes(s: State, name: string, outcome: Outcome)
  {
    outcome.Started? ==> outcome.pid !in s.jails && name !in s.kernel
  }

  /** The events of the lines of one read. */
  function TurnEvents(names: seq<string>, rows: set<string>, outcomes: seq<Outcome>): seq<Event>
    requires |outcomes| == |names|
  {
    if names == [] then []
    else
      var n := |names| - 1;
      TurnEvents(names[..n], rows, outcomes[..n]) + ([NextLine] + LineEvents(names[n] in rows, outcomes[n]))
  }

  /** The turn is one the kernel and the process table allow: each child is a new process in a jail
      whose name was free. */
  ghost predicate Possible(begun: State, names: seq<string>, outcomes: seq<Outcome>)
    requires |outcomes| == |names|
  {
    forall k :: 0 <= k < |names| && outcomes[k].Started? && names[k] in begun.status ==>
      Makes(Run(begun, TurnEvents(names[..k], begun.status.Keys, outcomes[..k])), names[k], outcomes[k])
  }

  /** k lines of the read are done, in state t. */
  ghost predicate Reached(begun: State, names: seq<string>, outcomes: seq<Outcome>, k: nat, t: State)
  {
    && k <= |names| == |outcomes|
    && Names(t.buffer) == names[k..]
    && t == Run(begun, TurnEvents(names[..k], begun.status.Keys, outcomes[..k]))
    && t.lock.Free? && t.phase.Idle?
    && t.status.Keys == begun.status.Keys
    && t.taken == begun.taken + names[..k]
  }

  lemma TurnGrows(begun: State, names: seq<string>, outcomes: seq<Outcome>, k: nat)
    requires k < |names| == |outcomes|
    ensures var rows := begun.status.Keys;
            var t := Run(begun, TurnEvents(names[..k], rows, outcomes[..k]));
            Run(begun, TurnEvents(names[..k + 1], rows, outcomes[..k + 1]))
            == Run(Step(t, NextLine), LineEvents(names[k] in rows, outcomes[k]))
  {
    var rows := begun.status.Keys;
    var before, line := TurnEvents(names[..k], rows, outcomes[..k]), LineEvents(names[k] in rows, outcomes[k]);
    assert names[..k + 1][..k] == names[..k] && outcomes[..k + 1][..k] == outcomes[..k];
    RunConcat(begun, before, [NextLine] + line);
    RunFirst(Run(begun, before), NextLine, line);
  }

  /** The state in which the worker has just taken the next line. */
  predicate Took(u: State, t: State, name: string)
  {
    && '\n' in t.buffer
    && name == Strip(t.buffer[..Newline(t.buffer)])
    && u == t.(buffer := t.buffer[Newline(t.buffer) + 1..], phase := Looking(name), taken := t.taken + [name])
  }

  lemma HeadOfDrop(head: string, tail: seq<string>, names: seq<string>, k: nat)
    requires k <= |names| && [head] + tail == names[k..]
    ensures k < |names| && names[k] == head && tail == names[k + 1..]
    ensures names[..k] + [head] == names[..k + 1]
  {
    assert |names[k..]| == 1 + |tail|;
    assert names[k..][0] == head && names[k..][1..] == tail;
  }

  lemma TakesLine(t: State)
    requires t.phase.Idle? && '\n' in t.buffer
    ensures var u := Step(t, NextLine);
            && u.phase.Looking? && Took(u, t, u.phase.name)
            && Names(t.buffer) == [u.phase.name] + Names(u.buffer)
  {
  }

  /** The next line is the k-th one, and its outcome is possible there. */
  lemma TakesNext(begun: State, names: seq<string>, outcomes: seq<Outcome>, k: nat, t: State)
    requires Reached(begun, names, outcomes, k, t) && '\n' in t.buffer && Possible(begun, names, outcomes)
    ensures k < |names| && Took(Step(t, NextLine), t, names[k])
    ensures Names(Step(t, NextLine).buffer) == names[k + 1..]
    ensures Step(t, NextLine).taken == begun.taken + names[..k + 1]
    ensures names[k] in t.status ==> Makes(t, names[k], outcomes[k])
  {
    TakesLine(t);
    var u := Step(t, NextLine);
    HeadOfDrop(u.phase.name, Names(u.buffer), names, k);
    Regroup(begun.taken, names[..k], [names[k]]);
  }

  lemma LineDone(begun: State, names: seq<string>, outcomes: seq<Outcome>, k: nat, t: State, u: State)
    requires Reached(begun, names, outcomes, k, t) && '\n' in t.buffer && Possible(begun, names, outcomes)
    requires k < |names|
    requires u == Run(Step(t, NextLine), LineEvents(names[k] in t.status, outcomes[k]))
    requires u.lock.Free? && u.phase.Idle? && u.status.Keys == t.status.Keys
    requires u.taken == Step(t, NextLine).taken && u.buffer == Step(t, NextLine).buffer
    ensures Reached(begun, names, outcomes, k + 1, u)
  {
    TakesNext(begun, names, outcomes, k, t);
    TurnGrows(begun, names, outcomes, k);
  }

  class Worker {
    const manager: JailManager
    var buffer: string
    var jails: map<nat, string>

    constructor (manager: JailManager)
      ensures this.manager == manager && buffer == "" && jails == map[]
    {
      this.manager := manager;
      buffer, jails := "", map[];
    }

    ghost predicate Shows(s: State)
      reads this, manager
    {
      manager.Shows(s) && s.buffer == buffer && s.jails == jails
    }

    /** process_container and start_container. A jail that cannot be made is reported at once. */
    method ProcessContainer(name: string, outcome: Outcome, ghost s: State) returns (pid: int)
      requires Shows(s) && s.lock.Free? && s.phase == Looking(name)
      requires name in s.status ==> Makes(s, name, outcome)
      modifies this`jails, manager
      ensures pid == if name in s.status && outcome.Started? then outcome.pid else -1
      ensures var t := Run(s, LineEvents(name in s.status, outcome));
              && Shows(t) && t.lock.Free? && t.phase.Idle?
              && t.status.Keys == s.status.Keys && t.taken == s.taken && t.buffer == s.buffer
              && t.kernel == if name !in s.status || outcome.Refused? then s.kernel
                             else if outcome.Started? then s.kernel + {name} else s.kernel - {name}
    {
      ghost var found := Step(s, Look);
      if name !in manager.status {
        RunOne(s, Look);
        return -1;
      }
      if !outcome.Started? {
        ghost var failed := Fail(outcome.Destroyed?);
        RunThree(s, Look, failed, Notify);
        ghost var noticed := Step(found, failed);
        assert manager.Shows(noticed);
        manager.UpdateExitCode(name);
        return -1;
      }
      RunTwo(s, Look, Create(outcome.pid));
      jails := jails[outcome.pid := name];
      return outcome.pid;
    }

    /** remove_container after an exit event. */
    method RemoveContainer(pid: nat, ghost s: State)
      requires Shows(s) && s.lock.Free? && s.phase.Idle? && '\n' !in buffer && pid in s.exited
      modifies this`jails, manager
      ensures Shows(Run(s, if pid in s.jails then [Reap(pid), Notify] else []))
      ensures pid !in jails
      ensures pid in s.jails ==> Run(s, [Reap(pid), Notify]).kernel == s.kernel - {s.jails[pid]}
    {
      if pid !in jails {
        return;
      }
      var name := jails[pid];
      ghost var reaped := Step(s, Reap(pid));
      RunTwo(s, Reap(pid), Notify);
      jails := jails - {pid};
      assert manager.Shows(reaped);
      manager.UpdateExitCode(name);
    }

    /** One turn of the loop of run: take a line off the buffer and process it. */
    method ProcessLine(outcome: Outcome, ghost t: State) returns (ghost u: State)
      requires Shows(t) && t.lock.Free? && t.phase.Idle? && '\n' in buffer
      requires var name := Strip(buffer[..Newline(buffer)]);
               name in t.status ==> Makes(t, name, outcome)
      modifies this, manager
      ensures var took := Step(t, NextLine);
              && u == Run(took, LineEvents(took.phase.name in t.status, outcome))
              && Shows(u) && u.lock.Free? && u.phase.Idle?
              && u.status.Keys == t.status.Keys && u.taken == took.taken && u.buffer == took.buffer
    {
      var i := Newline(buffer);
      var name := Strip(buffer[..i]);
      ghost var took := Step(t, NextLine);
      buffer := buffer[i + 1..];
      var pid := ProcessContainer(name, outcome, took);
      u := Run(took, LineEvents(name in t.status, outcome));
    }

    /** A readable event of run: read a chunk and process each complete line. */
    method Readable(count: nat, outcomes: seq<Outcome>, ghost s: State)
      requires Shows(s) && s.lock.Free? && Enabled(s, Read(count))
      requires |outcomes| == |Names(s.buffer + s.wire[..count])|
      requires Possible(Step(s, Read(count)), Names(s.buffer + s.wire[..count]), outcomes)
      modifies this, manager
      ensures '\n' !in buffer
      ensures var names := Names(s.buffer + s.wire[..count]);
              var t := Run(Step(s, Read(count)), TurnEvents(names, s.status.Keys, outcomes));
              Shows(t) && t.lock.Free? && t.phase.Idle? && t.taken == s.taken + names
    {
      buffer := buffer + manager.wire[..count];
      manager.wire := manager.wire[count..];
      ghost var begun := Step(s, Read(count));
      ghost var t, names := begun, Names(buffer);
      var k := 0;
      while '\n' in buffer
        invariant Shows(t) && Reached(begun, names, outcomes, k, t)
        decreases |buffer|
      {
        TakesNext(begun, names, outcomes, k, t);
        ghost var u := ProcessLine(outcomes[k], t);
        LineDone(begun, names, outcomes, k, t, u);
        t, k := u, k + 1;
      }
      assert k == |names|;
      assert names[..k] == names && outcomes[..k] == outcomes;
    }
  }
}
