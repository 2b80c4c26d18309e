/** Starting containers: the API under its lock, the stream of names, the worker, the exits. */
module Protocol {
  import opened Framing

  datatype Status = New | Running | Exited

  /** start_jail holds the lock from reading the row until the status is written. */
  datatype Lock = Free | Starting(name: string)

  /** What the worker is doing: between events, or with one name in hand. */
  datatype Phase = Idle | Looking(name: string) | Creating(name: string) | Notifying(name: string)

  /** wire holds the bytes handed to send and not yet received, of which the socket has room for the
      first ones; publishing the containers with ports, which the worker registers under the lock;
      jails is JAIL_DICT, exited the children that are gone, kernel the names of the jails there are:
      jail_set is called with JAIL_CREATE alone, so it refuses a name the kernel has. */
  datatype State = State(
    status: map<string, Status>, publishing: set<string>, lock: Lock, wire: string, room: nat,
    buffer: string, phase: Phase, jails: map<nat, string>, exited: set<nat>, kernel: set<string>,
    sent: seq<string>, taken: seq<string>)

  datatype Event =
    | CreateContainer(name: string, publishes: bool)
    | Send(name: string)
    | Commit
    | Stop(name: string, killed: set<nat>)
    | Exit(pid: nat)
    | Read(count: nat)
    | NextLine
    | Look
    | Create(pid: nat)
    | Fail(destroyed: bool)
    | Reap(pid: nat)
    | Notify

  function Initial(room: nat): State
  {
    State(map[], {}, Free, "", room, "", Idle, map[], {}, {}, [], [])
  }

  /** The processes of a container that JAIL_DICT lists. */
  function Pids(jails: map<nat, string>, name: string): set<nat>
  {
    set pid | pid in jails && jails[pid] == name
  }

  function Entries(s: State, name: string): set<nat>
  {
    Pids(s.jails, name)
  }

  predicate IsRunning(s: State, name: string)
  {
    name in s.status && s.status[name] == Running
  }

  /** The most bytes one recv can give. */
  function Most(s: State): nat
  {
    if s.room < 4096 then s.room else 4096
  }

  /** The jail can be made, and its ports registered. */
  predicate CanCreate(s: State)
  {
    && s.phase.Creating? && s.phase.name !in s.kernel
    && (s.phase.name in s.publishing ==> s.lock.Free?)
  }

  predicate Enabled(s: State, e: Event)
  {
    match e
    case CreateContainer(name, _) => s.lock.Free? && name !in s.status
    case Send(name) => s.lock.Free? && name in s.status && s.status[name] != Running
    case Commit => s.lock.Starting? && |s.wire| <= s.room
    case Stop(name, killed) => s.lock.Free? && IsRunning(s, name) && killed <= Entries(s, name)
    case Exit(pid) => pid in s.jails
    case Read(count) => s.phase.Idle? && '\n' !in s.buffer && 0 < count <= |s.wire| && count <= Most(s)
    case NextLine => s.phase.Idle? && '\n' in s.buffer
    case Look => s.phase.Looking? && s.lock.Free?
    case Create(pid) => pid !in s.jails && CanCreate(s)
    case Fail(_) => s.phase.Creating?
    case Reap(pid) => s.phase.Idle? && '\n' !in s.buffer && pid in s.jails && pid in s.exited
    case Notify => s.phase.Notifying? && s.lock.Free?
  }

  function Recorded(status: map<string, Status>, name: string, new_: Status): map<string, Status>
  {
    if name in status then status[name := new_] else status
  }

  function Done(s: State, e: Event): State
    requires Enabled(s, e)
  {
    match e
    case CreateContainer(name, publishes) =>
      s.(status := s.status[name := New], publishing := s.publishing + (if publishes then {name} else {}))
    case Send(name) => s.(wire := s.wire + (name + "\n"), lock := Starting(name), sent := s.sent + [name])
    case Commit => s.(status := Recorded(s.status, s.lock.name, Running), lock := Free)
    case Stop(name, killed) => s.(exited := s.exited + killed, kernel := s.kernel - {name})
    case Exit(pid) => s.(exited := s.exited + {pid})
    case Read(count) => s.(buffer := s.buffer + s.wire[..count], wire := s.wire[count..])
    case NextLine =>
      var i := Newline(s.buffer);
      var name := Strip(s.buffer[..i]);
      s.(buffer := s.buffer[i + 1..], phase := Looking(name), taken := s.taken + [name])
    case Look => s.(phase := if s.phase.name in s.status then Creating(s.phase.name) else Idle)
    case Create(pid) =>
      s.(jails := s.jails[pid := s.phase.name], exited := s.exited - {pid},
         kernel := s.kernel + {s.phase.name}, phase := Idle)
    case Fail(destroyed) =>
      s.(phase := Notifying(s.phase.name), kernel := if destroyed then s.kernel - {s.phase.name} else s.kernel)
    case Reap(pid) =>
      s.(jails := s.jails - {pid}, kernel := s.kernel - {s.jails[pid]}, phase := Notifying(s.jails[pid]))
    case Notify => s.(status := Recorded(s.status, s.phase.name, Exited), phase := Idle)
  }

  /** An event that is not possible changes nothing. */
  function Step(s: State, e: Event): State
  {
    if Enabled(s, e) then Done(s, e) else s
  }

  function Run(s: State, events: seq<Event>): State
    decreases |events|
  {
    if events == [] then s else Run(Step(s, events[0]), events[1..])
  }

  lemma RunFirst(s: State, e: Event, rest: seq<Event>)
    ensures Run(s, [e] + rest) == Run(Step(s, e), rest)
  {
    assert ([e] + rest)[1..] == rest;
  }

  lemma RunOne(s: State, e: Event)
    ensures Run(s, [e]) == Step(s, e)
  {
    RunFirst(s, e, []);
    assert [e] + [] == [e];
  }

  lemma RunTwo(s: State, e: Event, f: Event)
    ensures Run(s, [e, f]) == Step(Step(s, e), f)
  {
    assert [e] + [f] == [e, f];
    RunFirst(s, e, [f]);
    RunOne(Step(s, e), f);
  }

  lemma RunThree(s: State, e: Event, f: Event, g: Event)
    ensures Run(s, [e, f, g]) == Step(Step(Step(s, e), f), g)
  {
    assert [e] + [f, g] == [e, f, g];
    RunFirst(s, e, [f, g]);
    RunTwo(Step(s, e), f, g);
  }

  lemma {:induction false} RunConcat(s: State, a: seq<Event>, b: seq<Event>)
    ensures Run(s, a + b) == Run(Run(s, a), b)
    decreases |a|
  {
    if a == [] {
      assert a + b == b;
    } else {
      assert a + b == [a[0]] + (a[1..] + b);
      RunFirst(s, a[0], a[1..] + b);
      RunConcat(Step(s, a[0]), a[1..], b);
    }
  }

  // ---- Accounting ----

  /** The lines sent and not yet taken. */
  function Pending(s: State): string
  {
    s.buffer + s.wire
  }

  /** How often a name comes out of the line sent for another one. */
  function Arrivals(sent: string, name: string): nat
  {
    multiset(Names(sent + "\n"))[name]
  }

  /** How often a name is among the requests not yet taken. */
  function Queued(s: State, name: string): nat
  {
    multiset(Names(Pending(s)))[name]
  }

  /** Requests, starts in hand, live entries and pending notices for a name. */
  function Owed(s: State, name: string): nat
  {
    Queued(s, name)
    + (if !s.phase.Idle? && s.phase.name == name then 1 else 0)
    + |Entries(s, name)|
  }

  /** The status is running, or start_jail is about to make it so. */
  predicate Wanted(s: State, name: string)
  {
    s.lock == Starting(name) || IsRunning(s, name)
  }

  /** Each name is owed exactly once while it is wanted, and never otherwise. */
  ghost predicate Accounted(s: State)
  {
    forall name :: Owed(s, name) == if Wanted(s, name) then 1 else 0
  }

  /** How an event changes what is owed. */
  function Change(s: State, e: Event, name: string): int
    requires Enabled(s, e)
  {
    match e
    case Send(n) => Arrivals(n, name)
    case Look => if s.phase.name !in s.status && s.phase.name == name then -1 else 0
    case Notify => if s.phase.name == name then -1 else 0
    case _ => 0
  }

  lemma SendPending(s: State, name: string)
    requires Enabled(s, Send(name)) && Rest(Pending(s)) == ""
    ensures Rest(Pending(Done(s, Send(name)))) == ""
    ensures Names(Pending(Done(s, Send(name)))) == Names(Pending(s)) + Names(name + "\n")
  {
    var before, line := Pending(s), name + "\n";
    assert s.buffer + (s.wire + line) == before + line;
    SendLine(before, name);
  }

  lemma NextLinePending(s: State)
    requires Enabled(s, NextLine)
    ensures Rest(Pending(Done(s, NextLine))) == Rest(Pending(s))
    ensures Names(Pending(s)) == [Done(s, NextLine).phase.name] + Names(Pending(Done(s, NextLine)))
  {
    var t, i := Done(s, NextLine), Newline(s.buffer);
    assert t.buffer == s.buffer[i + 1..] && t.wire == s.wire && t.phase.name == Strip(s.buffer[..i]);
    FirstLine(s.buffer, s.wire);
  }

  lemma OtherPending(s: State, e: Event)
    requires Enabled(s, e) && !e.Send? && !e.NextLine?
    ensures Pending(Done(s, e)) == Pending(s)
  {
    if e.Read? {
      assert (s.buffer + s.wire[..e.count]) + s.wire[e.count..] == s.buffer + s.wire;
    }
  }

  lemma PidAdded(jails: map<nat, string>, pid: nat, who: string, name: string)
    requires pid !in jails
    ensures |Pids(jails[pid := who], name)| == |Pids(jails, name)| + (if who == name then 1 else 0)
  {
    assert Pids(jails[pid := who], name) == if who == name then Pids(jails, name) + {pid} else Pids(jails, name);
  }

  lemma PidRemoved(jails: map<nat, string>, pid: nat, name: string)
    requires pid in jails
    ensures |Pids(jails - {pid}, name)| == |Pids(jails, name)| - (if jails[pid] == name then 1 else 0)
  {
    assert Pids(jails - {pid}, name) == Pids(jails, name) - {pid};
  }

  lemma QueuedAfter(s: State, e: Event, name: string)
    requires Enabled(s, e) && Rest(Pending(s)) == ""
    ensures match e
            case Send(n) => Queued(Done(s, e), name) == Queued(s, name) + Arrivals(n, name)
            case NextLine =>
              Queued(s, name) == Queued(Done(s, e), name) + (if Done(s, e).phase.name == name then 1 else 0)
            case _ => Queued(Done(s, e), name) == Queued(s, name)
  {
    match e
    case Send(n) => SendPending(s, n);
    case NextLine => NextLinePending(s);
    case _ => OtherPending(s, e);
  }

  lemma EntriesAfter(s: State, e: Event, name: string)
    requires Enabled(s, e)
    ensures match e
            case Create(_) =>
              |Entries(Done(s, e), name)| == |Entries(s, name)| + (if s.phase.name == name then 1 else 0)
            case Reap(pid) =>
              |Entries(Done(s, e), name)| == |Entries(s, name)| - (if s.jails[pid] == name then 1 else 0)
            case _ => Entries(Done(s, e), name) == Entries(s, name)
  {
    match e
    case Create(pid) => PidAdded(s.jails, pid, s.phase.name, name);
    case Reap(pid) => PidRemoved(s.jails, pid, name);
    case _ =>
  }

  lemma OwedAfter(s: State, e: Event, name: string)
    requires Enabled(s, e) && Rest(Pending(s)) == ""
    ensures Owed(Done(s, e), name) == Owed(s, name) + Change(s, e, name)
  {
    QueuedAfter(s, e, name);
    EntriesAfter(s, e, name);
  }

  // ---- Every run, whatever the names ----

  /** Whoever the worker deals with has a clean name and a row. */
  predicate WorkerSound(s: State)
  {
    && (!s.phase.Idle? ==> Clean(s.phase.name))
    && (s.phase.Creating? || s.phase.Notifying? ==> s.phase.name in s.status)
    && forall pid :: pid in s.jails ==> Clean(s.jails[pid]) && s.jails[pid] in s.status
  }

  ghost predicate Sound(s: State)
  {
    && Rest(Pending(s)) == ""
    && Names(Wire(s.sent)) == s.taken + Names(Pending(s))
    && (s.lock.Starting? ==> s.lock.name in s.status && s.status[s.lock.name] != Running)
    && (s.lock.Free? ==> |s.wire| <= s.room)
    && WorkerSound(s)
    && forall name :: Clean(name) && Wanted(s, name) ==> Owed(s, name) >= 1
  }

  lemma WireGrows(sent: seq<string>, name: string)
    ensures Names(Wire(sent + [name])) == Names(Wire(sent)) + Names(name + "\n")
  {
    assert (sent + [name])[..|sent|] == sent;
    WireRest(sent);
    ReadAfterWhole(Wire(sent), name + "\n");
  }

  lemma OrderAfter(s: State, e: Event)
    requires Sound(s) && Enabled(s, e)
    ensures Rest(Pending(Done(s, e))) == ""
    ensures Names(Wire(Done(s, e).sent)) == Done(s, e).taken + Names(Pending(Done(s, e)))
  {
    match e
    case Send(name) =>
      SendPending(s, name);
      WireGrows(s.sent, name);
      Regroup(s.taken, Names(Pending(s)), Names(name + "\n"));
    case NextLine =>
      NextLinePending(s);
      Regroup(s.taken, [Done(s, e).phase.name], Names(Pending(Done(s, e))));
    case _ =>
      OtherPending(s, e);
  }

  lemma WantedAfter(s: State, e: Event, name: string)
    requires Sound(s) && Enabled(s, e)
    ensures Wanted(Done(s, e), name) <==>
            match e
            case Send(n) => Wanted(s, name) || n == name
            case Notify => Wanted(s, name) && s.phase.name != name
            case _ => Wanted(s, name)
  {
  }

  lemma WantedIsOwed(s: State, e: Event, name: string)
    requires Sound(s) && Enabled(s, e) && Clean(name) && Wanted(Done(s, e), name)
    ensures Owed(Done(s, e), name) >= 1
  {
    OwedAfter(s, e, name);
    WantedAfter(s, e, name);
    if e.Send? && e.name == name {
      OneLine(name);
    }
  }

  lemma WorkerAfter(s: State, e: Event)
    requires WorkerSound(s) && Enabled(s, e)
    ensures WorkerSound(Done(s, e))
  {
    if e.NextLine? {
      StripIsClean(s.buffer[..Newline(s.buffer)]);
    }
  }

  lemma StepKeepsSound(s: State, e: Event)
    requires Sound(s)
    ensures Sound(Step(s, e))
    ensures s.status.Keys <= Step(s, e).status.Keys
  {
    if Enabled(s, e) {
      OrderAfter(s, e);
      WorkerAfter(s, e);
      forall name | Clean(name) && Wanted(Done(s, e), name) ensures Owed(Done(s, e), name) >= 1 {
        WantedIsOwed(s, e, name);
      }
    }
  }

  lemma {:induction false} RunKeepsSound(s: State, events: seq<Event>)
    requires Sound(s)
    ensures Sound(Run(s, events))
    ensures s.status.Keys <= Run(s, events).status.Keys
    decreases |events|
  {
    if events != [] {
      StepKeepsSound(s, events[0]);
      RunKeepsSound(Step(s, events[0]), events[1..]);
    }
  }

  lemma InitiallySound(room: nat)
    ensures Sound(Initial(room))
  {
  }

  /** Names are taken in the order their lines were sent, none left out once the stream is empty;
      and as sent when every name sent is clean. */
  lemma TakenInOrder(room: nat, events: seq<Event>)
    ensures var s := Run(Initial(room), events);
            && s.taken <= Names(Wire(s.sent))
            && (Pending(s) == "" ==> s.taken == Names(Wire(s.sent)))
            && ((forall k :: 0 <= k < |s.sent| ==> Clean(s.sent[k])) ==> s.taken <= s.sent)
  {
    InitiallySound(room);
    RunKeepsSound(Initial(room), events);
    var s := Run(Initial(room), events);
    ArrivesAsSentIffClean(s.sent);
    assert s.taken + Names("") == s.taken;
  }

  // ---- Which names keep the account ----

  /** The run makes containers of these names only. */
  ghost predicate CreatesOnly(events: seq<Event>, names: iset<string>)
  {
    forall k :: 0 <= k < |events| && events[k].CreateContainer? ==> events[k].name in names
  }

  /** A clean name is owed once while wanted and never otherwise; an unclean one never. */
  predicate Balanced(s: State, name: string)
  {
    Owed(s, name) == if Clean(name) && Wanted(s, name) then 1 else 0
  }

  /** Lines for the names given bring a watched name only when it is that clean name itself. */
  ghost predicate NoStrays(names: iset<string>, watched: iset<string>)
  {
    forall n, m :: n in names && m in watched ==> Arrivals(n, m) == if n == m && Clean(m) then 1 else 0
  }

  ghost predicate Kept(s: State, names: iset<string>, watched: iset<string>)
  {
    && Sound(s)
    && (forall n :: n in s.status ==> n in names)
    && (forall m :: m in watched ==> Balanced(s, m))
  }

  lemma BalancedAfter(s: State, e: Event, names: iset<string>, watched: iset<string>, m: string)
    requires Kept(s, names, watched) && NoStrays(names, watched) && Enabled(s, e) && m in watched
    ensures Balanced(Done(s, e), m)
  {
    OwedAfter(s, e, m);
    WantedAfter(s, e, m);
    assert Balanced(s, m);
    if e.Send? {
      assert e.name in names && Arrivals(e.name, m) == if e.name == m && Clean(m) then 1 else 0;
    }
  }

  lemma {:induction false} RunKeeps(s: State, events: seq<Event>, names: iset<string>, watched: iset<string>)
    requires Kept(s, names, watched) && NoStrays(names, watched) && CreatesOnly(events, names)
    ensures Kept(Run(s, events), names, watched)
    decreases |events|
  {
    if events != [] {
      var e := events[0];
      StepKeepsSound(s, e);
      forall m | m in watched ensures Balanced(Step(s, e), m) {
        if Enabled(s, e) {
          BalancedAfter(s, e, names, watched, m);
        } else {
          assert Balanced(s, m);
        }
      }
      assert e.CreateContainer? ==> e.name in names;
      RunKeeps(Step(s, e), events[1..], names, watched);
    }
  }

  lemma InitiallyKept(room: nat, names: iset<string>, watched: iset<string>)
    ensures Kept(Initial(room), names, watched)
  {
    InitiallySound(room);
    forall m ensures Balanced(Initial(room), m) {
      assert Entries(Initial(room), m) == {};
    }
  }

  lemma CleanNamesDoNotStray(names: iset<string>, watched: iset<string>)
    requires forall n :: n in names ==> Clean(n)
    ensures NoStrays(names, watched)
  {
    forall n, m | n in names && m in watched ensures Arrivals(n, m) == if n == m && Clean(m) then 1 else 0 {
      OneLine(n);
    }
  }

  /** Creating and starting one container with an unclean name loses the account at once. */
  lemma UncleanStart(room: nat, name: string)
    requires !Clean(name)
    ensures !Accounted(Run(Initial(room), [CreateContainer(name, false), Send(name)]))
  {
    var made := Step(Initial(room), CreateContainer(name, false));
    var s := Step(made, Send(name));
    RunTwo(Initial(room), CreateContainer(name, false), Send(name));
    InitiallySound(room);
    StepKeepsSound(Initial(room), CreateContainer(name, false));
    LastLine(name);
    var other := Names(name + "\n")[0];
    OwedAfter(made, Send(name), other);
    assert Arrivals(name, other) >= 1;
    assert Owed(s, other) >= 1 && !Wanted(s, other);
  }

  /** The account is right in every run exactly when every name is clean. */
  lemma AccountedIffClean(names: iset<string>)
    ensures (forall room, events :: CreatesOnly(events, names) ==> Accounted(Run(Initial(room), events)))
            <==> (forall name :: name in names ==> Clean(name))
  {
    if forall name :: name in names ==> Clean(name) {
      forall room, events | CreatesOnly(events, names) ensures Accounted(Run(Initial(room), events)) {
        CleanAccount(room, events, names);
      }
    } else {
      var name :| name in names && !Clean(name);
      UncleanStart(0, name);
      assert CreatesOnly([CreateContainer(name, false), Send(name)], names);
      assert !Accounted(Run(Initial(0), [CreateContainer(name, false), Send(name)]));
    }
  }

  lemma CleanAccount(room: nat, events: seq<Event>, names: iset<string>)
    requires CreatesOnly(events, names) && forall n :: n in names ==> Clean(n)
    ensures Accounted(Run(Initial(room), events))
  {
    var all := iset name: string | |name| >= 0;
    CleanNamesDoNotStray(names, all);
    InitiallyKept(room, names, all);
    RunKeeps(Initial(room), events, names, all);
    var s := Run(Initial(room), events);
    forall name ensures Owed(s, name) == if Wanted(s, name) then 1 else 0 {
      assert name in all && Balanced(s, name);
    }
  }

  /** With clean names: at most one of queued request and live container per name, none of either
      unless the status is running or being made so, and no status left running once all is quiet. */
  lemma OneContainerPerName(room: nat, events: seq<Event>, names: iset<string>, name: string)
    requires CreatesOnly(events, names) && forall n :: n in names ==> Clean(n)
    ensures var s := Run(Initial(room), events);
            && |Entries(s, name)| + Queued(s, name) <= 1
            && (!Wanted(s, name) ==> Entries(s, name) == {} && Queued(s, name) == 0)
            && (Quiet(s) ==> !Wanted(s, name))
  {
    CleanAccount(room, events, names);
    var s := Run(Initial(room), events);
    assert Owed(s, name) == if Wanted(s, name) then 1 else 0;
  }

  /** Nothing in transit, in hand or alive. */
  predicate Quiet(s: State)
  {
    s.lock.Free? && Pending(s) == "" && s.phase.Idle? && s.jails == map[]
  }

  predicate NoNewWork(events: seq<Event>)
  {
    forall k :: 0 <= k < |events| ==> !events[k].CreateContainer? && !events[k].Send?
  }

  // ---- How much work there is ----

  function Rank(phase: Phase): nat
  {
    match phase
    case Idle => 0
    case Notifying(_) => 1
    case Creating(_) => 4
    case Looking(_) => 5
  }

  /** The children that have not exited. */
  function Live(s: State): set<nat>
  {
    s.jails.Keys - s.exited
  }

  /** The part of the work that children make. */
  function ChildWork(pids: set<nat>, exited: set<nat>): nat
  {
    2 * |pids| + |pids - exited|
  }

  /** A bound on the steps left to the worker, the exits and the start in progress. */
  function Work(s: State): nat
  {
    (if s.lock.Starting? then 1 else 0) + 7 * |s.wire| + 6 * |s.buffer| + Rank(s.phase)
    + ChildWork(s.jails.Keys, s.exited)
  }

  /** Not a call of the API: the end of one, an exit, or a step of the worker. */
  predicate Internal(e: Event)
  {
    !e.CreateContainer? && !e.Send? && !e.Stop?
  }

  predicate Effective(s: State, e: Event)
  {
    Internal(e) && Enabled(s, e) && (e.Exit? ==> e.pid in Live(s))
  }

  lemma ChildAdded(pids: set<nat>, exited: set<nat>, pid: nat)
    requires pid !in pids
    ensures ChildWork(pids + {pid}, exited - {pid}) == ChildWork(pids, exited) + 3
  {
    assert (pids + {pid}) - (exited - {pid}) == (pids - exited) + {pid};
  }

  lemma ChildReaped(pids: set<nat>, exited: set<nat>, pid: nat)
    requires pid in pids && pid in exited
    ensures ChildWork(pids - {pid}, exited) + 2 == ChildWork(pids, exited)
  {
    assert (pids - {pid}) - exited == pids - exited;
  }

  lemma ChildExits(pids: set<nat>, exited: set<nat>, pid: nat)
    requires pid in pids && pid !in exited
    ensures ChildWork(pids, exited + {pid}) + 1 == ChildWork(pids, exited)
  {
    assert pids - (exited + {pid}) == (pids - exited) - {pid};
  }

  lemma CreateWork(s: State, pid: nat)
    requires Enabled(s, Create(pid))
    ensures Work(Done(s, Create(pid))) < Work(s)
  {
    ChildAdded(s.jails.Keys, s.exited, pid);
    assert Done(s, Create(pid)).jails.Keys == s.jails.Keys + {pid};
  }

  lemma ReapWork(s: State, pid: nat)
    requires Enabled(s, Reap(pid))
    ensures Work(Done(s, Reap(pid))) < Work(s)
  {
    ChildReaped(s.jails.Keys, s.exited, pid);
    assert Done(s, Reap(pid)).jails.Keys == s.jails.Keys - {pid};
  }

  lemma ReadWork(s: State, count: nat)
    requires Enabled(s, Read(count))
    ensures Work(Done(s, Read(count))) < Work(s)
  {
    assert |s.buffer + s.wire[..count]| == |s.buffer| + count && |s.wire[count..]| == |s.wire| - count;
  }

  lemma LineWork(s: State)
    requires Enabled(s, NextLine)
    ensures Work(Done(s, NextLine)) < Work(s)
  {
    var t, i := Done(s, NextLine), Newline(s.buffer);
    assert |t.buffer| == |s.buffer| - i - 1;
    assert t.lock == s.lock && t.wire == s.wire && t.jails == s.jails && t.exited == s.exited;
  }

  lemma PhaseWork(s: State, e: Event)
    requires Enabled(s, e) && (e.Commit? || e.Look? || e.Fail? || e.Notify?)
    ensures Work(Done(s, e)) < Work(s)
  {
    var t := Done(s, e);
    assert t.buffer == s.buffer && t.wire == s.wire && t.jails == s.jails && t.exited == s.exited;
  }

  /** Every effective step leaves less work. */
  lemma StepWork(s: State, e: Event)
    requires Effective(s, e)
    ensures Work(Step(s, e)) < Work(s)
  {
    match e
    case Create(pid) => CreateWork(s, pid);
    case Reap(pid) => ReapWork(s, pid);
    case Exit(pid) => ChildExits(s.jails.Keys, s.exited, pid);
    case Read(count) => ReadWork(s, count);
    case NextLine => LineWork(s);
    case _ => PhaseWork(s, e);
  }

  /** A run in which every step is internal and does something. */
  predicate Busy(s: State, events: seq<Event>)
    decreases |events|
  {
    events == [] || (Effective(s, events[0]) && Busy(Step(s, events[0]), events[1..]))
  }

  /** No such run is longer than the work there is at its start. */
  lemma {:induction false} BusyRunsEnd(s: State, events: seq<Event>)
    requires Busy(s, events)
    ensures |events| + Work(Run(s, events)) <= Work(s)
    decreases |events|
  {
    if events != [] {
      StepWork(s, events[0]);
      BusyRunsEnd(Step(s, events[0]), events[1..]);
    }
  }

  /** Every line is dealt with and every exit reported; only live children are left. */
  predicate Settled(s: State)
  {
    s.lock.Free? && Pending(s) == "" && s.phase.Idle? && s.jails.Keys == Live(s)
  }

  /** start_jail waits for room in the socket and the worker for the lock. */
  predicate Blocked(s: State)
  {
    s.lock.Starting? && |s.wire| > s.room && (s.phase.Looking? || s.phase.Notifying?)
  }

  function Chunk(s: State): nat
  {
    if |s.wire| < Most(s) then |s.wire| else Most(s)
  }

  lemma SomethingToDo(s: State) returns (e: Event)
    requires Sound(s) && s.room > 0 && !Settled(s) && !Blocked(s)
    ensures Internal(e) && !e.Exit? && Enabled(s, e)
  {
    assert s.buffer + "" == s.buffer;
    if s.lock.Starting? && |s.wire| <= s.room {
      return Commit;
    } else if s.phase.Creating? {
      return Fail(false);
    } else if s.phase.Looking? {
      return Look;
    } else if s.phase.Notifying? {
      return Notify;
    } else if '\n' in s.buffer {
      return NextLine;
    } else if s.wire != "" {
      return Read(Chunk(s));
    } else {
      var pid :| pid in s.jails && pid in s.exited;
      return Reap(pid);
    }
  }

  /** The worker has nothing it can do exactly when all is settled or it and start_jail wait for one
      another. */
  lemma NothingToDoIff(s: State)
    requires Sound(s) && s.room > 0
    ensures (forall e :: Internal(e) && !e.Exit? ==> !Enabled(s, e)) <==> Settled(s) || Blocked(s)
  {
    if !Settled(s) && !Blocked(s) {
      var e := SomethingToDo(s);
      assert Internal(e) && Enabled(s, e);
    }
  }

  lemma {:induction false} LockStaysFree(s: State, events: seq<Event>)
    requires Busy(s, events) && s.lock.Free?
    ensures Run(s, events).lock.Free?
    decreases |events|
  {
    if events != [] {
      LockStaysFree(Step(s, events[0]), events[1..]);
    }
  }

  /** Without new calls, and none in progress, whatever the worker does it ends settled. */
  lemma WorkerSettles(s: State, events: seq<Event>)
    requires Sound(s) && s.lock.Free? && s.room > 0 && Busy(s, events)
    requires forall e :: Internal(e) && !e.Exit? ==> !Enabled(Run(s, events), e)
    ensures Settled(Run(s, events)) && |events| <= Work(s)
  {
    BusyRunsEnd(s, events);
    RunKeepsSound(s, events);
    RoomStays(s, events);
    LockStaysFree(s, events);
    NothingToDoIff(Run(s, events));
  }

  lemma {:induction false} RoomStays(s: State, events: seq<Event>)
    ensures Run(s, events).room == s.room
    decreases |events|
  {
    if events != [] {
      RoomStays(Step(s, events[0]), events[1..]);
    }
  }

  // ---- When everything can come to rest ----

  /** The worker can still read without taking the lock first. */
  predicate Reading(s: State)
  {
    '\n' !in s.buffer && (s.phase.Idle? || CanCreate(s))
  }

  /** No start in progress, or room for what it sends, or as much read before the next line is
      complete, and with it, as makes room. */
  predicate Flows(s: State)
  {
    || s.lock.Free?
    || |s.wire| <= s.room
    || (Reading(s) && '\n' in s.wire && |s.wire| <= s.room + Newline(s.wire) + Most(s))
  }

  lemma NewlineAfter(wire: string, count: nat)
    requires '\n' in wire && count <= Newline(wire)
    ensures '\n' in wire[count..] && Newline(wire[count..]) == Newline(wire) - count
    ensures '\n' !in wire[..count]
  {
    var i := Newline(wire);
    assert wire[count..][i - count] == '\n';
    assert wire[count..][..i - count] == wire[..i][count..];
    NewlineAt(wire[count..], i - count);
    assert wire[..count] == wire[..i][..count];
  }

  /** How much to read while start_jail waits: up to the next line, or with it all that comes. */
  function Portion(s: State): nat
    requires '\n' in s.wire
  {
    var i := Newline(s.wire);
    if i == 0 then Chunk(s) else if i < Most(s) then i else Most(s)
  }

  lemma ReadMakesRoom(s: State)
    requires Sound(s) && Flows(s) && s.lock.Starting? && |s.wire| > s.room && s.phase.Idle?
    ensures Enabled(s, Read(Portion(s))) && Flows(Step(s, Read(Portion(s))))
  {
    var i, k := Newline(s.wire), Portion(s);
    if i > 0 {
      NewlineAfter(s.wire, k);
      assert '\n' !in s.buffer + s.wire[..k];
    }
  }

  /** One stage on the way to rest. */
  lemma NextStage(s: State) returns (events: seq<Event>)
    requires Sound(s) && Flows(s) && !Quiet(s)
    ensures var t := Run(s, events);
            NoNewWork(events) && Sound(t) && Flows(t) && Work(t) < Work(s)
  {
    if s.phase.Idle? && s.lock.Free? && '\n' !in s.buffer && s.wire == "" {
      events := ReapOne(s);
    } else {
      var e := NextStep(s);
      RunOne(s, e);
      StepKeepsSound(s, e);
      StepWork(s, e);
      events := [e];
    }
  }

  lemma ExitWork(s: State, pid: nat)
    requires Enabled(s, Exit(pid))
    ensures Work(Step(s, Exit(pid))) <= Work(s)
  {
    if pid in s.exited {
      assert s.exited + {pid} == s.exited;
    } else {
      ChildExits(s.jails.Keys, s.exited, pid);
    }
  }

  lemma ExitThenReap(s: State, pid: nat)
    requires Sound(s) && s.phase.Idle? && s.lock.Free? && '\n' !in s.buffer && pid in s.jails
    ensures var t := Step(s, Exit(pid));
            Sound(t) && Enabled(t, Reap(pid)) && t.lock.Free? && Work(t) <= Work(s)
  {
    StepKeepsSound(s, Exit(pid));
    ExitWork(s, pid);
  }

  lemma ReapOne(s: State) returns (events: seq<Event>)
    requires Sound(s) && !Quiet(s) && s.phase.Idle? && s.lock.Free? && '\n' !in s.buffer && s.wire == ""
    ensures var t := Run(s, events);
            NoNewWork(events) && Sound(t) && Flows(t) && Work(t) < Work(s)
  {
    assert s.buffer + "" == s.buffer;
    var pid :| pid in s.jails;
    var t := Step(s, Exit(pid));
    RunTwo(s, Exit(pid), Reap(pid));
    ExitThenReap(s, pid);
    StepKeepsSound(t, Reap(pid));
    ReapWork(t, pid);
    events := [Exit(pid), Reap(pid)];
  }

  lemma NextStep(s: State) returns (e: Event)
    requires Sound(s) && Flows(s)
    requires !(s.phase.Idle? && s.lock.Free? && '\n' !in s.buffer && s.wire == "")
    ensures Effective(s, e) && !e.Exit? && Flows(Step(s, e))
  {
    if s.lock.Starting? && |s.wire| <= s.room {
      return Commit;
    } else if s.lock.Starting? && s.phase.Creating? {
      var pid := Bound(s.jails.Keys);
      return Create(pid);
    } else if s.lock.Starting? {
      ReadMakesRoom(s);
      return Read(Portion(s));
    } else if s.phase.Looking? {
      return Look;
    } else if s.phase.Creating? {
      return Fail(false);
    } else if s.phase.Notifying? {
      return Notify;
    } else if '\n' in s.buffer {
      return NextLine;
    } else {
      return Read(Chunk(s));
    }
  }

  /** Exits, the worker and the start in progress alone can bring everything to rest. */
  lemma {:induction false} CanFinish(s: State) returns (events: seq<Event>)
    requires Sound(s) && Flows(s)
    ensures NoNewWork(events) && Quiet(Run(s, events))
    decreases Work(s)
  {
    if Quiet(s) {
      return [];
    }
    var first := NextStage(s);
    var rest := CanFinish(Run(s, first));
    RunConcat(s, first, rest);
    return first + rest;
  }

  lemma NoNewlineAfter(wire: string, count: nat)
    requires '\n' in wire && Newline(wire) < count <= |wire|
    ensures '\n' in wire[..count]
  {
    assert wire[..count][Newline(wire)] == '\n';
  }

  /** A read while start_jail waits for too much room. */
  lemma ReadStillBlocked(s: State, count: nat)
    requires Sound(s) && !Flows(s) && Enabled(s, Read(count))
    ensures !Flows(Done(s, Read(count)))
  {
    WireHasNewline(s);
    if count <= Newline(s.wire) {
      NewlineAfter(s.wire, count);
    } else {
      NoNewlineAfter(s.wire, count);
    }
  }

  /** The stream holds whole lines, so with none in the buffer there is one on the wire. */
  lemma WireHasNewline(s: State)
    requires Rest(Pending(s)) == "" && '\n' !in s.buffer && s.wire != ""
    ensures '\n' in s.wire
  {
  }

  /** Once it does not flow, the start in progress never ends. */
  lemma StillBlocked(s: State, e: Event)
    requires Sound(s) && !Flows(s)
    ensures !Flows(Step(s, e)) && Step(s, e).lock == s.lock && Step(s, e).status == s.status
  {
    if e.Read? && Enabled(s, e) {
      ReadStillBlocked(s, e.count);
    }
  }

  lemma {:induction false} BlockedForever(s: State, events: seq<Event>)
    requires Sound(s) && !Flows(s)
    ensures !Flows(Run(s, events)) && Run(s, events).status == s.status
    decreases |events|
  {
    if events != [] {
      StillBlocked(s, events[0]);
      StepKeepsSound(s, events[0]);
      BlockedForever(Step(s, events[0]), events[1..]);
    }
  }

  /** Everything can come to rest exactly when the start in progress, if any, can be sent. */
  lemma CanFinishIff(s: State)
    requires Sound(s)
    ensures (exists events :: NoNewWork(events) && Quiet(Run(s, events))) <==> Flows(s)
  {
    if Flows(s) {
      var events := CanFinish(s);
    } else {
      forall events ensures !Quiet(Run(s, events)) {
        BlockedForever(s, events);
      }
    }
  }

  lemma {:induction false} Bound(pids: set<nat>) returns (bound: nat)
    ensures forall pid :: pid in pids ==> pid < bound
  {
    if pids == {} {
      return 0;
    }
    var pid :| pid in pids;
    var below := Bound(pids - {pid});
    bound := if pid < below then below else pid + 1;
    assert forall other :: other in pids ==> other == pid || other in pids - {pid};
  }

  // ---- Which names ever stop ----

  lemma StepStuck(s: State, name: string, e: Event)
    requires Sound(s) && !Clean(name) && IsRunning(s, name)
    ensures IsRunning(Step(s, e), name)
  {
  }

  lemma {:induction false} UncleanIsStuck(s: State, name: string, events: seq<Event>)
    requires Sound(s) && !Clean(name) && IsRunning(s, name)
    ensures IsRunning(Run(s, events), name)
    decreases |events|
  {
    if events != [] {
      StepStuck(s, name, events[0]);
      StepKeepsSound(s, events[0]);
      UncleanIsStuck(Step(s, events[0]), name, events[1..]);
    }
  }

  /** A running container can come to be reported as exited exactly when its name is clean and the
      start in progress, if any, can be sent: otherwise its status stays running whatever happens. */
  lemma StopsIffClean(room: nat, events: seq<Event>, name: string)
    requires IsRunning(Run(Initial(room), events), name)
    ensures var s := Run(Initial(room), events);
            Clean(name) && Flows(s) <==> exists more :: NoNewWork(more) && !IsRunning(Run(s, more), name)
    ensures var s := Run(Initial(room), events);
            Clean(name) && Flows(s) <==> exists more :: !IsRunning(Run(s, more), name)
  {
    var s := Run(Initial(room), events);
    InitiallySound(room);
    RunKeepsSound(Initial(room), events);
    if Clean(name) && Flows(s) {
      var more := CanFinish(s);
      RunKeepsSound(s, more);
      assert Entries(Run(s, more), name) == {};
    } else {
      forall more ensures IsRunning(Run(s, more), name) {
        if Clean(name) {
          BlockedForever(s, more);
        } else {
          UncleanIsStuck(s, name, more);
        }
      }
    }
  }

  // ---- What exits leave behind ----

  /** The kernel has a jail of a name only while JAIL_DICT has an entry for it. */
  ghost predicate KernelOwned(s: State)
  {
    forall m :: m in s.kernel ==> Entries(s, m) != {}
  }

  lemma StepKeepsKernel(s: State, e: Event)
    requires KernelOwned(s)
    ensures KernelOwned(Step(s, e))
  {
    var t := Step(s, e);
    forall m | m in t.kernel ensures Entries(t, m) != {} {
      if m in s.kernel {
        var pid :| pid in Entries(s, m);
        assert pid in Entries(t, m);
      } else {
        assert e.Create? && e.pid in Entries(t, m);
      }
    }
  }

  /** So an exit that is dealt with frees the name for the next start. */
  lemma {:induction false} RunKeepsKernel(s: State, events: seq<Event>)
    requires KernelOwned(s)
    ensures KernelOwned(Run(s, events))
    decreases |events|
  {
    if events != [] {
      StepKeepsKernel(s, events[0]);
      RunKeepsKernel(Step(s, events[0]), events[1..]);
    }
  }

  /** Each name has at most one entry, and the kernel its jail. */
  ghost predicate Single(s: State)
  {
    && (forall p, q :: p in s.jails && q in s.jails && s.jails[p] == s.jails[q] ==> p == q)
    && (forall p :: p in s.jails ==> s.jails[p] in s.kernel)
  }

  /** No jail is removed under its entry: none is stopped, and none half made is destroyed. */
  predicate NoneRemoved(events: seq<Event>)
  {
    forall k :: 0 <= k < |events| ==> !events[k].Stop? && events[k] != Fail(true)
  }

  lemma {:induction false} SingleIsKept(s: State, events: seq<Event>)
    requires Single(s) && NoneRemoved(events)
    ensures Single(Run(s, events))
    decreases |events|
  {
    if events != [] {
      assert events[0] in events;
      SingleIsKept(Step(s, events[0]), events[1..]);
    }
  }

  /** The kernel refuses a second jail of a name, so whatever the names are, clean or not, none has two
      entries unless a jail is removed before its exit is dealt with. */
  lemma DoublesNeedRemoval(room: nat, events: seq<Event>, p: nat, q: nat)
    requires NoneRemoved(events)
    ensures var jails := Run(Initial(room), events).jails;
            p in jails && q in jails && jails[p] == jails[q] ==> p == q
  {
    SingleIsKept(Initial(room), events);
  }

  /** A read takes what is there, no more than the socket holds, and at most 4096 bytes. */
  lemma ReadsUpTo(s: State, count: nat)
    requires s.phase.Idle? && '\n' !in s.buffer
    ensures Enabled(s, Read(count)) <==> 0 < count <= |s.wire| && count <= s.room && count <= 4096
  {
  }

  /** A stop takes the jail away and any of its children with it; all entries stay for the worker, and
      no status is written. */
  lemma StopLeavesEntries(s: State, name: string, killed: set<nat>)
    requires s.lock.Free? && IsRunning(s, name)
    requires forall pid :: pid in killed ==> pid in s.jails && s.jails[pid] == name
    ensures var t := Step(s, Stop(name, killed));
            && t.exited == s.exited + killed && t.kernel == s.kernel - {name}
            && t == s.(exited := t.exited, kernel := t.kernel)
  {
  }

  /** An entry goes only once its child has exited, and then its container's notice is due. */
  lemma EntryGoesOnExit(s: State, e: Event, pid: nat)
    requires pid in s.jails && pid !in Step(s, e).jails
    ensures pid in s.exited && Step(s, e).phase == Notifying(s.jails[pid])
  {
  }

  /** A child counts as exited only after an exit or a stop of its container, until its number is
      given to a new one. */
  lemma ExitedOnlyByExit(s: State, e: Event, pid: nat)
    requires pid !in s.exited && pid in Step(s, e).exited
    ensures pid in s.jails && (e == Exit(pid) || (e.Stop? && e.name == s.jails[pid] && pid in e.killed))
  {
  }

  /** t is s with the one line on its way taken in hand, its start completed. */
  predicate BroughtIn(s: State, t: State, name: string)
  {
    t == s.(status := if s.lock.Starting? then Recorded(s.status, s.lock.name, Running) else s.status,
            lock := Free, wire := t.wire, buffer := t.buffer, taken := t.taken, phase := Looking(name))
  }

  lemma BringInStep(s: State, name: string) returns (e: Event)
    requires Sound(s) && Flows(s) && s.phase.Idle? && Names(Pending(s)) == [name]
    requires !(s.lock.Free? && '\n' in s.buffer)
    ensures Effective(s, e) && (e.Commit? || e.Read?)
    ensures var t := Step(s, e);
            && Sound(t) && Flows(t) && Names(Pending(t)) == [name] && t.phase.Idle?
            && forall u :: BroughtIn(t, u, name) ==> BroughtIn(s, u, name)
  {
    if s.lock.Starting? && |s.wire| <= s.room {
      e := Commit;
    } else if s.lock.Starting? {
      ReadMakesRoom(s);
      e := Read(Portion(s));
    } else {
      assert s.buffer + "" == s.buffer;
      e := Read(Chunk(s));
    }
    StepKeepsSound(s, e);
    OtherPending(s, e);
  }

  lemma TakeIn(s: State, name: string)
    requires Sound(s) && s.lock.Free? && s.phase.Idle? && '\n' in s.buffer && Names(Pending(s)) == [name]
    ensures Sound(Step(s, NextLine)) && BroughtIn(s, Step(s, NextLine), name)
  {
    StepKeepsSound(s, NextLine);
    NextLinePending(s);
    assert Names(Pending(s))[0] == Step(s, NextLine).phase.name;
  }

  lemma {:induction false} BringIn(s: State, name: string) returns (events: seq<Event>)
    requires Sound(s) && Flows(s) && s.phase.Idle? && Names(Pending(s)) == [name]
    ensures NoNewWork(events) && Sound(Run(s, events)) && BroughtIn(s, Run(s, events), name)
    decreases Work(s)
  {
    if s.lock.Free? && '\n' in s.buffer {
      TakeIn(s, name);
      RunOne(s, NextLine);
      return [NextLine];
    }
    var e := BringInStep(s, name);
    StepWork(s, e);
    var rest := BringIn(Step(s, e), name);
    RunFirst(s, e, rest);
    return [e] + rest;
  }

  /** A line handed to an idle worker's empty stream can always be sent. */
  lemma SendFlows(s: State, name: string)
    requires Sound(s) && Quiet(s) && s.room > 0 && Clean(name) && Enabled(s, Send(name))
    ensures var t := Done(s, Send(name));
            Sound(t) && Flows(t) && Names(Pending(t)) == [name]
  {
    StepKeepsSound(s, Send(name));
    SendPending(s, name);
    OneLine(name);
    var line := name + "\n";
    assert line[..|name|] == name && line[|name|] == '\n';
    LineOf(line, |name|);
    assert s.wire == "" && "" + line == line;
  }

  lemma QuietCanSend(s: State, name: string)
    requires Sound(s) && KernelOwned(s) && Quiet(s) && Clean(name) && name in s.status
    ensures Enabled(s, Send(name)) && name !in s.kernel
  {
    assert Entries(s, name) == {} && Owed(s, name) == 0;
  }

  lemma MakeIt(s: State, name: string, pid: nat)
    requires s.lock.Free? && s.phase == Looking(name) && IsRunning(s, name)
    requires s.jails == map[] && name !in s.kernel
    ensures var t := Run(s, [Look, Create(pid)]);
            && Entries(t, name) == {pid} && pid !in t.exited && name in t.kernel
            && IsRunning(t, name) && t.lock.Free? && t.phase.Idle?
  {
    RunTwo(s, Look, Create(pid));
    assert Run(s, [Look, Create(pid)]).jails == map[pid := name];
  }

  /** Whatever happened before, once all is quiet a clean name with a row can be started and its
      container made, as any process. */
  lemma CanStartAgain(room: nat, events: seq<Event>, name: string, pid: nat) returns (more: seq<Event>)
    requires room > 0 && Quiet(Run(Initial(room), events))
    requires Clean(name) && name in Run(Initial(room), events).status
    ensures var t := Run(Run(Initial(room), events), more);
            && Entries(t, name) == {pid} && pid !in t.exited && name in t.kernel
            && IsRunning(t, name) && t.lock.Free? && t.phase.Idle?
  {
    var s := Run(Initial(room), events);
    InitiallySound(room);
    RunKeepsSound(Initial(room), events);
    RoomStays(Initial(room), events);
    RunKeepsKernel(Initial(room), events);
    more := StartAgain(s, name, pid);
  }

  lemma StartAgain(s: State, name: string, pid: nat) returns (more: seq<Event>)
    requires Sound(s) && KernelOwned(s) && Quiet(s) && s.room > 0 && Clean(name) && name in s.status
    ensures var t := Run(s, more);
            && Entries(t, name) == {pid} && pid !in t.exited && name in t.kernel
            && IsRunning(t, name) && t.lock.Free? && t.phase.Idle?
  {
    QuietCanSend(s, name);
    SendFlows(s, name);
    var sending := Step(s, Send(name));
    var bring := BringIn(sending, name);
    MakeIt(Run(sending, bring), name, pid);
    RunConcat(sending, bring, [Look, Create(pid)]);
    RunFirst(s, Send(name), bring + [Look, Create(pid)]);
    more := [Send(name)] + (bring + [Look, Create(pid)]);
  }

  /** A container that publishes ports is not made while a start is in progress; one that does not
      can be, if its jail can. */
  lemma PublishingWaits(s: State, pid: nat)
    requires s.phase.Creating? && s.lock.Starting? && pid !in s.jails && s.phase.name !in s.kernel
    ensures Enabled(s, Create(pid)) <==> s.phase.name !in s.publishing
  {
  }

  /** Publishing is said when the container is created, and never changes. */
  lemma PublishingFixed(s: State, e: Event, name: string)
    requires Sound(s) && s.publishing <= s.status.Keys
    ensures Step(s, e).publishing <= Step(s, e).status.Keys
    ensures name in s.status ==> (name in Step(s, e).publishing <==> name in s.publishing)
    ensures name !in s.status && name in Step(s, e).status
            ==> e.CreateContainer? && e.name == name && (name in Step(s, e).publishing <==> e.publishes)
  {
  }

  // ---- What names that collide do ----

  /** No unclean name arrives as another name. */
  ghost predicate NoCollision(names: iset<string>)
  {
    forall n, m :: n in names && m in names && !Clean(n) ==> m !in Names(n + "\n")
  }

  lemma NoCollisionNoStrays(names: iset<string>)
    requires NoCollision(names)
    ensures NoStrays(names, names)
  {
    forall n, m | n in names && m in names ensures Arrivals(n, m) == if n == m && Clean(m) then 1 else 0 {
      if Clean(n) {
        OneLine(n);
      } else {
        assert m !in Names(n + "\n");
      }
    }
  }

  /** Without collisions a name has at most one entry, and none unless it is wanted. */
  lemma NoCollisionOneEntry(room: nat, events: seq<Event>, names: iset<string>, name: string)
    requires CreatesOnly(events, names) && NoCollision(names)
    ensures var s := Run(Initial(room), events);
            |Entries(s, name)| <= if Wanted(s, name) then 1 else 0
  {
    NoCollisionNoStrays(names);
    InitiallyKept(room, names, names);
    RunKeeps(Initial(room), events, names, names);
    var s := Run(Initial(room), events);
    if name in names {
      assert Balanced(s, name);
    } else {
      assert Entries(s, name) == {};
    }
  }

  /** A start owes at least what the sent line brings. */
  lemma StartOwes(s: State, sent: string, name: string)
    requires Sound(s) && Enabled(s, Send(sent)) && name in s.status
    requires |s.wire| + |sent| + 1 <= s.room
    ensures var t := Run(s, [Send(sent), Commit]);
            && Sound(t)
            && t.wire == s.wire + (sent + "\n")
            && t == s.(wire := t.wire, sent := t.sent, status := s.status[sent := Running])
            && Queued(t, name) == Queued(s, name) + Arrivals(sent, name)
  {
    var sending := Step(s, Send(sent));
    RunTwo(s, Send(sent), Commit);
    StepKeepsSound(s, Send(sent));
    StepKeepsSound(sending, Commit);
    QueuedAfter(s, Send(sent), name);
    QueuedAfter(sending, Commit, name);
  }

  /** Containers n and m, publishing nothing. */
  function MadeTwo(n: string, m: string): seq<Event>
  {
    [CreateContainer(n, false), CreateContainer(m, false)]
  }

  lemma MakeTwo(room: nat, n: string, m: string)
    requires n != m
    ensures Run(Initial(room), MadeTwo(n, m)) == Initial(room).(status := map[n := New, m := New])
    ensures Sound(Run(Initial(room), MadeTwo(n, m)))
  {
    RunTwo(Initial(room), CreateContainer(n, false), CreateContainer(m, false));
    InitiallySound(room);
    RunKeepsSound(Initial(room), MadeTwo(n, m));
  }

  /** Nothing made yet, and only m of the clean names has a row. */
  predicate Fresh(s: State, n: string, m: string)
  {
    && s.lock.Free? && s.phase.Idle? && s.jails == map[] && s.exited == {} && s.kernel == {} && s.publishing == {}
    && s.status.Keys == {n, m}
  }

  lemma CreatesBoth(events: seq<Event>, more: seq<Event>, names: iset<string>)
    requires CreatesOnly(events, names) && CreatesOnly(more, names)
    ensures CreatesOnly(events + more, names)
  {
  }

  /** Starting one of them changes only the stream and its own status. */
  lemma StartOneOfTwo(s: State, sent: string, n: string, m: string)
    requires Sound(s) && Fresh(s, n, m) && sent in s.status && s.status[sent] == New
    requires |s.wire| + |sent| + 1 <= s.room
    ensures var t := Run(s, [Send(sent), Commit]);
            && Sound(t) && Fresh(t, n, m) && t.status == s.status[sent := Running]
            && t.room == s.room && |t.wire| == |s.wire| + |sent| + 1
            && Queued(t, m) == Queued(s, m) + Arrivals(sent, m)
  {
    StartOwes(s, sent, m);
  }

  lemma ArrivesFromBoth(n: string, m: string)
    requires Clean(m) && m in Names(n + "\n")
    ensures Arrivals(n, m) >= 1 && Arrivals(m, m) == 1
  {
    OneLine(m);
  }

  lemma StartBoth(s: State, n: string, m: string)
    requires Sound(s) && Fresh(s, n, m) && s.status == map[n := New, m := New]
    requires n != m && Clean(m) && m in Names(n + "\n") && |s.wire| + |n| + |m| + 2 <= s.room
    ensures var t := Run(Run(s, [Send(n), Commit]), [Send(m), Commit]);
            Sound(t) && Fresh(t, n, m) && IsRunning(t, m) && Queued(t, m) >= 2
  {
    ArrivesFromBoth(n, m);
    StartOneOfTwo(s, n, n, m);
    StartOneOfTwo(Run(s, [Send(n), Commit]), m, n, m);
  }

  /** A socket with room for both lines. */
  function Roomy(n: string, m: string): State
  {
    Initial(|n| + |m| + 2)
  }

  lemma OnlyTheTwo(n: string, m: string)
    ensures CreatesOnly(MadeTwo(n, m), iset{n, m})
    ensures CreatesOnly([Send(n), Commit] + [Send(m), Commit], iset{n, m})
  {
  }

  /** Making and starting both queues the second name twice. */
  lemma QueueTwice(n: string, m: string) returns (events: seq<Event>)
    requires !Clean(n) && Clean(m) && m in Names(n + "\n")
    ensures CreatesOnly(events, iset{n, m})
    ensures var t := Run(Roomy(n, m), events);
            Sound(t) && Fresh(t, n, m) && IsRunning(t, m) && Queued(t, m) >= 2
  {
    var made, starts := MadeTwo(n, m), [Send(n), Commit] + [Send(m), Commit];
    MakeTwo(|n| + |m| + 2, n, m);
    StartBoth(Run(Roomy(n, m), made), n, m);
    RunConcat(Run(Roomy(n, m), made), [Send(n), Commit], [Send(m), Commit]);
    RunConcat(Roomy(n, m), made, starts);
    OnlyTheTwo(n, m);
    CreatesBoth(made, starts, iset{n, m});
    events := made + starts;
  }

  /** t is s with some more lines read and taken, m in hand. */
  predicate CameTo(s: State, t: State, m: string)
  {
    && t == s.(buffer := t.buffer, wire := t.wire, taken := t.taken, phase := Looking(m))
    && Queued(t, m) == Queued(s, m) - 1
  }

  lemma TakeNext(s: State, m: string)
    requires Sound(s) && s.phase.Idle? && '\n' in s.buffer
    ensures var t := Step(s, NextLine);
            && Sound(t) && t.phase.Looking? && Clean(t.phase.name)
            && t == s.(buffer := t.buffer, taken := t.taken, phase := t.phase)
            && |t.buffer| < |s.buffer|
            && Queued(t, m) == Queued(s, m) - (if t.phase.name == m then 1 else 0)
  {
    StepKeepsSound(s, NextLine);
    QueuedAfter(s, NextLine, m);
  }

  lemma ReadMore(s: State, m: string)
    requires Sound(s) && s.lock.Free? && s.phase.Idle? && '\n' !in s.buffer && Queued(s, m) >= 1
    ensures var e := Read(Chunk(s)); var t := Step(s, e);
            && Enabled(s, e) && Sound(t)
            && t == s.(buffer := t.buffer, wire := t.wire)
            && |t.wire| < |s.wire| && Queued(t, m) == Queued(s, m)
  {
    assert s.buffer + "" == s.buffer;
    StepKeepsSound(s, Read(Chunk(s)));
    QueuedAfter(s, Read(Chunk(s)), m);
  }

  lemma LookAway(s: State, m: string)
    requires Sound(s) && s.lock.Free? && s.phase.Looking? && s.phase.name !in s.status
    ensures Step(s, Look) == s.(phase := Idle) && Sound(Step(s, Look)) && Queued(Step(s, Look), m) == Queued(s, m)
  {
    StepKeepsSound(s, Look);
    QueuedAfter(s, Look, m);
  }

  /** The worker comes to the next line that brings m; the lines before it find no row. */
  lemma {:induction false} ReachLooking(s: State, m: string) returns (events: seq<Event>)
    requires Sound(s) && s.lock.Free? && s.phase.Idle? && Queued(s, m) >= 1
    requires forall x :: x in s.status && Clean(x) ==> x == m
    ensures NoNewWork(events) && Sound(Run(s, events)) && CameTo(s, Run(s, events), m)
    decreases |s.wire|, |s.buffer|
  {
    if '\n' !in s.buffer {
      ReadMore(s, m);
      var rest := ReachLooking(Step(s, Read(Chunk(s))), m);
      RunFirst(s, Read(Chunk(s)), rest);
      return [Read(Chunk(s))] + rest;
    }
    TakeNext(s, m);
    var t := Step(s, NextLine);
    if t.phase.name == m {
      RunOne(s, NextLine);
      return [NextLine];
    }
    LookAway(t, m);
    var rest := ReachLooking(Step(t, Look), m);
    RunFirst(t, Look, rest);
    RunFirst(s, NextLine, [Look] + rest);
    return [NextLine] + ([Look] + rest);
  }

  /** The first line that brings m makes its container. */
  lemma MakeFirst(s: State, m: string) returns (events: seq<Event>)
    requires Sound(s) && s.lock.Free? && s.phase.Idle? && Queued(s, m) >= 2 && IsRunning(s, m)
    requires s.jails == map[] && s.exited == {} && s.kernel == {}
    requires forall x :: x in s.status && Clean(x) ==> x == m
    ensures NoNewWork(events) && Sound(Run(s, events))
    ensures var t := Run(s, events);
            && t.lock.Free? && t.phase.Idle? && t.status == s.status && Queued(t, m) >= 1
            && t.jails == map[0 := m] && t.exited == {} && t.kernel == {m}
  {
    var before := ReachLooking(s, m);
    var t := Run(s, before);
    RunKeepsSound(t, [Look, Create(0)]);
    RunTwo(t, Look, Create(0));
    QueuedAfter(t, Look, m);
    QueuedAfter(Step(t, Look), Create(0), m);
    RunConcat(s, before, [Look, Create(0)]);
    return before + [Look, Create(0)];
  }

  /** A collision leads to m in hand once more while its container is there and running. */
  lemma SecondLine(n: string, m: string) returns (events: seq<Event>)
    requires !Clean(n) && m in Names(n + "\n")
    ensures CreatesOnly(events, iset{n, m})
    ensures var t := Run(Roomy(n, m), events);
            && t.lock.Free? && t.phase == Looking(m) && IsRunning(t, m)
            && t.jails == map[0 := m] && t.exited == {} && t.kernel == {m}
  {
    ReceivedAreClean(n + "\n", m);
    var starts := QueueTwice(n, m);
    var u := Run(Roomy(n, m), starts);
    var first := MakeFirst(u, m);
    var second := ReachLooking(Run(u, first), m);
    RunConcat(u, first, second);
    RunConcat(Roomy(n, m), starts, first + second);
    CreatesBoth(starts, first + second, iset{n, m});
    return starts + (first + second);
  }

  /** A collision gives one name two entries: stop_jail removes the jail while the second line is
      in hand, and the worker makes a new one before it sees the first child's exit. */
  lemma CollisionDoubles(n: string, m: string) returns (events: seq<Event>)
    requires !Clean(n) && m in Names(n + "\n")
    ensures CreatesOnly(events, iset{n, m})
    ensures var s := Run(Roomy(n, m), events);
            Entries(s, m) == {0, 1} && s.exited == {0} && s.kernel == {m}
  {
    var before := SecondLine(n, m);
    var s := Run(Roomy(n, m), before);
    assert 0 in Entries(s, m);
    var more := [Stop(m, {0}), Look, Create(1)];
    RunThree(s, Stop(m, {0}), Look, Create(1));
    RunConcat(Roomy(n, m), before, more);
    CreatesBoth(before, more, iset{n, m});
    events := before + more;
    assert Run(Roomy(n, m), events).jails == map[0 := m, 1 := m];
  }

  /** A collision lets a start that fails half made take the jail of the running container away,
      whose child has not exited and which is reported as exited. */
  lemma CollisionTearsDown(n: string, m: string) returns (events: seq<Event>)
    requires !Clean(n) && m in Names(n + "\n")
    ensures CreatesOnly(events, iset{n, m})
    ensures var s := Run(Roomy(n, m), events);
            0 in Entries(s, m) && 0 !in s.exited && m !in s.kernel && m in s.status && s.status[m] == Exited
  {
    var before := SecondLine(n, m);
    var s := Run(Roomy(n, m), before);
    var more := [Look, Fail(true), Notify];
    RunThree(s, Look, Fail(true), Notify);
    RunConcat(Roomy(n, m), before, more);
    CreatesBoth(before, more, iset{n, m});
    events := before + more;
    assert 0 in Entries(Run(Roomy(n, m), events), m);
  }

  /** No name ever has two entries in JAIL_DICT, whatever the socket holds, exactly when no name of
      the run collides. */
  lemma OneEntryIffNoCollision(names: iset<string>)
    ensures (forall room, events, name ::
              CreatesOnly(events, names) ==> |Entries(Run(Initial(room), events), name)| <= 1)
            <==> NoCollision(names)
  {
    if NoCollision(names) {
      forall room, events, name | CreatesOnly(events, names)
        ensures |Entries(Run(Initial(room), events), name)| <= 1
      {
        NoCollisionOneEntry(room, events, names, name);
      }
    } else {
      var n, m :| n in names && m in names && !Clean(n) && m in Names(n + "\n");
      var events := CollisionDoubles(n, m);
      assert CreatesOnly(events, names);
      assert |Entries(Run(Initial(|n| + |m| + 2), events), m)| == 2;
    }
  }

  /** Reported as exited to whoever takes the lock, while its jail is there and a child of it has
      not exited. */
  predicate ExitedWhileAlive(s: State, name: string)
  {
    && s.lock.Free? && name in s.status && s.status[name] == Exited
    && name in s.kernel && exists pid :: pid in Entries(s, name) && pid !in s.exited
  }

  /** A collision has the second start refused by the kernel and reported as the exit of the
      container that runs. */
  lemma CollisionMisreports(n: string, m: string) returns (events: seq<Event>)
    requires !Clean(n) && m in Names(n + "\n")
    ensures CreatesOnly(events, iset{n, m}) && ExitedWhileAlive(Run(Roomy(n, m), events), m)
  {
    var before := SecondLine(n, m);
    var s := Run(Roomy(n, m), before);
    var more := [Look, Fail(false), Notify];
    RunThree(s, Look, Fail(false), Notify);
    RunConcat(Roomy(n, m), before, more);
    CreatesBoth(before, more, iset{n, m});
    events := before + more;
    assert 0 in Entries(Run(Roomy(n, m), events), m);
  }

  /** The run makes these names only and ends in a false report. */
  ghost predicate Misreports(room: nat, events: seq<Event>, names: iset<string>, name: string)
  {
    CreatesOnly(events, names) && ExitedWhileAlive(Run(Initial(room), events), name)
  }

  /** A container that is alive can come to be reported as exited exactly when names collide. */
  lemma MisreportIffCollision(names: iset<string>)
    ensures (exists room, events, name :: Misreports(room, events, names, name)) <==> !NoCollision(names)
  {
    if NoCollision(names) {
      forall room, events, name ensures !Misreports(room, events, names, name) {
        if Misreports(room, events, names, name) {
          NoCollisionOneEntry(room, events, names, name);
          InitiallySound(room);
          RunKeepsSound(Initial(room), events);
        }
      }
    } else {
      var n, m :| n in names && m in names && !Clean(n) && m in Names(n + "\n");
      var events := CollisionMisreports(n, m);
      assert Misreports(|n| + |m| + 2, events, names, m);
    }
  }

  // ---- A socket that is full ----

  function Long(length: nat): (name: string)
    ensures |name| == length && forall k :: 0 <= k < length ==> name[k] == 'b'
  {
    seq(length, _ => 'b')
  }

  lemma ReadAll(s: State)
    requires s.phase.Idle? && s.buffer == "" && 0 < |s.wire| <= Most(s)
    ensures Step(s, Read(|s.wire|)) == s.(buffer := s.wire, wire := "")
  {
    assert s.wire[..|s.wire|] == s.wire && s.wire[|s.wire|..] == "";
    assert "" + s.wire == s.wire;
  }

  lemma TakeThenFill(s: State, name: string)
    requires s.lock.Free? && s.phase.Idle? && '\n' in s.buffer && s.wire == ""
    requires Enabled(s, Send(name)) && |name| >= s.room
    ensures var t := Step(Step(s, NextLine), Send(name));
            Blocked(t) && !Flows(t)
  {
    var t := Step(s, NextLine);
    assert t.phase.Looking? && t.wire == "" && t.room == s.room && t.status == s.status;
    assert |"" + (name + "\n")| == |name| + 1;
  }

  /** The worker takes a line, and a start fills the socket before the worker gets the lock. */
  lemma FillWhileLooking(s: State, name: string)
    requires s.lock.Free? && s.phase.Idle? && s.buffer == "" && '\n' in s.wire && |s.wire| <= Most(s)
    requires Enabled(s, Send(name)) && |name| >= s.room
    ensures var t := Run(s, [Read(|s.wire|), NextLine, Send(name)]);
            Blocked(t) && !Flows(t)
  {
    RunThree(s, Read(|s.wire|), NextLine, Send(name));
    ReadAll(s);
    TakeThenFill(s.(buffer := s.wire, wire := ""), name);
  }

  /** Whatever the socket holds, a start with the lock held can fill it while the worker, with the
      name before in hand, waits for the lock. */
  lemma SocketFills(room: nat) returns (events: seq<Event>)
    requires room >= 2
    ensures Sound(Run(Initial(room), events)) && Blocked(Run(Initial(room), events))
    ensures !Flows(Run(Initial(room), events))
  {
    var b := Long(room);
    var start := [Send("a"), Commit];
    var fill := [Read(2), NextLine, Send(b)];
    var s := Run(Initial(room), MadeTwo("a", b));
    assert b[0] != "a"[0];
    MakeTwo(room, "a", b);
    StartOwes(s, "a", "a");
    var t := Run(s, start);
    assert t.wire == "" + ("a" + "\n") && t.wire[1] == '\n';
    FillWhileLooking(t, b);
    RunConcat(s, start, fill);
    RunConcat(Initial(room), MadeTwo("a", b), start + fill);
    events := MadeTwo("a", b) + (start + fill);
    InitiallySound(room);
    RunKeepsSound(Initial(room), events);
  }
}
