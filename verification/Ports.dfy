/** Port reservation: controllers that share a file of used ports under a lock. */
module Ports {
  import opened Wrappers

  type Port = (string, int)
  type Id = nat

  // ---- One controller in its critical section --------------------------------

  /** The file of used ports; None until it is first created. */
  class PortFile {
    var contents: Option<set<Port>>

    function Ports(): set<Port>
      reads this
    {
      if contents.Some? then contents.value else {}
    }

    constructor ()
      ensures contents == None
    {
      contents := None;
    }
  }

  class Controller {
    var ownPorts: set<Port>

    constructor ()
      ensures ownPorts == {}
    {
      ownPorts := {};
    }

    /** `get_hostname_and_port`. The candidates are what `find_hostname_and_port` returns; without a
        result the call is still choosing. */
    method GetHostnameAndPort(file: PortFile, candidates: seq<Port>) returns (r: Option<Port>)
      modifies this, file
      ensures r.Some? ==>
                && r.value in candidates && r.value !in old(file.Ports())
                && file.contents == Some(old(file.Ports()) + {r.value})
                && ownPorts == old(ownPorts) + {r.value}
                && Effect(Reserving, old(file.Ports()), old(ownPorts), file.Ports(), ownPorts)
      ensures r.None? ==> ownPorts == old(ownPorts) && file.Ports() == old(file.Ports())
                          && forall p :: p in candidates ==> p in old(file.Ports())
    {
      if file.contents.None? {
        file.contents := Some({});
      }
      var usedPorts := file.Ports();
      var i := 0;
      while i < |candidates| && candidates[i] in usedPorts
        invariant i <= |candidates| && forall j :: 0 <= j < i ==> candidates[j] in usedPorts
      {
        i := i + 1;
      }
      if i == |candidates| {
        return None;
      }
      var port := candidates[i];
      usedPorts := usedPorts + {port};
      ownPorts := ownPorts + {port};
      file.contents := Some(usedPorts);
      r := Some(port);
    }

    /** `kill`, after the process is gone. It fails, with a KeyError and without writing the file,
        exactly when one of the controller's ports is missing from the file. */
    method Kill(file: PortFile) returns (ok: bool)
      modifies this, file
      ensures ok <==> old(ownPorts) <= old(file.Ports())
      ensures ok ==> ownPorts == {} && file.contents == Some(old(file.Ports()) - old(ownPorts))
                     && Effect(Killing, old(file.Ports()), old(ownPorts), file.Ports(), ownPorts)
      ensures !ok ==> ownPorts <= old(ownPorts) && file.Ports() == old(file.Ports())
                      && forall p :: p in old(ownPorts) - ownPorts ==> p in old(file.Ports())
    {
      if file.contents.None? {
        file.contents := Some({});
      }
      var usedPorts := file.Ports();
      var todo := ownPorts;
      while todo != {}
        invariant todo == ownPorts <= old(ownPorts)
        invariant usedPorts == old(file.Ports()) - (old(ownPorts) - todo)
        invariant old(ownPorts) - todo <= old(file.Ports())
        invariant file.Ports() == old(file.Ports())
        decreases todo
      {
        var port :| port in todo;
        if port !in usedPorts {
          return false;
        }
        usedPorts := usedPorts - {port};
        ownPorts := ownPorts - {port};
        todo := todo - {port};
      }
      assert usedPorts == old(file.Ports()) - old(ownPorts);
      file.contents := Some(usedPorts);
      ok := true;
    }
  }

  // ---- Any number of controllers, step by step ---------------------------------

  datatype Task = Reserving | Killing

  datatype Phase =
    | Outside
    | Entered(task: Task)                   // lock taken
    | Working(task: Task, used: set<Port>)  // file read
    | Done(used: set<Port>)                 // set ready to be written
    | Written                               // file written, lock not yet released

  datatype Proc = Proc(own: set<Port>, alive: bool, phase: Phase, keyError: bool)

  datatype System = System(file: Option<set<Port>>, lock: Option<Id>, procs: map<Id, Proc>) {
    function Ports(): set<Port> { if file.Some? then file.value else {} }
  }

  datatype Step =
    | Create(c: Id)
    | Acquire(c: Id, task: Task)
    | Load(c: Id)
    | Choose(c: Id, port: Port)
    | RemoveOne(c: Id, port: Port)
    | FinishKill(c: Id)
    | Store(c: Id)
    | Release(c: Id)
    | Crash(c: Id)

  /** One step, or None when it cannot be taken. Without `exclusive`, taking the lock never waits: that
      is the context manager used when the tests do not run in parallel. */
  function Apply(exclusive: bool, s: System, step: Step): Option<System> {
    if step.Create? then
      if step.c in s.procs then None
      else Some(s.(procs := s.procs[step.c := Proc({}, true, Outside, false)]))
    else if step.c !in s.procs || !s.procs[step.c].alive then None
    else
      var p := s.procs[step.c];
      match step
      case Create(_) => None
      case Acquire(c, task) =>
        if p.phase.Outside? && (exclusive ==> s.lock.None?)
        then Some(s.(lock := Some(c), procs := s.procs[c := p.(phase := Entered(task))])) else None
      case Load(c) =>
        if p.phase.Entered?
        then Some(s.(file := Some(s.Ports()), procs := s.procs[c := p.(phase := Working(p.phase.task, s.Ports()))]))
        else None
      case Choose(c, port) =>
        if !p.phase.Working? || !p.phase.task.Reserving? then None
        else if port in p.phase.used then Some(s)
        else Some(s.(procs := s.procs[c := p.(own := p.own + {port}, phase := Done(p.phase.used + {port}))]))
      case RemoveOne(c, port) =>
        if !p.phase.Working? || !p.phase.task.Killing? || port !in p.own then None
        else if port in p.phase.used
        then Some(s.(procs := s.procs[c := p.(own := p.own - {port},
                                              phase := p.phase.(used := p.phase.used - {port}))]))
        else Some(s.(lock := None, procs := s.procs[c := p.(phase := Outside, keyError := true)]))
      case FinishKill(c) =>
        if p.phase.Working? && p.phase.task.Killing? && p.own == {}
        then Some(s.(procs := s.procs[c := p.(phase := Done(p.phase.used))])) else None
      case Store(c) =>
        if p.phase.Done?
        then Some(s.(file := Some(p.phase.used), procs := s.procs[c := p.(phase := Written)])) else None
      case Release(c) =>
        if p.phase.Written? then Some(s.(lock := None, procs := s.procs[c := p.(phase := Outside)])) else None
      case Crash(c) =>
        if p.phase.Outside? then Some(s.(procs := s.procs[c := p.(alive := false)])) else None
  }

  /** A run of steps that could all be taken. */
  function Run(exclusive: bool, s: System, steps: seq<Step>): Option<System>
    decreases |steps|
  {
    if |steps| == 0 then Some(s)
    else
      var before :- Run(exclusive, s, steps[..|steps| - 1]);
      Apply(exclusive, before, steps[|steps| - 1])
  }

  ghost predicate Initial(s: System) { s.lock.None? && s.procs == map[] }

  // ---- Exclusivity -----------------------------------------------------------

  ghost predicate Disjoint(s: System) {
    forall c, d :: c in s.procs && d in s.procs && c != d ==> s.procs[c].own !! s.procs[d].own
  }

  ghost predicate OwnedWithin(s: System, ports: set<Port>) {
    forall c :: c in s.procs ==> s.procs[c].own <= ports
  }

  /** The lock says who is inside, and everybody else is outside. */
  ghost predicate LockHeld(s: System) {
    && (s.lock.Some? ==>
          s.lock.value in s.procs && s.procs[s.lock.value].alive && !s.procs[s.lock.value].phase.Outside?)
    && (forall c :: c in s.procs && !s.procs[c].phase.Outside? ==> s.lock == Some(c))
  }

  /** What the one inside knows: the set it works on covers every port anyone owns. */
  ghost predicate Covered(s: System) {
    if s.lock.None? then OwnedWithin(s, s.Ports())
    else
      s.lock.value in s.procs &&
      match s.procs[s.lock.value].phase
      case Working(Reserving, used) => used == s.Ports() && OwnedWithin(s, used)
      case Working(Killing, used) => OwnedWithin(s, used)
      case Done(used) => OwnedWithin(s, used)
      case _ => OwnedWithin(s, s.Ports())
  }

  ghost predicate Inv(s: System) {
    Disjoint(s) && LockHeld(s) && Covered(s) && forall c :: c in s.procs ==> !s.procs[c].keyError
  }

  lemma StepKeepsOwners(s: System, step: Step)
    requires Inv(s) && Apply(true, s, step).Some?
    ensures var t := Apply(true, s, step).value; Disjoint(t) && forall c :: c in t.procs ==> !t.procs[c].keyError
  {
  }

  lemma StepKeepsLock(s: System, step: Step)
    requires LockHeld(s) && Apply(true, s, step).Some?
    ensures LockHeld(Apply(true, s, step).value)
  {
  }

  lemma StepKeepsCovered(s: System, step: Step)
    requires Disjoint(s) && Covered(s) && LockHeld(s) && Apply(true, s, step).Some?
    ensures Covered(Apply(true, s, step).value)
  {
  }

  lemma StepKeepsInv(s: System, step: Step)
    requires Inv(s) && Apply(true, s, step).Some?
    ensures Inv(Apply(true, s, step).value)
  {
    hide Apply, Disjoint, LockHeld, Covered;
    StepKeepsOwners(s, step);
    StepKeepsLock(s, step);
    StepKeepsCovered(s, step);
  }

  lemma {:induction false} RunKeepsInv(s: System, steps: seq<Step>)
    requires Inv(s) && Run(true, s, steps).Some?
    ensures Inv(Run(true, s, steps).value)
    decreases |steps|
  {
    hide Apply, Inv;
    if |steps| > 0 {
      RunKeepsInv(s, steps[..|steps| - 1]);
      StepKeepsInv(Run(true, s, steps[..|steps| - 1]).value, steps[|steps| - 1]);
    }
  }

  /** Under a mutually exclusive lock, in every run from a system without controllers, whatever the
      file held: no two controllers, crashed ones included, own the same port; when the lock is free
      every owned port is in the file; and no removal has failed. */
  lemma PortsAreExclusive(s: System, steps: seq<Step>)
    requires Initial(s) && Run(true, s, steps).Some?
    ensures var t := Run(true, s, steps).value;
            && Disjoint(t)
            && (t.lock.None? ==> OwnedWithin(t, t.Ports()))
            && (forall c :: c in t.procs ==> !t.procs[c].keyError)
  {
    RunKeepsInv(s, steps);
  }

  // ---- What one critical section does -------------------------------------------

  /** Everybody but `c` owns what they owned. */
  ghost predicate OthersKeep(s0: System, t: System, c: Id) {
    forall d :: d in s0.procs && d != c ==> d in t.procs && t.procs[d].own == s0.procs[d].own
  }

  /** What `c` has done to the set it will write, and to its own ports. */
  ghost predicate Effect(task: Task, ports0: set<Port>, own0: set<Port>, ports: set<Port>, own: set<Port>) {
    match task
    case Killing => ports == ports0 - own0 && own == {}
    case Reserving => exists port :: port !in ports0 && ports == ports0 + {port} && own == own0 + {port}
  }

  /** How far the section that `c` entered in `s0` has come in `t`. */
  ghost predicate InSection(s0: System, t: System, c: Id, task: Task)
    requires c in s0.procs
  {
    && c in t.procs && t.lock == Some(c) && OthersKeep(s0, t, c)
    && var p, own0 := t.procs[c], s0.procs[c].own;
    match p.phase
    case Outside => false
    case Entered(k) => k == task && p.own == own0 && t.Ports() == s0.Ports()
    case Working(k, used) =>
      && k == task && t.Ports() == s0.Ports() && p.own <= own0 && used == s0.Ports() - (own0 - p.own)
      && (k.Reserving? ==> p.own == own0)
    case Done(used) => Effect(task, s0.Ports(), own0, used, p.own)
    case Written => Effect(task, s0.Ports(), own0, t.Ports(), p.own)
  }

  lemma SectionStarts(s0: System, c: Id, task: Task)
    requires Apply(true, s0, Acquire(c, task)).Some?
    ensures c in s0.procs && InSection(s0, Apply(true, s0, Acquire(c, task)).value, c, task)
  {
  }

  lemma SectionStep(s0: System, t: System, c: Id, task: Task, step: Step)
    requires Inv(t) && c in s0.procs && InSection(s0, t, c, task) && Apply(true, t, step).Some?
    ensures var u := Apply(true, t, step).value;
            && (u.lock == Some(c) ==> InSection(s0, u, c, task))
            && (u.lock.None? ==> c in u.procs && OthersKeep(s0, u, c)
                                 && Effect(task, s0.Ports(), s0.procs[c].own, u.Ports(), u.procs[c].own))
            && (u.lock == Some(c) || u.lock.None?)
  {
    StepKeepsInv(t, step);
    var u := Apply(true, t, step).value;
    if step.FinishKill? && step.c == c {
      assert s0.Ports() - (s0.procs[c].own - {}) == s0.Ports() - s0.procs[c].own;
    } else if step.RemoveOne? && step.c == c {
      var own := t.procs[c].own;
      assert s0.Ports() - (s0.procs[c].own - own) - {step.port} == s0.Ports() - (s0.procs[c].own - (own - {step.port}));
    } else if step.Choose? && step.c == c && u != t {
      assert s0.Ports() - (s0.procs[c].own - t.procs[c].own) == s0.Ports();
      assert Effect(task, s0.Ports(), s0.procs[c].own, u.procs[c].phase.used, u.procs[c].own) by {
        assert step.port !in s0.Ports();
      }
    }
  }

  /** A controller takes the lock and, after any steps of anybody, the lock is free for the first time:
      a kill has then taken exactly this controller's ports out of the file, and a reservation has
      added exactly one port, which nobody had; and no other controller's ports have changed. */
  lemma SectionEffect(s0: System, c: Id, task: Task, steps: seq<Step>)
    requires Inv(s0) && Apply(true, s0, Acquire(c, task)).Some?
    requires |steps| > 0 && steps[0] == Acquire(c, task) && Run(true, s0, steps).Some?
    requires forall k :: 0 < k < |steps| ==>
               Run(true, s0, steps[..k]).Some? && Run(true, s0, steps[..k]).value.lock.Some?
    requires Run(true, s0, steps).value.lock.None?
    ensures var t := Run(true, s0, steps).value;
            && c in t.procs && OthersKeep(s0, t, c)
            && Effect(task, s0.Ports(), s0.procs[c].own, t.Ports(), t.procs[c].own)
  {
    SectionStarts(s0, c, task);
    var n := |steps| - 1;
    FirstStep(s0, steps);
    SectionRuns(s0, c, task, steps, n);
    RunKeepsInv(s0, steps[..n]);
    SectionStep(s0, Run(true, s0, steps[..n]).value, c, task, steps[n]);
  }

  lemma FirstStep(s0: System, steps: seq<Step>)
    requires |steps| > 0
    ensures Run(true, s0, steps[..1]) == Apply(true, s0, steps[0])
  {
    hide Apply;
    assert |steps[..1][..0]| == 0 && steps[..1][0] == steps[0];
  }

  lemma {:induction false} SectionRuns(s0: System, c: Id, task: Task, steps: seq<Step>, n: nat)
    requires Inv(s0) && Apply(true, s0, Acquire(c, task)).Some? && c in s0.procs
    requires 0 < n < |steps| && steps[0] == Acquire(c, task)
    requires forall k :: 0 < k <= n ==> Run(true, s0, steps[..k]).Some? && Run(true, s0, steps[..k]).value.lock.Some?
    ensures InSection(s0, Run(true, s0, steps[..n]).value, c, task)
  {
    if n == 1 {
      FirstStep(s0, steps);
      SectionStarts(s0, c, task);
    } else {
      hide Apply, InSection, Inv;
      SectionRuns(s0, c, task, steps, n - 1);
      RunKeepsInv(s0, steps[..n - 1]);
      assert steps[..n][..n - 1] == steps[..n - 1] && steps[..n][n - 1] == steps[n - 1];
      SectionStep(s0, Run(true, s0, steps[..n - 1]).value, c, task, steps[n - 1]);
    }
  }

  // ---- The methods as sections ---------------------------------------------------

  lemma RunSnoc(exclusive: bool, s: System, steps: seq<Step>, step: Step)
    requires Run(exclusive, s, steps).Some?
    ensures Run(exclusive, s, steps + [step]) == Apply(exclusive, Run(exclusive, s, steps).value, step)
  {
    hide Apply;
    var all := steps + [step];
    assert all[..|all| - 1] == steps && all[|all| - 1] == step;
  }

  ghost predicate Ready(s: System, c: Id) {
    s.lock.None? && c in s.procs && s.procs[c].alive && s.procs[c].phase.Outside? && !s.procs[c].keyError
  }

  /** The system while one controller is in its section and nobody else takes a step. */
  function Inside(s: System, c: Id, file: Option<set<Port>>, own: set<Port>, phase: Phase): System {
    s.(file := file, lock := Some(c), procs := s.procs[c := Proc(own, true, phase, false)])
  }

  /** The system after the section. */
  function After(s: System, c: Id, ports: set<Port>, own: set<Port>): System
    requires c in s.procs
  {
    s.(file := Some(ports), procs := s.procs[c := s.procs[c].(own := own)])
  }

  lemma Again(procs: map<Id, Proc>, c: Id, p: Proc, q: Proc)
    ensures procs[c := p][c := q] == procs[c := q]
  {
  }

  lemma Entering(s: System, c: Id, task: Task)
    requires Ready(s, c)
    ensures Apply(true, s, Acquire(c, task)) == Some(Inside(s, c, s.file, s.procs[c].own, Entered(task)))
    ensures Apply(true, Inside(s, c, s.file, s.procs[c].own, Entered(task)), Load(c)) ==
            Some(Inside(s, c, Some(s.Ports()), s.procs[c].own, Working(task, s.Ports())))
  {
    var own := s.procs[c].own;
    Again(s.procs, c, Proc(own, true, Entered(task), false), Proc(own, true, Working(task, s.Ports()), false));
  }

  lemma Choosing(s: System, c: Id, file: Option<set<Port>>, own: set<Port>, used: set<Port>, port: Port)
    requires port !in used
    ensures Apply(true, Inside(s, c, file, own, Working(Reserving, used)), Choose(c, port)) ==
            Some(Inside(s, c, file, own + {port}, Done(used + {port})))
  {
    Again(s.procs, c, Proc(own, true, Working(Reserving, used), false),
          Proc(own + {port}, true, Done(used + {port}), false));
  }

  lemma Removing(s: System, c: Id, file: Option<set<Port>>, own: set<Port>, used: set<Port>, port: Port)
    requires port in own && port in used
    ensures Apply(true, Inside(s, c, file, own, Working(Killing, used)), RemoveOne(c, port)) ==
            Some(Inside(s, c, file, own - {port}, Working(Killing, used - {port})))
  {
    Again(s.procs, c, Proc(own, true, Working(Killing, used), false),
          Proc(own - {port}, true, Working(Killing, used - {port}), false));
  }

  lemma Finishing(s: System, c: Id, file: Option<set<Port>>, used: set<Port>)
    ensures Apply(true, Inside(s, c, file, {}, Working(Killing, used)), FinishKill(c)) ==
            Some(Inside(s, c, file, {}, Done(used)))
  {
    Again(s.procs, c, Proc({}, true, Working(Killing, used), false), Proc({}, true, Done(used), false));
  }

  lemma Leaving(s: System, c: Id, file: Option<set<Port>>, own: set<Port>, used: set<Port>)
    requires Ready(s, c)
    ensures Apply(true, Inside(s, c, file, own, Done(used)), Store(c)) == Some(Inside(s, c, Some(used), own, Written))
    ensures Apply(true, Inside(s, c, Some(used), own, Written), Release(c)) == Some(After(s, c, used, own))
  {
    Again(s.procs, c, Proc(own, true, Done(used), false), Proc(own, true, Written, false));
    Again(s.procs, c, Proc(own, true, Written, false), Proc(own, true, Outside, false));
  }

  lemma EntersBy(s: System, c: Id, task: Task) returns (steps: seq<Step>)
    requires Ready(s, c)
    ensures Run(true, s, steps) == Some(Inside(s, c, Some(s.Ports()), s.procs[c].own, Working(task, s.Ports())))
  {
    hide Apply, Inside;
    steps := [];
    Entering(s, c, task);
    RunSnoc(true, s, steps, Acquire(c, task));
    steps := steps + [Acquire(c, task)];
    RunSnoc(true, s, steps, Load(c));
    steps := steps + [Load(c)];
  }

  lemma LeavesBy(s: System, c: Id, steps: seq<Step>, file: Option<set<Port>>, own: set<Port>, used: set<Port>)
    returns (more: seq<Step>)
    requires Ready(s, c) && Run(true, s, steps) == Some(Inside(s, c, file, own, Done(used)))
    ensures Run(true, s, more) == Some(After(s, c, used, own))
  {
    hide Apply, Inside, Run, After;
    Leaving(s, c, file, own, used);
    RunSnoc(true, s, steps, Store(c));
    RunSnoc(true, s, steps + [Store(c)], Release(c));
    more := steps + [Store(c)] + [Release(c)];
  }

  /** The steps of `GetHostnameAndPort` are a run, with its postcondition for a result. */
  lemma ReserveIsRun(s: System, c: Id, port: Port) returns (steps: seq<Step>)
    requires Ready(s, c) && port !in s.Ports()
    ensures Run(true, s, steps) == Some(After(s, c, s.Ports() + {port}, s.procs[c].own + {port}))
  {
    hide Apply, Inside, Run, After;
    var ports, own := s.Ports(), s.procs[c].own;
    steps := EntersBy(s, c, Reserving);
    Choosing(s, c, Some(ports), own, ports, port);
    RunSnoc(true, s, steps, Choose(c, port));
    steps := LeavesBy(s, c, steps + [Choose(c, port)], Some(ports), own + {port}, ports + {port});
  }

  lemma {:induction false} RemoveAll(s: System, c: Id, steps: seq<Step>, file: Option<set<Port>>, own: set<Port>,
                                     used: set<Port>)
    returns (more: seq<Step>)
    requires own <= used && Run(true, s, steps) == Some(Inside(s, c, file, own, Working(Killing, used)))
    ensures Run(true, s, more) == Some(Inside(s, c, file, {}, Working(Killing, used - own)))
    decreases |own|
  {
    hide Apply, Inside, Run;
    if own == {} {
      more := steps;
      assert used - own == used;
    } else {
      var port :| port in own;
      Removing(s, c, file, own, used, port);
      RunSnoc(true, s, steps, RemoveOne(c, port));
      more := RemoveAll(s, c, steps + [RemoveOne(c, port)], file, own - {port}, used - {port});
      assert used - {port} - (own - {port}) == used - own;
    }
  }

  /** The steps of `Kill` are a run, with its postcondition for success. */
  lemma KillIsRun(s: System, c: Id) returns (steps: seq<Step>)
    requires Ready(s, c) && s.procs[c].own <= s.Ports()
    ensures Run(true, s, steps) == Some(After(s, c, s.Ports() - s.procs[c].own, {}))
  {
    hide Apply, Inside, Run, After;
    var ports, own := s.Ports(), s.procs[c].own;
    steps := EntersBy(s, c, Killing);
    steps := RemoveAll(s, c, steps, Some(ports), own, ports);
    Finishing(s, c, Some(ports), ports - own);
    RunSnoc(true, s, steps, FinishKill(c));
    steps := LeavesBy(s, c, steps + [FinishKill(c)], Some(ports), {}, ports - own);
  }

  // ---- Without the lock ----------------------------------------------------------

  /** Two controllers that exist are both inside and have both read the file. */
  lemma BothInside(s: System, c: Id, d: Id) returns (steps: seq<Step>)
    requires Initial(s) && c != d
    ensures Run(false, s, steps).Some?
    ensures var t := Run(false, s, steps).value;
            c in t.procs && d in t.procs
            && t.procs[c] == t.procs[d] == Proc({}, true, Working(Reserving, s.Ports()), false)
  {
    steps := [];
    RunSnoc(false, s, steps, Create(c));
    steps := steps + [Create(c)];
    RunSnoc(false, s, steps, Create(d));
    steps := steps + [Create(d)];
    RunSnoc(false, s, steps, Acquire(c, Reserving));
    steps := steps + [Acquire(c, Reserving)];
    RunSnoc(false, s, steps, Acquire(d, Reserving));
    steps := steps + [Acquire(d, Reserving)];
    RunSnoc(false, s, steps, Load(c));
    steps := steps + [Load(c)];
    RunSnoc(false, s, steps, Load(d));
    steps := steps + [Load(d)];
  }

  /** Without the lock the same steps can give one port to two controllers. */
  lemma UnlockedControllersCollide(s: System, c: Id, d: Id, port: Port) returns (steps: seq<Step>)
    requires Initial(s) && c != d && port !in s.Ports()
    ensures Run(false, s, steps).Some?
    ensures var t := Run(false, s, steps).value;
            c in t.procs && d in t.procs && port in t.procs[c].own && port in t.procs[d].own
  {
    var inside := BothInside(s, c, d);
    RunSnoc(false, s, inside, Choose(c, port));
    RunSnoc(false, s, inside + [Choose(c, port)], Choose(d, port));
    steps := inside + [Choose(c, port)] + [Choose(d, port)];
  }
}
