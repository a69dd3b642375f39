/** The periodic task: its fields with the sections that change them under a lock, and the loops and task
    bodies that go through these sections at their own pace. */
module TaskGuard {
  /** The fields of a task. Stop channels are numbered as they are made, 0 being none; closing one that is
      closed is a crash. */
  datatype Fields = Fields(running: bool, stop: nat, made: nat, closed: set<nat>, inFlight: bool, crashed: bool)
  {
    function Started(): Fields {
      if running then this else this.(running := true, stop := made + 1, made := made + 1)
    }

    /** Closes the stop channel. */
    function Stopped(): Fields {
      this.(running := false, closed := closed + {stop}, crashed := crashed || stop in closed || stop == 0)
    }
  }

  class Task {
    var running: bool
    var stop: nat
    var inFlight: bool
    ghost var made: nat
    ghost var closed: set<nat>
    ghost var crashed: bool
    var next: nat

    ghost function Abs(): Fields
      reads this
    {
      Fields(running, stop, made, closed, inFlight, crashed)
    }

    ghost predicate Valid()
      reads this
    {
      next == made + 1
    }

    constructor ()
      ensures Valid() && Abs() == Fields(false, 0, 0, {}, false, false)
    {
      running, stop, inFlight, next := false, 0, false, 1;
      made, closed, crashed := 0, {}, false;
    }

    /** The head of `Start`: a loop is to be started unless the task runs already. */
    method Start() returns (spawn: bool)
      requires Valid()
      modifies this
      ensures Valid() && Abs() == old(Abs()).Started() && spawn == !old(running)
    {
      if running {
        return false;
      }
      running := true;
      stop := next;
      next := next + 1;
      made := made + 1;
      return true;
    }

    /** The head of `executeWithTimeout`: is the body to be run, or is the last one still under way? */
    method Enter() returns (run: bool)
      modifies this
      ensures Abs() == old(Abs()).(inFlight := true) && run == !old(inFlight)
      ensures Valid() == old(Valid())
    {
      if inFlight {
        return false;
      }
      inFlight := true;
      return true;
    }

    /** What the body's goroutine does last, also after a panic. */
    method Leave()
      modifies this
      ensures Abs() == old(Abs()).(inFlight := false) && Valid() == old(Valid())
    {
      inFlight := false;
    }

    method CloseChannel()
      modifies `closed, `crashed
      ensures crashed == (old(crashed) || stop in old(closed) || stop == 0) && closed == old(closed) + {stop}
    {
      crashed := crashed || stop in closed || stop == 0;
      closed := closed + {stop};
    }

    /** What a loop does when the body has failed. */
    method Fail()
      modifies this
      ensures Abs() == old(Abs()).Stopped() && Valid() == old(Valid())
    {
      running := false;
      CloseChannel();
    }

    method Close()
      modifies this
      ensures Abs() == if old(running) then old(Abs()).Stopped() else old(Abs())
      ensures Valid() == old(Valid())
    {
      if running {
        running := false;
        CloseChannel();
      }
    }
  }

  // ---------------------------------------------------------------------------------------------
  // Runs
  // ---------------------------------------------------------------------------------------------

  /** Where a loop is: about to try the body, waiting for its interval or for a stop channel, or waiting
      for a body to come back. */
  datatype Phase = Ready | Waiting(channel: nat) | Calling(body: nat)

  /** The task, its loops, the bodies that have been let in and have not left, and the outcomes of those
      that have come back: was it an error? */
  datatype World = World(task: Fields, loops: map<nat, Phase>, inside: set<nat>, done: map<nat, bool>)

  datatype Step =
    | Start(loop: nat, first: bool)
    | Tick(loop: nat)
    | SeeStop(loop: nat)
    | Enter(loop: nat, body: nat)
    | Return(body: nat, err: bool)
    | Leave(body: nat)
    | GetResult(loop: nat)
    | Timeout(loop: nat)
    | Close

  ghost predicate Possible(w: World, e: Step) {
    match e
    case Start(l, _) => l !in w.loops
    case Tick(l) => l in w.loops && w.loops[l].Waiting?
    case SeeStop(l) => l in w.loops && w.loops[l].Waiting? && w.loops[l].channel in w.task.closed
    case Enter(l, b) => l in w.loops && w.loops[l].Ready? && b !in w.inside && b !in w.done
    case Return(b, _) => b in w.inside && b !in w.done
    case Leave(b) => b in w.inside && b in w.done
    case GetResult(l) => l in w.loops && w.loops[l].Calling? && w.loops[l].body in w.done
    case Timeout(l) => l in w.loops && w.loops[l].Calling?
    case Close => true
  }

  ghost function Next(w: World, e: Step): World
    requires Possible(w, e)
  {
    var t := w.task;
    match e
    case Start(l, first) =>
      var n := t.Started();
      if t.running then w else w.(task := n, loops := w.loops[l := if first then Ready else Waiting(n.stop)])
    case Tick(l) => w.(loops := w.loops[l := Ready])
    case SeeStop(l) => w.(loops := w.loops - {l})
    case Enter(l, b) =>
      if t.inFlight then w.(loops := w.loops[l := Waiting(t.stop)])
      else w.(task := t.(inFlight := true), loops := w.loops[l := Calling(b)], inside := w.inside + {b})
    case Return(b, err) => w.(done := w.done[b := err])
    case Leave(b) => w.(task := t.(inFlight := false), inside := w.inside - {b})
    case GetResult(l) =>
      if w.done[w.loops[l].body] then w.(task := t.Stopped(), loops := w.loops - {l})
      else w.(loops := w.loops[l := Waiting(t.stop)])
    case Timeout(l) => w.(loops := w.loops[l := Waiting(t.stop)])
    case Close => if t.running then w.(task := t.Stopped()) else w
  }

  ghost predicate Run(w: World, es: seq<Step>)
    decreases |es|
  {
    es == [] || (Possible(w, es[0]) && Run(Next(w, es[0]), es[1..]))
  }

  ghost function After(w: World, es: seq<Step>): World
    requires Run(w, es)
    decreases |es|
  {
    if es == [] then w else After(Next(w, es[0]), es[1..])
  }

  const NEW := World(Fields(false, 0, 0, {}, false, false), map[], {}, map[])

  /** At most one body is inside, and the flag says whether one is. */
  ghost predicate Exclusive(w: World) {
    && (forall a, b :: a in w.inside && b in w.inside ==> a == b)
    && (w.task.inFlight <==> exists b :: b in w.inside)
  }

  lemma NextExclusive(w: World, e: Step)
    requires Exclusive(w) && Possible(w, e)
    ensures Exclusive(Next(w, e))
  {
    if e.Enter? && !w.task.inFlight {
      assert e.body in Next(w, e).inside;
    }
    assert w.task.inFlight && !e.Leave? ==> forall b :: b in w.inside ==> b in Next(w, e).inside;
  }

  /** Mutual exclusion: whatever number of loops there are, and in whatever order intervals, timeouts,
      panics, results and stops come, at most one body is ever inside, and the flag is up whenever one is. */
  lemma {:induction false} RunExclusive(w: World, es: seq<Step>)
    requires Exclusive(w) && Run(w, es)
    ensures Exclusive(After(w, es))
    decreases |es|
  {
    if es == [] {
    } else {
      NextExclusive(w, es[0]);
      RunExclusive(Next(w, es[0]), es[1..]);
    }
  }

  /** And none is kept out for nothing: in every reachable state a loop that tries the body gets in exactly
      when no body is inside. */
  lemma EntersIff(es: seq<Step>, l: nat, b: nat)
    requires Run(NEW, es) && Possible(After(NEW, es), Enter(l, b))
    ensures var w := After(NEW, es); b in Next(w, Enter(l, b)).inside <==> w.inside == {}
  {
    RunExclusive(NEW, es);
    var w := After(NEW, es);
    if w.inside != {} {
      var a :| a in w.inside;
    }
  }

  /** The stop channel is open exactly while the task runs. */
  ghost predicate Channels(w: World) {
    && w.task.stop <= w.task.made
    && (forall c :: c in w.task.closed ==> 0 <= c <= w.task.made)
    && (w.task.running <==> w.task.stop != 0 && w.task.stop !in w.task.closed)
  }

  lemma NextChannels(w: World, e: Step)
    requires Channels(w) && Possible(w, e)
    ensures Channels(Next(w, e))
  {
  }

  lemma {:induction false} RunChannels(w: World, es: seq<Step>)
    requires Channels(w) && Run(w, es)
    ensures Channels(After(w, es))
    decreases |es|
  {
    if es == [] {
    } else {
      NextChannels(w, es[0]);
      RunChannels(Next(w, es[0]), es[1..]);
    }
  }

  /** In every reachable state a step closes a closed channel exactly when it hands a loop the error of a
      body while the task is not running. */
  lemma CrashesIff(es: seq<Step>, e: Step)
    requires Run(NEW, es) && Possible(After(NEW, es), e) && !After(NEW, es).task.crashed
    ensures var w := After(NEW, es);
            Next(w, e).task.crashed <==> e.GetResult? && w.done[w.loops[e.loop].body] && !w.task.running
  {
    RunChannels(NEW, es);
  }

  /** Such a step is reachable: the task is closed while a body runs, and the body then fails. */
  lemma ClosedWhileFailing()
    ensures var es := [Start(1, true), Enter(1, 2), Close, Return(2, true), GetResult(1)];
            Run(NEW, es) && After(NEW, es).task.crashed
  {
    var es := [Start(1, true), Enter(1, 2), Close, Return(2, true), GetResult(1)];
    var w1 := Next(NEW, es[0]);
    var w2 := Next(w1, es[1]);
    var w3 := Next(w2, es[2]);
    var w4 := Next(w3, es[3]);
    var w5 := Next(w4, es[4]);
    assert w5.task.crashed;
    RunOne(w4, es[4], []);
    RunOne(w3, es[3], [es[4]]);
    RunOne(w2, es[2], [es[3], es[4]]);
    RunOne(w1, es[1], [es[2], es[3], es[4]]);
    RunOne(NEW, es[0], [es[1], es[2], es[3], es[4]]);
  }

  lemma RunOne(w: World, e: Step, es: seq<Step>)
    requires Possible(w, e) && Run(Next(w, e), es)
    ensures Run(w, [e] + es) && After(w, [e] + es) == After(Next(w, e), es)
  {
    assert ([e] + es)[1..] == es;
  }
}
