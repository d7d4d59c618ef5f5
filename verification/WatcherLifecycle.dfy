/**
 The life of the watcher goroutines of the two discovery clients, over every
 interleaving. The v2 client restarts a watcher after an idle timeout, and
 removes and re-registers its project after a watch error. The older client
 has code for the second, but skips events without a source, which error
 events are: its loop goes on until the result channel closes, and then ends.
 */
module WatcherLifecycle {

  datatype Client = V2 | Old

  /** A goroutine that runs `discover` for a project with a callback. */
  datatype Goroutine =
    | Watching(name: string, callback: int)   // lists, watches and delivers
    | Failing(name: string, callback: int)    // v2: saw an error, the project is still registered
    | Sleeping(name: string, callback: int)   // v2: removed the project, will register it again
    | Draining(name: string, callback: int)   // old: the watch has failed, the result channel is still open
    | Exited

  datatype State = State(client: Client, projects: map<string, int>, goroutines: seq<Goroutine>, stopped: bool)

  datatype Action =
    | Add(name: string, callback: int)        // AddProject, AddUpdateProject
    | IdleRestart(i: nat)                     // v2: the timer fires
    | WatchError(i: nat)                      // the etcd watch reports an error
    | Remove(i: nat)                          // v2: removeProject, then sleep
    | Wake(i: nat)                            // v2: AddUpdateProject after the sleep
    | ChannelClosed(i: nat)                   // old: the result channel is closed after an error
    | Stop
    | Quit(i: nat)                            // a watcher ends because of the stop

  function Initial(c: Client): State {
    State(c, map[], [], false)
  }

  predicate Enabled(s: State, a: Action) {
    match a
    case Add(_, _) => true
    case Stop => true
    case IdleRestart(i) => s.client.V2? && i < |s.goroutines| && s.goroutines[i].Watching?
    case WatchError(i) => i < |s.goroutines| && s.goroutines[i].Watching?
    case Remove(i) => i < |s.goroutines| && s.goroutines[i].Failing?
    case Wake(i) => i < |s.goroutines| && s.goroutines[i].Sleeping?
    case ChannelClosed(i) => i < |s.goroutines| && s.goroutines[i].Draining?
    case Quit(i) => i < |s.goroutines| && s.goroutines[i].Watching? && s.stopped
  }

  /** AddUpdateProject: registers and starts a watcher unless the name is known. */
  function Register(s: State, name: string, callback: int): State {
    if name in s.projects then s
    else s.(projects := s.projects[name := callback], goroutines := s.goroutines + [Watching(name, callback)])
  }

  function Become(s: State, i: nat, g: Goroutine): State
    requires i < |s.goroutines|
  {
    s.(goroutines := s.goroutines[i := g])
  }

  function AfterError(s: State, i: nat): Goroutine
    requires i < |s.goroutines| && s.goroutines[i].Watching?
  {
    var g := s.goroutines[i];
    if s.client.V2? then Failing(g.name, g.callback) else Draining(g.name, g.callback)
  }

  function Next(s: State, a: Action): State
    requires Enabled(s, a)
  {
    match a
    case Add(name, callback) => Register(s, name, callback)
    case Stop => s.(stopped := true)
    case IdleRestart(i) =>
      var g := s.goroutines[i];
      var t := Become(s, i, Exited);
      t.(goroutines := t.goroutines + [Watching(g.name, g.callback)])
    case WatchError(i) => Become(s, i, AfterError(s, i))
    case Remove(i) =>
      var g := s.goroutines[i];
      Become(s, i, Sleeping(g.name, g.callback)).(projects := s.projects - {g.name})
    case Wake(i) => Register(Become(s, i, Exited), s.goroutines[i].name, s.goroutines[i].callback)
    case ChannelClosed(i) => Become(s, i, Exited)
    case Quit(i) => Become(s, i, Exited)
  }

  // ------------------------------------------------------------------------ counting

  predicate Live(g: Goroutine, name: string) {
    (g.Watching? || g.Failing? || g.Draining?) && g.name == name
  }

  function LiveCount(gs: seq<Goroutine>, name: string): nat {
    if gs == [] then 0 else LiveCount(gs[..|gs| - 1], name) + (if Live(gs[|gs| - 1], name) then 1 else 0)
  }

  lemma {:induction false} CountBecome(gs: seq<Goroutine>, i: nat, g: Goroutine, name: string)
    requires i < |gs|
    ensures LiveCount(gs[i := g], name) ==
      LiveCount(gs, name) - (if Live(gs[i], name) then 1 else 0) + (if Live(g, name) then 1 else 0)
    ensures Live(gs[i], name) ==> LiveCount(gs, name) >= 1
  {
    var n := |gs| - 1;
    if i == n {
      assert gs[i := g][..n] == gs[..n];
    } else {
      CountBecome(gs[..n], i, g, name);
      assert gs[i := g][..n] == gs[..n][i := g];
    }
  }

  lemma CountAppend(gs: seq<Goroutine>, g: Goroutine, name: string)
    ensures LiveCount(gs + [g], name) == LiveCount(gs, name) + (if Live(g, name) then 1 else 0)
  {
    assert (gs + [g])[..|gs|] == gs;
  }

  /** The step starts a watcher of the project. */
  predicate Starts(s: State, a: Action, name: string)
    requires Enabled(s, a)
  {
    match a
    case Add(n, _) => n == name && name !in s.projects
    case Wake(i) => s.goroutines[i].name == name && name !in s.projects
    case IdleRestart(i) => s.goroutines[i].name == name
    case _ => false
  }

  /** The step ends a watcher of the project. */
  predicate Ends(s: State, a: Action, name: string)
    requires Enabled(s, a)
  {
    (a.IdleRestart? || a.Remove? || a.ChannelClosed? || a.Quit?) && s.goroutines[a.i].name == name
  }

  lemma StepDelta(s: State, a: Action, name: string)
    requires Enabled(s, a)
    ensures LiveCount(Next(s, a).goroutines, name) ==
      LiveCount(s.goroutines, name) + (if Starts(s, a, name) then 1 else 0) - (if Ends(s, a, name) then 1 else 0)
    ensures Ends(s, a, name) ==> LiveCount(s.goroutines, name) >= 1
  {
    if a.WatchError? || a.Remove? || a.ChannelClosed? || a.Quit? {
      ChangeDelta(s, a, name);
    } else if a.Add? {
      CountAppend(s.goroutines, Watching(a.name, a.callback), name);
    } else if a.IdleRestart? {
      RestartDelta(s.goroutines, a.i, name);
    } else if a.Wake? {
      WakeDelta(s.goroutines, a.i, name);
    }
  }

  /** The steps that change one goroutine and start none. */
  lemma ChangeDelta(s: State, a: Action, name: string)
    requires Enabled(s, a) && (a.WatchError? || a.Remove? || a.ChannelClosed? || a.Quit?)
    ensures LiveCount(Next(s, a).goroutines, name) ==
      LiveCount(s.goroutines, name) - (if Ends(s, a, name) then 1 else 0)
    ensures Ends(s, a, name) ==> LiveCount(s.goroutines, name) >= 1
  {
    CountBecome(s.goroutines, a.i, Next(s, a).goroutines[a.i], name);
    assert Next(s, a).goroutines == s.goroutines[a.i := Next(s, a).goroutines[a.i]];
  }

  lemma RestartDelta(gs: seq<Goroutine>, i: nat, name: string)
    requires i < |gs| && gs[i].Watching?
    ensures LiveCount(gs[i := Exited] + [Watching(gs[i].name, gs[i].callback)], name) == LiveCount(gs, name)
    ensures gs[i].name == name ==> LiveCount(gs, name) >= 1
  {
    CountBecome(gs, i, Exited, name);
    CountAppend(gs[i := Exited], Watching(gs[i].name, gs[i].callback), name);
  }

  lemma WakeDelta(gs: seq<Goroutine>, i: nat, name: string)
    requires i < |gs| && gs[i].Sleeping?
    ensures LiveCount(gs[i := Exited], name) == LiveCount(gs, name)
    ensures LiveCount(gs[i := Exited] + [Watching(gs[i].name, gs[i].callback)], name) ==
      LiveCount(gs, name) + (if gs[i].name == name then 1 else 0)
  {
    CountBecome(gs, i, Exited, name);
    CountAppend(gs[i := Exited], Watching(gs[i].name, gs[i].callback), name);
  }

  // ---------------------------------------------------------------------- invariant

  ghost predicate AtMostOne(s: State, name: string) {
    LiveCount(s.goroutines, name) <= (if name in s.projects then 1 else 0)
  }

  /** A live watcher serves the registered callback. */
  ghost predicate ServesRegistered(s: State, g: Goroutine) {
    g.Watching? || g.Failing? || g.Draining? ==> g.name in s.projects && s.projects[g.name] == g.callback
  }

  /** Each client has its own states. */
  ghost predicate Fits(c: Client, g: Goroutine) {
    if c.V2? then !g.Draining? else !g.Failing? && !g.Sleeping?
  }

  ghost predicate Inv(s: State) {
    && (forall name :: AtMostOne(s, name))
    && (forall i :: 0 <= i < |s.goroutines| ==> ServesRegistered(s, s.goroutines[i]) && Fits(s.client, s.goroutines[i]))
  }

  /** Nobody else watches the project of a live goroutine. */
  lemma OnlyOne(s: State, i: nat, j: nat, name: string)
    requires AtMostOne(s, name) && i < |s.goroutines| && j < |s.goroutines|
    requires Live(s.goroutines[i], name) && Live(s.goroutines[j], name)
    ensures i == j
  {
    if i != j {
      CountBecome(s.goroutines, i, Exited, name);
      CountBecome(s.goroutines[i := Exited], j, Exited, name);
    }
  }

  lemma StepKeepsAtMostOne(s: State, a: Action, name: string)
    requires AtMostOne(s, name) && Enabled(s, a)
    ensures AtMostOne(Next(s, a), name)
  {
    StepDelta(s, a, name);
  }

  lemma StepKeepsInv(s: State, a: Action)
    requires Inv(s) && Enabled(s, a)
    ensures Inv(Next(s, a))
  {
    var t := Next(s, a);
    forall name
      ensures AtMostOne(t, name)
    {
      StepKeepsAtMostOne(s, a, name);
    }
    forall i | 0 <= i < |t.goroutines|
      ensures ServesRegistered(t, t.goroutines[i]) && Fits(t.client, t.goroutines[i])
    {
      StepServes(s, a, i);
    }
  }

  lemma StepServes(s: State, a: Action, i: nat)
    requires Inv(s) && Enabled(s, a) && i < |Next(s, a).goroutines|
    ensures ServesRegistered(Next(s, a), Next(s, a).goroutines[i])
    ensures Fits(s.client, Next(s, a).goroutines[i])
  {
    if i < |s.goroutines| {
      var g := s.goroutines[i];
      assert ServesRegistered(s, g) && Fits(s.client, g);
      if a.Remove? && Live(g, s.goroutines[a.i].name) {
        OnlyOne(s, i, a.i, g.name);
      }
    } else if a.IdleRestart? {
      assert ServesRegistered(s, s.goroutines[a.i]) && Fits(s.client, s.goroutines[a.i]);
    }
  }

  // ---------------------------------------------------------------------------- runs

  ghost predicate StepsTo(s: State, a: Action, t: State) {
    Enabled(s, a) && t == Next(s, a)
  }

  /** The actions lead from s to t. */
  ghost predicate Run(s: State, acts: seq<Action>, t: State) {
    if acts == [] then s == t
    else
      var prefix, a := acts[..|acts| - 1], acts[|acts| - 1];
      exists r :: Run(s, prefix, r) && StepsTo(r, a, t)
  }

  /**
   In every run of either client each project has at most one live watcher,
   none when it is not registered, and a live watcher serves the registered
   callback.
   */
  lemma {:induction false} OneWatcher(c: Client, acts: seq<Action>, t: State)
    requires Run(Initial(c), acts, t)
    ensures Inv(t) && t.client == c
  {
    if acts != [] {
      var n := |acts| - 1;
      var r :| Run(Initial(c), acts[..n], r) && StepsTo(r, acts[n], t);
      OneWatcher(c, acts[..n], r);
      StepKeepsInv(r, acts[n]);
    }
  }

  /** Registered and being watched are the same. */
  ghost predicate Watched(s: State, name: string) {
    LiveCount(s.goroutines, name) == if name in s.projects then 1 else 0
  }

  /**
   In every run of the v2 client that has not been stopped, every registered
   project is watched, through restarts, errors and re-registrations. For the
   older client this holds as long as no result channel closes.
   */
  lemma {:induction false} AlwaysWatched(c: Client, acts: seq<Action>, t: State, name: string)
    requires Run(Initial(c), acts, t) && !t.stopped
    requires c.V2? || forall i :: 0 <= i < |acts| ==> !acts[i].ChannelClosed?
    ensures Watched(t, name)
  {
    if acts != [] {
      var n := |acts| - 1;
      var r :| Run(Initial(c), acts[..n], r) && StepsTo(r, acts[n], t);
      AlwaysWatched(c, acts[..n], r, name);
      OneWatcher(c, acts[..n], r);
      StepWatches(r, acts[n], name);
    }
  }

  lemma StepWatches(s: State, a: Action, name: string)
    requires Inv(s) && Enabled(s, a) && Watched(s, name) && !s.stopped
    requires s.client.V2? || !a.ChannelClosed?
    ensures Watched(Next(s, a), name)
  {
    if a.ChannelClosed? {
      assert Fits(s.client, s.goroutines[a.i]);
    }
    StepDelta(s, a, name);
  }

  /** Registered, but nobody watches. */
  ghost predicate Lost(s: State, name: string) {
    name in s.projects && LiveCount(s.goroutines, name) == 0
  }

  /** A registered project without a watcher never gets one again. */
  lemma {:induction false} LostForever(s: State, acts: seq<Action>, t: State, name: string)
    requires Run(s, acts, t) && Lost(s, name)
    ensures Lost(t, name)
  {
    if acts != [] {
      var n := |acts| - 1;
      var r :| Run(s, acts[..n], r) && StepsTo(r, acts[n], t);
      LostForever(s, acts[..n], r, name);
      StepDelta(r, acts[n], name);
    }
  }

  /** Exactly two steps lose a watched project: its result channel closes, or its watcher quits on a stop. */
  lemma StepLoses(s: State, a: Action, name: string)
    requires Inv(s) && Enabled(s, a) && name in s.projects && Watched(s, name)
    ensures Lost(Next(s, a), name) <==>
      (a.ChannelClosed? || a.Quit?) && s.goroutines[a.i].name == name
  {
    StepDelta(s, a, name);
    if a.ChannelClosed? || a.Quit? {
      assert ServesRegistered(s, s.goroutines[a.i]);
    }
  }

  /** A run is stopped exactly when it began so or a stop occurs in it; then every watcher can quit. */
  lemma {:induction false} StopIsFinal(s: State, acts: seq<Action>, t: State)
    requires Run(s, acts, t)
    ensures t.stopped <==> s.stopped || Stop in acts
    ensures t.stopped ==> forall i :: 0 <= i < |t.goroutines| && t.goroutines[i].Watching? ==> Enabled(t, Quit(i))
  {
    if acts != [] {
      var n := |acts| - 1;
      var r :| Run(s, acts[..n], r) && StepsTo(r, acts[n], t);
      StopIsFinal(s, acts[..n], r);
      assert acts == acts[..n] + [acts[n]];
    }
  }

  /** What can happen to goroutine i, in every state; projects can be added and the client stopped at any time. */
  lemma ChoicesExactly(s: State, i: nat)
    requires i < |s.goroutines|
    ensures Enabled(s, Stop) && forall name, callback :: Enabled(s, Add(name, callback))
    ensures var g := s.goroutines[i];
      && (Enabled(s, WatchError(i)) <==> g.Watching?)
      && (Enabled(s, IdleRestart(i)) <==> g.Watching? && s.client == V2)
      && (Enabled(s, Quit(i)) <==> g.Watching? && s.stopped)
      && (Enabled(s, Remove(i)) <==> g.Failing?)
      && (Enabled(s, Wake(i)) <==> g.Sleeping?)
      && (Enabled(s, ChannelClosed(i)) <==> g.Draining?)
  {
  }

  /** An idle restart changes nothing but the goroutine that watches. */
  lemma RestartIsSeamless(s: State, i: nat, name: string)
    requires Enabled(s, IdleRestart(i))
    ensures var t := Next(s, IdleRestart(i));
      && t.projects == s.projects && LiveCount(t.goroutines, name) == LiveCount(s.goroutines, name)
      && t.goroutines[i] == Exited && t.goroutines[|t.goroutines| - 1] == s.goroutines[i]
  {
    RestartDelta(s.goroutines, i, name);
  }

  /** In the older client only AddProject and AddUpdateProject start a watcher. */
  lemma OldStartsByAdd(s: State, a: Action, name: string)
    requires Inv(s) && s.client == Old && Enabled(s, a) && Starts(s, a, name)
    ensures a.Add? && a.name == name
  {
    NobodySleeps(s);
  }

  lemma NobodySleeps(s: State)
    requires Inv(s) && s.client == Old
    ensures forall i :: 0 <= i < |s.goroutines| ==> !s.goroutines[i].Sleeping?
  {
    forall i | 0 <= i < |s.goroutines|
      ensures !s.goroutines[i].Sleeping?
    {
      assert Fits(s.client, s.goroutines[i]);
    }
  }

  // ---------------------------------------------------------------------- callbacks

  /** Every registered callback, and that of every goroutine, was handed in for its project. */
  ghost predicate HandedIn(acts: seq<Action>, s: State) {
    && (forall name :: name in s.projects ==> Add(name, s.projects[name]) in acts)
    && (forall i :: 0 <= i < |s.goroutines| && !s.goroutines[i].Exited? ==>
          Add(s.goroutines[i].name, s.goroutines[i].callback) in acts)
  }

  /** In every run of either client: through restarts, errors and re-registrations a project keeps its own callbacks. */
  lemma {:induction false} CallbacksAreHandedIn(c: Client, acts: seq<Action>, t: State)
    requires Run(Initial(c), acts, t)
    ensures HandedIn(acts, t)
  {
    if acts != [] {
      var n := |acts| - 1;
      var r :| Run(Initial(c), acts[..n], r) && StepsTo(r, acts[n], t);
      CallbacksAreHandedIn(c, acts[..n], r);
      assert acts == acts[..n] + [acts[n]];
      StepHandsIn(acts[..n], r, acts[n]);
    }
  }

  lemma StepHandsIn(acts: seq<Action>, s: State, a: Action)
    requires HandedIn(acts, s) && Enabled(s, a)
    ensures HandedIn(acts + [a], Next(s, a))
  {
    assert (acts + [a])[|acts|] == a;
    if a.Wake? || a.IdleRestart? || a.WatchError? || a.Remove? {
      assert Add(s.goroutines[a.i].name, s.goroutines[a.i].callback) in acts;
    }
  }

  /** The project is registered, or a goroutine will register it again. */
  ghost predicate Kept(s: State, name: string) {
    || name in s.projects
    || exists i :: 0 <= i < |s.goroutines| && s.goroutines[i].Sleeping? && s.goroutines[i].name == name
  }

  /** No project is forgotten. */
  lemma {:induction false} NeverForgotten(c: Client, acts: seq<Action>, t: State, name: string)
    requires Run(Initial(c), acts, t) && exists callback :: Add(name, callback) in acts
    ensures Kept(t, name)
  {
    var n := |acts| - 1;
    var r :| Run(Initial(c), acts[..n], r) && StepsTo(r, acts[n], t);
    assert acts == acts[..n] + [acts[n]];
    if callback :| Add(name, callback) in acts[..n] {
      NeverForgotten(c, acts[..n], r, name);
      StepKeeps(r, acts[n], name);
    }
  }

  lemma StepKeeps(s: State, a: Action, name: string)
    requires Kept(s, name) && Enabled(s, a)
    ensures Kept(Next(s, a), name)
  {
    var t := Next(s, a);
    if a.Remove? && s.goroutines[a.i].name == name {
      assert t.goroutines[a.i].Sleeping?;
    } else if name !in s.projects {
      var i :| 0 <= i < |s.goroutines| && s.goroutines[i].Sleeping? && s.goroutines[i].name == name;
      if a != Wake(i) {
        assert t.goroutines[i] == s.goroutines[i];
      }
    }
  }

  /**
   An error of the v2 client: the project is taken off the list, and after the
   sleep it is registered and watched again with the same callback.
   */
  lemma ErrorRecovers(s: State, i: nat)
    requires Inv(s) && s.client.V2? && Enabled(s, WatchError(i))
    ensures var name := s.goroutines[i].name;
      var failed := Next(s, WatchError(i));
      && Enabled(failed, Remove(i))
      && var removed := Next(failed, Remove(i));
      && name !in removed.projects && LiveCount(removed.goroutines, name) == 0
      && Enabled(removed, Wake(i))
      && var back := Next(removed, Wake(i));
      && back.projects == s.projects && Watched(back, name)
      && back.goroutines[|back.goroutines| - 1] == s.goroutines[i]
  {
    var name := s.goroutines[i].name;
    var failed := Next(s, WatchError(i));
    var removed := Next(failed, Remove(i));
    var back := Next(removed, Wake(i));
    assert ServesRegistered(s, s.goroutines[i]);
    assert AtMostOne(s, name);
    StepDelta(s, WatchError(i), name);
    StepDelta(failed, Remove(i), name);
    StepDelta(removed, Wake(i), name);
    assert back.projects == s.projects;
  }

  // ------------------------------------------------------- errors of the older client

  /** Goroutine i is where an error of the older client leaves it, or its project is lost. */
  ghost predicate Doomed(s: State, i: nat, name: string) {
    || Lost(s, name)
    || (i < |s.goroutines| && s.goroutines[i].Draining? && s.goroutines[i].name == name)
  }

  lemma StepKeepsDoomed(s: State, a: Action, i: nat, name: string)
    requires Inv(s) && Enabled(s, a) && Doomed(s, i, name)
    ensures Doomed(Next(s, a), i, name)
    ensures a == ChannelClosed(i) ==> Lost(Next(s, a), name)
  {
    StepDelta(s, a, name);
    assert AtMostOne(s, name);
    if a == ChannelClosed(i) {
      assert ServesRegistered(s, s.goroutines[i]);
      if Lost(s, name) {
        assert Doomed(Next(s, a), i, name);
      }
    }
  }

  /**
   In every run of the older client a watch error on a project ends in its
   loss: nothing but the closing of the result channel happens to its watcher,
   and from then on the project stays registered and unwatched.
   */
  lemma {:induction false} ErrorLosesProject(s: State, i: nat, acts: seq<Action>, t: State)
    requires Inv(s) && s.client.Old? && Enabled(s, WatchError(i)) && Run(Next(s, WatchError(i)), acts, t)
    ensures Inv(t) && Doomed(t, i, s.goroutines[i].name)
    ensures ChannelClosed(i) in acts ==> Lost(t, s.goroutines[i].name)
    ensures Lost(t, s.goroutines[i].name) || Enabled(t, ChannelClosed(i))
  {
    var name := s.goroutines[i].name;
    if acts == [] {
      StepKeepsInv(s, WatchError(i));
    } else {
      var n := |acts| - 1;
      var r :| Run(Next(s, WatchError(i)), acts[..n], r) && StepsTo(r, acts[n], t);
      ErrorLosesProject(s, i, acts[..n], r);
      StepKeepsInv(r, acts[n]);
      StepKeepsDoomed(r, acts[n], i, name);
      if Lost(r, name) {
        StepDelta(r, acts[n], name);
      }
      assert acts == acts[..n] + [acts[n]];
    }
  }
}
