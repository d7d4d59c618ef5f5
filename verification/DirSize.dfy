/**
 Concurrent directory sizing.

 One goroutine walks each directory, at most ten at a time, and sends file
 sizes over an unbuffered channel that a further goroutine closes once the
 wait group is empty. The module gives the goroutines as a step relation over
 a finite directory tree and proves, over every run: no panic, no deadlock,
 the exact number of steps, and the result.
 */
module DirSize {
  import opened Wrappers

  // ------------------------------------------------------------ directory tree

  /**
   A directory entry. Reading an `Unreadable` directory fails. A link without a
   target stands for one that cannot be followed: it dangles, or runs in a circle.
   */
  datatype Entry = File(size: nat) | Link(target: Option<Entry>) | Dir(entries: seq<Entry>) | Unreadable {
    predicate IsDir() {
      Dir? || Unreadable?
    }

    /** os.Stat: follows links. */
    predicate Exists() {
      Link? ==> target.Some? && target.value.Exists()
    }

    /** os.ReadDir: follows links, and lists nothing where it fails. */
    function Listed(): seq<Entry> {
      if Dir? then entries
      else if Link? && target.Some? then target.value.Listed()
      else []
    }
  }

  /** The bytes of all files at or below an entry; links are not followed and weigh nothing. */
  function Bytes(e: Entry): nat
    decreases e, 0
  {
    match e
    case File(size) => size
    case Link(_) => 0
    case Dir(entries) => SumBytes(entries)
    case Unreadable => 0
  }

  function SumBytes(es: seq<Entry>): nat
    decreases es, 0
  {
    if es == [] then 0 else Bytes(es[0]) + SumBytes(es[1..])
  }

  function NonLinks(es: seq<Entry>): seq<Entry> {
    if es == [] then []
    else NonLinks(es[..|es| - 1]) + (if es[|es| - 1].Link? then [] else [es[|es| - 1]])
  }

  /** listDirNonSymlink: the filter loop. */
  method ListNonLinks(es: seq<Entry>) returns (result: seq<Entry>)
    ensures result == NonLinks(es)
  {
    result := [];
    for i := 0 to |es|
      invariant result == NonLinks(es[..i])
    {
      assert es[..i + 1][..i] == es[..i];
      if !es[i].Link? {
        result := result + [es[i]];
      }
    }
    assert es[..|es|] == es;
  }

  lemma FirstBytes(es: seq<Entry>)
    requires es != []
    ensures SumBytes(es) == Bytes(es[0]) + SumBytes(es[1..])
    ensures es[0].IsDir() ==> Bytes(es[0]) == SumBytes(es[0].Listed())
  {
  }

  lemma {:induction false} SumBytesAppend(a: seq<Entry>, b: seq<Entry>)
    ensures SumBytes(a + b) == SumBytes(a) + SumBytes(b)
  {
    if a == [] {
      assert a + b == b;
    } else {
      SumBytesAppend(a[1..], b);
      assert (a + b)[1..] == a[1..] + b;
    }
  }

  lemma {:induction false} NonLinksKeepBytes(es: seq<Entry>)
    ensures SumBytes(NonLinks(es)) == SumBytes(es)
    ensures forall i :: 0 <= i < |NonLinks(es)| ==> !NonLinks(es)[i].Link?
  {
    if es != [] {
      var rest, e := es[..|es| - 1], es[|es| - 1];
      NonLinksKeepBytes(rest);
      assert es == rest + [e];
      SumBytesAppend(rest, [e]);
      SumBytesAppend(NonLinks(rest), [e]);
      assert SumBytes([e]) == Bytes(e);
      assert NonLinks(rest) + [] == NonLinks(rest);
    }
  }

  // ------------------------------------------------------------------- the state

  const MAX_WALKERS: nat := 10
  const MAX_READERS: nat := 20

  /** Where a walkDir goroutine is. */
  datatype Walker =
    | Waiting(dir: Entry)                       // before taking a token
    | Listing(dir: Entry)                       // token taken, before taking a reader slot
    | Reading(dir: Entry)                       // reads the directory
    | Walking(todo: seq<Entry>)                 // in the loop
    | Forking(child: Entry, todo: seq<Entry>)   // wait group raised, child not started yet
    | Leaving                                   // token given back, wg.Done() to come
    | Gone

  datatype Closer = AtWait | AtClose | Finished

  datatype State = State(
    walkers: seq<Walker>,
    wg: int,
    tokens: nat,
    readers: nat,
    closer: Closer,
    closed: bool,
    nbytes: nat,
    result: Option<nat>)

  datatype Action =
    | TakeToken(i: nat) | StartRead(i: nat) | EndRead(i: nat)
    | RaiseWg(i: nat) | Spawn(i: nat) | Send(i: nat)
    | GiveToken(i: nat) | Done(i: nat)
    | WaitReturns | Close | Return

  function Init(root: Entry): State {
    State([Waiting(root)], 1, 0, 0, AtWait, false, 0, None)
  }

  /** The walker at index i is ready for action a. */
  predicate WalkerReady(s: State, w: Walker, a: Action) {
    match a
    case TakeToken(_) => w.Waiting? && s.tokens < MAX_WALKERS
    case StartRead(_) => w.Listing? && s.readers < MAX_READERS
    case EndRead(_) => w.Reading? && s.readers > 0
    case RaiseWg(_) => w.Walking? && w.todo != [] && w.todo[0].IsDir()
    case Spawn(_) => w.Forking?
    case Send(_) => w.Walking? && w.todo != [] && w.todo[0].File? && !s.closed && s.result.None?
    case GiveToken(_) => w.Walking? && w.todo == [] && s.tokens > 0
    case Done(_) => w.Leaving?
    case _ => false
  }

  predicate Enabled(s: State, a: Action) {
    match a
    case WaitReturns => s.closer == AtWait && s.wg == 0
    case Close => s.closer == AtClose
    case Return => s.closed && s.result.None?
    case _ => a.i < |s.walkers| && WalkerReady(s, s.walkers[a.i], a)
  }

  function Next(s: State, a: Action): State
    requires Enabled(s, a)
  {
    match a
    case WaitReturns => s.(closer := AtClose)
    case Close => s.(closer := Finished, closed := true)
    case Return => s.(result := Some(s.nbytes / 1024))
    case TakeToken(i) => s.(walkers := s.walkers[i := Listing(s.walkers[i].dir)], tokens := s.tokens + 1)
    case StartRead(i) => s.(walkers := s.walkers[i := Reading(s.walkers[i].dir)], readers := s.readers + 1)
    case EndRead(i) =>
      s.(walkers := s.walkers[i := Walking(NonLinks(s.walkers[i].dir.Listed()))], readers := s.readers - 1)
    case RaiseWg(i) =>
      var todo := s.walkers[i].todo;
      s.(walkers := s.walkers[i := Forking(todo[0], todo[1..])], wg := s.wg + 1)
    case Spawn(i) =>
      var w := s.walkers[i];
      s.(walkers := s.walkers[i := Walking(w.todo)] + [Waiting(w.child)])
    case Send(i) =>
      var todo := s.walkers[i].todo;
      s.(walkers := s.walkers[i := Walking(todo[1..])], nbytes := s.nbytes + todo[0].size)
    case GiveToken(i) => s.(walkers := s.walkers[i := Leaving], tokens := s.tokens - 1)
    case Done(i) => s.(walkers := s.walkers[i := Gone], wg := s.wg - 1)
  }

  predicate WantsToSend(w: Walker) {
    w.Walking? && w.todo != [] && w.todo[0].File?
  }

  /** A send on the closed channel, or a negative wait group. */
  predicate Panics(s: State) {
    || s.wg < 0
    || (s.closed && exists i :: 0 <= i < |s.walkers| && WantsToSend(s.walkers[i]))
  }

  // -------------------------------------------------------------- sums over walkers

  function Sum(ws: seq<Walker>, f: Walker -> nat): nat {
    if ws == [] then 0 else Sum(ws[..|ws| - 1], f) + f(ws[|ws| - 1])
  }

  lemma {:induction false} SumUpdate(ws: seq<Walker>, i: nat, w: Walker, f: Walker -> nat)
    requires i < |ws|
    ensures Sum(ws[i := w], f) == Sum(ws, f) - f(ws[i]) + f(w)
    ensures f(ws[i]) <= Sum(ws, f)
  {
    var n := |ws| - 1;
    if i == n {
      assert ws[i := w][..n] == ws[..n];
    } else {
      SumUpdate(ws[..n], i, w, f);
      assert ws[i := w][..n] == ws[..n][i := w];
    }
  }

  lemma SumAppend(ws: seq<Walker>, w: Walker, f: Walker -> nat)
    ensures Sum(ws + [w], f) == Sum(ws, f) + f(w)
  {
    assert (ws + [w])[..|ws|] == ws;
  }

  lemma {:induction false} SumBelow(ws: seq<Walker>, f: Walker -> nat, g: Walker -> nat)
    requires forall w :: f(w) <= g(w)
    ensures Sum(ws, f) <= Sum(ws, g)
  {
    if ws != [] {
      SumBelow(ws[..|ws| - 1], f, g);
    }
  }

  lemma {:induction false} SumZero(ws: seq<Walker>, f: Walker -> nat)
    requires forall i :: 0 <= i < |ws| ==> f(ws[i]) == 0
    ensures Sum(ws, f) == 0
  {
    if ws != [] {
      SumZero(ws[..|ws| - 1], f);
    }
  }

  /** Tokens held. */
  function Tokens(w: Walker): nat {
    if w.Listing? || w.Reading? || w.Walking? || w.Forking? then 1 else 0
  }

  /** Reader slots held. */
  function Slots(w: Walker): nat {
    if w.Reading? then 1 else 0
  }

  /** Share of the wait group; a forking walker also stands for its child. */
  function Count(w: Walker): nat {
    if w.Gone? then 0 else if w.Forking? then 2 else 1
  }

  /** Bytes still to be sent by the walker and by the walkers it will start. */
  function Owed(w: Walker): nat {
    match w
    case Waiting(dir) => SumBytes(dir.Listed())
    case Listing(dir) => SumBytes(dir.Listed())
    case Reading(dir) => SumBytes(dir.Listed())
    case Walking(todo) => SumBytes(todo)
    case Forking(child, todo) => SumBytes(child.Listed()) + SumBytes(todo)
    case Leaving => 0
    case Gone => 0
  }

  /** Steps of a walker of directory e and of everything it starts. */
  function DirWork(e: Entry): nat
    decreases e, 1
  {
    if e.Dir? then 5 + TodoWork(e.entries)
    else if e.Link? && e.target.Some? then DirWork(e.target.value)
    else 5
  }

  lemma {:induction false} DirWorkExact(e: Entry)
    ensures DirWork(e) == 5 + TodoWork(e.Listed())
  {
    if e.Link? && e.target.Some? {
      DirWorkExact(e.target.value);
    }
  }

  function TodoWork(es: seq<Entry>): nat
    decreases es, 0
  {
    if es == [] then 0
    else
      (match es[0]
       case File(_) => 1
       case Link(_) => 0
       case Dir(_) => 2 + DirWork(es[0])
       case Unreadable => 7) + TodoWork(es[1..])
  }

  function Work(w: Walker): nat {
    match w
    case Waiting(dir) => 5 + TodoWork(dir.Listed())
    case Listing(dir) => 4 + TodoWork(dir.Listed())
    case Reading(dir) => 3 + TodoWork(dir.Listed())
    case Walking(todo) => 2 + TodoWork(todo)
    case Forking(child, todo) => 3 + DirWork(child) + TodoWork(todo)
    case Leaving => 1
    case Gone => 0
  }

  /** Steps left until the call returns. */
  function StepsLeft(s: State): nat {
    Sum(s.walkers, Work)
    + (match s.closer case AtWait => 2 case AtClose => 1 case Finished => 0)
    + (if s.result.None? then 1 else 0)
  }

  lemma {:induction false} TodoWorkAppend(a: seq<Entry>, b: seq<Entry>)
    ensures TodoWork(a + b) == TodoWork(a) + TodoWork(b)
  {
    if a == [] {
      assert a + b == b;
    } else {
      TodoWorkAppend(a[1..], b);
      assert (a + b)[1..] == a[1..] + b;
    }
  }

  lemma {:induction false} NonLinksKeepWork(es: seq<Entry>)
    ensures TodoWork(NonLinks(es)) == TodoWork(es)
  {
    if es != [] {
      var rest, e := es[..|es| - 1], es[|es| - 1];
      NonLinksKeepWork(rest);
      assert es == rest + [e];
      TodoWorkAppend(rest, [e]);
      TodoWorkAppend(NonLinks(rest), [e]);
      assert e.Link? ==> TodoWork([e]) == 0;
      assert NonLinks(rest) + [] == NonLinks(rest);
    }
  }

  // ------------------------------------------------------------------- invariant

  predicate NoLinkLeft(w: Walker) {
    (w.Walking? || w.Forking?) ==> forall i :: 0 <= i < |w.todo| ==> !w.todo[i].Link?
  }

  ghost predicate Inv(total: nat, s: State) {
    && s.wg == Sum(s.walkers, Count)
    && s.tokens == Sum(s.walkers, Tokens) && s.tokens <= MAX_WALKERS
    && s.readers == Sum(s.walkers, Slots)
    && s.nbytes + Sum(s.walkers, Owed) == total
    && (forall i :: 0 <= i < |s.walkers| ==> NoLinkLeft(s.walkers[i]))
    && (s.closer != AtWait ==> s.wg == 0)
    && (s.closed <==> s.closer == Finished)
    && (s.result.Some? ==> s.closed && s.result.value == s.nbytes / 1024)
  }

  lemma InitInv(root: Entry)
    ensures Inv(SumBytes(root.Listed()), Init(root))
  {
    var w := Waiting(root);
    SumAppend([], w, Count);
    SumAppend([], w, Tokens);
    SumAppend([], w, Slots);
    SumAppend([], w, Owed);
    assert [] + [w] == [w];
  }

  /** Every sum after walker i becomes w. */
  lemma UpdateSums(ws: seq<Walker>, i: nat, w: Walker)
    requires i < |ws|
    ensures Sum(ws[i := w], Count) == Sum(ws, Count) - Count(ws[i]) + Count(w) && Count(ws[i]) <= Sum(ws, Count)
    ensures Sum(ws[i := w], Tokens) == Sum(ws, Tokens) - Tokens(ws[i]) + Tokens(w) && Tokens(ws[i]) <= Sum(ws, Tokens)
    ensures Sum(ws[i := w], Slots) == Sum(ws, Slots) - Slots(ws[i]) + Slots(w) && Slots(ws[i]) <= Sum(ws, Slots)
    ensures Sum(ws[i := w], Owed) == Sum(ws, Owed) - Owed(ws[i]) + Owed(w)
  {
    SumUpdate(ws, i, w, Count);
    SumUpdate(ws, i, w, Tokens);
    SumUpdate(ws, i, w, Slots);
    SumUpdate(ws, i, w, Owed);
  }

  /** Replacing one walker keeps the invariant if the counters follow. */
  lemma UpdateKeepsInv(total: nat, s: State, i: nat, w: Walker, t: State)
    requires Inv(total, s) && i < |s.walkers| && NoLinkLeft(w)
    requires t == s.(walkers := s.walkers[i := w], wg := t.wg, tokens := t.tokens, readers := t.readers, nbytes := t.nbytes)
    requires t.wg == s.wg - Count(s.walkers[i]) + Count(w)
    requires t.tokens == s.tokens - Tokens(s.walkers[i]) + Tokens(w) <= MAX_WALKERS
    requires t.readers == s.readers - Slots(s.walkers[i]) + Slots(w)
    requires t.nbytes + Owed(w) == s.nbytes + Owed(s.walkers[i])
    requires s.closer == AtWait
    ensures Inv(total, t)
  {
    UpdateSums(s.walkers, i, w);
  }

  /** A walker that can take a step keeps the closer waiting. */
  lemma BusyMeansWaiting(total: nat, s: State, i: nat)
    requires Inv(total, s) && i < |s.walkers| && !s.walkers[i].Gone?
    ensures s.closer == AtWait
  {
    UpdateSums(s.walkers, i, s.walkers[i]);
  }

  lemma StepKeepsInv(total: nat, s: State, a: Action)
    requires Inv(total, s) && Enabled(s, a)
    ensures Inv(total, Next(s, a))
  {
    var t := Next(s, a);
    if a.Spawn? {
      SpawnKeepsInv(total, s, a.i);
    } else if !a.WaitReturns? && !a.Close? && !a.Return? {
      var i := a.i;
      BusyMeansWaiting(total, s, i);
      if a.EndRead? {
        NonLinksKeepBytes(s.walkers[i].dir.Listed());
      } else if a.RaiseWg? || a.Send? {
        FirstBytes(s.walkers[i].todo);
      }
      assert NoLinkLeft(s.walkers[i]);
      UpdateKeepsInv(total, s, i, t.walkers[i], t);
    }
  }

  lemma SpawnKeepsInv(total: nat, s: State, i: nat)
    requires Inv(total, s) && Enabled(s, Spawn(i))
    ensures Inv(total, Next(s, Spawn(i)))
  {
    var w, child := s.walkers[i], Waiting(s.walkers[i].child);
    BusyMeansWaiting(total, s, i);
    SpawnSums(s.walkers, i);
    var after := s.walkers[i := Walking(w.todo)] + [child];
    forall k | 0 <= k < |after|
      ensures NoLinkLeft(after[k])
    {
      assert NoLinkLeft(w);
    }
  }

  /** Starting the child of a forking walker changes no sum. */
  lemma SpawnSums(ws: seq<Walker>, i: nat)
    requires i < |ws| && ws[i].Forking?
    ensures var after := ws[i := Walking(ws[i].todo)] + [Waiting(ws[i].child)];
      && Sum(after, Count) == Sum(ws, Count) && Sum(after, Tokens) == Sum(ws, Tokens)
      && Sum(after, Slots) == Sum(ws, Slots) && Sum(after, Owed) == Sum(ws, Owed)
  {
    UpdateSums(ws, i, Walking(ws[i].todo));
    AppendSums(ws[i := Walking(ws[i].todo)], Waiting(ws[i].child));
  }

  /** Every sum after a walker is added. */
  lemma AppendSums(ws: seq<Walker>, w: Walker)
    ensures Sum(ws + [w], Count) == Sum(ws, Count) + Count(w)
    ensures Sum(ws + [w], Tokens) == Sum(ws, Tokens) + Tokens(w)
    ensures Sum(ws + [w], Slots) == Sum(ws, Slots) + Slots(w)
    ensures Sum(ws + [w], Owed) == Sum(ws, Owed) + Owed(w)
  {
    SumAppend(ws, w, Count);
    SumAppend(ws, w, Tokens);
    SumAppend(ws, w, Slots);
    SumAppend(ws, w, Owed);
  }

  /** Every step brings the call exactly one step closer to its return. */
  lemma StepCounts(s: State, a: Action)
    requires Enabled(s, a) && (s.closed <==> s.closer == Finished)
    ensures StepsLeft(Next(s, a)) == StepsLeft(s) - 1
  {
    var t := Next(s, a);
    if a.Spawn? {
      var w := s.walkers[a.i];
      DirWorkExact(w.child);
      SumUpdate(s.walkers, a.i, Walking(w.todo), Work);
      SumAppend(s.walkers[a.i := Walking(w.todo)], Waiting(w.child), Work);
    } else if !a.WaitReturns? && !a.Close? && !a.Return? {
      WalkerWorks(s, a);
      SumUpdate(s.walkers, a.i, t.walkers[a.i], Work);
    }
  }

  /** The step of a walker that starts no other one takes one unit of its work. */
  lemma WalkerWorks(s: State, a: Action)
    requires Enabled(s, a) && !a.Spawn? && !a.WaitReturns? && !a.Close? && !a.Return?
    ensures |Next(s, a).walkers| == |s.walkers| && Next(s, a).walkers == s.walkers[a.i := Next(s, a).walkers[a.i]]
    ensures Work(Next(s, a).walkers[a.i]) == Work(s.walkers[a.i]) - 1
  {
    if a.EndRead? {
      NonLinksKeepWork(s.walkers[a.i].dir.Listed());
    }
  }

  lemma NoPanic(total: nat, s: State)
    requires Inv(total, s)
    ensures !Panics(s)
  {
    if s.closed {
      forall i | 0 <= i < |s.walkers|
        ensures s.walkers[i].Gone?
      {
        UpdateSums(s.walkers, i, s.walkers[i]);
      }
    }
  }

  /** The channel is closed only after the last send: nothing is owed any more. */
  lemma ClosedAfterLastSend(total: nat, s: State)
    requires Inv(total, s) && s.closed
    ensures s.nbytes == total && forall i :: 0 <= i < |s.walkers| ==> s.walkers[i].Gone?
  {
    forall i | 0 <= i < |s.walkers|
      ensures s.walkers[i].Gone?
    {
      UpdateSums(s.walkers, i, s.walkers[i]);
    }
    SumZero(s.walkers, Owed);
  }

  /** No deadlock: until the call has returned, some step is possible. */
  lemma Progress(total: nat, s: State) returns (a: Action)
    requires Inv(total, s) && s.result.None?
    ensures Enabled(s, a)
  {
    if s.closed {
      return Return;
    } else if s.closer == AtClose {
      return Close;
    } else if s.wg == 0 {
      return WaitReturns;
    } else if i: nat :| i < |s.walkers| && !s.walkers[i].Gone? && !s.walkers[i].Waiting? {
      a := WalkerProgress(total, s, i);
    } else {
      forall i | 0 <= i < |s.walkers|
        ensures Tokens(s.walkers[i]) == 0
      {
      }
      SumZero(s.walkers, Tokens);
      if forall i :: 0 <= i < |s.walkers| ==> s.walkers[i].Gone? {
        SumZero(s.walkers, Count);
        assert false;
      }
      var i :| 0 <= i < |s.walkers| && !s.walkers[i].Gone?;
      a := TakeToken(i);
    }
  }

  lemma WalkerProgress(total: nat, s: State, i: nat) returns (a: Action)
    requires Inv(total, s) && s.result.None? && !s.closed
    requires i < |s.walkers| && !s.walkers[i].Gone? && !s.walkers[i].Waiting?
    ensures Enabled(s, a)
  {
    var w := s.walkers[i];
    UpdateSums(s.walkers, i, w);
    match w {
      case Listing(_) =>
        SumBelow(s.walkers, Slots, Tokens);
        a := StartRead(i);
      case Reading(_) => a := EndRead(i);
      case Walking(todo) =>
        if todo == [] {
          a := GiveToken(i);
        } else {
          assert NoLinkLeft(w);
          a := if todo[0].File? then Send(i) else RaiseWg(i);
        }
      case Forking(_, _) => a := Spawn(i);
      case Leaving => a := Done(i);
    }
  }

  // ------------------------------------------------------------------------ runs

  ghost predicate StepsTo(r: State, a: Action, s: State) {
    Enabled(r, a) && s == Next(r, a)
  }

  /** s is reached from the start by the actions of a run. */
  ghost predicate Reaches(root: Entry, run: seq<Action>, s: State) {
    if run == [] then s == Init(root)
    else
      var prefix, a := run[..|run| - 1], run[|run| - 1];
      exists r :: Reaches(root, prefix, r) && StepsTo(r, a, s)
  }

  /**
   Every interleaving: it never panics, never gets stuck before the call
   returns, takes the same number of steps, and returns the kibibytes of all
   non-link files.
   */
  lemma {:induction false} EveryRun(root: Entry, run: seq<Action>, s: State)
    requires Reaches(root, run, s)
    ensures Inv(SumBytes(root.Listed()), s) && !Panics(s)
    ensures |run| + StepsLeft(s) == DirWork(root) + 3
    ensures s.result.None? ==> exists a :: Enabled(s, a)
    ensures s.result.Some? ==> s.result.value == SumBytes(root.Listed()) / 1024
  {
    var total := SumBytes(root.Listed());
    if run == [] {
      InitInv(root);
      DirWorkExact(root);
      SumAppend([], Waiting(root), Work);
      assert [] + [Waiting(root)] == [Waiting(root)];
    } else {
      var n := |run| - 1;
      var r :| Reaches(root, run[..n], r) && StepsTo(r, run[n], s);
      EveryRun(root, run[..n], r);
      StepKeepsInv(total, r, run[n]);
      StepCounts(r, run[n]);
    }
    NoPanic(total, s);
    if s.result.None? {
      var a := Progress(total, s);
    } else {
      ClosedAfterLastSend(total, s);
    }
  }

  /** A run is over exactly when the call has returned. */
  lemma RunEnds(root: Entry, run: seq<Action>, s: State)
    requires Reaches(root, run, s)
    ensures (s.result.Some? && s.closer == Finished) <==> (forall a :: !Enabled(s, a))
  {
    EveryRun(root, run, s);
    if s.result.Some? {
      ClosedAfterLastSend(SumBytes(root.Listed()), s);
      forall a
        ensures !Enabled(s, a)
      {
      }
    }
  }

  /** A path that leads to e over n links. */
  function Chain(n: nat, e: Entry): Entry {
    if n == 0 then e else Link(Some(Chain(n - 1, e)))
  }

  /** Following any number of links to a directory lists its entries; anything else lists nothing. */
  lemma {:induction false} LinksAreFollowed(n: nat, e: Entry)
    requires e.Link? ==> e.target.None?
    ensures Chain(n, e).Listed() == (match e case Dir(entries) => entries case _ => [])
    ensures Chain(n, e).Exists() <==> !e.Link?
  {
    if n > 0 {
      LinksAreFollowed(n - 1, e);
    }
  }

  /** Every path is such a chain. */
  lemma {:induction false} EveryPathIsChain(path: Entry) returns (n: nat, e: Entry)
    ensures path == Chain(n, e) && (e.Link? ==> e.target.None?)
  {
    if path.Link? && path.target.Some? {
      n, e := EveryPathIsChain(path.target.value);
      n := n + 1;
    } else {
      n, e := 0, path;
    }
  }

  /** In every run at most ten walkers are past their token, and only a tenth makes the others wait. */
  lemma TenAtATime(total: nat, s: State, i: nat)
    requires Inv(total, s) && i < |s.walkers| && s.walkers[i].Waiting?
    ensures Sum(s.walkers, Tokens) <= 10
    ensures Enabled(s, TakeToken(i)) <==> Sum(s.walkers, Tokens) < 10
  {
  }

  /** An entry that cannot be followed to a directory lists nothing. */
  lemma {:induction false} MissingIsEmpty(e: Entry)
    requires !e.Exists()
    ensures e.Listed() == []
  {
    if e.target.Some? {
      MissingIsEmpty(e.target.value);
    }
  }

  /** GetDirSize under an arbitrary scheduler; None is a path without an entry. */
  method GetDirSize(path: Option<Entry>, pick: (nat, State) -> Action) returns (kb: nat)
    requires forall n: nat, s :: (exists a :: Enabled(s, a)) ==> Enabled(s, pick(n, s))
    ensures kb == if path.Some? then SumBytes(path.value.Listed()) / 1024 else 0
  {
    if path.None? {
      return 0;
    }
    var root := path.value;
    if !root.Exists() {
      MissingIsEmpty(root);
      return 0;
    }
    var s, n := Init(root), 0;
    ghost var run: seq<Action> := [];
    while s.result.None?
      invariant Reaches(root, run, s) && 0 <= n
      decreases StepsLeft(s)
    {
      EveryRun(root, run, s);
      var a := pick(n, s);
      StepCounts(s, a);
      ghost var longer := run + [a];
      assert longer[..|run|] == run && longer[|longer| - 1] == a;
      assert StepsTo(s, a, Next(s, a));
      run, s, n := longer, Next(s, a), n + 1;
    }
    EveryRun(root, run, s);
    kb := s.result.value;
  }
}
