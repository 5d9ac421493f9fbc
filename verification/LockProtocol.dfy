/** The re-entrant catalog locks: read, write and sqlite guards over the shared and sqlite
    mutexes of one system catalog (index 0) and any number of catalogs, taken by any number of
    threads, one shared-memory access per step. */
module LockProtocol {
  import opened Options

  datatype Kind = Read | Write | Sqlite

  /** A guard object. `ownsShared` says that it locked the catalog's shared mutex (for a sqlite
      guard: through the read guard inside it), `ownsSqlite` that it locked the sqlite mutex. */
  datatype Guard = Guard(kind: Kind, cat: nat, ownsShared: bool, ownsSqlite: bool)

  /** A thread's program: construct a guard, or destroy the innermost one. */
  datatype Action = Enter(kind: Kind, cat: nat) | Leave

  datatype Phase =
    | Idle
    | ReadCheck | ReadAcquire | ReadMark
    | WriteCheck | WriteAcquire | WriteMark
    | SqlCheck | SqlAcquire | SqlMark
    | SqlClear | SqlRelease | ReadClear | ReadRelease | WriteClear | WriteRelease

  /** Outside `Idle` the guard on top of the stack is being constructed or destroyed. The two
      flags are the thread-local thread_holds_read_lock of the two catalog classes. */
  datatype Thread = Thread(prog: seq<Action>, stack: seq<Guard>, phase: Phase, readSys: bool, readCat: bool)

  /** The mutexes of a catalog and its thread_holding_write_lock and thread_holding_sqlite_lock. */
  datatype Catalog = Catalog(writer: Option<nat>, readers: set<nat>, sqlite: Option<nat>,
                             writeFlag: Option<nat>, sqlFlag: Option<nat>)

  /** `fair`: a waiting writer keeps new readers out, as the mutex implementation may decide. */
  datatype State = State(threads: seq<Thread>, cats: seq<Catalog>, fair: bool)

  // ---------------------------------------------------------------- what a thread's guards hold

  function Cats(gs: seq<Guard>): set<nat> {
    if gs == [] then {} else Cats(Below(gs)) + {Top(gs).cat}
  }

  function SqlCats(gs: seq<Guard>): set<nat> {
    if gs == [] then {} else SqlCats(Below(gs)) + (if Top(gs).kind.Sqlite? then {Top(gs).cat} else {})
  }

  function Reads(gs: seq<Guard>): set<nat> {
    if gs == [] then {} else
    Reads(Below(gs)) + (if Top(gs).ownsShared && !Top(gs).kind.Write? then {Top(gs).cat} else {})
  }

  function Writes(gs: seq<Guard>): set<nat> {
    if gs == [] then {} else
    Writes(Below(gs)) + (if Top(gs).ownsShared && Top(gs).kind.Write? then {Top(gs).cat} else {})
  }

  function Sqls(gs: seq<Guard>): set<nat> {
    if gs == [] then {} else Sqls(Below(gs)) + (if Top(gs).ownsSqlite then {Top(gs).cat} else {})
  }

  function Top(gs: seq<Guard>): Guard
    requires gs != []
  {
    gs[|gs| - 1]
  }

  function Below(gs: seq<Guard>): seq<Guard>
    requires gs != []
  {
    gs[..|gs| - 1]
  }

  // ---------------------------------------------------------------- the steps

  function Finished(th: Thread): bool {
    th.phase.Idle? && th.prog == []
  }

  /** Whether thread t can take its next step; only the three acquisitions can block. */
  ghost predicate Enabled(s: State, t: nat) {
    && t < |s.threads|
    && var th := s.threads[t];
       && !Finished(th)
       && (th.phase.Idle? ==> th.prog[0].Leave? ==> th.stack != [])
       && (!th.phase.Idle? ==> th.stack != [] && Top(th.stack).cat < |s.cats|)
       && (th.phase.ReadAcquire? || th.phase.WriteAcquire? || th.phase.SqlAcquire? ==> Free(s, th))
  }

  /** The mutex a waiting thread asks for can be taken. */
  ghost predicate Free(s: State, th: Thread)
    requires th.stack != [] && Top(th.stack).cat < |s.cats|
  {
    var c := Top(th.stack).cat;
    var cat := s.cats[c];
    match th.phase
    case ReadAcquire => cat.writer.None? && (s.fair ==> !WriterWaits(s, c))
    case WriteAcquire => cat.writer.None? && cat.readers == {}
    case SqlAcquire => cat.sqlite.None?
    case _ => true
  }

  ghost predicate WriterWaits(s: State, c: nat) {
    exists u | 0 <= u < |s.threads| ::
      s.threads[u].phase.WriteAcquire? && s.threads[u].stack != [] && Top(s.threads[u].stack).cat == c
  }

  function ReadFlag(th: Thread, c: nat): bool {
    if c == 0 then th.readSys else th.readCat
  }

  function WithReadFlag(th: Thread, c: nat, on: bool): Thread {
    if c == 0 then th.(readSys := on) else th.(readCat := on)
  }

  function WithTop(th: Thread, g: Guard): Thread
    requires th.stack != []
  {
    th.(stack := Below(th.stack) + [g])
  }

  /** The read guard is constructed; a sqlite guard goes on to its own mutex. */
  function ReadDone(th: Thread): Thread
    requires th.stack != []
  {
    th.(phase := if Top(th.stack).kind.Sqlite? then SqlCheck else Idle)
  }

  /** The first thing the destructor has to undo, or the guard is gone. */
  function Unlock(th: Thread): Thread
    requires th.stack != []
  {
    var g := Top(th.stack);
    if g.ownsSqlite then th.(phase := SqlClear)
    else if g.ownsShared then th.(phase := if g.kind.Write? then WriteClear else ReadClear)
    else th.(phase := Idle, stack := Below(th.stack))
  }

  /** One step of thread t: its own new state, and the new state of the catalog it touches. */
  function StepThread(th: Thread, t: nat, cat: Catalog): (r: (Thread, Catalog))
    requires !th.phase.Idle? && th.stack != []
  {
    var g := Top(th.stack);
    match th.phase
    case Idle => (th, cat)
    case ReadCheck =>
      if cat.writeFlag != Some(t) && !ReadFlag(th, g.cat) then (th.(phase := ReadAcquire), cat)
      else (ReadDone(th), cat)
    case ReadAcquire =>
      (WithTop(th, g.(ownsShared := true)).(phase := ReadMark), cat.(readers := cat.readers + {t}))
    case ReadMark => (ReadDone(WithReadFlag(th, g.cat, true)), cat)
    case WriteCheck => (th.(phase := if cat.writeFlag != Some(t) then WriteAcquire else Idle), cat)
    case WriteAcquire =>
      (WithTop(th, g.(ownsShared := true)).(phase := WriteMark), cat.(writer := Some(t)))
    case WriteMark => (th.(phase := Idle), cat.(writeFlag := Some(t)))
    case SqlCheck => (th.(phase := if cat.sqlFlag != Some(t) then SqlAcquire else Idle), cat)
    case SqlAcquire =>
      (WithTop(th, g.(ownsSqlite := true)).(phase := SqlMark), cat.(sqlite := Some(t)))
    case SqlMark => (th.(phase := Idle), cat.(sqlFlag := Some(t)))
    case SqlClear => (th.(phase := SqlRelease), cat.(sqlFlag := None))
    case SqlRelease => (Unlock(WithTop(th, g.(ownsSqlite := false))), cat.(sqlite := None))
    case ReadClear => (WithReadFlag(th, g.cat, false).(phase := ReadRelease), cat)
    case ReadRelease =>
      (Unlock(WithTop(th, g.(ownsShared := false))), cat.(readers := cat.readers - {t}))
    case WriteClear => (th.(phase := WriteRelease), cat.(writeFlag := None))
    case WriteRelease => (Unlock(WithTop(th, g.(ownsShared := false))), cat.(writer := None))
  }

  /** An idle thread starts on its next action. */
  function StartAction(th: Thread): Thread
    requires th.phase.Idle? && th.prog != [] && (th.prog[0].Leave? ==> th.stack != [])
  {
    match th.prog[0]
    case Enter(k, c) =>
      th.(prog := th.prog[1..], stack := th.stack + [Guard(k, c, false, false)],
          phase := if k.Write? then WriteCheck else ReadCheck)
    case Leave => Unlock(th.(prog := th.prog[1..]))
  }

  ghost function Step(s: State, t: nat): State
    requires Enabled(s, t)
  {
    var th := s.threads[t];
    if th.phase.Idle? then s.(threads := s.threads[t := StartAction(th)])
    else
      var c := Top(th.stack).cat;
      var (th', cat') := StepThread(th, t, s.cats[c]);
      s.(threads := s.threads[t := th'], cats := s.cats[c := cat'])
  }

  /** Threads take steps in the order of the schedule; a blocked thread waits. */
  ghost function Run(s: State, schedule: seq<nat>): State {
    if schedule == [] then s
    else
      var r := Run(s, schedule[..|schedule| - 1]);
      var t := schedule[|schedule| - 1];
      if Enabled(r, t) then Step(r, t) else r
  }

  // ---------------------------------------------------------------- what is asked of the programs

  /** With the guards gs held: no write lock on top of a mere read lock, one catalog at a time,
      and no system catalog lock taken once a catalog is locked. */
  predicate Permitted(gs: seq<Guard>, k: Kind, c: nat) {
    && (k.Write? ==> c !in Cats(gs) || c in Writes(gs))
    && (c != 0 ==> Cats(gs) <= {0, c})
    && (c == 0 && !(Cats(gs) <= {0}) ==> 0 in Cats(gs) && (k.Sqlite? ==> 0 in SqlCats(gs)))
  }

  /** The guard as it is once constructed on top of gs: the outermost guard of a catalog owns its
      shared mutex, the outermost sqlite guard its sqlite mutex. */
  function Constructed(gs: seq<Guard>, k: Kind, c: nat): Guard {
    Guard(k, c, c !in Cats(gs), k.Sqlite? && c !in SqlCats(gs))
  }

  /** A program that keeps to the rules, starting with the guards gs, and leaves none behind. */
  predicate Disciplined(n: nat, gs: seq<Guard>, prog: seq<Action>)
    decreases |prog|
  {
    if prog == [] then gs == []
    else match prog[0]
      case Enter(k, c) =>
        c < n && Permitted(gs, k, c) && Disciplined(n, gs + [Constructed(gs, k, c)], prog[1..])
      case Leave => gs != [] && Disciplined(n, Below(gs), prog[1..])
  }

  /** Guards constructed one after another under the rules. */
  predicate Built(n: nat, gs: seq<Guard>) {
    gs == [] ||
    (Built(n, Below(gs)) && Top(gs).cat < n && Permitted(Below(gs), Top(gs).kind, Top(gs).cat) &&
     Top(gs) == Constructed(Below(gs), Top(gs).kind, Top(gs).cat))
  }

  // ---------------------------------------------------------------- the invariant

  /** A thread on its own: its guards and program, and what its phase says about the top guard. */
  ghost predicate ThreadOk(n: nat, th: Thread) {
    if th.phase.Idle? then Built(n, th.stack) && Disciplined(n, th.stack, th.prog)
    else
      && th.stack != []
      && var b, g := Below(th.stack), Top(th.stack);
         && Built(n, b) && g.cat < n && Permitted(b, g.kind, g.cat)
         && Disciplined(n, if Entering(th.phase) then b + [Constructed(b, g.kind, g.cat)] else b, th.prog)
         && PhaseOk(th.phase, b, g)
  }

  predicate Entering(p: Phase) {
    || p.ReadCheck? || p.ReadAcquire? || p.ReadMark? || p.WriteCheck? || p.WriteAcquire? || p.WriteMark?
    || p.SqlCheck? || p.SqlAcquire? || p.SqlMark?
  }

  predicate PhaseOk(p: Phase, b: seq<Guard>, g: Guard)
    requires !p.Idle?
  {
    var outer := g.cat !in Cats(b);
    match p
    case ReadCheck => !g.kind.Write? && !g.ownsShared && !g.ownsSqlite
    case ReadAcquire => !g.kind.Write? && !g.ownsShared && !g.ownsSqlite && outer
    case ReadMark => !g.kind.Write? && g.ownsShared && !g.ownsSqlite && outer
    case WriteCheck => g.kind.Write? && !g.ownsShared && !g.ownsSqlite
    case WriteAcquire => g.kind.Write? && !g.ownsShared && !g.ownsSqlite && outer
    case WriteMark => g.kind.Write? && g.ownsShared && !g.ownsSqlite && outer
    case SqlCheck => g.kind.Sqlite? && g.ownsShared == outer && !g.ownsSqlite
    case SqlAcquire => g.kind.Sqlite? && g.ownsShared == outer && !g.ownsSqlite && g.cat !in SqlCats(b)
    case SqlMark => g.kind.Sqlite? && g.ownsShared == outer && g.ownsSqlite && g.cat !in SqlCats(b)
    case SqlClear => g.kind.Sqlite? && g.ownsShared == outer && g.ownsSqlite && g.cat !in SqlCats(b)
    case SqlRelease => g.kind.Sqlite? && g.ownsShared == outer && g.ownsSqlite && g.cat !in SqlCats(b)
    case ReadClear => !g.kind.Write? && g.ownsShared && !g.ownsSqlite && outer
    case ReadRelease => !g.kind.Write? && g.ownsShared && !g.ownsSqlite && outer
    case WriteClear => g.kind.Write? && g.ownsShared && !g.ownsSqlite && outer
    case WriteRelease => g.kind.Write? && g.ownsShared && !g.ownsSqlite && outer
  }

  /** The locks a thread's flags announce: set after acquiring, cleared before releasing. */
  function MarkedReads(th: Thread): set<nat> {
    if (th.phase.ReadMark? || th.phase.ReadRelease?) && th.stack != [] then Reads(Below(th.stack)) else Reads(th.stack)
  }

  function MarkedWrites(th: Thread): set<nat> {
    if (th.phase.WriteMark? || th.phase.WriteRelease?) && th.stack != [] then Writes(Below(th.stack))
    else Writes(th.stack)
  }

  function MarkedSqls(th: Thread): set<nat> {
    if (th.phase.SqlMark? || th.phase.SqlRelease?) && th.stack != [] then Sqls(Below(th.stack)) else Sqls(th.stack)
  }

  ghost predicate FlagsOk(th: Thread) {
    && (th.readSys <==> 0 in MarkedReads(th))
    && (th.readCat <==> !(MarkedReads(th) <= {0}))
  }

  /** Readers and a writer exclude each other; a flag names the owner of its mutex. */
  ghost predicate MutexOk(cat: Catalog) {
    && (cat.writer.Some? ==> cat.readers == {})
    && (cat.writeFlag.Some? ==> cat.writeFlag == cat.writer)
    && (cat.sqlFlag.Some? ==> cat.sqlFlag == cat.sqlite)
  }

  /** The catalog's view of thread t agrees with the thread's. */
  ghost predicate Agree(th: Thread, t: nat, cat: Catalog, c: nat) {
    && (t in cat.readers <==> c in Reads(th.stack))
    && (cat.writer == Some(t) <==> c in Writes(th.stack))
    && (cat.sqlite == Some(t) <==> c in Sqls(th.stack))
    && (cat.writeFlag == Some(t) <==> c in MarkedWrites(th))
    && (cat.sqlFlag == Some(t) <==> c in MarkedSqls(th))
  }

  /** Locks are owned by threads of this run. */
  ghost predicate OwnersExist(cat: Catalog, m: nat) {
    && (forall t | t in cat.readers :: t < m)
    && (cat.writer.Some? ==> cat.writer.value < m)
    && (cat.sqlite.Some? ==> cat.sqlite.value < m)
  }

  /** The mutexes and flags of catalog c are what the threads hold and announce. */
  ghost predicate CatalogOk(s: State, c: nat)
    requires c < |s.cats|
  {
    && MutexOk(s.cats[c]) && OwnersExist(s.cats[c], |s.threads|)
    && forall t | 0 <= t < |s.threads| :: Agree(s.threads[t], t, s.cats[c], c)
  }

  ghost predicate Inv(s: State) {
    && (forall t | 0 <= t < |s.threads| :: ThreadOk(|s.cats|, s.threads[t]) && FlagsOk(s.threads[t]))
    && (forall c | 0 <= c < |s.cats| :: CatalogOk(s, c))
  }

  const NOBODY := Catalog(None, {}, None, None, None)

  /** Every thread about to start a disciplined program, nothing locked. */
  ghost predicate Initial(s: State) {
    && (forall t | 0 <= t < |s.threads| ::
          var th := s.threads[t];
          th.stack == [] && th.phase.Idle? && !th.readSys && !th.readCat && Disciplined(|s.cats|, [], th.prog))
    && (forall c | 0 <= c < |s.cats| :: s.cats[c] == NOBODY)
  }

  lemma InitialIsInv(s: State)
    requires Initial(s)
    ensures Inv(s)
  {
  }

  // ---------------------------------------------------------------- guards constructed in order

  /** What one more guard on top adds. */
  lemma OneMore(n: nat, b: seq<Guard>, g: Guard)
    ensures Below(b + [g]) == b && Top(b + [g]) == g
    ensures Cats(b + [g]) == Cats(b) + {g.cat}
    ensures SqlCats(b + [g]) == SqlCats(b) + if g.kind.Sqlite? then {g.cat} else {}
    ensures Reads(b + [g]) == Reads(b) + if g.ownsShared && !g.kind.Write? then {g.cat} else {}
    ensures Writes(b + [g]) == Writes(b) + if g.ownsShared && g.kind.Write? then {g.cat} else {}
    ensures Sqls(b + [g]) == Sqls(b) + if g.ownsSqlite then {g.cat} else {}
    ensures Built(n, b + [g]) <==> Built(n, b) && g.cat < n && Permitted(b, g.kind, g.cat) &&
                                   g == Constructed(b, g.kind, g.cat)
  {
  }

  lemma Repushed(gs: seq<Guard>)
    requires gs != []
    ensures gs == Below(gs) + [Top(gs)]
  {
  }

  /** Every catalog a thread has a guard for is locked by it, for reading or for writing, and at
      most one of these catalogs is not the system catalog. */
  lemma {:induction false} BuiltFacts(n: nat, gs: seq<Guard>)
    requires Built(n, gs)
    ensures Reads(gs) + Writes(gs) == Cats(gs) && Reads(gs) !! Writes(gs)
    ensures Sqls(gs) == SqlCats(gs) <= Cats(gs)
    ensures forall c | c in Cats(gs) :: c < n
    ensures forall c, d | c in Cats(gs) && d in Cats(gs) && c != 0 && d != 0 :: c == d
    decreases |gs|
  {
    if gs != [] {
      BuiltFacts(n, Below(gs));
    }
  }

  // ---------------------------------------------------------------- one thread and its catalog

  /** The two states of a thread hold and announce the same locks on d. */
  ghost predicate SameOn(th: Thread, th': Thread, d: nat) {
    && (d in Reads(th.stack) <==> d in Reads(th'.stack))
    && (d in Writes(th.stack) <==> d in Writes(th'.stack))
    && (d in Sqls(th.stack) <==> d in Sqls(th'.stack))
    && (d in MarkedWrites(th) <==> d in MarkedWrites(th'))
    && (d in MarkedSqls(th) <==> d in MarkedSqls(th'))
  }

  /** A thread's test of its own flags is accurate. */
  lemma OwnTestsAreAccurate(n: nat, th: Thread, t: nat, cat: Catalog)
    requires ThreadOk(n, th) && FlagsOk(th) && !th.phase.Idle? && Agree(th, t, cat, Top(th.stack).cat)
    ensures var b, c := Below(th.stack), Top(th.stack).cat;
            && (th.phase.ReadCheck? ==> (cat.writeFlag == Some(t) || ReadFlag(th, c) <==> c in Cats(b)))
            && (th.phase.WriteCheck? ==> (cat.writeFlag == Some(t) <==> c in Cats(b)))
            && (th.phase.SqlCheck? ==> (cat.sqlFlag == Some(t) <==> c in SqlCats(b)))
  {
    BuiltFacts(n, Below(th.stack));
  }

  ghost predicate Sound(n: nat, th: Thread, t: nat, cat: Catalog) {
    ThreadOk(n, th) && FlagsOk(th) && !th.phase.Idle? && Agree(th, t, cat, Top(th.stack).cat)
  }

  /** After the step the thread is in order, agrees with its catalog c, and no other lock changed. */
  ghost predicate Lands(n: nat, th: Thread, t: nat, c: nat, r: (Thread, Catalog)) {
    ThreadOk(n, r.0) && FlagsOk(r.0) && Agree(r.0, t, r.1, c) && forall d | d != c :: SameOn(th, r.0, d)
  }

  lemma CheckLands(n: nat, th: Thread, t: nat, cat: Catalog)
    requires Sound(n, th, t, cat) && (th.phase.ReadCheck? || th.phase.WriteCheck? || th.phase.SqlCheck?)
    ensures Lands(n, th, t, Top(th.stack).cat, StepThread(th, t, cat))
  {
    hide Cats, SqlCats, Reads, Writes, Sqls, Built, Disciplined;
    OwnTestsAreAccurate(n, th, t, cat);
    BuiltFacts(n, Below(th.stack));
    Repushed(th.stack);
    OneMore(n, Below(th.stack), Top(th.stack));
  }

  lemma AcquireLands(n: nat, th: Thread, t: nat, cat: Catalog)
    requires Sound(n, th, t, cat) && (th.phase.ReadAcquire? || th.phase.WriteAcquire? || th.phase.SqlAcquire?)
    ensures Lands(n, th, t, Top(th.stack).cat, StepThread(th, t, cat))
  {
    hide Cats, SqlCats, Reads, Writes, Sqls, Built, Disciplined;
    BuiltFacts(n, Below(th.stack));
    Repushed(th.stack);
    OneMore(n, Below(th.stack), Top(th.stack));
    OneMore(n, Below(th.stack), Top(th.stack).(ownsShared := true));
    OneMore(n, Below(th.stack), Top(th.stack).(ownsSqlite := true));
  }

  lemma MarkLands(n: nat, th: Thread, t: nat, cat: Catalog)
    requires Sound(n, th, t, cat) && (th.phase.ReadMark? || th.phase.WriteMark? || th.phase.SqlMark?)
    ensures Lands(n, th, t, Top(th.stack).cat, StepThread(th, t, cat))
  {
    hide Cats, SqlCats, Reads, Writes, Sqls, Built, Disciplined;
    BuiltFacts(n, Below(th.stack));
    Repushed(th.stack);
    OneMore(n, Below(th.stack), Top(th.stack));
  }

  lemma ClearLands(n: nat, th: Thread, t: nat, cat: Catalog)
    requires Sound(n, th, t, cat) && (th.phase.ReadClear? || th.phase.WriteClear? || th.phase.SqlClear?)
    ensures Lands(n, th, t, Top(th.stack).cat, StepThread(th, t, cat))
  {
    hide Cats, SqlCats, Reads, Writes, Sqls, Built, Disciplined;
    BuiltFacts(n, Below(th.stack));
    Repushed(th.stack);
    OneMore(n, Below(th.stack), Top(th.stack));
  }

  lemma ReleaseLands(n: nat, th: Thread, t: nat, cat: Catalog)
    requires Sound(n, th, t, cat) && (th.phase.ReadRelease? || th.phase.WriteRelease? || th.phase.SqlRelease?)
    ensures Lands(n, th, t, Top(th.stack).cat, StepThread(th, t, cat))
  {
    hide Cats, SqlCats, Reads, Writes, Sqls, Built, Disciplined;
    BuiltFacts(n, Below(th.stack));
    Repushed(th.stack);
    OneMore(n, Below(th.stack), Top(th.stack));
    OneMore(n, Below(th.stack), Top(th.stack).(ownsShared := false));
    OneMore(n, Below(th.stack), Top(th.stack).(ownsSqlite := false));
  }

  lemma StepLands(n: nat, th: Thread, t: nat, cat: Catalog)
    requires Sound(n, th, t, cat)
    ensures Lands(n, th, t, Top(th.stack).cat, StepThread(th, t, cat))
  {
    hide ThreadOk, FlagsOk, Agree, Lands, StepThread;
    var p := th.phase;
    if p.ReadCheck? || p.WriteCheck? || p.SqlCheck? { CheckLands(n, th, t, cat); }
    else if p.ReadAcquire? || p.WriteAcquire? || p.SqlAcquire? { AcquireLands(n, th, t, cat); }
    else if p.ReadMark? || p.WriteMark? || p.SqlMark? { MarkLands(n, th, t, cat); }
    else if p.ReadClear? || p.WriteClear? || p.SqlClear? { ClearLands(n, th, t, cat); }
    else { ReleaseLands(n, th, t, cat); }
  }

  lemma NextAction(n: nat, gs: seq<Guard>, prog: seq<Action>)
    requires Disciplined(n, gs, prog) && prog != []
    ensures match prog[0]
            case Enter(k, c) =>
              c < n && Permitted(gs, k, c) && Disciplined(n, gs + [Constructed(gs, k, c)], prog[1..])
            case Leave => gs != [] && Disciplined(n, Below(gs), prog[1..])
  {
  }

  lemma EnterLands(n: nat, th: Thread)
    requires ThreadOk(n, th) && FlagsOk(th) && th.phase.Idle? && th.prog != [] && th.prog[0].Enter?
    ensures ThreadOk(n, StartAction(th)) && FlagsOk(StartAction(th)) && forall d :: SameOn(th, StartAction(th), d)
  {
  }

  lemma LeaveKeepsFlags(n: nat, th: Thread)
    requires ThreadOk(n, th) && FlagsOk(th) && th.phase.Idle? && th.prog != [] && th.prog[0].Leave? && th.stack != []
    ensures FlagsOk(StartAction(th)) && forall d :: SameOn(th, StartAction(th), d)
  {
  }

  lemma LeaveLands(n: nat, th: Thread)
    requires ThreadOk(n, th) && FlagsOk(th) && th.phase.Idle? && th.prog != [] && th.prog[0].Leave?
    ensures th.stack != []
    ensures ThreadOk(n, StartAction(th)) && FlagsOk(StartAction(th)) && forall d :: SameOn(th, StartAction(th), d)
  {
    hide Cats, SqlCats, Reads, Writes, Sqls, Built, Disciplined, FlagsOk, SameOn;
    NextAction(n, th.stack, th.prog);
    LeaveKeepsFlags(n, th);
    Repushed(th.stack);
    OneMore(n, Below(th.stack), Top(th.stack));
  }

  // ---------------------------------------------------------------- all threads

  /** A step leaves what the catalog says about the other threads as it was. */
  ghost predicate OthersSame(cat: Catalog, cat': Catalog, t: nat) {
    && (forall u | u != t :: u in cat'.readers <==> u in cat.readers)
    && (forall u | u != t :: cat'.writer == Some(u) <==> cat.writer == Some(u))
    && (forall u | u != t :: cat'.sqlite == Some(u) <==> cat.sqlite == Some(u))
    && (forall u | u != t :: cat'.writeFlag == Some(u) <==> cat.writeFlag == Some(u))
    && (forall u | u != t :: cat'.sqlFlag == Some(u) <==> cat.sqlFlag == Some(u))
  }

  lemma StepKeepsMutex(n: nat, th: Thread, t: nat, cat: Catalog)
    requires Sound(n, th, t, cat) && MutexOk(cat)
    requires th.phase.ReadAcquire? ==> cat.writer.None?
    requires th.phase.WriteAcquire? ==> cat.writer.None? && cat.readers == {}
    requires th.phase.SqlAcquire? ==> cat.sqlite.None?
    ensures var cat' := StepThread(th, t, cat).1; MutexOk(cat') && OthersSame(cat, cat', t)
  {
    hide Cats, SqlCats, Reads, Writes, Sqls, Built, Disciplined;
    BuiltFacts(n, Below(th.stack));
    Repushed(th.stack);
    OneMore(n, Below(th.stack), Top(th.stack));
  }

  lemma AgreeAfter(th: Thread, u: nat, cat: Catalog, cat': Catalog, c: nat, t: nat)
    requires Agree(th, u, cat, c) && OthersSame(cat, cat', t) && u != t
    ensures Agree(th, u, cat', c)
  {
  }

  lemma InvAt(s: State, t: nat, c: nat)
    requires Inv(s) && t < |s.threads| && c < |s.cats|
    ensures ThreadOk(|s.cats|, s.threads[t]) && FlagsOk(s.threads[t])
    ensures MutexOk(s.cats[c]) && OwnersExist(s.cats[c], |s.threads|) && Agree(s.threads[t], t, s.cats[c], c)
  {
    assert CatalogOk(s, c);
  }

  lemma OwnersStay(cat: Catalog, cat': Catalog, t: nat, m: nat)
    requires OwnersExist(cat, m) && OthersSame(cat, cat', t) && t < m
    ensures OwnersExist(cat', m)
  {
  }

  lemma StepKeepsCatalog(s: State, t: nat)
    requires Inv(s) && Enabled(s, t) && !s.threads[t].phase.Idle?
    ensures CatalogOk(Step(s, t), Top(s.threads[t].stack).cat)
    ensures Lands(|s.cats|, s.threads[t], t, Top(s.threads[t].stack).cat,
                  StepThread(s.threads[t], t, s.cats[Top(s.threads[t].stack).cat]))
  {
    hide Inv, ThreadOk, FlagsOk, Agree, MutexOk, OwnersExist, OthersSame, StepThread, StartAction, WriterWaits;
    var n, th := |s.cats|, s.threads[t];
    var c := Top(th.stack).cat;
    var cat := s.cats[c];
    InvAt(s, t, c);
    StepLands(n, th, t, cat);
    StepKeepsMutex(n, th, t, cat);
    var cat' := StepThread(th, t, cat).1;
    OwnersStay(cat, cat', t, |s.threads|);
    forall u | 0 <= u < |s.threads| && u != t ensures Agree(s.threads[u], u, cat', c) {
      InvAt(s, u, c);
      AgreeAfter(s.threads[u], u, cat, cat', c, t);
    }
  }

  lemma SameAgrees(th: Thread, th': Thread, t: nat, cat: Catalog, c: nat)
    requires Agree(th, t, cat, c) && SameOn(th, th', c)
    ensures Agree(th', t, cat, c)
  {
  }

  /** Every step of every thread keeps the invariant. */
  lemma StepKeepsInv(s: State, t: nat)
    requires Inv(s) && Enabled(s, t)
    ensures Inv(Step(s, t)) && |Step(s, t).threads| == |s.threads| && |Step(s, t).cats| == |s.cats|
  {
    hide ThreadOk, FlagsOk, Agree, MutexOk, OwnersExist, StepThread, StartAction, Free, SameOn;
    var n, th, s' := |s.cats|, s.threads[t], Step(s, t);
    if th.phase.Idle? {
      if th.prog[0].Enter? { EnterLands(n, th); } else { LeaveLands(n, th); }
    } else {
      StepKeepsCatalog(s, t);
    }
    forall d | 0 <= d < n ensures CatalogOk(s', d) {
      if th.phase.Idle? || d != Top(th.stack).cat {
        forall u | 0 <= u < |s.threads| ensures Agree(s'.threads[u], u, s'.cats[d], d) {
          InvAt(s, u, d);
          if u == t { SameAgrees(th, s'.threads[t], t, s.cats[d], d); }
        }
        assert CatalogOk(s, d);
      }
    }
  }

  lemma {:induction false} RunKeepsInv(s: State, schedule: seq<nat>)
    requires Inv(s)
    ensures Inv(Run(s, schedule))
    decreases |schedule|
  {
    if schedule != [] {
      var r, t := Run(s, schedule[..|schedule| - 1]), schedule[|schedule| - 1];
      RunKeepsInv(s, schedule[..|schedule| - 1]);
      if Enabled(r, t) { StepKeepsInv(r, t); }
    }
  }

  // ---------------------------------------------------------------- safety

  /** A writer excludes every other reader and writer of its catalog, the sqlite lock has one owner,
      and that owner also has the catalog locked. */
  ghost predicate Exclusive(s: State) {
    && (forall t, u, c | 0 <= t < |s.threads| && 0 <= u < |s.threads| && t != u && c in Writes(s.threads[t].stack) ::
          c !in Reads(s.threads[u].stack) && c !in Writes(s.threads[u].stack))
    && (forall t, u, c | 0 <= t < |s.threads| && 0 <= u < |s.threads| && t != u && c in Sqls(s.threads[t].stack) ::
          c !in Sqls(s.threads[u].stack))
    && (forall t, c | 0 <= t < |s.threads| && c in Sqls(s.threads[t].stack) ::
          c in Reads(s.threads[t].stack) + Writes(s.threads[t].stack))
  }

  /** What thread t is about to read from its flags tells whether it has the lock already. */
  ghost predicate TestIsAccurate(s: State, t: nat)
    requires t < |s.threads|
  {
    var th := s.threads[t];
    !th.phase.Idle? ==>
      && th.stack != [] && Top(th.stack).cat < |s.cats|
      && var b, c := Below(th.stack), Top(th.stack).cat;
         var cat := s.cats[c];
         && (th.phase.ReadCheck? ==> (cat.writeFlag == Some(t) || ReadFlag(th, c) <==> c in Reads(b) + Writes(b)))
         && (th.phase.WriteCheck? ==> (cat.writeFlag == Some(t) <==> c in Writes(b)))
         && (th.phase.SqlCheck? ==> (cat.sqlFlag == Some(t) <==> c in Sqls(b)))
  }

  predicate Outermost(gs: seq<Guard>, i: nat)
    requires i < |gs|
  {
    forall j | 0 <= j < i :: gs[j].cat != gs[i].cat
  }

  predicate OutermostSqlite(gs: seq<Guard>, i: nat)
    requires i < |gs|
  {
    gs[i].kind.Sqlite? && forall j | 0 <= j < i :: gs[j].kind.Sqlite? ==> gs[j].cat != gs[i].cat
  }

  /** Exactly the outermost guards own their mutexes; the guard that is being constructed or
      destroyed owns one only if it is outermost. */
  predicate OutermostOwn(th: Thread) {
    forall i | 0 <= i < |th.stack| ::
      && (th.stack[i].ownsShared ==> Outermost(th.stack, i))
      && (th.stack[i].ownsSqlite ==> OutermostSqlite(th.stack, i))
      && (th.phase.Idle? || i < |th.stack| - 1 ==>
            && (Outermost(th.stack, i) ==> th.stack[i].ownsShared)
            && (OutermostSqlite(th.stack, i) ==> th.stack[i].ownsSqlite))
  }

  ghost predicate Safe(s: State) {
    Exclusive(s) && forall t | 0 <= t < |s.threads| :: TestIsAccurate(s, t) && OutermostOwn(s.threads[t])
  }

  lemma HeldFacts(n: nat, th: Thread)
    requires ThreadOk(n, th)
    ensures Sqls(th.stack) <= Reads(th.stack) + Writes(th.stack)
    ensures forall c | c in Reads(th.stack) + Writes(th.stack) :: c < n
  {
    if th.phase.Idle? {
      BuiltFacts(n, th.stack);
    } else {
      hide Cats, SqlCats, Reads, Writes, Sqls, Built, Disciplined;
      BuiltFacts(n, Below(th.stack));
      Repushed(th.stack);
      OneMore(n, Below(th.stack), Top(th.stack));
    }
  }

  lemma InvIsExclusive(s: State)
    requires Inv(s)
    ensures Exclusive(s)
  {
    forall t | 0 <= t < |s.threads|
      ensures Sqls(s.threads[t].stack) <= Reads(s.threads[t].stack) + Writes(s.threads[t].stack)
      ensures forall c | c in Reads(s.threads[t].stack) + Writes(s.threads[t].stack) :: c < |s.cats|
    {
      HeldFacts(|s.cats|, s.threads[t]);
    }
    forall t, u, c | 0 <= t < |s.threads| && 0 <= u < |s.threads| && t != u && c in Writes(s.threads[t].stack)
      ensures c !in Reads(s.threads[u].stack) && c !in Writes(s.threads[u].stack)
    {
      InvAt(s, t, c);
      InvAt(s, u, c);
    }
    forall t, u, c | 0 <= t < |s.threads| && 0 <= u < |s.threads| && t != u && c in Sqls(s.threads[t].stack)
      ensures c !in Sqls(s.threads[u].stack)
    {
      InvAt(s, t, c);
      InvAt(s, u, c);
    }
  }

  lemma InvIsAccurate(s: State, t: nat)
    requires Inv(s) && t < |s.threads|
    ensures TestIsAccurate(s, t)
  {
    var th := s.threads[t];
    if !th.phase.Idle? {
      var c := TopInRange(s, t);
      InvAt(s, t, c);
      OwnTestsAreAccurate(|s.cats|, th, t, s.cats[c]);
      BuiltFacts(|s.cats|, Below(th.stack));
    }
    hide Cats, SqlCats, Reads, Writes, Sqls, Built, Disciplined, Inv;
  }

  lemma TopInRange(s: State, t: nat) returns (c: nat)
    requires Inv(s) && t < |s.threads| && !s.threads[t].phase.Idle?
    ensures s.threads[t].stack != [] && c == Top(s.threads[t].stack).cat < |s.cats|
  {
    ThreadsOk(s, t);
    hide Built, Disciplined;
    c := Top(s.threads[t].stack).cat;
  }

  /** Among constructed guards exactly the outermost of a catalog owns its shared mutex, and
      exactly the outermost sqlite guard its sqlite mutex. */
  lemma {:induction false} OutermostOwns(n: nat, gs: seq<Guard>, i: nat)
    requires Built(n, gs) && i < |gs|
    ensures gs[i].ownsShared <==> Outermost(gs, i)
    ensures gs[i].ownsSqlite <==> OutermostSqlite(gs, i)
    decreases |gs|
  {
    if i == |gs| - 1 {
      CatsOf(Below(gs), gs[i].cat);
    } else {
      OutermostOwns(n, Below(gs), i);
    }
  }

  lemma ThreadOwnsOutermost(n: nat, th: Thread)
    requires ThreadOk(n, th)
    ensures OutermostOwn(th)
  {
    var gs := if th.phase.Idle? then th.stack else Below(th.stack);
    if !th.phase.Idle? { TopOwnsOutermost(n, th); }
    hide ThreadOk, Built;
    forall i | 0 <= i < |gs|
      ensures th.stack[i].ownsShared <==> Outermost(th.stack, i)
      ensures th.stack[i].ownsSqlite <==> OutermostSqlite(th.stack, i)
    {
      BuiltBelow(n, th);
      OutermostOwns(n, gs, i);
      assert forall j | 0 <= j <= i :: gs[j] == th.stack[j];
    }
  }

  lemma BuiltBelow(n: nat, th: Thread)
    requires ThreadOk(n, th)
    ensures if th.phase.Idle? then Built(n, th.stack) else th.stack != [] && Built(n, Below(th.stack))
  {
  }

  lemma TopOwnsOutermost(n: nat, th: Thread)
    requires ThreadOk(n, th) && !th.phase.Idle?
    ensures th.stack != []
    ensures Top(th.stack).ownsShared ==> Outermost(th.stack, |th.stack| - 1)
    ensures Top(th.stack).ownsSqlite ==> OutermostSqlite(th.stack, |th.stack| - 1)
  {
    CatsOf(Below(th.stack), Top(th.stack).cat);
    hide Built, Disciplined, Cats, SqlCats;
    assert forall j | 0 <= j < |th.stack| - 1 :: Below(th.stack)[j] == th.stack[j];
  }

  lemma InvIsSafe(s: State)
    requires Inv(s)
    ensures Safe(s)
  {
    hide Exclusive, TestIsAccurate, OutermostOwn;
    InvIsExclusive(s);
    forall t | 0 <= t < |s.threads| ensures TestIsAccurate(s, t) && OutermostOwn(s.threads[t]) {
      InvIsAccurate(s, t);
      ThreadsOk(s, t);
      ThreadOwnsOutermost(|s.cats|, s.threads[t]);
    }
  }

  /** Safety in every state of every run. */
  lemma RunIsSafe(s: State, schedule: seq<nat>)
    requires Initial(s)
    ensures Safe(Run(s, schedule))
  {
    InitialIsInv(s);
    RunKeepsInv(s, schedule);
    InvIsSafe(Run(s, schedule));
  }

  lemma {:induction false} CatsOf(gs: seq<Guard>, c: nat)
    ensures c in Cats(gs) <==> exists j | 0 <= j < |gs| :: gs[j].cat == c
    ensures c in SqlCats(gs) <==> exists j | 0 <= j < |gs| :: gs[j].kind.Sqlite? && gs[j].cat == c
    decreases |gs|
  {
    if gs != [] {
      CatsOf(Below(gs), c);
      assert forall j | 0 <= j < |gs| - 1 :: Below(gs)[j] == gs[j];
    }
  }

  // ---------------------------------------------------------------- progress

  predicate Waits(th: Thread) {
    th.phase.ReadAcquire? || th.phase.WriteAcquire? || th.phase.SqlAcquire?
  }

  /** The documented order: system catalog, its sqlite mutex, catalog, its sqlite mutex. */
  function SharedLevel(c: nat): nat {
    if c == 0 then 0 else 2
  }

  function WaitLevel(th: Thread): (l: nat)
    requires th.stack != []
    ensures l <= 3
  {
    SharedLevel(Top(th.stack).cat) + if th.phase.SqlAcquire? then 1 else 0
  }

  /** A thread waits only for locks above all those it holds. */
  lemma WaitsUpwards(n: nat, th: Thread, c: nat)
    requires ThreadOk(n, th) && Waits(th)
    ensures c in Reads(th.stack) + Writes(th.stack) ==> SharedLevel(c) < WaitLevel(th)
    ensures c in Sqls(th.stack) ==> SharedLevel(c) + 1 < WaitLevel(th)
  {
    hide Cats, SqlCats, Reads, Writes, Sqls, Built, Disciplined;
    BuiltFacts(n, Below(th.stack));
    Repushed(th.stack);
    OneMore(n, Below(th.stack), Top(th.stack));
  }

  /** Anything but a wait can always go on, and whoever holds a lock is not finished. */
  lemma CanStep(s: State, t: nat, c: nat)
    requires Inv(s) && t < |s.threads| && !Waits(s.threads[t])
    requires !Finished(s.threads[t])
             || c in Reads(s.threads[t].stack) + Writes(s.threads[t].stack) + Sqls(s.threads[t].stack)
    ensures Enabled(s, t)
  {
  }

  /** A blocked thread is kept out by a holder of the mutex, or by a writer that can go on. */
  lemma WhoBlocks(s: State, t: nat) returns (u: nat)
    requires Inv(s) && t < |s.threads| && Waits(s.threads[t]) && !Enabled(s, t)
    ensures u < |s.threads|
    ensures var th := s.threads[t];
            && th.stack != []
            && var c, us := Top(th.stack).cat, s.threads[u].stack;
               || Enabled(s, u)
               || (if th.phase.SqlAcquire? then c in Sqls(us) else c in Reads(us) + Writes(us))
  {
    var th := s.threads[t];
    assert ThreadOk(|s.cats|, th);
    var c := Top(th.stack).cat;
    var cat := s.cats[c];
    assert CatalogOk(s, c);
    if th.phase.SqlAcquire? {
      u := cat.sqlite.value;
      InvAt(s, u, c);
    } else if cat.writer.Some? {
      u := cat.writer.value;
      InvAt(s, u, c);
    } else if cat.readers != {} {
      u :| u in cat.readers;
      InvAt(s, u, c);
    } else {
      u :| 0 <= u < |s.threads| && s.threads[u].phase.WriteAcquire? && s.threads[u].stack != []
          && Top(s.threads[u].stack).cat == c;
    }
  }

  /** Following the holders up the order ends at a thread that can take a step. */
  lemma {:induction false} SomeoneCanStep(s: State, t: nat) returns (v: nat)
    requires Inv(s) && t < |s.threads| && Waits(s.threads[t])
    ensures Enabled(s, v)
    decreases if s.threads[t].stack == [] then 4 else 3 - WaitLevel(s.threads[t])
  {
    hide Inv, Enabled, Reads, Writes, Sqls, ThreadOk;
    if Enabled(s, t) {
      v := t;
    } else {
      var u := WhoBlocks(s, t);
      if Enabled(s, u) {
        v := u;
      } else {
        var c := Top(s.threads[t].stack).cat;
        if !Waits(s.threads[u]) { CanStep(s, u, c); }
        ThreadsOk(s, u);
        WaitsUpwards(|s.cats|, s.threads[u], c);
        v := SomeoneCanStep(s, u);
      }
    }
  }

  lemma ThreadsOk(s: State, t: nat)
    requires Inv(s) && t < |s.threads|
    ensures ThreadOk(|s.cats|, s.threads[t]) && (!s.threads[t].phase.Idle? ==> s.threads[t].stack != [])
  {
  }

  /** Deadlock freedom: in every state of every run in which some thread is not finished, some
      thread can take a step. */
  lemma DeadlockFree(s: State, schedule: seq<nat>, t: nat) returns (v: nat)
    requires Initial(s) && t < |Run(s, schedule).threads| && !Finished(Run(s, schedule).threads[t])
    ensures Enabled(Run(s, schedule), v)
  {
    InitialIsInv(s);
    RunKeepsInv(s, schedule);
    var r := Run(s, schedule);
    if Waits(r.threads[t]) {
      v := SomeoneCanStep(r, t);
    } else {
      CanStep(r, t, 0);
      v := t;
    }
  }

  // ---------------------------------------------------------------- completion

  function Rank(p: Phase): nat {
    match p
    case ReadCheck => 6 case ReadAcquire => 5 case ReadMark => 4
    case SqlCheck => 3 case SqlAcquire => 2 case SqlMark => 1
    case WriteCheck => 3 case WriteAcquire => 2 case WriteMark => 1
    case SqlClear => 4 case SqlRelease => 3 case ReadClear => 2 case ReadRelease => 1
    case WriteClear => 2 case WriteRelease => 1
    case Idle => 0
  }

  /** Steps a thread has left at most. */
  function Work(th: Thread): nat {
    7 * |th.prog| + Rank(th.phase)
  }

  function TotalWork(ths: seq<Thread>): nat {
    if ths == [] then 0 else TotalWork(ths[1..]) + Work(ths[0])
  }

  lemma {:induction false} WorkOfUpdate(ths: seq<Thread>, t: nat, th: Thread)
    requires t < |ths|
    ensures TotalWork(ths[t := th]) + Work(ths[t]) == TotalWork(ths) + Work(th)
  {
    if t == 0 {
      assert ths[t := th][1..] == ths[1..];
    } else {
      assert ths[t := th][1..] == ths[1..][t - 1 := th];
      WorkOfUpdate(ths[1..], t - 1, th);
    }
  }

  lemma ThreadWorks(n: nat, th: Thread, t: nat, cat: Catalog)
    requires ThreadOk(n, th)
    ensures !th.phase.Idle? ==> Work(StepThread(th, t, cat).0) < Work(th)
    ensures th.phase.Idle? && th.prog != [] && (th.prog[0].Leave? ==> th.stack != [])
            ==> Work(StartAction(th)) < Work(th)
  {
    hide Built, Permitted, Disciplined, Cats, SqlCats;
  }

  lemma StepWorks(s: State, t: nat)
    requires Inv(s) && Enabled(s, t)
    ensures TotalWork(Step(s, t).threads) < TotalWork(s.threads)
  {
    hide StepThread, StartAction, Work, ThreadOk, Inv, Free;
    var th, th' := s.threads[t], Step(s, t).threads[t];
    ThreadsOk(s, t);
    ThreadWorks(|s.cats|, th, t, if th.phase.Idle? then NOBODY else s.cats[Top(th.stack).cat]);
    WorkOfUpdate(s.threads, t, th');
  }

  /** Every step of the schedule is taken. */
  ghost predicate Taken(s: State, schedule: seq<nat>) {
    schedule == [] ||
    (Taken(s, schedule[..|schedule| - 1]) && Enabled(Run(s, schedule[..|schedule| - 1]), schedule[|schedule| - 1]))
  }

  /** No run goes on for ever. */
  lemma {:induction false} RunsAreBounded(s: State, schedule: seq<nat>)
    requires Initial(s) && Taken(s, schedule)
    ensures |schedule| + TotalWork(Run(s, schedule).threads) <= TotalWork(s.threads)
    decreases |schedule|
  {
    if schedule != [] {
      var before := schedule[..|schedule| - 1];
      RunsAreBounded(s, before);
      InitialIsInv(s);
      RunKeepsInv(s, before);
      StepWorks(Run(s, before), schedule[|schedule| - 1]);
    }
  }

  /** Every run can be carried on until all threads are finished. */
  lemma {:induction false} RunsComplete(s: State, schedule: seq<nat>) returns (whole: seq<nat>)
    requires Initial(s)
    ensures schedule <= whole
    ensures forall t | 0 <= t < |Run(s, whole).threads| :: Finished(Run(s, whole).threads[t])
    decreases TotalWork(Run(s, schedule).threads)
  {
    var r := Run(s, schedule);
    if t :| 0 <= t < |r.threads| && !Finished(r.threads[t]) {
      var v := DeadlockFree(s, schedule, t);
      assert (schedule + [v])[..|schedule + [v]| - 1] == schedule;
      assert Run(s, schedule + [v]) == Step(r, v);
      InitialIsInv(s);
      RunKeepsInv(s, schedule);
      StepWorks(r, v);
      whole := RunsComplete(s, schedule + [v]);
    } else {
      whole := schedule;
    }
  }

  // ---------------------------------------------------------------- why the rules are needed

  /** Thread t has a read lock on c, not the write lock, and is on its way to ask for the latter. */
  ghost predicate Upgrading(s: State, t: nat, c: nat) {
    && t < |s.threads| && c < |s.cats| && t in s.cats[c].readers && s.cats[c].writeFlag != Some(t)
    && var th := s.threads[t];
       || (th.phase.Idle? && th.prog != [] && th.prog[0] == Enter(Write, c))
       || ((th.phase.WriteCheck? || th.phase.WriteAcquire?) && th.stack != [] && Top(th.stack).cat == c)
  }

  lemma UpgradeGoesOn(s: State, t: nat, c: nat, u: nat)
    requires Upgrading(s, t, c) && Enabled(s, u)
    ensures Upgrading(Step(s, u), t, c)
  {
  }

  /** Such a thread never finishes, whatever other threads do: it waits for itself to let go. */
  lemma {:induction false} UpgradeNeverFinishes(s: State, t: nat, c: nat, schedule: seq<nat>)
    requires Upgrading(s, t, c)
    ensures var r := Run(s, schedule);
            Upgrading(r, t, c) && !Finished(r.threads[t]) && (r.threads[t].phase.WriteAcquire? ==> !Enabled(r, t))
    decreases |schedule|
  {
    if schedule != [] {
      var r, u := Run(s, schedule[..|schedule| - 1]), schedule[|schedule| - 1];
      UpgradeNeverFinishes(s, t, c, schedule[..|schedule| - 1]);
      if Enabled(r, u) { UpgradeGoesOn(r, t, c, u); }
    }
  }

  lemma {:induction false} OthersLeaveAlone(s: State, t: nat, schedule: seq<nat>)
    requires t < |s.threads| && t !in schedule
    ensures var r := Run(s, schedule);
            |r.threads| == |s.threads| && |r.cats| == |s.cats| && r.threads[t] == s.threads[t]
    decreases |schedule|
  {
    if schedule != [] {
      assert schedule[|schedule| - 1] in schedule;
      OthersLeaveAlone(s, t, schedule[..|schedule| - 1]);
    }
  }

  /** A thread whose flag says that it reads some catalog takes no lock on any other: its guard is
      constructed in two steps, whatever happens in between, and owns nothing. */
  lemma SecondCatalogNeverLocked(s: State, t: nat, c: nat, between: seq<nat>)
    requires t < |s.threads| && 0 < c < |s.cats| && t !in between
    requires var th := s.threads[t];
             th.phase.Idle? && th.prog != [] && th.prog[0] == Enter(Read, c) && th.readCat
    ensures Enabled(s, t)
    ensures var m := Run(Step(s, t), between);
            && Enabled(m, t)
            && Step(m, t).cats == m.cats
            && Step(m, t).threads[t].phase.Idle?
            && Step(m, t).threads[t].stack == s.threads[t].stack + [Guard(Read, c, false, false)]
  {
    OthersLeaveAlone(Step(s, t), t, between);
  }

  /** One thread that takes a read lock on catalog 1 and then asks for the write lock, after n steps. */
  function Nested(n: nat): State {
    var outer, inner := Guard(Read, 1, true, false), Guard(Write, 1, false, false);
    var read := NOBODY.(readers := {0});
    match n
    case 0 => Alone([Enter(Read, 1), Enter(Write, 1), Leave, Leave], [], Idle, false, NOBODY)
    case 1 => Alone([Enter(Write, 1), Leave, Leave], [Guard(Read, 1, false, false)], ReadCheck, false, NOBODY)
    case 2 => Alone([Enter(Write, 1), Leave, Leave], [Guard(Read, 1, false, false)], ReadAcquire, false, NOBODY)
    case 3 => Alone([Enter(Write, 1), Leave, Leave], [outer], ReadMark, false, read)
    case _ => Alone([Enter(Write, 1), Leave, Leave], [outer], Idle, true, read)
  }

  function Alone(prog: seq<Action>, stack: seq<Guard>, p: Phase, flag: bool, cat: Catalog): State {
    State([Thread(prog, stack, p, false, flag)], [NOBODY, cat], false)
  }

  lemma NestedStep(n: nat)
    requires n < 4
    ensures Enabled(Nested(n), 0) && Step(Nested(n), 0) == Nested(n + 1)
  {
    assert NOBODY.readers + {0} == {0};
    if n == 0 {
      assert Step(Nested(0), 0).threads[0] == Nested(1).threads[0];
    } else if n == 1 {
      assert Step(Nested(1), 0).threads[0] == Nested(2).threads[0];
    } else {
      NestedLocks(n);
    }
  }

  lemma NestedLocks(n: nat)
    requires 2 <= n < 4
    ensures Enabled(Nested(n), 0) && Step(Nested(n), 0) == Nested(n + 1)
  {
    var s, s' := Nested(n), Nested(n + 1);
    assert NOBODY.readers + {0} == {0};
    assert Step(s, 0).threads[0] == s'.threads[0] && Step(s, 0).cats[1] == s'.cats[1];
  }

  lemma {:induction false} NestedRun(n: nat)
    requires n <= 4
    ensures Run(Nested(0), seq(n, _ => 0)) == Nested(n)
  {
    if n > 0 {
      NestedRun(n - 1);
      NestedStep(n - 1);
      assert seq(n, _ => 0)[..n - 1] == seq(n - 1, _ => 0);
    }
  }

  /** An upgrade can happen: a run from nothing locked to a thread that never finishes. */
  lemma UpgradeDeadlocks(schedule: seq<nat>)
    ensures var r := Run(Run(Nested(0), seq(4, _ => 0)), schedule); Upgrading(r, 0, 1) && !Finished(r.threads[0])
  {
    NestedRun(4);
    UpgradeNeverFinishes(Nested(4), 0, 1, schedule);
  }
}
