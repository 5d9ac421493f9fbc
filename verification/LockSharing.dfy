/** What a thread that asks for a lock is kept out by, and that readers share. */
module LockSharing {
  import opened LockProtocol
  import opened Options

  // ---------------------------------------------------------------- who keeps a thread out

  /** Some other thread holds the lock. */
  ghost predicate OtherReads(s: State, t: nat, c: nat) {
    exists u | 0 <= u < |s.threads| && u != t :: c in Reads(s.threads[u].stack)
  }

  ghost predicate OtherWrites(s: State, t: nat, c: nat) {
    exists u | 0 <= u < |s.threads| && u != t :: c in Writes(s.threads[u].stack)
  }

  ghost predicate OtherHasSqlite(s: State, t: nat, c: nat) {
    exists u | 0 <= u < |s.threads| && u != t :: c in Sqls(s.threads[u].stack)
  }

  ghost predicate WaitsToWrite(s: State, c: nat) {
    exists u | 0 <= u < |s.threads| ::
      s.threads[u].phase.WriteAcquire? && s.threads[u].stack != [] && Top(s.threads[u].stack).cat == c
  }

  /** The mutexes of c are held as the other threads' guards say. */
  lemma HeldByOthers(s: State, t: nat, c: nat)
    requires Inv(s) && t < |s.threads| && c < |s.cats|
    ensures c !in Writes(s.threads[t].stack) ==> (s.cats[c].writer.Some? <==> OtherWrites(s, t, c))
    ensures c !in Reads(s.threads[t].stack) ==> (s.cats[c].readers != {} <==> OtherReads(s, t, c))
    ensures c !in Sqls(s.threads[t].stack) ==> (s.cats[c].sqlite.Some? <==> OtherHasSqlite(s, t, c))
  {
    var cat := s.cats[c];
    assert CatalogOk(s, c);
    forall u | 0 <= u < |s.threads| ensures Agree(s.threads[u], u, cat, c) { InvAt(s, u, c); }
    assert cat.writer.Some? ==> cat.writer.value < |s.threads|;
    assert cat.sqlite.Some? ==> cat.sqlite.value < |s.threads|;
    hide Inv, Reads, Writes, Sqls, CatalogOk;
    if cat.writer.Some? { assert Agree(s.threads[cat.writer.value], cat.writer.value, cat, c); }
    if cat.sqlite.Some? { assert Agree(s.threads[cat.sqlite.value], cat.sqlite.value, cat, c); }
    if cat.readers != {} {
      var u := Member(cat.readers);
      assert Agree(s.threads[u], u, cat, c);
    }
  }

  lemma Member<T>(s: set<T>) returns (x: T)
    requires s != {}
    ensures x in s
  {
    x :| x in s;
  }

  lemma NotItsOwn(n: nat, th: Thread, c: nat)
    requires ThreadOk(n, th) && Waits(th) && th.stack != [] && Top(th.stack).cat == c
    ensures if th.phase.SqlAcquire? then c !in Sqls(th.stack) else c !in Reads(th.stack) + Writes(th.stack)
  {
    WaitsUpwards(n, th, c);
    hide ThreadOk, Reads, Writes, Sqls;
  }

  /** In every state of every run: a thread that asks to read is kept out exactly by a writer or, if
      these go first, by one who asks to write; one that asks to write exactly by a reader or a writer;
      one that asks for the sqlite lock exactly by its holder. */
  lemma KeptOutIff(s: State, schedule: seq<nat>, t: nat)
    requires Initial(s) && t < |Run(s, schedule).threads| && Waits(Run(s, schedule).threads[t])
    ensures var r := Run(s, schedule);
            var th := r.threads[t];
            && th.stack != []
            && var c := Top(th.stack).cat;
               !Enabled(r, t) <==>
                 if th.phase.ReadAcquire? then OtherWrites(r, t, c) || (r.fair && WaitsToWrite(r, c))
                 else if th.phase.WriteAcquire? then OtherReads(r, t, c) || OtherWrites(r, t, c)
                 else OtherHasSqlite(r, t, c)
  {
    InitialIsInv(s);
    RunKeepsInv(s, schedule);
    KeptOutAt(Run(s, schedule), t);
  }

  lemma KeptOutAt(r: State, t: nat)
    requires Inv(r) && t < |r.threads| && Waits(r.threads[t])
    ensures var th := r.threads[t];
            && th.stack != []
            && var c := Top(th.stack).cat;
               !Enabled(r, t) <==>
                 if th.phase.ReadAcquire? then OtherWrites(r, t, c) || (r.fair && WaitsToWrite(r, c))
                 else if th.phase.WriteAcquire? then OtherReads(r, t, c) || OtherWrites(r, t, c)
                 else OtherHasSqlite(r, t, c)
  {
    var th := r.threads[t];
    ThreadsOk(r, t);
    var c := TopInRange(r, t);
    NotItsOwn(|r.cats|, th, c);
    HeldByOthers(r, t, c);
    assert WriterWaits(r, c) <==> WaitsToWrite(r, c);
    hide Inv, ThreadOk, Reads, Writes, Sqls, OtherReads, OtherWrites, OtherHasSqlite, WaitsToWrite, WriterWaits;
  }

  // ---------------------------------------------------------------- readers share

  lemma {:induction false} RunAppend(s: State, a: seq<nat>, b: seq<nat>)
    ensures Run(s, a + b) == Run(Run(s, a), b)
    decreases |b|
  {
    if b == [] {
      assert a + b == a;
    } else {
      var k := |b| - 1;
      assert (a + b)[..|a + b| - 1] == a + b[..k];
      RunAppend(s, a, b[..k]);
    }
  }

  /** The thread has not begun, and begins with a read guard on c. */
  predicate AboutToRead(th: Thread, c: nat) {
    && th.phase.Idle? && th.stack == [] && !th.readSys && !th.readCat
    && th.prog != [] && th.prog[0] == Enter(Read, c)
  }

  ghost predicate NoWriter(s: State, c: nat) {
    && c < |s.cats| && s.cats[c].writer.None? && s.cats[c].writeFlag.None?
    && forall u | 0 <= u < |s.threads| :: !s.threads[u].phase.WriteAcquire?
  }

  /** r is s but for thread t on its way to a read lock on c, without writers about. */
  ghost predicate OnTheWay(s: State, r: State, t: nat, c: nat, phase: Phase, owns: bool)
    requires t < |s.threads|
  {
    && |r.threads| == |s.threads| && NoWriter(r, c)
    && (forall u | 0 <= u < |s.threads| && u != t :: r.threads[u] == s.threads[u])
    && var th := r.threads[t];
       th.phase == phase && th.stack == [Guard(Read, c, owns, false)] && !th.readSys && !th.readCat
  }

  lemma Starts(s: State, t: nat, c: nat)
    requires t < |s.threads| && AboutToRead(s.threads[t], c) && NoWriter(s, c)
    ensures Enabled(s, t) && OnTheWay(s, Step(s, t), t, c, ReadCheck, false)
  {
    assert [] + [Guard(Read, c, false, false)] == [Guard(Read, c, false, false)];
  }

  lemma Checks(s: State, r: State, t: nat, c: nat)
    requires t < |s.threads| && OnTheWay(s, r, t, c, ReadCheck, false)
    ensures Enabled(r, t) && OnTheWay(s, Step(r, t), t, c, ReadAcquire, false)
  {
  }

  lemma Acquires(s: State, r: State, t: nat, c: nat)
    requires t < |s.threads| && OnTheWay(s, r, t, c, ReadAcquire, false)
    ensures Enabled(r, t) && OnTheWay(s, Step(r, t), t, c, ReadMark, true)
  {
  }

  /** Without writers about, a thread needs three steps to have the lock, whoever reads already. */
  lemma ThreeSteps(s: State, t: nat, c: nat)
    requires t < |s.threads| && AboutToRead(s.threads[t], c) && NoWriter(s, c)
    ensures OnTheWay(s, Run(s, [t, t, t]), t, c, ReadMark, true)
  {
    hide *;
    Starts(s, t, c);
    NoSteps(s);
    var r := TakenStep(s, [], t);
    Checks(s, r, t, c);
    assert [] + [t] == [t];
    r := TakenStep(s, [t], t);
    Acquires(s, r, t, c);
    assert [t] + [t] == [t, t];
    r := TakenStep(s, [t, t], t);
    assert [t, t] + [t] == [t, t, t];
  }

  lemma NoSteps(s: State)
    ensures Run(s, []) == s
  {
  }

  lemma TakenStep(s: State, a: seq<nat>, t: nat) returns (r: State)
    requires Enabled(Run(s, a), t)
    ensures r == Step(Run(s, a), t) == Run(s, a + [t])
  {
    r := Step(Run(s, a), t);
    assert (a + [t])[..|a + [t]| - 1] == a;
  }

  function Thrice(ts: seq<nat>): seq<nat> {
    if ts == [] then [] else [ts[0], ts[0], ts[0]] + Thrice(ts[1..])
  }

  /** Any number of threads that begin by reading c can come to read it all at once. */
  lemma {:induction false} ReadersShare(s: State, ts: seq<nat>, c: nat)
    requires NoWriter(s, c) && (forall j, k | 0 <= j < k < |ts| :: ts[j] != ts[k])
    requires forall t | t in ts :: t < |s.threads| && AboutToRead(s.threads[t], c)
    ensures var r := Run(s, Thrice(ts));
            && |r.threads| == |s.threads|
            && (forall t | t in ts :: c in Reads(r.threads[t].stack))
            && forall u | 0 <= u < |s.threads| && u !in ts :: r.threads[u] == s.threads[u]
    decreases |ts|
  {
    if ts != [] {
      var t := ts[0];
      assert t in ts;
      var m := Run(s, [t, t, t]);
      ThreeSteps(s, t, c);
      RunAppend(s, [t, t, t], Thrice(ts[1..]));
      forall u | u in ts[1..] ensures u in ts && u != t {}
      ReadersShare(m, ts[1..], c);
      OneGuard(c);
      hide AboutToRead, NoWriter, Run, Reads;
      forall u | u in ts ensures u == t || u in ts[1..] {}
    }
  }

  lemma OneGuard(c: nat)
    ensures c in Reads([Guard(Read, c, true, false)])
  {
  }
}
