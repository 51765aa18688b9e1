/** ensure_initialized under any number of threads and any interleaving.

    One move of a thread is one access to the shared flag, the mutex or the
    database handle; db_init is spread over several moves. A thread that waits
    for a mutex another thread holds stays where it is. */
module InitRace {
  import opened Text
  import opened Paths

  datatype Result = Success | CantOpen | BadDb

  /** What a thread is about to do. */
  datatype Pc =
    | Outside                   // not in ensure_initialized; the last call, if any, returned `last`
      (last: Option<Result>)
    | ReadFlag                  // the unlocked first check
    | Acquire
    | RecheckFlag               // the second check, under the mutex
    | OpenDb                    // db_init: g_db test and sqlite3_open
    | MakeSchema
    | MakeRoot(i: nat)          // db_init: the loop over the five roots
    | SetFlag(result: Result)
    | Release(result: Result)

  /** roots counts the root keys attempted since the schema was last made,
      successes the calls of db_init that ran to their end. */
  datatype State = State(flag: bool, owner: Option<nat>, dbOpen: bool, roots: nat, successes: nat, pcs: map<nat, Pc>)

  const START := State(false, None, false, 0, 0, map[])

  function PcOf(s: State, t: nat): Pc {
    if t in s.pcs then s.pcs[t] else Outside(None)
  }

  function At(s: State, t: nat, pc: Pc): State {
    s.(pcs := s.pcs[t := pc])
  }

  /** One move of thread t; ok says whether SQLite does what it is asked. */
  function Next(s: State, t: nat, ok: bool): State {
    match PcOf(s, t)
    case Outside(_) => At(s, t, ReadFlag)
    case ReadFlag => if s.flag then At(s, t, Outside(Some(Success))) else At(s, t, Acquire)
    case Acquire => if s.owner.None? then At(s.(owner := Some(t)), t, RecheckFlag) else s
    case RecheckFlag => At(s, t, if s.flag then Release(Success) else OpenDb)
    case OpenDb =>
      if s.dbOpen then At(s, t, SetFlag(Success))
      else if ok then At(s.(dbOpen := true), t, MakeSchema)
      else At(s, t, SetFlag(CantOpen))
    case MakeSchema => if ok then At(s.(roots := 0), t, MakeRoot(0)) else At(s.(dbOpen := false), t, SetFlag(BadDb))
    case MakeRoot(i) =>
      if i < |ROOTS| then At(s.(roots := s.roots + 1), t, MakeRoot(i + 1))
      else At(s.(successes := s.successes + 1), t, SetFlag(Success))
    case SetFlag(result) => At(s.(flag := s.flag || result.Success?), t, Release(result))
    case Release(result) => At(s.(owner := None), t, Outside(Some(result)))
  }

  type Schedule = seq<(nat, bool)>

  function Exec(s: State, moves: Schedule): State
    decreases |moves|
  {
    if moves == [] then s else Exec(Next(s, moves[0].0, moves[0].1), moves[1..])
  }

  predicate HoldsMutex(pc: Pc) {
    !pc.Outside? && !pc.ReadFlag? && !pc.Acquire?
  }

  /** The database is being built by a thread at pc. */
  predicate Building(pc: Pc) {
    pc.MakeSchema? || pc.MakeRoot?
  }

  ghost predicate ThreadInv(s: State, t: nat) {
    var pc := PcOf(s, t);
    && (HoldsMutex(pc) <==> s.owner == Some(t))
    && (pc == Outside(Some(Success)) || pc == Release(Success) ==> s.flag)
    && (pc.OpenDb? ==> !s.dbOpen)
    && (Building(pc) ==> s.dbOpen && s.successes == 0)
    && (pc.MakeRoot? ==> pc.i == s.roots <= |ROOTS|)
    && (pc.SetFlag? ==> !s.flag && s.dbOpen == pc.result.Success? && (pc.result.Success? <==> s.successes == 1))
    && (pc.Release? ==> s.flag == pc.result.Success?)
  }

  ghost predicate Inv(s: State) {
    && (forall t: nat :: ThreadInv(s, t))
    && (s.flag ==> s.dbOpen && s.successes == 1)
    && (s.successes == 1 ==> s.roots == |ROOTS|)
    && (!s.dbOpen ==> s.successes == 0)
    && s.successes <= 1
    && (s.dbOpen && !s.flag ==>
          s.owner.Some? && (Building(PcOf(s, s.owner.value)) || PcOf(s, s.owner.value) == SetFlag(Success)))
  }

  lemma NextKeepsInv(s: State, t: nat, ok: bool)
    requires Inv(s)
    ensures Inv(Next(s, t, ok))
  {
    var u := Next(s, t, ok);
    assert ThreadInv(s, t);
    forall o: nat ensures ThreadInv(u, o) {
      assert ThreadInv(s, o);
      assert o != t ==> PcOf(u, o) == PcOf(s, o);
    }
  }

  lemma {:induction false} ExecKeepsInv(s: State, moves: Schedule)
    requires Inv(s)
    ensures Inv(Exec(s, moves))
    decreases |moves|
  {
    if moves == [] {
    } else {
      NextKeepsInv(s, moves[0].0, moves[0].1);
      ExecKeepsInv(Next(s, moves[0].0, moves[0].1), moves[1..]);
    }
  }

  /** Success is returned only after one db_init has run to its end, all roots
      attempted, and no second one ever does; at most one thread is past the mutex. */
  lemma InitialisationIsSafe(moves: Schedule)
    ensures var s := Exec(START, moves);
            && s.successes <= 1
            && (forall t: nat :: PcOf(s, t) == Outside(Some(Success)) ==>
                  s.flag && s.dbOpen && s.successes == 1 && s.roots == |ROOTS|)
            && (forall t: nat, u: nat :: HoldsMutex(PcOf(s, t)) && HoldsMutex(PcOf(s, u)) ==> t == u)
  {
    ExecKeepsInv(START, moves);
    var s := Exec(START, moves);
    forall t: nat, u: nat | HoldsMutex(PcOf(s, t)) && HoldsMutex(PcOf(s, u)) ensures t == u {
      assert ThreadInv(s, t) && ThreadInv(s, u);
    }
    forall t: nat | PcOf(s, t) == Outside(Some(Success)) ensures s.flag {
      assert ThreadInv(s, t);
    }
  }

  /** Once initialised a call returns success after its first check, whoever holds
      the mutex. */
  lemma InitialisedIsFast(s: State, t: nat, a: bool, b: bool)
    requires s.flag && PcOf(s, t).Outside?
    ensures Exec(s, [(t, a), (t, b)]) == At(s, t, Outside(Some(Success)))
  {
    var one := Next(s, t, a);
    var moves := [(t, a), (t, b)];
    assert moves[1..] == [(t, b)] && [(t, b)][1..] == [];
    assert Exec(Next(one, t, b), []) == Next(one, t, b);
  }

  // ---- Recovery -------------------------------------------------------------

  lemma {:induction false} ExecConcat(s: State, a: Schedule, b: Schedule)
    ensures Exec(s, a + b) == Exec(Exec(s, a), b)
    decreases |a|
  {
    if a == [] {
      assert a + b == b;
    } else {
      assert (a + b)[1..] == a[1..] + b;
      ExecConcat(Next(s, a[0].0, a[0].1), a[1..], b);
    }
  }

  /** How many moves a thread still has in its call. */
  function Remaining(pc: Pc): nat {
    match pc
    case Outside(_) => 0
    case ReadFlag => |ROOTS| + 8
    case Acquire => |ROOTS| + 7
    case RecheckFlag => |ROOTS| + 6
    case OpenDb => |ROOTS| + 5
    case MakeSchema => |ROOTS| + 4
    case MakeRoot(i) => if i <= |ROOTS| then |ROOTS| + 3 - i else 3
    case SetFlag(_) => 2
    case Release(_) => 1
  }

  /** The call is bound to fail. */
  predicate Failing(pc: Pc) {
    (pc.SetFlag? || pc.Release?) && !pc.result.Success?
  }

  /** A thread that finds the mutex free, or has it, returns when it runs alone;
      with SQLite working it returns success unless it had already failed. */
  lemma {:induction false} RunsAlone(s: State, t: nat) returns (moves: Schedule)
    requires Inv(s) && !PcOf(s, t).Outside?
    requires s.owner.None? || s.owner == Some(t)
    ensures var u := Exec(s, moves);
            && Inv(u) && u.owner.None?
            && PcOf(u, t).Outside? && (!Failing(PcOf(s, t)) ==> PcOf(u, t) == Outside(Some(Success)))
            && (forall o: nat :: o != t ==> PcOf(u, o) == PcOf(s, o))
    decreases Remaining(PcOf(s, t))
  {
    var n := Next(s, t, true);
    assert ThreadInv(s, t);
    NextKeepsInv(s, t, true);
    assert ThreadInv(n, t);
    if PcOf(n, t).Outside? {
      moves := [(t, true)];
      assert moves[1..] == [];
      assert Exec(s, moves) == Exec(n, []);
      if n.owner.Some? { assert ThreadInv(s, n.owner.value); }
    } else {
      var rest := RunsAlone(n, t);
      moves := [(t, true)] + rest;
      assert moves[1..] == rest;
    }
  }

  /** Whatever has happened, failures included, every thread can still get its
      success: no run leaves the library stuck. */
  lemma AlwaysRecoverable(past: Schedule, t: nat) returns (moves: Schedule)
    ensures PcOf(Exec(START, past + moves), t) == Outside(Some(Success))
  {
    var s := Exec(START, past);
    ExecKeepsInv(START, past);
    moves := [];
    if s.owner.Some? {
      var o := s.owner.value;
      assert ThreadInv(s, o);
      moves := RunsAlone(s, o);
    }
    var s1 := Exec(s, moves);
    if !PcOf(s1, t).Outside? {
      var more := RunsAlone(s1, t);
      ExecConcat(s, moves, more);
      moves := moves + more;
    }
    var s2 := Exec(s, moves);
    if PcOf(s2, t) != Outside(Some(Success)) {
      NextKeepsInv(s2, t, true);
      var last := RunsAlone(Next(s2, t, true), t);
      var call := [(t, true)] + last;
      assert call[1..] == last;
      ExecConcat(s, moves, call);
      moves := moves + call;
    }
    ExecConcat(START, past, moves);
  }
}
