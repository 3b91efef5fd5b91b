/** `config_set` split into the two steps other callers can get between: the SELECT that
    decides between update and insert, and the commit. */
module ConfigRace {
  import opened Text
  import opened ConfigStore

  datatype PC =
    | Idle
    | HasRead(existing: Option<nat>)
    | Finished
    | Failed(error: SetError)

  datatype Caller = Caller(scope: Scope, value: Option<string>, pc: PC)

  datatype State = State(rows: Table, callers: seq<Caller>)

  datatype Event = Read(c: nat) | Commit(c: nat)

  type Trace = seq<Event>

  predicate Enabled(s: State, e: Event) {
    && e.c < |s.callers|
    && if e.Read? then s.callers[e.c].pc.Idle? else s.callers[e.c].pc.HasRead?
  }

  /** The SELECT; more than one row makes `scalar_one_or_none` raise. */
  function ReadStep(rows: Table, scope: Scope): PC {
    if NeedsTeam(scope) then Failed(NeedTeam)
    else if Count(rows, scope) > 1 then Failed(MultipleRows)
    else
      var row := First(rows, scope);
      HasRead(if row.Some? then Some(row.value.id) else None)
  }

  /** The commit: an UPDATE of the row seen, or an INSERT if none was. */
  function CommitStep(rows: Table, id: nat, caller: Caller): (PC, Table) {
    if caller.pc.HasRead? && caller.pc.existing.Some? then
      (Finished, Update(rows, caller.pc.existing.value, caller.value))
    else
      match Insert(rows, id, caller.scope, caller.value)
      case Stored(rows') => (Finished, rows')
      case Refused(error) => (Failed(error), rows)
  }

  /** `id` is the primary key an INSERT at this point would get. */
  function Apply(s: State, id: nat, e: Event): State
    requires Enabled(s, e)
  {
    var caller := s.callers[e.c];
    match e
    case Read(c) => s.(callers := s.callers[c := caller.(pc := ReadStep(s.rows, caller.scope))])
    case Commit(c) =>
      var (pc, rows) := CommitStep(s.rows, id, caller);
      State(rows, s.callers[c := caller.(pc := pc)])
  }

  /** Any interleaving of any callers, from a table whose keys are below `base`. */
  function Exec(s0: State, base: nat, tr: Trace): Option<State> {
    if tr == [] then Some(s0)
    else
      match Exec(s0, base, tr[..|tr| - 1])
      case None => None
      case Some(s) => if Enabled(s, tr[|tr| - 1]) then Some(Apply(s, base + |tr|, tr[|tr| - 1])) else None
  }

  predicate Started(s: State) {
    forall c :: 0 <= c < |s.callers| ==> s.callers[c].pc.Idle?
  }

  predicate NullScope(scope: Scope) { scope.user.None? || scope.team.None? }

  // ------------------------------------------------------------------
  // Where the index protects
  // ------------------------------------------------------------------

  lemma CommitCounts(rows: Table, id: nat, caller: Caller, scope: Scope)
    requires caller.pc.HasRead?
    ensures Count(CommitStep(rows, id, caller).1, scope) ==
              Count(rows, scope) + (if Inserts(rows, caller, scope) then 1 else 0)
  {
    if caller.pc.existing.Some? {
      CountUpdate(rows, caller.pc.existing.value, caller.value, scope);
    } else {
      CountInsert(rows, Row(id, caller.scope, caller.value), scope);
    }
  }

  /** Does this commit add a row to `scope`? */
  predicate Inserts(rows: Table, caller: Caller, scope: Scope) {
    && caller.scope == scope
    && caller.pc == HasRead(None)
    && (NullScope(scope) || Count(rows, scope) == 0)
  }

  /** Under every interleaving a user's own setting has at most one row: the second INSERT
      is refused by the index. */
  lemma {:induction false} FullScopesStayUnique(s0: State, base: nat, tr: Trace, scope: Scope)
    requires Exec(s0, base, tr).Some? && !NullScope(scope) && Count(s0.rows, scope) <= 1
    ensures Count(Exec(s0, base, tr).value.rows, scope) <= 1
  {
    if tr != [] {
      var init, last := tr[..|tr| - 1], tr[|tr| - 1];
      FullScopesStayUnique(s0, base, init, scope);
      var s := Exec(s0, base, init).value;
      if last.Commit? {
        CommitCounts(s.rows, base + |tr|, s.callers[last.c], scope);
      }
    }
  }

  // ------------------------------------------------------------------
  // Where it does not
  // ------------------------------------------------------------------

  /** Commits by callers of `scope` whose read had found no row. */
  function BlindCommits(s0: State, base: nat, tr: Trace, scope: Scope): nat
    requires Exec(s0, base, tr).Some?
  {
    if tr == [] then 0
    else
      var init, last := tr[..|tr| - 1], tr[|tr| - 1];
      var caller := Exec(s0, base, init).value.callers[last.c];
      BlindCommits(s0, base, init, scope) +
      (if last.Commit? && caller.scope == scope && caller.pc == HasRead(None) then 1 else 0)
  }

  /** Conservation for a team-wide or global setting: one row for each blind commit, so the
      scope stays unique exactly when at most one caller commits blindly into an empty scope. */
  lemma {:induction false} NullScopeRows(s0: State, base: nat, tr: Trace, scope: Scope)
    requires Exec(s0, base, tr).Some? && NullScope(scope)
    ensures Count(Exec(s0, base, tr).value.rows, scope) == Count(s0.rows, scope) + BlindCommits(s0, base, tr, scope)
  {
    if tr != [] {
      var init, last := tr[..|tr| - 1], tr[|tr| - 1];
      NullScopeRows(s0, base, init, scope);
      var s := Exec(s0, base, init).value;
      if last.Commit? {
        CommitCounts(s.rows, base + |tr|, s.callers[last.c], scope);
      }
    }
  }

  /** Every read that lets its caller go on is followed at once by that caller's commit. */
  predicate Atomic(s0: State, base: nat, tr: Trace)
    requires Exec(s0, base, tr).Some?
  {
    tr != [] ==>
      var init, last := tr[..|tr| - 1], tr[|tr| - 1];
      && Atomic(s0, base, init)
      && (last.Read? ==> NoneBetween(Exec(s0, base, init).value))
  }

  /** Nobody has read without having committed yet. */
  predicate NoneBetween(s: State) {
    forall c :: 0 <= c < |s.callers| ==> !s.callers[c].pc.HasRead?
  }

  /** Someone between its two steps is alone there, and still knows the truth. */
  predicate AtomicInv(s: State) {
    forall c :: 0 <= c < |s.callers| && s.callers[c].pc.HasRead? ==>
      && (s.callers[c].pc.existing.None? ==> Count(s.rows, s.callers[c].scope) == 0)
      && forall d :: 0 <= d < |s.callers| && d != c ==> !s.callers[d].pc.HasRead?
  }

  lemma {:induction false} AtomicHolds(s0: State, base: nat, tr: Trace)
    requires Exec(s0, base, tr).Some? && Atomic(s0, base, tr) && Started(s0) && UniqueScopes(s0.rows)
    ensures var s := Exec(s0, base, tr).value; AtomicInv(s) && UniqueScopes(s.rows)
  {
    if tr != [] {
      var init, last := tr[..|tr| - 1], tr[|tr| - 1];
      AtomicHolds(s0, base, init);
      var s := Exec(s0, base, init).value;
      var caller := s.callers[last.c];
      if last.Read? {
        CountZero(s.rows, caller.scope);
      } else {
        var rows' := CommitStep(s.rows, base + |tr|, caller).1;
        CountOne(s.rows);
        forall scope ensures Count(rows', scope) <= 1 {
          CommitCounts(s.rows, base + |tr|, caller, scope);
        }
        CountOne(rows');
      }
    }
  }

  /** Atomic calls keep every scope unique, NULLs or not. */
  lemma AtomicCallsStayUnique(s0: State, base: nat, tr: Trace)
    requires Exec(s0, base, tr).Some? && Atomic(s0, base, tr) && Started(s0) && UniqueScopes(s0.rows)
    ensures UniqueScopes(Exec(s0, base, tr).value.rows)
  {
    AtomicHolds(s0, base, tr);
  }

  /** The smallest overlap: two callers of one team-wide or global setting, both reading
      before either commits, leave two rows. */
  lemma OverlapDuplicates(scope: Scope, v: string, w: string)
    requires NullScope(scope) && !NeedsTeam(scope)
    ensures var s0 := State([], [Caller(scope, Some(v), Idle), Caller(scope, Some(w), Idle)]);
            var r := Exec(s0, 0, [Read(0), Read(1), Commit(0), Commit(1)]);
            r.Some? && Count(r.value.rows, scope) == 2
  {
    var s0 := State([], [Caller(scope, Some(v), Idle), Caller(scope, Some(w), Idle)]);
    var tr := [Read(0), Read(1), Commit(0), Commit(1)];
    assert tr[..3] == [Read(0), Read(1), Commit(0)] && tr[..3][..2] == [Read(0), Read(1)] && tr[..2][..1] == [Read(0)];
    assert [Read(0)][..0] == [];
    var s1 := Apply(s0, 1, Read(0));
    assert Exec(s0, 0, [Read(0)]) == Some(s1);
    var s2 := Apply(s1, 2, Read(1));
    assert Exec(s0, 0, [Read(0), Read(1)]) == Some(s2);
    var s3 := Apply(s2, 3, Commit(0));
    assert Exec(s0, 0, [Read(0), Read(1), Commit(0)]) == Some(s3);
    assert Exec(s0, 0, tr) == Some(Apply(s3, 4, Commit(1)));
    NullScopeRows(s0, 0, tr, scope);
  }

  /** Two rows in a scope are for ever, and every later `config_set` there raises. */
  lemma {:induction false} DuplicatesWedge(s0: State, base: nat, tr: Trace, scope: Scope)
    requires Exec(s0, base, tr).Some? && Count(s0.rows, scope) >= 2 && !NeedsTeam(scope)
    ensures var s := Exec(s0, base, tr).value;
            && Count(s.rows, scope) >= 2
            && ReadStep(s.rows, scope) == Failed(MultipleRows)
            && forall id, value :: Set(s.rows, id, scope, value) == Refused(MultipleRows)
  {
    if tr != [] {
      var init, last := tr[..|tr| - 1], tr[|tr| - 1];
      DuplicatesWedge(s0, base, init, scope);
      var s := Exec(s0, base, init).value;
      if last.Commit? {
        CommitCounts(s.rows, base + |tr|, s.callers[last.c], scope);
      }
    }
  }

  // ------------------------------------------------------------------
  // What the steps write
  // ------------------------------------------------------------------

  /** A read followed at once by its commit is one uninterrupted call: the same table, or the
      same error at the step where it comes up, and nobody else is moved. */
  lemma PairIsSet(s: State, idRead: nat, id: nat, c: nat)
    requires Enabled(s, Read(c))
    ensures var caller := s.callers[c];
            var s1 := Apply(s, idRead, Read(c));
            var whole := Set(s.rows, id, caller.scope, caller.value);
            && s1.rows == s.rows
            && (if Enabled(s1, Commit(c)) then
                  var s2 := Apply(s1, id, Commit(c));
                  match whole
                  case Stored(rows) =>
                    s2 == State(rows, s.callers[c := caller.(pc := Finished)])
                  case Refused(error) =>
                    s2 == s.(callers := s.callers[c := caller.(pc := Failed(error))])
                else
                  whole.Refused? && s1 == s.(callers := s.callers[c := caller.(pc := Failed(whole.error))]))
  {
    var caller := s.callers[c];
    var s1 := Apply(s, idRead, Read(c));
    if Enabled(s1, Commit(c)) {
      var s2 := Apply(s1, id, Commit(c));
      assert s1.callers[c := s2.callers[c]] == s.callers[c := s2.callers[c]];
    }
  }

  /** The callers' arguments never change. */
  lemma {:induction false} SameCallers(s0: State, base: nat, tr: Trace)
    requires Exec(s0, base, tr).Some?
    ensures var s := Exec(s0, base, tr).value;
            |s.callers| == |s0.callers| &&
            forall c :: 0 <= c < |s.callers| ==>
              s.callers[c].scope == s0.callers[c].scope && s.callers[c].value == s0.callers[c].value
  {
    if tr != [] { SameCallers(s0, base, tr[..|tr| - 1]); }
  }

  /** A caller between its two steps saw a row of its scope that is still there, or none. */
  predicate Seen(s: State) {
    forall c :: 0 <= c < |s.callers| && s.callers[c].pc.HasRead? && s.callers[c].pc.existing.Some? ==>
      exists i :: 0 <= i < |s.rows| && s.rows[i].id == s.callers[c].pc.existing.value &&
        s.rows[i].scope == s.callers[c].scope
  }

  predicate IdsUpTo(rows: Table, n: nat) {
    UniqueIds(rows) && forall i :: 0 <= i < |rows| ==> rows[i].id <= n
  }

  lemma SeenStep(s: State, id: nat, e: Event)
    requires Enabled(s, e) && Seen(s) && IdsUpTo(s.rows, id) && forall i :: 0 <= i < |s.rows| ==> s.rows[i].id < id
    ensures Seen(Apply(s, id, e)) && IdsUpTo(Apply(s, id, e).rows, id)
  {
    var t := Apply(s, id, e);
    if e.Commit? {
      assert |t.rows| >= |s.rows|;
      assert forall i :: 0 <= i < |s.rows| ==> t.rows[i].id == s.rows[i].id && t.rows[i].scope == s.rows[i].scope;
    } else if t.callers[e.c].pc.HasRead? && t.callers[e.c].pc.existing.Some? {
      var row := First(s.rows, s.callers[e.c].scope).value;
      var i :| 0 <= i < |s.rows| && s.rows[i] == row;
    }
  }

  lemma {:induction false} SeenHolds(s0: State, base: nat, tr: Trace)
    requires Exec(s0, base, tr).Some? && Started(s0) && IdsUpTo(s0.rows, base)
    ensures var s := Exec(s0, base, tr).value; Seen(s) && IdsUpTo(s.rows, base + |tr|)
  {
    if tr != [] {
      SeenHolds(s0, base, tr[..|tr| - 1]);
      SeenStep(Exec(s0, base, tr[..|tr| - 1]).value, base + |tr|, tr[|tr| - 1]);
    }
  }

  /** Does committing write the row `row`: the one seen, or the one inserted as `id`? */
  predicate Touches(s: State, id: nat, c: nat, row: nat) {
    && c < |s.callers| && s.callers[c].pc.HasRead?
    && match s.callers[c].pc.existing
       case Some(seen) => row == seen
       case None => row == id && (NullScope(s.callers[c].scope) || Count(s.rows, s.callers[c].scope) == 0)
  }

  /** The last caller to have written a row. */
  function Writer(s0: State, base: nat, tr: Trace, row: nat): Option<nat>
    requires Exec(s0, base, tr).Some?
  {
    if tr == [] then None
    else
      var init, last := tr[..|tr| - 1], tr[|tr| - 1];
      if last.Commit? && Touches(Exec(s0, base, init).value, base + |tr|, last.c, row) then Some(last.c)
      else Writer(s0, base, init, row)
  }

  /** Any commit either finishes, having written its value to the row it saw or to a new one of
      its scope and nothing else, or is refused by the index, exactly if it saw none in a full
      scope that has one by now, having written nothing. */
  lemma CommitWrites(s: State, id: nat, c: nat)
    requires Enabled(s, Commit(c)) && Seen(s) && IdsUpTo(s.rows, id)
    requires forall i :: 0 <= i < |s.rows| ==> s.rows[i].id < id
    ensures var caller := s.callers[c];
            var t := Apply(s, id, Commit(c));
            var refused := caller.pc == HasRead(None) && !NullScope(caller.scope) && Count(s.rows, caller.scope) > 0;
            && t.callers[c].pc == (if refused then Failed(IndexViolation) else Finished)
            && (refused ==> t.rows == s.rows)
            && (!refused ==> exists row :: row in t.rows && Touches(s, id, c, row.id) &&
                               row.scope == caller.scope && row.value == caller.value)
            && (forall row: Row :: !Touches(s, id, c, row.id) ==> (row in t.rows <==> row in s.rows))
            && (forall row: Row :: row in t.rows && Touches(s, id, c, row.id) ==>
                  row.scope == caller.scope && row.value == caller.value)
  {
    var caller := s.callers[c];
    var t := Apply(s, id, Commit(c));
    if caller.pc.existing.Some? {
      var i :| 0 <= i < |s.rows| && s.rows[i].id == caller.pc.existing.value && s.rows[i].scope == caller.scope;
      UpdateWrites(s.rows, caller.pc.existing.value, caller.value, i);
    } else if t.callers[c].pc.Finished? {
      AppendWrites(s.rows, Row(id, caller.scope, caller.value));
    }
  }

  lemma AppendWrites(rows: Table, row: Row)
    requires forall i :: 0 <= i < |rows| ==> rows[i].id < row.id
    ensures row in rows + [row]
    ensures forall r: Row :: r.id != row.id ==> (r in rows + [row] <==> r in rows)
    ensures forall r: Row :: r in rows + [row] && r.id == row.id ==> r == row
  {
    assert (rows + [row])[|rows|] == row;
  }

  lemma UpdateWrites(rows: Table, id: nat, value: Option<string>, i: nat)
    requires UniqueIds(rows) && i < |rows| && rows[i].id == id
    ensures var r := Update(rows, id, value);
            && rows[i].(value := value) in r
            && (forall row: Row :: row.id != id ==> (row in r <==> row in rows))
            && (forall row: Row :: row in r && row.id == id ==> row == rows[i].(value := value))
  {
    var r := Update(rows, id, value);
    assert r[i] == rows[i].(value := value);
    forall row: Row | row.id != id ensures row in r <==> row in rows {
      if row in rows {
        var k :| 0 <= k < |rows| && rows[k] == row;
        assert r[k] == row;
      }
    }
    forall row: Row | row in r && row.id == id ensures row == rows[i].(value := value) {
      var k :| 0 <= k < |r| && r[k] == row;
      assert rows[k].id == rows[i].id;
    }
  }

  /** Under every interleaving each row holds the scope and value of the last caller to have
      written it, and rows nobody wrote are as they were. */
  lemma {:induction false} RowsHoldLastWrites(s0: State, base: nat, tr: Trace, row: Row)
    requires Exec(s0, base, tr).Some? && Started(s0) && IdsUpTo(s0.rows, base)
    requires row in Exec(s0, base, tr).value.rows
    ensures match Writer(s0, base, tr, row.id)
            case None => row in s0.rows
            case Some(c) => c < |s0.callers| && row.scope == s0.callers[c].scope && row.value == s0.callers[c].value
  {
    if tr != [] {
      var init, last := tr[..|tr| - 1], tr[|tr| - 1];
      var s := Exec(s0, base, init).value;
      SeenHolds(s0, base, init);
      SameCallers(s0, base, init);
      if last.Commit? {
        CommitWrites(s, base + |tr|, last.c);
        if !Touches(s, base + |tr|, last.c, row.id) { RowsHoldLastWrites(s0, base, init, row); }
      } else {
        RowsHoldLastWrites(s0, base, init, row);
      }
    }
  }

  /** The layered map after the commits of a trace, in order. */
  function Writes(s0: State, tr: Trace): Layers
    requires forall i :: 0 <= i < |tr| ==> tr[i].c < |s0.callers|
  {
    if tr == [] then Abs(s0.rows)
    else
      var m, last := Writes(s0, tr[..|tr| - 1]), tr[|tr| - 1];
      if last.Commit? then m[s0.callers[last.c].scope := s0.callers[last.c].value] else m
  }

  lemma {:induction false} CallersInRange(s0: State, base: nat, tr: Trace)
    requires Exec(s0, base, tr).Some?
    ensures forall i :: 0 <= i < |tr| ==> tr[i].c < |s0.callers|
  {
    if tr != [] {
      CallersInRange(s0, base, tr[..|tr| - 1]);
      SameCallers(s0, base, tr[..|tr| - 1]);
    }
  }

  /** Someone between its two steps saw the row that a read would still find. */
  predicate StillFirst(s: State) {
    forall c :: 0 <= c < |s.callers| && s.callers[c].pc.HasRead? ==>
      var row := First(s.rows, s.callers[c].scope);
      && s.callers[c].pc.existing == (if row.Some? then Some(row.value.id) else None)
      && !NeedsTeam(s.callers[c].scope)
  }

  /** Every atomic trace ends in the layered map of the last writes, and none of its commits is
      refused. */
  lemma {:induction false} AtomicIsLayered(s0: State, base: nat, tr: Trace)
    requires Exec(s0, base, tr).Some? && Atomic(s0, base, tr) && Started(s0)
    requires UniqueScopes(s0.rows) && IdsUpTo(s0.rows, base)
    ensures forall i :: 0 <= i < |tr| ==> tr[i].c < |s0.callers|
    ensures var s := Exec(s0, base, tr).value;
            && Abs(s.rows) == Writes(s0, tr)
            && StillFirst(s)
            && forall c :: 0 <= c < |s.callers| ==> s.callers[c].pc != Failed(IndexViolation)
  {
    CallersInRange(s0, base, tr);
    if tr != [] {
      var init, last := tr[..|tr| - 1], tr[|tr| - 1];
      AtomicIsLayered(s0, base, init);
      AtomicHolds(s0, base, init);
      SeenHolds(s0, base, init);
      SameCallers(s0, base, init);
      var s := Exec(s0, base, init).value;
      if last.Commit? {
        CommitIsSet(s, base + |tr|, last.c);
        SetIsUpdate(s.rows, base + |tr|, s.callers[last.c].scope, s.callers[last.c].value);
      }
    }
  }

  /** A commit that still knows the truth does what the uninterrupted call would. */
  lemma CommitIsSet(s: State, id: nat, c: nat)
    requires Enabled(s, Commit(c)) && StillFirst(s) && UniqueScopes(s.rows)
    ensures var t := Apply(s, id, Commit(c));
            && Set(s.rows, id, s.callers[c].scope, s.callers[c].value) == Stored(t.rows)
            && t.callers[c].pc == Finished
  {
    CountOne(s.rows);
    CountZero(s.rows, s.callers[c].scope);
  }
}
