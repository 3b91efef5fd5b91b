/** The scoped config table: rows with nullable user and team, read in the order user,
    team, global, and the layered map it stands for. */
module ConfigStore {
  import opened Text

  datatype Scope = Scope(user: Option<string>, team: Option<string>, key: string)

  datatype Row = Row(id: nat, scope: Scope, value: Option<string>)

  type Table = seq<Row>

  /** A Python string that is neither None nor empty. */
  predicate Truthy(s: Option<string>) { s.Some? && s.value != "" }

  /** `SELECT ... WHERE user_id = u AND team_id = t AND key = k LIMIT 1`, NULL matched by IS NULL. */
  function First(rows: Table, scope: Scope): (r: Option<Row>)
    ensures r.Some? ==> r.value in rows && r.value.scope == scope
    ensures r.None? <==> forall row :: row in rows ==> row.scope != scope
  {
    if rows == [] then None
    else if rows[0].scope == scope then Some(rows[0])
    else First(rows[1..], scope)
  }

  function Count(rows: Table, scope: Scope): nat {
    if rows == [] then 0
    else Count(rows[..|rows| - 1], scope) + (if rows[|rows| - 1].scope == scope then 1 else 0)
  }

  function ValueAt(rows: Table, scope: Scope): Option<string> {
    var row := First(rows, scope);
    if row.Some? then row.value.value else None
  }

  /** `config_get`. */
  function Get(rows: Table, key: string, user: Option<string>, team: Option<string>): Option<string> {
    var own := if Truthy(user) && Truthy(team) then ValueAt(rows, Scope(user, team, key)) else None;
    if own.Some? then own
    else
      var shared := if Truthy(team) then ValueAt(rows, Scope(None, team, key)) else None;
      if shared.Some? then shared else ValueAt(rows, Scope(None, None, key))
  }

  datatype SetError = NeedTeam | MultipleRows | IndexViolation

  datatype SetResult = Stored(rows: Table) | Refused(error: SetError)

  predicate NeedsTeam(scope: Scope) { scope.user.Some? && scope.team.None? }

  /** Rows may share a scope only if the scope has a NULL: the unique index
      on (user_id, team_id, key) treats NULLs as distinct. */
  predicate IndexOk(rows: Table) {
    forall i, j :: 0 <= i < j < |rows| && rows[i].scope == rows[j].scope ==>
      rows[i].scope.user.None? || rows[i].scope.team.None?
  }

  predicate UniqueScopes(rows: Table) {
    forall i, j :: 0 <= i < j < |rows| ==> rows[i].scope != rows[j].scope
  }

  predicate UniqueIds(rows: Table) {
    forall i, j :: 0 <= i < j < |rows| ==> rows[i].id != rows[j].id
  }

  predicate FreshId(rows: Table, id: nat) {
    forall row :: row in rows ==> row.id != id
  }

  /** The `UPDATE` of one row by primary key. */
  function Update(rows: Table, id: nat, value: Option<string>): (r: Table)
    ensures |r| == |rows|
    ensures forall i :: 0 <= i < |rows| ==>
              r[i] == if rows[i].id == id then rows[i].(value := value) else rows[i]
  {
    seq(|rows|, i requires 0 <= i < |rows| => if rows[i].id == id then rows[i].(value := value) else rows[i])
  }

  /** The `INSERT`, which the index refuses for a fully scoped duplicate. */
  function Insert(rows: Table, id: nat, scope: Scope, value: Option<string>): SetResult {
    if scope.user.Some? && scope.team.Some? && Count(rows, scope) > 0 then Refused(IndexViolation)
    else Stored(rows + [Row(id, scope, value)])
  }

  /** `config_set` run without interruption; `id` is the next primary key. */
  function Set(rows: Table, id: nat, scope: Scope, value: Option<string>): SetResult {
    if NeedsTeam(scope) then Refused(NeedTeam)
    else if Count(rows, scope) > 1 then Refused(MultipleRows)
    else
      var existing := First(rows, scope);
      if existing.Some? then Stored(Update(rows, existing.value.id, value)) else Insert(rows, id, scope, value)
  }

  // ------------------------------------------------------------------
  // Counting rows
  // ------------------------------------------------------------------

  lemma {:induction false} CountZero(rows: Table, scope: Scope)
    ensures Count(rows, scope) == 0 <==> First(rows, scope).None?
  {
    if rows != [] {
      var init, last := rows[..|rows| - 1], rows[|rows| - 1];
      CountZero(init, scope);
      assert rows == init + [last];
    }
  }

  lemma {:induction false} UniqueCount(rows: Table, scope: Scope)
    requires UniqueScopes(rows)
    ensures Count(rows, scope) <= 1
  {
    if rows != [] {
      var init, last := rows[..|rows| - 1], rows[|rows| - 1];
      UniqueCount(init, scope);
      CountZero(init, scope);
      assert last.scope == scope ==> forall row :: row in init ==> row.scope != scope;
    }
  }

  lemma {:induction false} CountPair(rows: Table, i: nat, j: nat)
    requires i < j < |rows| && rows[i].scope == rows[j].scope
    ensures Count(rows, rows[i].scope) >= 2
  {
    var init := rows[..|rows| - 1];
    if j < |rows| - 1 {
      CountPair(init, i, j);
    } else {
      CountZero(init, rows[i].scope);
      assert init[i] == rows[i];
    }
  }

  lemma CountOne(rows: Table)
    ensures UniqueScopes(rows) <==> forall scope :: Count(rows, scope) <= 1
  {
    if UniqueScopes(rows) {
      forall scope ensures Count(rows, scope) <= 1 { UniqueCount(rows, scope); }
    } else {
      var i, j :| 0 <= i < j < |rows| && rows[i].scope == rows[j].scope;
      CountPair(rows, i, j);
    }
  }

  /** Scopes decide the count; values and ids do not. */
  lemma {:induction false} CountUpdate(rows: Table, id: nat, value: Option<string>, scope: Scope)
    ensures Count(Update(rows, id, value), scope) == Count(rows, scope)
  {
    if rows != [] {
      CountUpdate(rows[..|rows| - 1], id, value, scope);
      assert Update(rows, id, value)[..|rows| - 1] == Update(rows[..|rows| - 1], id, value);
    }
  }

  lemma CountInsert(rows: Table, row: Row, scope: Scope)
    ensures Count(rows + [row], scope) == Count(rows, scope) + (if row.scope == scope then 1 else 0)
  {
    assert (rows + [row])[..|rows|] == rows;
  }

  // ------------------------------------------------------------------
  // The layered map
  // ------------------------------------------------------------------

  type Layers = map<Scope, Option<string>>

  function Scopes(rows: Table): set<Scope> {
    set row | row in rows :: row.scope
  }

  function Abs(rows: Table): Layers {
    map scope | scope in Scopes(rows) :: ValueAt(rows, scope)
  }

  function At(m: Layers, scope: Scope): Option<string> {
    if scope in m then m[scope] else None
  }

  /** The scopes a reader looks at, most specific first. */
  function Visible(key: string, user: Option<string>, team: Option<string>): seq<Scope> {
    (if Truthy(user) && Truthy(team) then [Scope(user, team, key)] else []) +
    (if Truthy(team) then [Scope(None, team, key)] else []) +
    [Scope(None, None, key)]
  }

  /** The first non-null value along a list of layers. */
  function FirstValue(m: Layers, scopes: seq<Scope>): Option<string> {
    if scopes == [] then None
    else if At(m, scopes[0]).Some? then At(m, scopes[0])
    else FirstValue(m, scopes[1..])
  }

  /** A read of the table is a lookup in the layered map, whatever the rows. */
  lemma GetIsLayered(rows: Table, key: string, user: Option<string>, team: Option<string>)
    ensures Get(rows, key, user, team) == FirstValue(Abs(rows), Visible(key, user, team))
  {
    var m := Abs(rows);
    var own, shared, all := Scope(user, team, key), Scope(None, team, key), Scope(None, None, key);
    assert forall s :: At(m, s) == ValueAt(rows, s);
    assert [all][1..] == [];
    assert FirstValue(m, [all]) == At(m, all);
    assert [shared, all][1..] == [all];
    assert [own, shared, all][1..] == [shared, all];
    var v := Visible(key, user, team);
    if Truthy(team) {
      assert if Truthy(user) then v == [own, shared, all] else v == [shared, all];
    } else {
      assert v == [all];
    }
  }

  /** On a table with one row for each scope, a set is a map update. */
  lemma {:induction false} SetIsUpdate(rows: Table, id: nat, scope: Scope, value: Option<string>)
    requires UniqueScopes(rows) && UniqueIds(rows) && FreshId(rows, id)
    ensures Set(rows, id, scope, value) == Refused(NeedTeam) <==> scope.user.Some? && scope.team.None?
    ensures !(scope.user.Some? && scope.team.None?) ==>
              var r := Set(rows, id, scope, value);
              r.Stored? && UniqueScopes(r.rows) && UniqueIds(r.rows) && Abs(r.rows) == Abs(rows)[scope := value]
  {
    CountOne(rows);
    CountZero(rows, scope);
    if !NeedsTeam(scope) {
      var existing := First(rows, scope);
      if existing.Some? {
        UpdateInPlace(rows, existing.value, value);
      } else {
        InsertNew(rows, Row(id, scope, value));
      }
    }
  }

  /** The insert is refused exactly if the row would break the unique index. */
  lemma InsertExactly(rows: Table, id: nat, scope: Scope, value: Option<string>)
    requires IndexOk(rows)
    ensures var rows' := rows + [Row(id, scope, value)];
            Insert(rows, id, scope, value) == if IndexOk(rows') then Stored(rows') else Refused(IndexViolation)
  {
    var rows' := rows + [Row(id, scope, value)];
    CountZero(rows, scope);
    assert rows'[|rows|].scope == scope && forall i :: 0 <= i < |rows| ==> rows'[i] == rows[i] && rows[i] in rows;
    if Count(rows, scope) > 0 {
      var row := First(rows, scope).value;
      var i :| 0 <= i < |rows| && rows[i] == row;
      assert rows'[i].scope == rows'[|rows|].scope;
    }
  }

  /** What the index forbids: two rows of one user, team and key. */
  lemma IndexExactly(rows: Table)
    ensures IndexOk(rows) <==>
              forall u: string, t: string, k: string :: Count(rows, Scope(Some(u), Some(t), k)) <= 1
  {
    if IndexOk(rows) {
      forall u: string, t: string, k: string ensures Count(rows, Scope(Some(u), Some(t), k)) <= 1 {
        IndexCount(rows, Scope(Some(u), Some(t), k));
      }
    } else {
      var i, j :| 0 <= i < j < |rows| && rows[i].scope == rows[j].scope &&
                  rows[i].scope.user.Some? && rows[i].scope.team.Some?;
      CountPair(rows, i, j);
      assert rows[i].scope == Scope(Some(rows[i].scope.user.value), Some(rows[i].scope.team.value), rows[i].scope.key);
    }
  }

  lemma {:induction false} IndexCount(rows: Table, scope: Scope)
    requires IndexOk(rows) && scope.user.Some? && scope.team.Some?
    ensures Count(rows, scope) <= 1
  {
    if rows != [] {
      var init, last := rows[..|rows| - 1], rows[|rows| - 1];
      assert forall i :: 0 <= i < |init| ==> init[i] == rows[i];
      IndexCount(init, scope);
      CountZero(init, scope);
      if last.scope == scope {
        forall row | row in init ensures row.scope != scope {
          var i :| 0 <= i < |init| && init[i] == row;
          assert rows[i] == row && rows[|init|] == last;
        }
      }
    }
  }

  lemma {:induction false} UpdateInPlace(rows: Table, row: Row, value: Option<string>)
    requires UniqueScopes(rows) && UniqueIds(rows) && row in rows
    ensures var rows' := Update(rows, row.id, value);
            UniqueScopes(rows') && UniqueIds(rows') && Abs(rows') == Abs(rows)[row.scope := value]
  {
    var rows' := Update(rows, row.id, value);
    var e :| 0 <= e < |rows| && rows[e] == row;
    assert rows'[e] == row.(value := value);
    assert forall i :: 0 <= i < |rows| && i != e ==> rows'[i] == rows[i];
    forall r: Row | r.scope != row.scope ensures r in rows <==> r in rows' {
      if r in rows {
        var i :| 0 <= i < |rows| && rows[i] == r;
        assert rows'[i] == r;
      }
    }
    AbsChanged(rows, rows', row.scope, value);
  }

  lemma {:induction false} InsertNew(rows: Table, row: Row)
    requires UniqueScopes(rows) && UniqueIds(rows) && FreshId(rows, row.id) && First(rows, row.scope).None?
    ensures var rows' := rows + [row];
            UniqueScopes(rows') && UniqueIds(rows') && Abs(rows') == Abs(rows)[row.scope := row.value]
  {
    var rows' := rows + [row];
    assert forall i :: 0 <= i < |rows| ==> rows'[i] == rows[i] && rows[i] in rows;
    assert rows'[|rows|] == row;
    AbsChanged(rows, rows', row.scope, row.value);
  }

  /** A table that differs only in the row of one scope. */
  lemma {:induction false} AbsChanged(rows: Table, rows': Table, scope: Scope, value: Option<string>)
    requires UniqueScopes(rows) && UniqueScopes(rows')
    requires exists row :: row in rows' && row.scope == scope && row.value == value
    requires forall row: Row :: row.scope != scope ==> (row in rows <==> row in rows')
    ensures Abs(rows') == Abs(rows)[scope := value]
  {
    forall s | s != scope
      ensures s in Scopes(rows) <==> s in Scopes(rows')
      ensures ValueAt(rows, s) == ValueAt(rows', s)
    {
      SameElsewhere(rows, rows', s);
    }
    var row :| row in rows' && row.scope == scope && row.value == value;
    FirstUnique(rows', row);
  }

  lemma SameElsewhere(rows: Table, rows': Table, scope: Scope)
    requires UniqueScopes(rows) && UniqueScopes(rows')
    requires forall row: Row :: row.scope == scope ==> (row in rows <==> row in rows')
    ensures scope in Scopes(rows) <==> scope in Scopes(rows')
    ensures ValueAt(rows, scope) == ValueAt(rows', scope)
  {
    if row :| row in rows && row.scope == scope {
      FirstUnique(rows, row);
      FirstUnique(rows', row);
    }
  }

  lemma {:induction false} FirstUnique(rows: Table, row: Row)
    requires UniqueScopes(rows) && row in rows
    ensures First(rows, row.scope) == Some(row)
  {
    var f := First(rows, row.scope).value;
    var i :| 0 <= i < |rows| && rows[i] == row;
    var j :| 0 <= j < |rows| && rows[j] == f;
    assert i == j;
  }

  /** A set keeps the primary keys distinct and below the next one. */
  lemma {:induction false} KeepsIds(rows: Table, id: nat, scope: Scope, value: Option<string>)
    requires UniqueIds(rows) && forall row :: row in rows ==> row.id < id
    ensures var r := Set(rows, id, scope, value);
            r.Stored? ==> UniqueIds(r.rows) && forall row :: row in r.rows ==> row.id <= id
    ensures var r := Set(rows, id, scope, value);
            r.Stored? && First(rows, scope).Some? ==> forall row :: row in r.rows ==> row.id < id
  {
    var existing := First(rows, scope);
    if existing.Some? {
      UpdateKeepsIds(rows, existing.value.id, value);
      assert forall row :: row in Update(rows, existing.value.id, value) ==> row.id < id;
    } else {
      assert forall i :: 0 <= i < |rows| ==> rows[i] in rows;
    }
  }

  lemma UpdateKeepsIds(rows: Table, id: nat, value: Option<string>)
    ensures var r := Update(rows, id, value);
            forall i :: 0 <= i < |rows| ==> r[i].id == rows[i].id && rows[i] in rows
  {}

  // ------------------------------------------------------------------
  // Sequences of sets
  // ------------------------------------------------------------------

  datatype SetCall = SetCall(scope: Scope, value: Option<string>)

  /** The table after a list of uninterrupted calls; each takes the next primary key. */
  function RunSets(calls: seq<SetCall>): Table {
    if calls == [] then []
    else
      var rows := RunSets(calls[..|calls| - 1]);
      var c := calls[|calls| - 1];
      match Set(rows, |calls|, c.scope, c.value)
      case Stored(rows') => rows'
      case Refused(_) => rows
  }

  /** The layered map after the same calls: the last value written to each scope. */
  function RunLayers(calls: seq<SetCall>): Layers {
    if calls == [] then map[]
    else
      var m, c := RunLayers(calls[..|calls| - 1]), calls[|calls| - 1];
      if NeedsTeam(c.scope) then m else m[c.scope := c.value]
  }

  /** Over every sequence of calls each scope has at most one row, and the table stands for
      the map of last writes. */
  lemma {:induction false} SetsRefineLayers(calls: seq<SetCall>)
    ensures UniqueScopes(RunSets(calls)) && UniqueIds(RunSets(calls))
    ensures forall row :: row in RunSets(calls) ==> row.id <= |calls|
    ensures Abs(RunSets(calls)) == RunLayers(calls)
  {
    if calls != [] {
      var c := calls[|calls| - 1];
      var rows := RunSets(calls[..|calls| - 1]);
      SetsRefineLayers(calls[..|calls| - 1]);
      SetIsUpdate(rows, |calls|, c.scope, c.value);
      if !NeedsTeam(c.scope) {
        var rows' := RunSets(calls);
        if First(rows, c.scope).Some? {
          assert forall i :: 0 <= i < |rows| ==> rows'[i].id == rows[i].id && rows[i] in rows;
        }
      }
    }
  }

  // ------------------------------------------------------------------
  // What a set means to readers
  // ------------------------------------------------------------------

  /** Scopes some reader looks at: no empty identifiers, and no user without a team. */
  predicate Readable(scope: Scope) {
    && (scope.team.Some? ==> Truthy(scope.team))
    && (scope.user.Some? ==> Truthy(scope.user) && scope.team.Some?)
  }

  /** A get in the scope of a preceding set returns the value, if the scope is readable; if
      an identifier is empty, no reader ever sees the row. */
  lemma {:induction false} GetAfterSet(rows: Table, id: nat, scope: Scope, value: string)
    requires UniqueScopes(rows) && UniqueIds(rows) && FreshId(rows, id) && !NeedsTeam(scope)
    ensures var r := Set(rows, id, scope, Some(value));
            && r.Stored?
            && (Readable(scope) ==> Get(r.rows, scope.key, scope.user, scope.team) == Some(value))
            && (!Readable(scope) ==> forall k, u, t :: Get(r.rows, k, u, t) == Get(rows, k, u, t))
  {
    SetIsUpdate(rows, id, scope, Some(value));
    var rows' := Set(rows, id, scope, Some(value)).rows;
    ValueAfterSet(rows, rows', scope, Some(value));
    if !Readable(scope) {
      forall k, u, t ensures Get(rows', k, u, t) == Get(rows, k, u, t) {
        UnreadableUnseen(scope, k, u, t);
        UnseenScope(rows, rows', scope, k, u, t);
      }
    }
  }

  /** Readers see no change in a scope they do not look at. */
  lemma UnseenScope(rows: Table, rows': Table, scope: Scope, k: string, u: Option<string>, t: Option<string>)
    requires scope !in Visible(k, u, t) && forall s :: s != scope ==> ValueAt(rows', s) == ValueAt(rows, s)
    ensures Get(rows', k, u, t) == Get(rows, k, u, t)
  {
    var v := Visible(k, u, t);
    assert Truthy(t) ==> Scope(None, t, k) in v && (Truthy(u) ==> Scope(u, t, k) in v);
    assert Scope(None, None, k) in v;
  }

  lemma UnreadableUnseen(scope: Scope, k: string, u: Option<string>, t: Option<string>)
    requires !Readable(scope)
    ensures scope !in Visible(k, u, t)
  {}

  lemma ValueAfterSet(rows: Table, rows': Table, scope: Scope, value: Option<string>)
    requires Abs(rows') == Abs(rows)[scope := value]
    ensures forall s :: ValueAt(rows', s) == if s == scope then value else ValueAt(rows, s)
  {
    forall s ensures ValueAt(rows', s) == if s == scope then value else ValueAt(rows, s) {
      assert At(Abs(rows'), s) == ValueAt(rows', s);
      assert At(Abs(rows), s) == ValueAt(rows, s);
    }
  }

  /** A team-wide set is seen by exactly the members without a value of their own. */
  lemma {:induction false} TeamWideSeen(rows: Table, id: nat, key: string, team: string, user: string, value: string)
    requires UniqueScopes(rows) && UniqueIds(rows) && FreshId(rows, id) && team != "" && user != ""
    ensures var r := Set(rows, id, Scope(None, Some(team), key), Some(value));
            var own := ValueAt(rows, Scope(Some(user), Some(team), key));
            && r.Stored?
            && Get(r.rows, key, Some(user), Some(team)) == if own.Some? then own else Some(value)
  {
    var scope := Scope(None, Some(team), key);
    SetIsUpdate(rows, id, scope, Some(value));
    ValueAfterSet(rows, Set(rows, id, scope, Some(value)).rows, scope, Some(value));
  }

  /** A set in one team changes nothing in another, nor for another key or another user; a
      global set reaches only readers whose team and user layers are empty. */
  lemma {:induction false} SetsStayInScope(rows: Table, id: nat, scope: Scope, value: string,
                        key: string, user: Option<string>, team: Option<string>)
    requires UniqueScopes(rows) && UniqueIds(rows) && FreshId(rows, id) && !NeedsTeam(scope)
    ensures var r := Set(rows, id, scope, Some(value));
            && r.Stored?
            && (scope !in Visible(key, user, team) ==> Get(r.rows, key, user, team) == Get(rows, key, user, team))
            && (scope == Scope(None, None, key) && Truthy(team) &&
                (ValueAt(rows, Scope(None, team, key)).Some? ||
                 (Truthy(user) && ValueAt(rows, Scope(user, team, key)).Some?))
                ==> Get(r.rows, key, user, team) == Get(rows, key, user, team))
    ensures scope.team.Some? && scope.team != team ==> scope !in Visible(key, user, team)
  {
    SetIsUpdate(rows, id, scope, Some(value));
    var rows' := Set(rows, id, scope, Some(value)).rows;
    ValueAfterSet(rows, rows', scope, Some(value));
    if scope !in Visible(key, user, team) {
      UnseenScope(rows, rows', scope, key, user, team);
    }
  }

  // ------------------------------------------------------------------
  // The store object
  // ------------------------------------------------------------------

  class Store {
    var rows: Table
    var nextId: nat

    ghost predicate Valid()
      reads this
    {
      UniqueIds(rows) && forall row :: row in rows ==> row.id < nextId
    }

    constructor ()
      ensures Valid() && rows == []
    {
      rows, nextId := [], 0;
    }

    /** The rows of a scope, as the `SELECT` of `config_set` returns them. */
    method Query(scope: Scope) returns (found: nat, first: Option<Row>)
      ensures found == Count(rows, scope) && first == First(rows, scope)
    {
      found, first := 0, None;
      var i := 0;
      while i < |rows|
        invariant 0 <= i <= |rows|
        invariant found == Count(rows[..i], scope)
        invariant if first.Some? then first == First(rows, scope) else First(rows, scope) == First(rows[i..], scope)
        invariant first.None? <==> found == 0
      {
        assert rows[i..][0] == rows[i] && rows[i..][1..] == rows[i + 1..];
        if rows[i].scope == scope {
          if found == 0 { first := Some(rows[i]); }
          found := found + 1;
        }
        assert rows[..i + 1][..i] == rows[..i];
        i := i + 1;
      }
      assert rows[..i] == rows;
      CountZero(rows, scope);
    }

    method ConfigGet(key: string, user: Option<string>, team: Option<string>) returns (value: Option<string>)
      ensures value == FirstValue(Abs(rows), Visible(key, user, team))
    {
      GetIsLayered(rows, key, user, team);
      if Truthy(user) && Truthy(team) {
        var _, row := Query(Scope(user, team, key));
        if row.Some? && row.value.value.Some? { return row.value.value; }
      }
      if Truthy(team) {
        var _, row := Query(Scope(None, team, key));
        if row.Some? && row.value.value.Some? { return row.value.value; }
      }
      var _, row := Query(Scope(None, None, key));
      return if row.Some? then row.value.value else None;
    }

    /** The `UPDATE` that commits a changed `existing.value`. */
    method UpdateRow(id: nat, value: Option<string>)
      modifies this`rows
      ensures rows == Update(old(rows), id, value)
    {
      var i := 0;
      while i < |rows|
        invariant 0 <= i <= |rows| == |old(rows)|
        invariant forall j :: 0 <= j < i ==> rows[j] == Update(old(rows), id, value)[j]
        invariant forall j :: i <= j < |rows| ==> rows[j] == old(rows)[j]
      {
        if rows[i].id == id {
          rows := rows[i := rows[i].(value := value)];
        }
        i := i + 1;
      }
    }

    /** `config_set` with nobody else writing; `None` is success. */
    method ConfigSet(scope: Scope, value: Option<string>) returns (error: Option<SetError>)
      requires Valid()
      modifies this
      ensures Valid()
      ensures error.Some? ==> rows == old(rows) && Set(rows, old(nextId), scope, value) == Refused(error.value)
      ensures error.None? ==> Set(old(rows), old(nextId), scope, value) == Stored(rows)
      ensures error.None? && old(UniqueScopes(rows)) ==>
                UniqueScopes(rows) && Abs(rows) == old(Abs(rows))[scope := value]
    {
      assert FreshId(rows, nextId);
      if UniqueScopes(rows) {
        SetIsUpdate(rows, nextId, scope, value);
      }
      KeepsIds(rows, nextId, scope, value);
      if scope.user.Some? && scope.team.None? { return Some(NeedTeam); }
      var found, existing := Query(scope);
      CountZero(rows, scope);
      if found > 1 { return Some(MultipleRows); }
      if existing.Some? {
        UpdateRow(existing.value.id, value);
      } else {
        rows := rows + [Row(nextId, scope, value)];
        nextId := nextId + 1;
      }
      return None;
    }
  }
}
