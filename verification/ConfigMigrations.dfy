/** The two migrations that gave the config table its scopes, as SQL statements over rows:
    each method is one migration step, each loop the statement's pass over the table. */
module ConfigMigrations {
  import opened Text
  import opened ConfigStore

  /** A row of the table as it was: one value for each key. */
  datatype OldRow = OldRow(id: nat, key: string, value: Option<string>)

  predicate UniqueOldKeys(old_: seq<OldRow>) {
    forall i, j :: 0 <= i < j < |old_| ==> old_[i].key != old_[j].key && old_[i].id != old_[j].id
  }

  /** What the old `config_get` returned for a key. */
  function OldLookup(old_: seq<OldRow>, key: string): Option<string> {
    if old_ == [] then None
    else if old_[0].key == key then old_[0].value
    else OldLookup(old_[1..], key)
  }

  /** `ADD COLUMN user_id`, `ADD COLUMN team_id`: NULL everywhere. */
  function WithColumns(old_: seq<OldRow>): (rows: Table)
    ensures |rows| == |old_|
    ensures forall i :: 0 <= i < |rows| ==>
              rows[i] == Row(old_[i].id, Scope(None, None, old_[i].key), old_[i].value)
  {
    seq(|old_|, i requires 0 <= i < |old_| => Row(old_[i].id, Scope(None, None, old_[i].key), old_[i].value))
  }

  /** The team that inherits the old settings: the admin's, else anybody's. */
  function ChosenTeam(admin: Option<string>, any: Option<string>): Option<string> {
    if admin.Some? then admin else any
  }

  /** The rows without their scopes. */
  function WithoutColumns(rows: Table): (old_: seq<OldRow>)
    ensures |old_| == |rows|
    ensures forall i :: 0 <= i < |rows| ==> old_[i] == OldRow(rows[i].id, rows[i].scope.key, rows[i].value)
  {
    seq(|rows|, i requires 0 <= i < |rows| => OldRow(rows[i].id, rows[i].scope.key, rows[i].value))
  }

  function Assign(row: Row, team: string): Row {
    if row.scope.team.None? then row.(scope := row.scope.(team := Some(team))) else row
  }

  /** `UPDATE config SET team_id = T WHERE team_id IS NULL`. */
  function Assigned(rows: Table, team: string): (r: Table)
    ensures |r| == |rows| && forall i :: 0 <= i < |rows| ==> r[i] == Assign(rows[i], team)
  {
    seq(|rows|, i requires 0 <= i < |rows| => Assign(rows[i], team))
  }

  /** `DELETE FROM config WHERE team_id IS NULL`. */
  function Scoped(rows: Table): Table {
    if rows == [] then []
    else Scoped(rows[..|rows| - 1]) + (if rows[|rows| - 1].scope.team.None? then [] else [rows[|rows| - 1]])
  }

  predicate HasKey(rows: Table, key: string) {
    exists row :: row in rows && row.scope.key == key
  }

  /** What `INSERT OR IGNORE` under `UNIQUE(key)` keeps: the first row of each key. */
  function FirstPerKey(rows: Table): Table {
    if rows == [] then []
    else
      var kept := FirstPerKey(rows[..|rows| - 1]);
      if HasKey(kept, rows[|rows| - 1].scope.key) then kept else kept + [rows[|rows| - 1]]
  }

  predicate UniqueKeys(rows: Table) {
    forall i, j :: 0 <= i < j < |rows| ==> rows[i].scope.key != rows[j].scope.key
  }

  /** The UPDATE with its first `n` rows done. */
  function HalfAssigned(rows: Table, team: string, n: nat): (r: Table)
    ensures |r| == |rows|
    ensures forall i :: 0 <= i < |rows| ==> r[i] == if i < n then Assign(rows[i], team) else rows[i]
  {
    seq(|rows|, i requires 0 <= i < |rows| => if i < n then Assign(rows[i], team) else rows[i])
  }

  /** Would row `i`, rewritten to `row`, duplicate another one in the unique index? */
  predicate Violates(rows: Table, i: nat, row: Row) {
    && row.scope.user.Some? && row.scope.team.Some?
    && exists j :: 0 <= j < |rows| && j != i && rows[j].scope == row.scope
  }

  /** The check before a row is rewritten is the index's own condition. */
  lemma ViolatesExactly(rows: Table, i: nat, row: Row)
    requires i < |rows| && IndexOk(rows)
    ensures Violates(rows, i, row) <==> !IndexOk(rows[i := row])
  {
    var t := rows[i := row];
    if j :| 0 <= j < |rows| && j != i && rows[j].scope == row.scope && row.scope.user.Some? && row.scope.team.Some? {
      assert t[j] == rows[j] && t[i] == row;
    }
  }

  /** Only rows without a team get one, and keep everything else. */
  lemma AssignedExactly(rows: Table, team: string, i: nat)
    requires i < |rows|
    ensures var row := Assigned(rows, team)[i];
            && row.id == rows[i].id && row.value == rows[i].value
            && row.scope.user == rows[i].scope.user && row.scope.key == rows[i].scope.key
            && row.scope.team == Some(if rows[i].scope.team.Some? then rows[i].scope.team.value else team)
  {}

  /** What the DELETE keeps, each row as often as before. */
  lemma {:induction false} ScopedExactly(rows: Table, row: Row)
    ensures multiset(Scoped(rows))[row] == if row.scope.team.Some? then multiset(rows)[row] else 0
  {
    if rows != [] {
      ScopedExactly(rows[..|rows| - 1], row);
      assert rows == rows[..|rows| - 1] + [rows[|rows| - 1]];
    }
  }

  lemma NeverViolates(rows: Table, team: string, i: nat)
    requires UniqueKeys(rows) && i < |rows|
    ensures !Violates(HalfAssigned(rows, team, i), i, Assign(rows[i], team))
  {
    var half := HalfAssigned(rows, team, i);
    forall j | 0 <= j < |rows| && j != i ensures half[j].scope != Assign(rows[i], team).scope {
      assert half[j].scope.key == rows[j].scope.key;
    }
  }

  class Database {
    var config: Table

    constructor (config: Table)
      ensures this.config == config
    {
      this.config := config;
    }

    /** Building the composite unique index; it fails on rows that already violate it. */
    method CreateUniqueIndex() returns (ok: bool)
      ensures ok <==> IndexOk(config)
    {
      var i := 0;
      while i < |config|
        invariant 0 <= i <= |config|
        invariant IndexOk(config[..i])
      {
        if config[i].scope.user.Some? && config[i].scope.team.Some? && First(config[..i], config[i].scope).Some? {
          assert !IndexOk(config) by {
            var row := First(config[..i], config[i].scope).value;
            var j :| 0 <= j < i && config[..i][j] == row;
            assert config[j].scope == config[i].scope;
          }
          return false;
        }
        assert forall j :: 0 <= j < i ==> config[..i][j] == config[j] && config[j] in config[..i];
        i := i + 1;
      }
      assert config[..i] == config;
      return true;
    }

    /** Revision c78d76a6d65c, after its columns were added. False: a statement violated the
        unique index and the transaction was rolled back. */
    method AddTeams(admin: Option<string>, any: Option<string>) returns (ok: bool)
      modifies this
      ensures !ok ==> config == old(config)
      ensures ok ==> var team := ChosenTeam(admin, any);
                     config == if team.Some? then Assigned(old(config), team.value) else Scoped(old(config))
      ensures old(UniqueKeys(config)) ==> ok
    {
      ok := CreateUniqueIndex();
      if !ok { return; }
      var team := ChosenTeam(admin, any);
      if team.Some? {
        ok := AssignTeam(team.value);
      } else {
        DeleteUnscoped();
      }
    }

    /** The UPDATE, checked against the index row by row and undone if one row fails. */
    method AssignTeam(team: string) returns (ok: bool)
      modifies this
      ensures config == if ok then Assigned(old(config), team) else old(config)
      ensures old(UniqueKeys(config)) ==> ok
      // It fails exactly if the rows it would leave break the index.
      ensures old(IndexOk(config)) ==> (ok <==> IndexOk(Assigned(old(config), team)))
    {
      var before := config;
      var i := 0;
      while i < |before|
        invariant 0 <= i <= |before|
        invariant config == HalfAssigned(before, team, i)
        invariant IndexOk(before) ==> IndexOk(config)
      {
        var row := Assign(before[i], team);
        if IndexOk(config) { ViolatesExactly(config, i, row); }
        if Violates(config, i, row) {
          if UniqueKeys(before) { NeverViolates(before, team, i); }
          config := before;
          return false;
        }
        config := config[i := row];
        i := i + 1;
      }
      assert config == Assigned(before, team);
      return true;
    }

    /** The DELETE. */
    method DeleteUnscoped()
      modifies this
      ensures config == Scoped(old(config))
    {
      var before := config;
      var i := 0;
      config := [];
      while i < |before|
        invariant 0 <= i <= |before|
        invariant config == Scoped(before[..i])
      {
        assert before[..i + 1][..i] == before[..i];
        if before[i].scope.team.Some? {
          config := config + [before[i]];
        }
        i := i + 1;
      }
      assert before[..i] == before;
    }

    /** Revision 84accba9dc2c on SQLite: copy every row into a table without `UNIQUE(key)`. */
    method RecreateTable() returns (ok: bool)
      modifies this
      ensures config == old(config)
      ensures ok <==> IndexOk(config)
    {
      var copy: Table := [];
      var i := 0;
      while i < |config|
        invariant 0 <= i <= |config|
        invariant copy == config[..i]
      {
        copy := copy + [config[i]];
        i := i + 1;
      }
      config := copy;
      ok := CreateUniqueIndex();
    }

    /** The downgrade of 84accba9dc2c: `INSERT OR IGNORE` into a table with `UNIQUE(key)`. */
    method RestoreUniqueKey()
      modifies this
      ensures config == FirstPerKey(old(config))
    {
      var copy: Table := [];
      var i := 0;
      while i < |config|
        invariant 0 <= i <= |config|
        invariant copy == FirstPerKey(config[..i])
      {
        assert config[..i + 1][..i] == config[..i];
        if !HasKey(copy, config[i].scope.key) {
          copy := copy + [config[i]];
        }
        i := i + 1;
      }
      assert config[..i] == config;
      config := copy;
    }

    /** The downgrade of c78d76a6d65c on SQLite: copy the rows without their scopes, then
        build the unique index on the key, which fails on duplicates. */
    method DropTeams() returns (copy: seq<OldRow>, ok: bool)
      ensures copy == WithoutColumns(config)
      ensures ok <==> UniqueKeys(config)
    {
      copy := [];
      ok := true;
      var i := 0;
      while i < |config|
        invariant 0 <= i <= |config|
        invariant copy == WithoutColumns(config[..i])
        invariant ok <==> UniqueKeys(config[..i])
      {
        var row := config[i];
        KeysAppend(config[..i], row);
        assert config[..i + 1] == config[..i] + [row];
        ok := ok && !HasKey(config[..i], row.scope.key);
        copy := copy + [OldRow(row.id, row.scope.key, row.value)];
        i := i + 1;
      }
      assert config[..i] == config;
    }
  }

  lemma KeysAppend(rows: Table, row: Row)
    ensures UniqueKeys(rows + [row]) <==> UniqueKeys(rows) && !HasKey(rows, row.scope.key)
  {
    var rows' := rows + [row];
    assert forall i :: 0 <= i < |rows| ==> rows'[i] == rows[i] && rows[i] in rows;
    if HasKey(rows, row.scope.key) {
      var r :| r in rows && r.scope.key == row.scope.key;
      var j :| 0 <= j < |rows| && rows[j] == r;
      assert rows'[j].scope.key == rows'[|rows|].scope.key;
    } else if UniqueKeys(rows') {
      assert forall i, j :: 0 <= i < j < |rows| ==> rows'[i].scope.key != rows'[j].scope.key;
    }
  }

  // ------------------------------------------------------------------
  // Meaning
  // ------------------------------------------------------------------

  lemma {:induction false} OldLookupRow(old_: seq<OldRow>, key: string)
    ensures if exists i :: 0 <= i < |old_| && old_[i].key == key
            then exists i :: 0 <= i < |old_| && old_[i].key == key && old_[i].value == OldLookup(old_, key)
            else OldLookup(old_, key) == None
  {
    if old_ != [] && old_[0].key != key {
      OldLookupRow(old_[1..], key);
      if i :| 0 <= i < |old_| && old_[i].key == key {
        assert old_[1..][i - 1].key == key;
        var j :| 0 <= j < |old_[1..]| && old_[1..][j].key == key && old_[1..][j].value == OldLookup(old_[1..], key);
        assert old_[j + 1] == old_[1..][j];
      } else {
        assert forall j :: 0 <= j < |old_[1..]| ==> old_[1..][j] == old_[j + 1];
      }
    }
  }

  /** The rows both upgrades end with. */
  lemma UpgradedRows(old_: seq<OldRow>, team: string)
    requires UniqueOldKeys(old_)
    ensures var rows := Assigned(WithColumns(old_), team);
            && |rows| == |old_|
            && (forall i :: 0 <= i < |rows| ==>
                  rows[i] == Row(old_[i].id, Scope(None, Some(team), old_[i].key), old_[i].value))
            && IndexOk(rows) && UniqueScopes(rows) && UniqueIds(rows)
  {}

  lemma {:induction false} UpgradedValue(old_: seq<OldRow>, team: string, key: string)
    requires UniqueOldKeys(old_)
    ensures ValueAt(Assigned(WithColumns(old_), team), Scope(None, Some(team), key)) == OldLookup(old_, key)
  {
    var rows := Assigned(WithColumns(old_), team);
    UpgradedRows(old_, team);
    OldLookupRow(old_, key);
    if i :| 0 <= i < |old_| && old_[i].key == key && old_[i].value == OldLookup(old_, key) {
      FirstUnique(rows, rows[i]);
    }
  }

  /** For any old table and any chosen team, every member of that team reads after both
      upgrades what the old lookup returned, and nobody outside it reads anything. */
  lemma {:induction false} UpgradeKeepsLookups(old_: seq<OldRow>, team: string, key: string, user: Option<string>,
        reader: string)
    requires UniqueOldKeys(old_) && team != ""
    ensures var rows := Assigned(WithColumns(old_), team);
            && Get(rows, key, user, Some(team)) == OldLookup(old_, key)
            && (reader != team ==> Get(rows, key, user, Some(reader)) == None)
  {
    var rows := Assigned(WithColumns(old_), team);
    UpgradedRows(old_, team);
    UpgradedValue(old_, team, key);
    forall scope: Scope | scope.user.Some? || scope.team != Some(team) ensures ValueAt(rows, scope) == None {
      assert forall row :: row in rows ==> row.scope.user.None? && row.scope.team == Some(team);
    }
  }

  /** Without any team the old settings are gone. */
  lemma {:induction false} NoTeamNoRows(rows: Table)
    requires forall row :: row in rows ==> row.scope.team.None?
    ensures Scoped(rows) == []
  {
    if rows != [] {
      assert rows[|rows| - 1] in rows;
      NoTeamNoRows(rows[..|rows| - 1]);
    }
  }

  /** Both upgrades in order, from any old table with unique keys: neither violates the index,
      and the result is the one `UpgradeKeepsLookups` speaks of. */
  method Upgrade(old_: seq<OldRow>, admin: Option<string>, any: Option<string>) returns (rows: Table)
    requires UniqueOldKeys(old_)
    ensures var team := ChosenTeam(admin, any);
            rows == if team.Some? then Assigned(WithColumns(old_), team.value) else []
    ensures var team := ChosenTeam(admin, any);
            team.Some? && team.value != "" ==>
              forall key, user :: Get(rows, key, user, team) == OldLookup(old_, key)
    // The admin's team inherits if there is one, else any team, and nobody else reads anything.
    ensures admin != Some("") && any != Some("") ==>
              forall reader, key, user ::
                Get(rows, key, user, Some(reader)) ==
                  if admin == Some(reader) || (admin.None? && any == Some(reader)) then OldLookup(old_, key) else None
  {
    var db := new Database(WithColumns(old_));
    var ok := db.AddTeams(admin, any);
    assert ok;
    var team := ChosenTeam(admin, any);
    NoTeamNoRows(WithColumns(old_));
    ok := db.RecreateTable();
    rows := db.config;
    if team.Some? && team.value != "" {
      forall key, user ensures Get(rows, key, user, team) == OldLookup(old_, key) {
        UpgradeKeepsLookups(old_, team.value, key, user, team.value);
      }
    }
    if admin != Some("") && any != Some("") {
      forall reader, key, user
        ensures Get(rows, key, user, Some(reader)) ==
                  if admin == Some(reader) || (admin.None? && any == Some(reader)) then OldLookup(old_, key) else None
      {
        if team.Some? { UpgradeKeepsLookups(old_, team.value, key, user, reader); }
      }
    }
  }

  /** `row` is the first of its key. */
  predicate IsFirst(rows: Table, row: Row) {
    exists i :: 0 <= i < |rows| && rows[i] == row && forall j :: 0 <= j < i ==> rows[j].scope.key != row.scope.key
  }

  lemma {:induction false} FirstPerKeyKeys(rows: Table)
    ensures UniqueKeys(FirstPerKey(rows))
    ensures forall key :: HasKey(FirstPerKey(rows), key) <==> HasKey(rows, key)
  {
    if rows != [] {
      var init, last := rows[..|rows| - 1], rows[|rows| - 1];
      FirstPerKeyKeys(init);
      var kept := FirstPerKey(init);
      HasKeyAppend(init, last);
      HasKeyAppend(kept, last);
      assert rows == init + [last];
      if !HasKey(kept, last.scope.key) {
        assert forall i :: 0 <= i < |kept| ==> kept[i] in kept;
      }
    }
  }

  lemma HasKeyAppend(rows: Table, last: Row)
    ensures forall key :: HasKey(rows + [last], key) <==> HasKey(rows, key) || key == last.scope.key
  {
    forall key ensures HasKey(rows + [last], key) <==> HasKey(rows, key) || key == last.scope.key {
      if HasKey(rows, key) {
        var row :| row in rows && row.scope.key == key;
        assert row in rows + [last];
      }
      assert last in rows + [last];
    }
  }

  lemma {:induction false} FirstPerKeyFirsts(rows: Table, row: Row)
    requires row in FirstPerKey(rows)
    ensures IsFirst(rows, row)
  {
    var init, last := rows[..|rows| - 1], rows[|rows| - 1];
    assert rows == init + [last];
    if row in FirstPerKey(init) {
      FirstPerKeyFirsts(init, row);
      var i :| 0 <= i < |init| && init[i] == row && forall j :: 0 <= j < i ==> init[j].scope.key != row.scope.key;
      assert rows[i] == row;
    } else {
      FirstPerKeyKeys(init);
      assert row == last && rows[|init|] == row && !HasKey(init, row.scope.key);
      forall j | 0 <= j < |init| ensures rows[j].scope.key != row.scope.key {
        assert rows[j] in init;
      }
    }
  }

  lemma {:induction false} FirstPerKeyWhole(rows: Table)
    requires UniqueKeys(rows)
    ensures FirstPerKey(rows) == rows
  {
    if rows != [] {
      var init, last := rows[..|rows| - 1], rows[|rows| - 1];
      LastKeyIsNew(rows);
      FirstPerKeyWhole(init);
      FirstPerKeyNew(rows);
      assert rows == init + [last];
    }
  }

  lemma FirstPerKeyNew(rows: Table)
    requires rows != [] && !HasKey(FirstPerKey(rows[..|rows| - 1]), rows[|rows| - 1].scope.key)
    ensures FirstPerKey(rows) == FirstPerKey(rows[..|rows| - 1]) + [rows[|rows| - 1]]
  {}

  lemma LastKeyIsNew(rows: Table)
    requires rows != [] && UniqueKeys(rows)
    ensures UniqueKeys(rows[..|rows| - 1]) && !HasKey(rows[..|rows| - 1], rows[|rows| - 1].scope.key)
  {
    var init, last := rows[..|rows| - 1], rows[|rows| - 1];
    forall row | row in init ensures row.scope.key != last.scope.key {
      var j :| 0 <= j < |init| && init[j] == row;
      assert rows[j] == row;
    }
  }

  /** The downgrade keeps exactly one row for each distinct key, its first one, and loses
      nothing exactly when the keys were unique already. */
  lemma DowngradeKeepsFirsts(rows: Table)
    ensures var kept := FirstPerKey(rows);
            && UniqueKeys(kept)
            && (forall key :: HasKey(kept, key) <==> HasKey(rows, key))
            && (forall row :: row in kept ==> IsFirst(rows, row))
            && (kept == rows <==> UniqueKeys(rows))
  {
    FirstPerKeyKeys(rows);
    if UniqueKeys(rows) { FirstPerKeyWhole(rows); }
    forall row | row in FirstPerKey(rows) ensures IsFirst(rows, row) {
      FirstPerKeyFirsts(rows, row);
    }
  }

  /** Both downgrades in order: from any table they succeed, and straight after the upgrades
      they give the old table back, row for row. */
  method Downgrade(rows: Table) returns (old_: seq<OldRow>)
    ensures old_ == WithoutColumns(FirstPerKey(rows))
    ensures forall o, team :: UniqueOldKeys(o) && rows == Assigned(WithColumns(o), team) ==> old_ == o
  {
    var db := new Database(rows);
    db.RestoreUniqueKey();
    FirstPerKeyKeys(rows);
    var ok;
    old_, ok := db.DropTeams();
    assert ok;
    forall o, team | UniqueOldKeys(o) && rows == Assigned(WithColumns(o), team) ensures old_ == o {
      DowngradeUndoesUpgrade(o, team);
    }
  }

  lemma DowngradeUndoesUpgrade(old_: seq<OldRow>, team: string)
    requires UniqueOldKeys(old_)
    ensures WithoutColumns(FirstPerKey(Assigned(WithColumns(old_), team))) == old_
  {
    var rows := Assigned(WithColumns(old_), team);
    UpgradedRows(old_, team);
    assert UniqueKeys(rows);
    FirstPerKeyWhole(rows);
  }
}
