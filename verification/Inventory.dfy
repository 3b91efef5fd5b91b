/** A cloud account as its API shows it: the live machines in listing order. Identifiers
    are never reused and names never change, which `issued` remembers for dead ones too. */
module Inventory {
  import opened Text

  /** `name` is `None` when the field is missing from the answer. */
  datatype Machine = Machine(id: string, name: Option<string>)

  type Listing = seq<Machine>

  predicate WellFormed(live: Listing, issued: map<string, Option<string>>) {
    && "" !in issued
    && (forall i :: 0 <= i < |live| ==> live[i].id in issued && issued[live[i].id] == live[i].name)
    && (forall i, j :: 0 <= i < j < |live| ==> live[i].id != live[j].id)
  }

  predicate Alive(live: Listing, id: string) {
    exists i :: 0 <= i < |live| && live[i].id == id
  }

  /** No two live machines share a name. */
  predicate UniqueNames(live: Listing) {
    forall i, j :: 0 <= i < j < |live| ==> live[i].name != live[j].name || live[i].name == None
  }

  /** The machine the listing shows first under `name`. */
  function Scan(live: Listing, name: string): (r: Option<Machine>)
    ensures r.Some? ==> r.value in live && r.value.name == Some(name)
    ensures r.None? ==> forall m :: m in live ==> m.name != Some(name)
  {
    if live == [] then None
    else if live[0].name == Some(name) then Some(live[0])
    else Scan(live[1..], name)
  }

  /** The loop over a listing's answer. */
  method ScanList(live: Listing, name: string) returns (r: Option<Machine>)
    ensures r == Scan(live, name)
  {
    var i := 0;
    assert live[0..] == live;
    while i < |live|
      invariant 0 <= i <= |live|
      invariant Scan(live, name) == Scan(live[i..], name)
    {
      if live[i].name == Some(name) { return Some(live[i]); }
      i := i + 1;
    }
    r := None;
  }

  /** `GET` by id: it answers exactly for live machines. */
  function ById(live: Listing, id: string): (r: Option<Machine>)
    ensures r.Some? <==> Alive(live, id)
    ensures r.Some? ==> r.value in live && r.value.id == id
  {
    if live == [] then None
    else if live[0].id == id then Some(live[0])
    else
      assert forall i :: 0 < i < |live| ==> live[i] == live[1..][i - 1];
      ById(live[1..], id)
  }

  function Without(live: Listing, id: string): (r: Listing)
    ensures forall m :: m in r <==> m in live && m.id != id
  {
    if live == [] then []
    else if live[0].id == id then Without(live[1..], id)
    else [live[0]] + Without(live[1..], id)
  }

  lemma {:induction false} WithoutWellFormed(live: Listing, issued: map<string, Option<string>>, id: string)
    requires WellFormed(live, issued)
    ensures WellFormed(Without(live, id), issued)
  {
    if live != [] {
      WithoutWellFormed(live[1..], issued, id);
      if live[0].id != id {
        HeadStays(live[0], Without(live[1..], id), live, issued);
      }
    }
  }

  lemma HeadStays(m: Machine, rest: Listing, live: Listing, issued: map<string, Option<string>>)
    requires WellFormed(live, issued) && live != [] && m == live[0]
    requires WellFormed(rest, issued) && forall x :: x in rest ==> x in live[1..]
    ensures WellFormed([m] + rest, issued)
  {
    forall i | 0 <= i < |rest| ensures rest[i].id != m.id {
      assert rest[i] in live[1..];
      var k :| 0 <= k < |live[1..]| && live[1..][k] == rest[i];
      assert live[k + 1] == rest[i];
    }
  }

  lemma AppendWellFormed(live: Listing, issued: map<string, Option<string>>, m: Machine)
    requires WellFormed(live, issued) && m.id != "" && m.id !in issued
    ensures WellFormed(live + [m], issued[m.id := m.name])
  {}

  /** Under unique names, any live machine of that name is the one a scan finds. */
  lemma {:induction false} ScanUnique(live: Listing, m: Machine, name: string)
    requires UniqueNames(live) && m in live && m.name == Some(name)
    ensures Scan(live, name) == Some(m)
  {
    var s := Scan(live, name).value;
    var i :| 0 <= i < |live| && live[i] == m;
    var j :| 0 <= j < |live| && live[j] == s;
    assert i == j;
  }

  // ------------------------------------------------------------------
  // A provider's cache over the account
  // ------------------------------------------------------------------

  /** How the API answers a `GET` by id: properly, with an HTTP error, or not at all. */
  datatype Get = Proper | HttpError | Unreachable

  datatype World = World(live: Listing, issued: map<string, Option<string>>, cache: map<string, string>)

  const NEW_ACCOUNT: World := World([], map[], map[])

  datatype Reply = Got(machine: Option<Machine>) | Raised

  /** Every entry leads to an id once issued to a machine filed under that name; `filedAs` is
      the name `list_clusters` files a machine under. */
  predicate CacheOk(cache: map<string, string>, issued: map<string, Option<string>>, filedAs: Machine -> string) {
    forall n :: n in cache ==> cache[n] in issued && n == filedAs(Machine(cache[n], issued[cache[n]]))
  }

  predicate Valid(w: World, filedAs: Machine -> string) {
    WellFormed(w.live, w.issued) && CacheOk(w.cache, w.issued, filedAs)
  }

  /** The cache writes of `list_clusters`. */
  function FileAll(cache: map<string, string>, shown: Listing, filedAs: Machine -> string): map<string, string> {
    if shown == [] then cache
    else
      var last := shown[|shown| - 1];
      var earlier := FileAll(cache, shown[..|shown| - 1], filedAs);
      if last.id != "" then earlier[filedAs(last) := last.id] else earlier
  }

  lemma {:induction false} FileAllOk(cache: map<string, string>, shown: Listing,
                                     issued: map<string, Option<string>>, filedAs: Machine -> string)
    requires CacheOk(cache, issued, filedAs) && forall m :: m in shown ==> m.id in issued && issued[m.id] == m.name
    ensures CacheOk(FileAll(cache, shown, filedAs), issued, filedAs)
  {
    if shown != [] {
      assert shown[|shown| - 1] in shown;
      FileAllOk(cache, shown[..|shown| - 1], issued, filedAs);
    }
  }

  /** Machine `k` is the last of the listing to be filed under `name`. */
  predicate LastFiled(shown: Listing, name: string, filedAs: Machine -> string, k: int) {
    && 0 <= k < |shown| && shown[k].id != "" && filedAs(shown[k]) == name
    && forall j :: k < j < |shown| ==> shown[j].id == "" || filedAs(shown[j]) != name
  }

  /** After a listing every name leads to the last machine filed under it, and names that no
      machine is filed under lead where they led before. */
  lemma {:induction false} FiledExactly(cache: map<string, string>, shown: Listing, filedAs: Machine -> string,
        name: string)
    ensures var c := FileAll(cache, shown, filedAs);
            if exists k :: LastFiled(shown, name, filedAs, k)
            then exists k :: LastFiled(shown, name, filedAs, k) && name in c && c[name] == shown[k].id
            else (name in c <==> name in cache) && (name in c ==> c[name] == cache[name])
  {
    if shown != [] {
      var init, last := shown[..|shown| - 1], shown[|shown| - 1];
      var c0, c := FileAll(cache, init, filedAs), FileAll(cache, shown, filedAs);
      FiledExactly(cache, init, filedAs, name);
      if last.id != "" && filedAs(last) == name {
        assert LastFiled(shown, name, filedAs, |shown| - 1);
      } else {
        LastFiledInit(shown, name, filedAs);
        assert (name in c <==> name in c0) && (name in c ==> c[name] == c0[name]);
        if k :| LastFiled(init, name, filedAs, k) && name in c0 && c0[name] == init[k].id {
          assert LastFiled(shown, name, filedAs, k) && c[name] == shown[k].id;
        }
      }
    }
  }

  lemma LastFiledInit(shown: Listing, name: string, filedAs: Machine -> string)
    requires shown != [] && (shown[|shown| - 1].id == "" || filedAs(shown[|shown| - 1]) != name)
    ensures forall k :: LastFiled(shown, name, filedAs, k) <==> LastFiled(shown[..|shown| - 1], name, filedAs, k)
  {
    var init := shown[..|shown| - 1];
    assert forall j :: 0 <= j < |init| ==> init[j] == shown[j];
  }

  class Account {
    var live: Listing
    ghost var issued: map<string, Option<string>>
    /** Create requests received. */
    ghost var posts: nat

    constructor ()
      ensures live == [] && issued == map[] && posts == 0
    {
      live, issued, posts := [], map[], 0;
    }
  }
}
