/** The Lambda provider's name-to-id cache over a cloud that changes underneath it. */
module LambdaCache {
  import opened Text
  import opened Inventory
  import Runs

  datatype Net = Net(get: Get, list: bool)

  const WORKING := Net(Proper, true)

  /** A mutating call may be refused, or raise although it took effect. */
  datatype Effect = Done | DoneButRaised | Refused

  // ------------------------------------------------------------------
  // The operations as functions of the world
  // ------------------------------------------------------------------

  /** `_find_instance_by_name`. */
  function Find(w: World, name: string, net: Net): (Reply, World) {
    var cached := name in w.cache && w.cache[name] != "";
    if cached && net.get.Unreachable? then (Raised, w)
    else if cached && net.get.Proper? && ById(w.live, w.cache[name]).Some? then
      (Got(ById(w.live, w.cache[name])), w)
    else
      var w' := if cached then w.(cache := w.cache - {name}) else w;
      var hit := if net.list then Scan(w.live, name) else None;
      (Got(hit), if hit.Some? && hit.value.id != "" then w'.(cache := w'.cache[name := hit.value.id]) else w')
  }

  /** The name `list_clusters` files a machine under. */
  function Label(m: Machine): string {
    if m.name.Some? && m.name.value != "" then m.name.value else "lambda-" + m.id
  }

  datatype Op =
    | FindOp(name: string, net: Net)
    | Launch(name: string, id: string, effect: Effect)
    | Stop(name: string, net: Net, effect: Effect)
    | ListAll(works: bool)
    | ForeignLaunch(machine: Machine)
    | ForeignDelete(id: string)

  /** Identifiers handed out by the cloud are new. */
  predicate Legal(w: World, op: Op) {
    && (op.Launch? ==> op.id != "" && op.id !in w.issued)
    && (op.ForeignLaunch? ==> op.machine.id != "" && op.machine.id !in w.issued)
  }

  function Add(w: World, m: Machine): World {
    w.(live := w.live + [m], issued := w.issued[m.id := m.name])
  }

  /** `stop_cluster`: the answer, and what is left. */
  function StopOf(w: World, name: string, net: Net, effect: Effect): (bool, World) {
    var (reply, w') := Find(w, name, net);
    if reply.Raised? || reply.machine.None? || effect.Refused? then (false, w')
    else
      var w'' := w'.(live := Without(w'.live, reply.machine.value.id));
      if effect.Done? then (true, w''.(cache := w''.cache - {name})) else (false, w'')
  }

  function Step(w: World, op: Op): World {
    match op
    case FindOp(name, net) => Find(w, name, net).1
    case Launch(name, id, effect) =>
      if effect.Refused? then w
      else
        var w' := Add(w, Machine(id, Some(name)));
        if effect.Done? then w'.(cache := w'.cache[name := id]) else w'
    case Stop(name, net, effect) => StopOf(w, name, net, effect).1
    case ListAll(works) => if works then w.(cache := FileAll(w.cache, w.live, Label)) else w
    case ForeignLaunch(m) => Add(w, m)
    case ForeignDelete(id) => w.(live := Without(w.live, id))
  }

  /** The world after a history, oldest operation first; `None` if the cloud reused an id. */
  function Next(w: World, op: Op): Option<World> {
    if Legal(w, op) then Some(Step(w, op)) else None
  }

  function Run(ops: seq<Op>): Option<World> {
    Runs.After(Next, NEW_ACCOUNT, ops)
  }

  // ------------------------------------------------------------------
  // The invariant
  // ------------------------------------------------------------------

  lemma FindValid(w: World, name: string, net: Net)
    requires Valid(w, Label) && name != ""
    ensures Valid(Find(w, name, net).1, Label)
    ensures Find(w, name, net).1.live == w.live && Find(w, name, net).1.issued == w.issued
  {}

  predicate NamedOps(op: Op) {
    match op
    case FindOp(name, _) => name != ""
    case Launch(name, _, _) => name != ""
    case Stop(name, _, _) => name != ""
    case _ => true
  }

  lemma StepValid(w: World, op: Op)
    requires Valid(w, Label) && Legal(w, op) && NamedOps(op)
    ensures Valid(Step(w, op), Label)
  {
    match op
    case FindOp(name, net) => FindValid(w, name, net);
    case Launch(name, id, effect) => AppendWellFormed(w.live, w.issued, Machine(id, Some(name)));
    case Stop(name, net, effect) =>
      FindValid(w, name, net);
      var (reply, w') := Find(w, name, net);
      if reply.Got? && reply.machine.Some? {
        WithoutWellFormed(w'.live, w'.issued, reply.machine.value.id);
      }
    case ListAll(works) => FileAllOk(w.cache, w.live, w.issued, Label);
    case ForeignLaunch(m) => AppendWellFormed(w.live, w.issued, m);
    case ForeignDelete(id) => WithoutWellFormed(w.live, w.issued, id);
  }

  lemma {:induction false} RunValid(ops: seq<Op>)
    requires Run(ops).Some? && forall op :: op in ops ==> NamedOps(op)
    ensures Valid(Run(ops).value, Label)
  {
    if ops != [] {
      RunValid(ops[..|ops| - 1]);
      StepValid(Run(ops[..|ops| - 1]).value, ops[|ops| - 1]);
    }
  }

  // ------------------------------------------------------------------
  // The fast lookup agrees with the scan
  // ------------------------------------------------------------------

  /** A live machine without a name of its own has been filed under `name`. */
  predicate Nicknamed(w: World, name: string) {
    name in w.cache && exists m :: m in w.live && m.id == w.cache[name] && m.name != Some(name)
  }

  lemma {:induction false} NicknamedMeansNameless(w: World, name: string)
    requires Valid(w, Label) && Nicknamed(w, name)
    ensures exists m :: m in w.live && m.id == w.cache[name] && m.name in [None, Some("")] && name == "lambda-" + m.id
  {
    var m :| m in w.live && m.id == w.cache[name] && m.name != Some(name);
    assert w.issued[m.id] == m.name;
  }

  /** Whatever happened before, and even if the `GET` fails: a found machine is alive and
      bears the name, and nothing is missed, exactly when the name is not a nickname. */
  lemma {:induction false} LookupSound(w: World, name: string, net: Net)
    requires Valid(w, Label) && name != "" && !net.get.Unreachable? && net.list
    ensures Find(w, name, net).0.Got?
    ensures var m := Find(w, name, net).0.machine;
            !(Nicknamed(w, name) && net.get.Proper?) <==>
              (m.Some? <==> Scan(w.live, name).Some?) && (m.Some? ==> m.value in w.live && m.value.name == Some(name))
  {
    if name in w.cache && net.get.Proper? && ById(w.live, w.cache[name]).Some? {
      var m := ById(w.live, w.cache[name]).value;
      if Nicknamed(w, name) {
        var m' :| m' in w.live && m'.id == w.cache[name] && m'.name != Some(name);
        SameId(w, m, m');
      }
    }
  }

  lemma SameId(w: World, a: Machine, b: Machine)
    requires WellFormed(w.live, w.issued) && a in w.live && b in w.live && a.id == b.id
    ensures a == b
  {
    var i :| 0 <= i < |w.live| && w.live[i] == a;
    var j :| 0 <= j < |w.live| && w.live[j] == b;
  }

  /** For every history of launches, stops, listings, lookups, out-of-band launches and
      deletions, with any of the calls failing: under unique live names the cached lookup
      equals the cache-free scan, exactly unless the name is a nickname. */
  lemma LookupIsScan(ops: seq<Op>, name: string)
    requires Run(ops).Some? && (forall op :: op in ops ==> NamedOps(op)) && name != ""
    requires UniqueNames(Run(ops).value.live)
    ensures var w := Run(ops).value;
            Find(w, name, WORKING).0 == Got(Scan(w.live, name)) <==> !Nicknamed(w, name)
  {
    RunValid(ops);
    var w := Run(ops).value;
    LookupSound(w, name, WORKING);
    var m := Find(w, name, WORKING).0.machine;
    if !Nicknamed(w, name) && m.Some? {
      ScanUnique(w.live, m.value, name);
    }
  }

  /** In particular when every live machine has a name. */
  lemma {:induction false} LookupIsScanWhenNamed(ops: seq<Op>, name: string)
    requires Run(ops).Some? && (forall op :: op in ops ==> NamedOps(op)) && name != ""
    requires UniqueNames(Run(ops).value.live)
    requires forall m :: m in Run(ops).value.live ==> m.name.Some? && m.name.value != ""
    ensures var w := Run(ops).value;
            Find(w, name, WORKING).0 == Got(Scan(w.live, name))
  {
    RunValid(ops);
    LookupIsScan(ops, name);
    if Nicknamed(Run(ops).value, name) {
      NicknamedMeansNameless(Run(ops).value, name);
    }
  }

  const NAMELESS: Machine := Machine("7", None)

  const NAMELESS_SEEN: World := World([NAMELESS], map["7" := None], map["lambda-7" := "7"])

  /** A listing that shows one nameless machine is enough to make the two differ. */
  lemma NicknameDiffers()
    ensures Run([ForeignLaunch(NAMELESS), ListAll(true)]) == Some(NAMELESS_SEEN)
    ensures Find(NAMELESS_SEEN, "lambda-7", WORKING).0 == Got(Some(NAMELESS))
    ensures Scan(NAMELESS_SEEN.live, "lambda-7") == None
  {
    NamelessListed();
    NicknameFound(NAMELESS_SEEN);
    TwoSteps(NEW_ACCOUNT, ForeignLaunch(NAMELESS), ListAll(true));
  }

  lemma TwoSteps(w: World, a: Op, b: Op)
    requires Next(w, a).Some?
    ensures Runs.After(Next, w, [a, b]) == Next(Next(w, a).value, b)
  {
    assert Runs.After(Next, w, []) == Some(w);
    Runs.Extend(Next, w, [], a);
    Runs.Extend(Next, w, [a], b);
    assert [] + [a] == [a] && [a] + [b] == [a, b];
  }

  lemma NamelessListed()
    ensures var w := World([NAMELESS], map["7" := None], map[]);
            && Next(NEW_ACCOUNT, ForeignLaunch(NAMELESS)) == Some(w)
            && Next(w, ListAll(true)) == Some(w.(cache := map["lambda-7" := "7"]))
  {
    NamelessFiled();
    assert Add(NEW_ACCOUNT, NAMELESS).live == [NAMELESS];
  }

  lemma NicknameFound(w: World)
    requires w.live == [NAMELESS] && w.cache == map["lambda-7" := "7"]
    ensures Find(w, "lambda-7", WORKING).0 == Got(Some(NAMELESS)) && Scan(w.live, "lambda-7") == None
  {
    assert ById(w.live, "7") == Some(NAMELESS);
    assert w.live[1..] == [];
  }

  lemma NamelessFiled()
    ensures FileAll(map[], [NAMELESS], Label) == map["lambda-7" := "7"]
  {
    var live := [NAMELESS];
    assert live[..0] == [] && FileAll(map[], [], Label) == map[];
    assert Label(live[0]) == "lambda-7";
  }

  /** What a lookup answers and remembers, for every failure of either request: an exception
      exactly if the cached id's request does not get through, leaving everything as it was;
      the machine of a cached id that answers; else what a listing that works shows. Afterwards
      the name leads to the machine found, or nowhere, and no other name is touched. */
  lemma FindExactly(w: World, name: string, net: Net)
    requires Valid(w, Label)
    ensures var (r, w') := Find(w, name, net);
            var hit := name in w.cache && net.get.Proper? && Alive(w.live, w.cache[name]);
            && w'.live == w.live && w'.issued == w.issued
            && (r.Raised? <==> name in w.cache && net.get.Unreachable?)
            && (r.Raised? ==> w' == w)
            && (r.Got? && hit ==> r.machine.Some? && r.machine.value in w.live && r.machine.value.id == w.cache[name])
            && (r.Got? && !hit ==> r.machine == if net.list then Scan(w.live, name) else None)
            && (r.Got? ==> (name in w'.cache <==> r.machine.Some?))
            && (r.Got? && r.machine.Some? ==> w'.cache[name] == r.machine.value.id)
            && (forall n :: n != name ==> (n in w'.cache <==> n in w.cache))
            && (forall n :: n != name && n in w.cache ==> w'.cache[n] == w.cache[n])
  {
    if name in w.cache { assert w.cache[name] in w.issued; }
    var s := Scan(w.live, name);
    if s.Some? {
      var i :| 0 <= i < |w.live| && w.live[i] == s.value;
      assert w.live[i].id in w.issued;
    }
  }

  /** What listings and other people do: a listing that works files every live machine, the last
      of a name winning, and changes nothing else; one that fails changes nothing; machines that
      others make or delete come and go without the cache noticing. */
  lemma OthersExactly(w: World, m: Machine, id: string, name: string)
    ensures Step(w, ListAll(false)) == w
    ensures var w' := Step(w, ListAll(true));
            && w'.live == w.live && w'.issued == w.issued
            && (if exists k :: LastFiled(w.live, name, Label, k)
                then exists k :: LastFiled(w.live, name, Label, k) && name in w'.cache && w'.cache[name] == w.live[k].id
                else (name in w'.cache <==> name in w.cache) && (name in w'.cache ==> w'.cache[name] == w.cache[name]))
    ensures Step(w, ForeignLaunch(m)).live == w.live + [m] && Step(w, ForeignLaunch(m)).cache == w.cache
    ensures var w' := Step(w, ForeignDelete(id));
            w'.cache == w.cache && forall x :: x in w'.live <==> x in w.live && x.id != id
  {
    FiledExactly(w.cache, w.live, Label, name);
  }

  /** After a launch that was answered the name leads to the new machine, whatever it led to
      before; after one that took effect without an answer, or none, the cache is as it was,
      and a machine is there exactly if the launch took effect. */
  lemma LaunchExactly(w: World, name: string, id: string, effect: Effect)
    requires Valid(w, Label) && Legal(w, Launch(name, id, effect))
    ensures var w', m := Step(w, Launch(name, id, effect)), Machine(id, Some(name));
            && w'.live == (if effect.Refused? then w.live else w.live + [m])
            && (effect.Done? ==> Find(w', name, WORKING).0 == Got(Some(m)) && name in w'.cache && w'.cache[name] == id)
            && (!effect.Done? ==> w'.cache == w.cache)
  {
    if effect.Done? {
      var w', m := Step(w, Launch(name, id, effect)), Machine(id, Some(name));
      AppendWellFormed(w.live, w.issued, m);
      assert w'.live[|w.live|] == m && Alive(w'.live, id);
      SameId(w', ById(w'.live, id).value, m);
    }
  }

  /** A stop succeeds exactly if its lookup produced a machine and the terminate was confirmed;
      with the API answering and the name no nickname, exactly if a live machine bears the
      name and the terminate was confirmed. Nothing but a success forgets what the lookup
      remembered, and nothing ends unless the terminate took effect. */
  lemma StopAnswers(w: World, name: string, net: Net, effect: Effect)
    requires Valid(w, Label) && name != ""
    ensures var (stopped, w') := StopOf(w, name, net, effect);
            var (r, w1) := Find(w, name, net);
            var there := r.Got? && r.machine.Some?;
            && (stopped <==> there && effect.Done?)
            && (net == WORKING && !Nicknamed(w, name) ==>
                  (stopped <==> effect.Done? && exists m :: m in w.live && m.name == Some(name)))
            && w'.cache == (if stopped then w1.cache - {name} else w1.cache)
            && w'.live == (if there && !effect.Refused? then Without(w.live, r.machine.value.id) else w.live)
  {
    FindExactly(w, name, net);
    if net == WORKING { LookupSound(w, name, net); }
  }

  /** A stop that reports success ends exactly the machine a scan finds, and it reports success
      exactly if there is one. */
  lemma {:induction false} StopEndsTheNamed(w: World, name: string)
    requires Valid(w, Label) && UniqueNames(w.live) && name != "" && !Nicknamed(w, name)
    ensures var (stopped, w') := StopOf(w, name, WORKING, Done);
            && (stopped <==> Scan(w.live, name).Some?)
            && (forall m :: m in w'.live <==> m in w.live && Scan(w.live, name) != Some(m))
            && name !in w'.cache
  {
    LookupSound(w, name, WORKING);
    FindExactly(w, name, WORKING);
    var m := Find(w, name, WORKING).0.machine;
    if m.Some? {
      ScanUnique(w.live, m.value, name);
      forall a | a in w.live && a.id == m.value.id ensures a == m.value {
        SameId(w, a, m.value);
      }
    }
  }

  // ------------------------------------------------------------------
  // The provider object
  // ------------------------------------------------------------------

  class Provider {
    const account: Account
    var cache: map<string, string>

    constructor (account: Account)
      ensures this.account == account && cache == map[]
    {
      this.account := account;
      cache := map[];
    }

    ghost function Now(): World
      reads this, account
    {
      World(account.live, account.issued, cache)
    }

    /** `_find_instance_by_name`. */
    method FindInstanceByName(name: string, net: Net) returns (r: Reply)
      modifies this`cache
      ensures (r, Now()) == Find(old(Now()), name, net)
    {
      if name in cache && cache[name] != "" {
        match net.get {
          case Unreachable => return Raised;
          case Proper =>
            var m := ById(account.live, cache[name]);
            if m.Some? { return Got(m); }
          case HttpError =>
        }
        cache := cache - {name};
      }
      var hit := None;
      if net.list {
        hit := ScanList(account.live, name);
        if hit.Some? && hit.value.id != "" {
          cache := cache[name := hit.value.id];
        }
      }
      return Got(hit);
    }

    /** The cache writes of `list_clusters`. */
    method ListClusters(works: bool)
      modifies this`cache
      ensures Now() == Step(old(Now()), ListAll(works))
    {
      if !works { return; }
      var i := 0;
      while i < |account.live|
        invariant 0 <= i <= |account.live|
        invariant cache == FileAll(old(cache), account.live[..i], Label)
      {
        var m := account.live[i];
        if m.id != "" {
          cache := cache[Label(m) := m.id];
        }
        i := i + 1;
        assert account.live[..i][..i - 1] == account.live[..i - 1];
      }
      assert account.live[..i] == account.live;
    }

    /** The launch request of `launch_cluster`; `id` is what the cloud hands out. */
    method LaunchCluster(name: string, id: string, effect: Effect) returns (launched: Option<string>)
      requires id != "" && id !in account.issued
      modifies this`cache, account
      ensures Now() == Step(old(Now()), Launch(name, id, effect))
      ensures launched == if effect.Done? then Some(id) else None
      ensures account.posts == old(account.posts) + 1
    {
      account.posts := account.posts + 1;
      if !effect.Refused? {
        account.live := account.live + [Machine(id, Some(name))];
        account.issued := account.issued[id := Some(name)];
      }
      if !effect.Done? { return None; }
      cache := cache[name := id];
      return Some(id);
    }

    /** `stop_cluster`. */
    method StopCluster(name: string, net: Net, effect: Effect) returns (stopped: bool)
      modifies this`cache, account`live
      ensures (stopped, Now()) == StopOf(old(Now()), name, net, effect)
    {
      var r := FindInstanceByName(name, net);
      if r.Raised? || r.machine.None? || effect.Refused? { return false; }
      account.live := Without(account.live, r.machine.value.id);
      if !effect.Done? { return false; }
      cache := cache - {name};
      return true;
    }
  }
}
