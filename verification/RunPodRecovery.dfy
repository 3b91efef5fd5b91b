/** The RunPod provider: a name-to-id cache whose lookups only evict on a stale hit, and
    recovery after a create call that fails with a 5xx although it may have made the pod. */
module RunPodRecovery {
  import opened Text
  import opened Inventory
  import Runs

  /** One lookup's surroundings: `shown` is what the listing shows (it may lag behind the
      cloud), or `None` when the listing call fails. */
  datatype Net = Net(get: Get, shown: Option<Listing>)

  /** What the create request comes to. `made` is the pod it made, answered or not. */
  datatype Post =
    | Answered(id: string)
    | AnsweredWithoutId(made: Option<string>)
    | HttpFailure(status: Option<int>, made: Option<string>)
    | Lost(made: Option<string>)
  {
    function Made(): Option<string> {
      if Answered? then Some(id) else made
    }

    predicate ServerError() {
      HttpFailure? && status.Some? && status.value >= 500
    }
  }

  datatype Outcome = Pod(id: string) | Unknown | Failed

  // ------------------------------------------------------------------
  // Lookup and recovery as functions
  // ------------------------------------------------------------------

  /** `_find_pod_by_name`: a cached id that no longer answers is evicted and nothing else. */
  function Find(w: World, name: string, net: Net): (Reply, World) {
    if name in w.cache then
      if net.get.Unreachable? then (Raised, w)
      else if net.get.Proper? && ById(w.live, w.cache[name]).Some? then (Got(ById(w.live, w.cache[name])), w)
      else (Got(None), w.(cache := w.cache - {name}))
    else
      var hit := if net.shown.Some? then Scan(net.shown.value, name) else None;
      (Got(hit), if hit.Some? && hit.value.id != "" then w.(cache := w.cache[name := hit.value.id]) else w)
  }

  function Usable(r: Reply): Option<Machine> {
    if r.Got? && r.machine.Some? && r.machine.value.id != "" then r.machine else None
  }

  /** `_recover_pod_after_error`: one lookup for each attempt, the first usable pod wins. */
  function Recover(w: World, name: string, nets: seq<Net>): (Option<Machine>, World)
    decreases |nets|
  {
    if nets == [] then (None, w)
    else
      var (r, w') := Find(w, name, nets[0]);
      if Usable(r).Some? then (Usable(r), w') else Recover(w', name, nets[1..])
  }

  function Label(m: Machine): string {
    if m.name.Some? then m.name.value else "pod-" + m.id
  }

  /** A listing may lag but does not show pods that are not there. */
  predicate Truthful(net: Net, live: Listing) {
    net.shown.Some? ==> forall m :: m in net.shown.value ==> m in live
  }

  predicate AllTruthful(nets: seq<Net>, live: Listing) {
    forall n :: n in nets ==> Truthful(n, live)
  }

  lemma FindValid(w: World, name: string, net: Net)
    requires Valid(w, Label) && Truthful(net, w.live)
    ensures var (r, w') := Find(w, name, net);
            && Valid(w', Label) && w'.live == w.live && w'.issued == w.issued
            && (r.Got? && r.machine.Some? ==> r.machine.value in w.live && name == Label(r.machine.value))
  {
    var hit := if net.shown.Some? then Scan(net.shown.value, name) else None;
    if name in w.cache && ById(w.live, w.cache[name]).Some? {
      var m := ById(w.live, w.cache[name]).value;
      assert w.issued[m.id] == m.name;
    } else if name !in w.cache && hit.Some? {
      assert hit.value in w.live;
    }
  }

  /** Over any attempts, whatever fails: a recovered pod exists and is filed under the name,
      and the recovery leaves the cloud alone. */
  lemma {:induction false} RecoverSound(w: World, name: string, nets: seq<Net>)
    requires Valid(w, Label) && AllTruthful(nets, w.live)
    ensures var (m, w') := Recover(w, name, nets);
            && Valid(w', Label) && w'.live == w.live && w'.issued == w.issued
            && (m.Some? ==> m.value in w.live && name == Label(m.value))
    decreases |nets|
  {
    if nets != [] {
      FindValid(w, name, nets[0]);
      RecoverSound(Find(w, name, nets[0]).1, name, nets[1..]);
    }
  }

  predicate Working(net: Net) { net.get.Proper? && net.shown.Some? }

  predicate Shows(net: Net, name: string) { net.shown.Some? && Scan(net.shown.value, name).Some? }

  predicate Stale(w: World, name: string) { name in w.cache && !Alive(w.live, w.cache[name]) }

  /** One lookup with the API answering: a cached id that is alive, or a listing that shows
      the name, and nothing cached after a miss. */
  lemma {:induction false} FindExact(w: World, name: string, net: Net)
    requires Valid(w, Label) && Truthful(net, w.live) && Working(net)
    ensures var (r, w') := Find(w, name, net);
            && (Usable(r).Some? <==> if name in w.cache then Alive(w.live, w.cache[name]) else Shows(net, name))
            && (Usable(r).None? ==> name !in w'.cache)
  {
    if name in w.cache {
      if Alive(w.live, w.cache[name]) { assert w.cache[name] in w.issued; }
    } else if Shows(net, name) {
      var hit := Scan(net.shown.value, name).value;
      assert hit in w.live && hit.id != "";
    }
  }

  /** With the API answering, recovery succeeds exactly when the cached id is alive or a
      listing shows the name; a stale id costs the first attempt and no more. */
  lemma {:induction false} RecoverExact(w: World, name: string, nets: seq<Net>)
    requires Valid(w, Label) && AllTruthful(nets, w.live) && name != ""
    requires forall n :: n in nets ==> Working(n)
    ensures Recover(w, name, nets).0.Some? <==>
              || (nets != [] && name in w.cache && Alive(w.live, w.cache[name]))
              || exists k :: (if name in w.cache then 1 else 0) <= k < |nets| && Shows(nets[k], name)
    decreases |nets|
  {
    if nets != [] {
      var (r, w') := Find(w, name, nets[0]);
      FindValid(w, name, nets[0]);
      assert nets[0] in nets && Working(nets[0]);
      FindExact(w, name, nets[0]);
      if Usable(r).Some? {
        if name !in w.cache { assert Shows(nets[0], name); }
      } else {
        RecoverExact(w', name, nets[1..]);
        assert forall k :: 0 < k < |nets| ==> nets[k] == nets[1..][k - 1];
        if k :| (if name in w.cache then 1 else 0) <= k < |nets| && Shows(nets[k], name) {
          assert k > 0 && Shows(nets[1..][k - 1], name);
        }
        if k :| 0 <= k < |nets[1..]| && Shows(nets[1..][k], name) {
          assert Shows(nets[k + 1], name);
        }
      }
    }
  }

  /** A 5xx that made the pod is recovered even through a stale id of an earlier pod of that
      name, if listings show the new one by the second attempt. */
  lemma {:induction false} CreatedPodRecovered(w: World, name: string, pod: Machine, nets: seq<Net>)
    requires Valid(w, Label) && UniqueNames(w.live) && AllTruthful(nets, w.live) && name != ""
    requires pod in w.live && pod.name == Some(name)
    requires name in w.cache ==> Stale(w, name)
    requires (forall n :: n in nets ==> Working(n)) && |nets| >= 2
    requires nets[1].shown.Some? && pod in nets[1].shown.value
    ensures Recover(w, name, nets).0 == Some(pod)
  {
    assert Shows(nets[1], name);
    RecoverExact(w, name, nets);
    RecoverShown(w, name, nets);
    ScanUnique(w.live, Recover(w, name, nets).0.value, name);
    ScanUnique(w.live, pod, name);
  }

  /** Unless a cached id answers, what is recovered bears the name itself. */
  lemma {:induction false} RecoverShown(w: World, name: string, nets: seq<Net>)
    requires Valid(w, Label) && AllTruthful(nets, w.live) && name != ""
    requires name in w.cache ==> Stale(w, name)
    ensures var m := Recover(w, name, nets).0; m.Some? ==> m.value in w.live && m.value.name == Some(name)
    decreases |nets|
  {
    if nets != [] {
      var (r, w') := Find(w, name, nets[0]);
      FindValid(w, name, nets[0]);
      if Usable(r).None? {
        RecoverShown(w', name, nets[1..]);
      }
    }
  }

  /** One attempt is not enough when the cached id is stale. */
  lemma {:induction false} StaleCostsAnAttempt(w: World, name: string, net: Net)
    requires Valid(w, Label) && Stale(w, name)
    ensures Recover(w, name, [net]).0 == None
  {
    assert [net][1..] == [];
    assert Recover(Find(w, name, net).1, name, []).0 == None;
  }

  // ------------------------------------------------------------------
  // Launch
  // ------------------------------------------------------------------

  /** The cloud's side of the create request. */
  function AfterPost(w: World, name: string, post: Post): World {
    match post.Made()
    case None => w
    case Some(id) => w.(live := w.live + [Machine(id, Some(name))], issued := w.issued[id := Some(name)])
  }

  function Launch(w: World, name: string, post: Post, nets: seq<Net>): (Outcome, World) {
    var w1 := AfterPost(w, name, post);
    if post.Answered? && post.id != "" then (Pod(post.id), w1.(cache := w1.cache[name := post.id]))
    else if post.Answered? || post.AnsweredWithoutId? then (Unknown, w1)
    else if post.ServerError() then
      var (m, w2) := Recover(w1, name, nets);
      if m.Some? then (Pod(m.value.id), w2.(cache := w2.cache[name := m.value.id])) else (Failed, w2)
    else (Failed, w1)
  }

  predicate FreshId(w: World, post: Post) {
    post.Made().Some? ==> post.Made().value != "" && post.Made().value !in w.issued
  }

  /** Every launch keeps the cache true, and a reported pod is alive under that name. */
  lemma LaunchSound(w: World, name: string, post: Post, nets: seq<Net>)
    requires Valid(w, Label) && FreshId(w, post) && AllTruthful(nets, AfterPost(w, name, post).live)
    ensures var (o, w') := Launch(w, name, post, nets);
            && Valid(w', Label)
            && (o.Pod? ==> exists m :: m in w'.live && m.id == o.id && name == Label(m))
  {
    var w1 := AfterPost(w, name, post);
    if post.Made().Some? {
      var m := Machine(post.Made().value, Some(name));
      AppendWellFormed(w.live, w.issued, m);
      assert w1.live[|w.live|] == m;
    }
    RecoverSound(w1, name, nets);
    var (m, w2) := Recover(w1, name, nets);
    if m.Some? {
      assert w2.issued[m.value.id] == m.value.name;
    }
  }

  /** What one lookup answers and remembers, for every failure of either request: an exception
      exactly if the cached id's request does not get through; the pod of a cached id that
      answers; nothing but an eviction if it does not; what the listing shows if nothing was
      cached. No other name is touched. */
  lemma FindAnswers(w: World, name: string, net: Net)
    requires Valid(w, Label) && Truthful(net, w.live)
    ensures var (r, w') := Find(w, name, net);
            && w'.live == w.live && w'.issued == w.issued
            && (r.Raised? <==> name in w.cache && net.get.Unreachable?)
            && (r.Raised? ==> w' == w)
            && (r.Got? && name in w.cache ==>
                  (r.machine.Some? <==> net.get.Proper? && Alive(w.live, w.cache[name])) &&
                  (r.machine.Some? ==> r.machine.value in w.live && r.machine.value.id == w.cache[name]))
            && (r.Got? && name !in w.cache ==>
                  r.machine == if net.shown.Some? then Scan(net.shown.value, name) else None)
            && (r.Got? ==> (name in w'.cache <==> r.machine.Some?))
            && (r.Got? && r.machine.Some? ==> w'.cache[name] == r.machine.value.id)
            && (forall n :: n != name ==> (n in w'.cache <==> n in w.cache))
            && (forall n :: n != name && n in w.cache ==> w'.cache[n] == w.cache[n])
  {
    if name !in w.cache && net.shown.Some? && Scan(net.shown.value, name).Some? {
      var m := Scan(net.shown.value, name).value;
      assert m in w.live;
      var i :| 0 <= i < |w.live| && w.live[i] == m;
      assert w.live[i].id in w.issued;
    }
  }

  /** Recovery touches no other name, and with the API answering leaves the name leading to the
      pod it returns, or nowhere. */
  lemma {:induction false} RecoverRemembers(w: World, name: string, nets: seq<Net>)
    requires Valid(w, Label) && AllTruthful(nets, w.live)
    ensures var (m, w') := Recover(w, name, nets);
            && (m.Some? ==> name in w'.cache && w'.cache[name] == m.value.id)
            && (m.None? && nets != [] && (forall n :: n in nets ==> Working(n)) ==> name !in w'.cache)
            && (forall n :: n != name ==> (n in w'.cache <==> n in w.cache))
            && (forall n :: n != name && n in w.cache ==> w'.cache[n] == w.cache[n])
    decreases |nets|
  {
    if nets != [] {
      var w1 := Find(w, name, nets[0]).1;
      assert nets[0] in nets;
      FindAnswers(w, name, nets[0]);
      FindValid(w, name, nets[0]);
      if Working(nets[0]) { FindExact(w, name, nets[0]); }
      RecoverRemembers(w1, name, nets[1..]);
    }
  }

  /** When a launch has which outcome. A pod is reported exactly if the answer carried its id
      or the create failed with a 5xx and recovery found it, "unknown" exactly if the answer
      carried none, and failure otherwise. A reported pod is what the name leads to; a lost
      answer or another status leaves the cache as it was. */
  lemma LaunchExactly(w: World, name: string, post: Post, nets: seq<Net>)
    requires Valid(w, Label) && FreshId(w, post) && AllTruthful(nets, AfterPost(w, name, post).live)
    ensures var (o, w') := Launch(w, name, post, nets);
            var found := Recover(AfterPost(w, name, post), name, nets).0;
            && (forall id :: o == Pod(id) <==>
                  post == Answered(id) || (post.ServerError() && found.Some? && found.value.id == id))
            && (o == Unknown <==> post.AnsweredWithoutId?)
            && (o == Failed <==> post.Lost? || (post.HttpFailure? && (!post.ServerError() || found.None?)))
            && (o.Pod? ==> name in w'.cache && w'.cache[name] == o.id)
            && (!o.Pod? && !post.ServerError() ==> w'.cache == w.cache)
            && (forall n :: n != name ==> (n in w'.cache <==> n in w.cache))
            && (forall n :: n != name && n in w.cache ==> w'.cache[n] == w.cache[n])
            && w'.live == w.live + (if post.Made().Some? then [Machine(post.Made().value, Some(name))] else [])
  {
    var w1 := AfterPost(w, name, post);
    if post.Made().Some? {
      AppendWellFormed(w.live, w.issued, Machine(post.Made().value, Some(name)));
    } else {
      assert w.live + [] == w.live;
    }
    RecoverSound(w1, name, nets);
    RecoverRemembers(w1, name, nets);
  }

  /** A reported pod is what the next lookup returns; after an answered create it is the new
      one. */
  lemma LaunchedIsFound(w: World, name: string, post: Post, nets: seq<Net>, net: Net)
    requires Valid(w, Label) && FreshId(w, post) && AllTruthful(nets, AfterPost(w, name, post).live)
    requires net.get.Proper?
    ensures var (o, w') := Launch(w, name, post, nets);
            && (o.Pod? ==>
                  exists m :: (m in w'.live && m.id == o.id && Find(w', name, net).0 == Got(Some(m))))
            && (post.Answered? ==>
                  o == Pod(post.id) && Find(w', name, net).0 == Got(Some(Machine(post.id, Some(name)))))
  {
    LaunchExactly(w, name, post, nets);
    LaunchSound(w, name, post, nets);
    var (o, w') := Launch(w, name, post, nets);
    if o.Pod? {
      var m :| m in w'.live && m.id == o.id && name == Label(m);
      var k :| 0 <= k < |w'.live| && w'.live[k] == m;
      assert Alive(w'.live, o.id);
      OnlyOne(w', ById(w'.live, o.id).value, m);
      if post.Answered? {
        assert w'.live[|w.live|] == Machine(post.id, Some(name));
        OnlyOne(w', m, Machine(post.id, Some(name)));
      }
    }
  }

  /** With the API answering and no stale id: after a 5xx that made nothing, the launch still
      reports a pod exactly when an older pod of that name is alive or still listed. */
  lemma NothingMadeStillReported(w: World, name: string, status: int, nets: seq<Net>)
    requires Valid(w, Label) && AllTruthful(nets, w.live) && name != "" && status >= 500
    requires (forall n :: n in nets ==> Working(n) && n.shown.value == w.live) && |nets| >= 2
    ensures Launch(w, name, HttpFailure(Some(status), None), nets).0.Pod? <==>
              (name in w.cache && Alive(w.live, w.cache[name])) || Scan(w.live, name).Some?
  {
    RecoverExact(w, name, nets);
    assert nets[1] in nets;
    if Scan(w.live, name).Some? { assert Shows(nets[1], name); }
  }

  // ------------------------------------------------------------------
  // Histories
  // ------------------------------------------------------------------

  /** `stop_cluster`: was the delete confirmed, and what is left. `deleted` is whether the
      cloud carried it out. */
  function Stop(w: World, name: string, net: Net, deleted: bool, confirmed: bool): (bool, World) {
    var (r, w') := Find(w, name, net);
    if Usable(r).None? then (false, w')
    else
      var w'' := if deleted then w'.(live := Without(w'.live, Usable(r).value.id)) else w';
      if confirmed then (true, w''.(cache := w''.cache - {name})) else (false, w'')
  }

  datatype Op =
    | FindOp(name: string, net: Net)
    | LaunchOp(name: string, post: Post, nets: seq<Net>)
    | StopOp(name: string, net: Net, deleted: bool, confirmed: bool)
    | ListOp(shown: Option<Listing>)
    | ForeignLaunch(machine: Machine)
    | ForeignDelete(id: string)

  /** New identifiers are new, and listings show only what is there. */
  predicate Legal(w: World, op: Op) {
    match op
    case FindOp(_, net) => Truthful(net, w.live)
    case LaunchOp(name, post, nets) => FreshId(w, post) && AllTruthful(nets, AfterPost(w, name, post).live)
    case StopOp(_, net, _, _) => Truthful(net, w.live)
    case ListOp(shown) => shown.Some? ==> forall m :: m in shown.value ==> m in w.live
    case ForeignLaunch(m) => m.id != "" && m.id !in w.issued
    case ForeignDelete(_) => true
  }

  function Step(w: World, op: Op): World {
    match op
    case FindOp(name, net) => Find(w, name, net).1
    case LaunchOp(name, post, nets) => Launch(w, name, post, nets).1
    case StopOp(name, net, deleted, confirmed) => Stop(w, name, net, deleted, confirmed).1
    case ListOp(shown) => if shown.Some? then w.(cache := FileAll(w.cache, shown.value, Label)) else w
    case ForeignLaunch(m) => w.(live := w.live + [m], issued := w.issued[m.id := m.name])
    case ForeignDelete(id) => w.(live := Without(w.live, id))
  }

  function Next(w: World, op: Op): Option<World> {
    if Legal(w, op) then Some(Step(w, op)) else None
  }

  function Run(ops: seq<Op>): Option<World> {
    Runs.After(Next, NEW_ACCOUNT, ops)
  }

  /** A stop keeps the cache true. It succeeds exactly if its lookup produced a pod and the
      delete was confirmed, and only then is what the lookup remembered forgotten; the pod
      filed under the name goes exactly if the cloud carried the delete out. */
  lemma StopSound(w: World, name: string, net: Net, deleted: bool, confirmed: bool)
    requires Valid(w, Label) && Truthful(net, w.live)
    ensures var (stopped, w') := Stop(w, name, net, deleted, confirmed);
            var (r, w1) := Find(w, name, net);
            var there := r.Got? && r.machine.Some?;
            && Valid(w', Label)
            && (stopped <==> there && confirmed)
            && (there ==> name == Label(r.machine.value) && r.machine.value in w.live)
            && w'.cache == (if stopped then w1.cache - {name} else w1.cache)
            && w'.live == (if there && deleted then Without(w.live, r.machine.value.id) else w.live)
  {
    FindValid(w, name, net);
    FindAnswers(w, name, net);
    var (r, w') := Find(w, name, net);
    if r.Got? && r.machine.Some? {
      var i :| 0 <= i < |w.live| && w.live[i] == r.machine.value;
      assert w.live[i].id in w.issued;
      WithoutWellFormed(w'.live, w'.issued, r.machine.value.id);
    }
  }

  lemma StepValid(w: World, op: Op)
    requires Valid(w, Label) && Legal(w, op)
    ensures Valid(Step(w, op), Label)
  {
    match op
    case FindOp(name, net) => FindValid(w, name, net);
    case LaunchOp(name, post, nets) => LaunchSound(w, name, post, nets);
    case StopOp(name, net, deleted, confirmed) => StopSound(w, name, net, deleted, confirmed);
    case ListOp(shown) =>
      if shown.Some? { FileAllOk(w.cache, shown.value, w.issued, Label); }
    case ForeignLaunch(m) => AppendWellFormed(w.live, w.issued, m);
    case ForeignDelete(id) => WithoutWellFormed(w.live, w.issued, id);
  }

  /** After any history the cache is true: every entry is an id the cloud once issued to a pod
      filed under that name. So the recovery results hold after any history. */
  lemma {:induction false} RunValid(ops: seq<Op>)
    requires Run(ops).Some?
    ensures Valid(Run(ops).value, Label)
  {
    if ops != [] {
      RunValid(ops[..|ops| - 1]);
      StepValid(Run(ops[..|ops| - 1]).value, ops[|ops| - 1]);
    }
  }

  /** The pod the first of the listings to show the name shows under it. */
  function FirstShown(nets: seq<Net>, name: string): Option<Machine> {
    if nets == [] then None
    else if Shows(nets[0], name) then Scan(nets[0].shown.value, name)
    else FirstShown(nets[1..], name)
  }

  /** The listings that recovery looks at: a stale cached id costs the first one. */
  function Looked(w: World, name: string, nets: seq<Net>): seq<Net> {
    if name in w.cache && nets != [] then nets[1..] else nets
  }

  /** With the API answering, recovery returns the pod of an id that is cached and alive, and
      otherwise what the first listing to show the name shows under it. */
  lemma {:induction false} RecoverWhich(w: World, name: string, nets: seq<Net>)
    requires Valid(w, Label) && AllTruthful(nets, w.live) && nets != []
    requires forall n :: n in nets ==> Working(n)
    ensures Recover(w, name, nets).0 ==
              if name in w.cache && Alive(w.live, w.cache[name]) then ById(w.live, w.cache[name])
              else FirstShown(Looked(w, name, nets), name)
    decreases |nets|
  {
    var w' := Find(w, name, nets[0]).1;
    assert nets[0] in nets;
    FindExact(w, name, nets[0]);
    FindValid(w, name, nets[0]);
    if Usable(Find(w, name, nets[0]).0).None? && |nets| > 1 {
      RecoverWhich(w', name, nets[1..]);
    }
  }

  /** What listings and other people do: a listing that works files what it shows, the last of a
      name winning, and changes nothing else; one that fails changes nothing; pods that others
      make or delete come and go without the cache noticing. */
  lemma OthersExactly(w: World, shown: Listing, m: Machine, id: string, name: string)
    ensures Step(w, ListOp(None)) == w
    ensures var w' := Step(w, ListOp(Some(shown)));
            && w'.live == w.live && w'.issued == w.issued
            && (if exists k :: LastFiled(shown, name, Label, k)
                then exists k :: LastFiled(shown, name, Label, k) && name in w'.cache && w'.cache[name] == shown[k].id
                else (name in w'.cache <==> name in w.cache) && (name in w'.cache ==> w'.cache[name] == w.cache[name]))
    ensures Step(w, ForeignLaunch(m)).live == w.live + [m] && Step(w, ForeignLaunch(m)).cache == w.cache
    ensures var w' := Step(w, ForeignDelete(id));
            w'.cache == w.cache && forall x :: x in w'.live <==> x in w.live && x.id != id
  {
    FiledExactly(w.cache, shown, Label, name);
  }

  /** A listing files a pod without a name under "pod-" and its id, and a lookup of that then
      finds what no listing shows under it. */
  lemma NicknameDiffers(w: World, m: Machine, net: Net)
    requires Valid(w, Label) && m in w.live && m.name.None? && net.get.Proper?
    ensures var w' := Step(w, ListOp(Some([m])));
            Find(w', "pod-" + m.id, net).0 == Got(Some(m))
  {
    var name := "pod-" + m.id;
    var i :| 0 <= i < |w.live| && w.live[i] == m;
    assert w.live[i].id in w.issued && m.id != "";
    assert LastFiled([m], name, Label, 0);
    OthersExactly(w, [m], m, m.id, name);
    var w' := Step(w, ListOp(Some([m])));
    assert w'.cache[name] == m.id;
    assert Alive(w'.live, m.id);
    OnlyOne(w', ById(w'.live, m.id).value, m);
  }

  /** Which pod a 5xx create that made one is reported as, after any history and with the API
      answering: the new one exactly if no pod is alive under a cached id of the name and the
      first listing looked at that shows the name shows the new pod first. */
  lemma ServerErrorReports(ops: seq<Op>, name: string, status: int, id: string, nets: seq<Net>)
    requires Run(ops).Some? && status >= 500
    requires var w, post := Run(ops).value, HttpFailure(Some(status), Some(id));
             Legal(w, LaunchOp(name, post, nets)) && forall n :: n in nets ==> Working(n)
    ensures var w, post := Run(ops).value, HttpFailure(Some(status), Some(id));
            var shown := FirstShown(Looked(w, name, nets), name);
            Launch(w, name, post, nets).0 == Pod(id) <==>
              !(name in w.cache && Alive(w.live, w.cache[name])) && shown == Some(Machine(id, Some(name)))
  {
    RunValid(ops);
    var w, post := Run(ops).value, HttpFailure(Some(status), Some(id));
    var w1, pod := AfterPost(w, name, post), Machine(id, Some(name));
    AppendWellFormed(w.live, w.issued, pod);
    AppendAlive(w.live, pod);
    if nets != [] { RecoverWhich(w1, name, nets); }
    RecoverSound(w1, name, nets);
    if name in w.cache {
      assert w.cache[name] in w.issued;
    }
    var m := Recover(w1, name, nets).0;
    if m.Some? && m.value.id == id {
      OnlyOne(w1, m.value, pod);
    }
  }

  lemma AppendAlive(live: Listing, m: Machine)
    ensures m in live + [m]
    ensures forall id :: Alive(live + [m], id) <==> Alive(live, id) || id == m.id
  {
    var l := live + [m];
    assert l[|live|] == m && forall i :: 0 <= i < |live| ==> l[i] == live[i];
  }

  lemma OnlyOne(w: World, a: Machine, b: Machine)
    requires WellFormed(w.live, w.issued) && a in w.live && b in w.live && a.id == b.id
    ensures a == b
  {
    var i :| 0 <= i < |w.live| && w.live[i] == a;
    var j :| 0 <= j < |w.live| && w.live[j] == b;
  }

  /** In particular it is the new pod if nothing alive is cached under the name, live names are
      unique and the second listing shows it. */
  lemma ServerErrorRecovered(ops: seq<Op>, name: string, status: int, id: string, nets: seq<Net>)
    requires Run(ops).Some? && name != "" && status >= 500
    requires var w, post := Run(ops).value, HttpFailure(Some(status), Some(id));
             var w1 := AfterPost(w, name, post);
             && Legal(w, LaunchOp(name, post, nets)) && UniqueNames(w1.live)
             && (name in w.cache ==> Stale(w, name))
             && |nets| >= 2 && (forall n :: n in nets ==> Working(n))
             && nets[1].shown.Some? && Machine(id, Some(name)) in nets[1].shown.value
    ensures Launch(Run(ops).value, name, HttpFailure(Some(status), Some(id)), nets).0 == Pod(id)
  {
    RunValid(ops);
    var w, post := Run(ops).value, HttpFailure(Some(status), Some(id));
    var w1, pod := AfterPost(w, name, post), Machine(id, Some(name));
    AppendWellFormed(w.live, w.issued, pod);
    AppendAlive(w.live, pod);
    if name in w.cache {
      assert w.cache[name] in w.issued;
    }
    CreatedPodRecovered(w1, name, pod, nets);
  }

  // ------------------------------------------------------------------
  // The provider object
  // ------------------------------------------------------------------

  class Provider {
    const account: Account
    var cache: map<string, string>

    constructor (account: Account)
      ensures this.account == account && cache == map[]
    {
      this.account := account;
      cache := map[];
    }

    ghost function Now(): World
      reads this, account
    {
      World(account.live, account.issued, cache)
    }

    method FindPodByName(name: string, net: Net) returns (r: Reply)
      modifies this`cache
      ensures (r, Now()) == Find(old(Now()), name, net)
    {
      if name in cache {
        match net.get {
          case Unreachable => return Raised;
          case Proper =>
            var m := ById(account.live, cache[name]);
            if m.Some? { return Got(m); }
          case HttpError =>
        }
        cache := cache - {name};
        return Got(None);
      }
      var hit := None;
      if net.shown.Some? {
        hit := ScanList(net.shown.value, name);
        if hit.Some? && hit.value.id != "" {
          cache := cache[name := hit.value.id];
        }
      }
      return Got(hit);
    }

    method RecoverPodAfterError(name: string, nets: seq<Net>) returns (pod: Option<Machine>)
      modifies this`cache
      ensures (pod, Now()) == Recover(old(Now()), name, nets)
    {
      var attempt := 0;
      while attempt < |nets|
        invariant 0 <= attempt <= |nets|
        invariant account.live == old(account.live) && account.issued == old(account.issued)
        invariant Recover(old(Now()), name, nets) == Recover(Now(), name, nets[attempt..])
      {
        assert nets[attempt..][1..] == nets[attempt + 1..];
        var r := FindPodByName(name, nets[attempt]);
        pod := Usable(r);
        if pod.Some? { return; }
        attempt := attempt + 1;
      }
      pod := None;
    }

    /** The create and recover part of `launch_cluster`: one request, never repeated. */
    method LaunchCluster(name: string, post: Post, nets: seq<Net>) returns (o: Outcome)
      requires FreshId(Now(), post)
      modifies this`cache, account
      ensures (o, Now()) == Launch(old(Now()), name, post, nets)
      ensures account.posts == old(account.posts) + 1
    {
      account.posts := account.posts + 1;
      var made := post.Made();
      if made.Some? {
        account.live := account.live + [Machine(made.value, Some(name))];
        account.issued := account.issued[made.value := Some(name)];
      }
      match post {
        case Answered(id) =>
          if id == "" { return Unknown; }
          cache := cache[name := id];
          return Pod(id);
        case AnsweredWithoutId(_) => return Unknown;
        case Lost(_) => return Failed;
        case HttpFailure(status, _) =>
          if status.Some? && status.value >= 500 {
            var pod := RecoverPodAfterError(name, nets);
            if pod.Some? {
              cache := cache[name := pod.value.id];
              return Pod(pod.value.id);
            }
          }
          return Failed;
      }
    }

    /** `stop_cluster`: the entry goes away only with a confirmed delete. */
    method StopCluster(name: string, net: Net, deleted: bool, confirmed: bool) returns (stopped: bool)
      modifies this`cache, account`live
      ensures (stopped, Now()) == Stop(old(Now()), name, net, deleted, confirmed)
    {
      var r := FindPodByName(name, net);
      var pod := Usable(r);
      if pod.None? { return false; }
      if deleted {
        account.live := Without(account.live, pod.value.id);
      }
      if !confirmed { return false; }
      cache := cache - {name};
      return true;
    }

    /** The cache writes of `list_clusters`; `None` is a failed listing. */
    method ListClusters(shown: Option<Listing>)
      modifies this`cache
      ensures Now() == Step(old(Now()), ListOp(shown))
    {
      if shown.None? { return; }
      var pods := shown.value;
      var i := 0;
      while i < |pods|
        invariant 0 <= i <= |pods|
        invariant cache == FileAll(old(cache), pods[..i], Label)
      {
        assert pods[..i + 1][..i] == pods[..i];
        if pods[i].id != "" {
          cache := cache[Label(pods[i]) := pods[i].id];
        }
        i := i + 1;
      }
      assert pods[..i] == pods;
    }
  }
}
