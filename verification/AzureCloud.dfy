/** Launch and teardown of an Azure cluster: a VM that uses a NIC that uses a public IP.

    Azure refuses to delete a resource that is in use, and may answer any delete with an
    error whether or not it took effect. Every call's outcome is part of an environment
    script, so the contracts quantify over all of them. */
module AzureCloud {
  import opened Text

  // ------------------------------------------------------------------
  // The timed retry schedule
  // ------------------------------------------------------------------

  /** The shipped `_NETWORK_DELETE_RETRY_DELAYS_SECONDS`. */
  const SHIPPED_DELAYS: seq<nat> := [5, 10, 15, 30, 30, 60, 60]

  /** `Healthy` follows the cloud's rules; `Broken` raises, with or without effect. */
  datatype Answer = Healthy | Broken(effect: bool) {
    predicate Acts() { Healthy? || effect }
  }

  datatype Call = Call(duration: nat, answer: Answer)

  function Sum(delays: seq<nat>): nat {
    if delays == [] then 0 else Sum(delays[..|delays| - 1]) + delays[|delays| - 1]
  }

  predicate HasHealthy(calls: seq<Call>) {
    exists c :: c in calls && c.answer.Healthy?
  }

  /** When attempt `k` is issued: after the earlier calls returned and their sleeps passed. */
  function IssuedAt(start: nat, delays: seq<nat>, calls: seq<Call>, k: nat): nat
    requires |calls| == |delays| + 1 && k <= |delays|
  {
    if k == 0 then start
    else IssuedAt(start, delays, calls, k - 1) + calls[k - 1].duration + delays[k - 1]
  }

  /** Is the resource, which nothing uses from `release` on, free for attempt `k`? */
  predicate Granted(release: Option<nat>, start: nat, delays: seq<nat>, calls: seq<Call>, k: nat)
    requires |calls| == |delays| + 1 && k <= |delays|
  {
    && calls[k].answer.Healthy?
    && release.Some? && release.value <= IssuedAt(start, delays, calls, k)
  }

  predicate SomeGranted(release: Option<nat>, start: nat, delays: seq<nat>, calls: seq<Call>)
    requires |calls| == |delays| + 1
  {
    exists k :: 0 <= k <= |delays| && Granted(release, start, delays, calls, k)
  }

  lemma {:induction false} IssuedLater(start: nat, delays: seq<nat>, calls: seq<Call>, j: nat, k: nat)
    requires |calls| == |delays| + 1 && j <= k <= |delays|
    ensures IssuedAt(start, delays, calls, j) <= IssuedAt(start, delays, calls, k)
  {
    if j < k {
      IssuedLater(start, delays, calls, j, k - 1);
    }
  }

  /** Attempt `k` is issued no sooner than the sum of the delays before it, and exactly then
      when the calls themselves take no time. */
  lemma {:induction false} IssuedAfterDelays(start: nat, delays: seq<nat>, calls: seq<Call>, k: nat)
    requires |calls| == |delays| + 1 && k <= |delays|
    ensures IssuedAt(start, delays, calls, k) >= start + Sum(delays[..k])
    ensures (forall j :: 0 <= j < k ==> calls[j].duration == 0)
            ==> IssuedAt(start, delays, calls, k) == start + Sum(delays[..k])
  {
    if k > 0 {
      IssuedAfterDelays(start, delays, calls, k - 1);
      assert delays[..k][..k - 1] == delays[..k - 1];
    }
  }

  lemma LastAttempt(start: nat, delays: seq<nat>, calls: seq<Call>)
    requires |calls| == |delays| + 1
    ensures IssuedAt(start, delays, calls, |delays|) >= start + Sum(delays)
    ensures (forall c :: c in calls ==> c.duration == 0)
            ==> IssuedAt(start, delays, calls, |delays|) == start + Sum(delays)
  {
    IssuedAfterDelays(start, delays, calls, |delays|);
    assert delays[..|delays|] == delays;
  }

  /** Only the time that has passed matters. */
  lemma {:induction false} IssuedShift(start: nat, delays: seq<nat>, calls: seq<Call>, k: nat)
    requires |calls| == |delays| + 1 && k <= |delays|
    ensures IssuedAt(start, delays, calls, k) == start + IssuedAt(0, delays, calls, k)
  {
    if k > 0 {
      IssuedShift(start, delays, calls, k - 1);
    }
  }

  /** A resource released `after` seconds from now, or before that, is granted if one released
      exactly then would be. */
  lemma GrantedShift(release: Option<nat>, after: nat, start: nat, delays: seq<nat>, calls: seq<Call>)
    requires |calls| == |delays| + 1
    requires release.Some? && release.value <= start + after
    requires SomeGranted(Some(after), 0, delays, calls)
    ensures SomeGranted(release, start, delays, calls)
  {
    var k :| 0 <= k <= |delays| && Granted(Some(after), 0, delays, calls, k);
    IssuedShift(start, delays, calls, k);
    assert Granted(release, start, delays, calls, k);
  }

  /** The cloud answers properly from time `t` on. */
  predicate HealthyFrom(t: nat, start: nat, delays: seq<nat>, calls: seq<Call>)
    requires |calls| == |delays| + 1
  {
    forall k :: 0 <= k <= |delays| && IssuedAt(start, delays, calls, k) >= t ==> calls[k].answer.Healthy?
  }

  /** For any schedule: a resource released, and reported so, by the time the delays add up
      to is deleted, however slow or wrong the earlier answers were. */
  lemma ReleasedInTime(release: Option<nat>, settled: nat, start: nat, delays: seq<nat>, calls: seq<Call>)
    requires |calls| == |delays| + 1
    requires release.Some? && release.value <= settled <= start + Sum(delays)
    requires HealthyFrom(settled, start, delays, calls)
    ensures SomeGranted(release, start, delays, calls)
  {
    LastAttempt(start, delays, calls);
    assert Granted(release, start, delays, calls, |delays|);
  }

  /** With instant, proper answers the bound is exact. */
  lemma ReleasedInTimeExact(release: Option<nat>, start: nat, delays: seq<nat>, calls: seq<Call>)
    requires |calls| == |delays| + 1
    requires forall c :: c in calls ==> c == Call(0, Healthy)
    ensures SomeGranted(release, start, delays, calls)
            <==> release.Some? && release.value <= start + Sum(delays)
  {
    LastAttempt(start, delays, calls);
    assert forall k :: 0 <= k <= |delays| ==> calls[k] in calls;
    if release.Some? && release.value <= start + Sum(delays) {
      ReleasedInTime(release, start + Sum(delays), start, delays, calls);
    }
    forall k | 0 <= k <= |delays| && Granted(release, start, delays, calls, k)
      ensures release.value <= start + Sum(delays)
    {
      IssuedLater(start, delays, calls, k, |delays|);
    }
  }

  lemma ShippedSum()
    ensures Sum(SHIPPED_DELAYS) == 210
  {
    assert SHIPPED_DELAYS[..6] == [5, 10, 15, 30, 30, 60];
    assert SHIPPED_DELAYS[..6][..5] == [5, 10, 15, 30, 30];
    assert [5, 10, 15, 30, 30][..4] == [5, 10, 15, 30];
    assert [5, 10, 15, 30][..3] == [5, 10, 15];
    assert [5, 10, 15][..2] == [5, 10];
    assert [5, 10][..1] == [5];
    assert Sum([5]) == 5;
    assert Sum([5, 10]) == 15;
    assert Sum([5, 10, 15]) == 30;
    assert Sum([5, 10, 15, 30]) == 60;
  }

  // ------------------------------------------------------------------
  // Requests and outcomes
  // ------------------------------------------------------------------

  datatype Kind = Nic | PublicIp

  datatype Request =
    | CreatePublicIp
    | CreateNic
    | CreateVm(image: nat)
    | DeleteVm
    | Delete(kind: Kind)

  /** A create that raises may still leave the resource behind. */
  datatype Create = Made | NotMade(left: bool)

  datatype VmCreate = VmMade | VmFailed(left: bool, imageError: bool)

  datatype Outcome = Launched(image: nat) | Raised

  /** A VM delete: its answer, how long the NIC stays in use afterwards, and when, if ever,
      the platform removes the NIC itself (its delete option says "Delete"). */
  datatype VmDelete = VmDelete(answer: Answer, hold: nat, cascade: Option<nat>)

  /** `ready`: size, shared network and key were resolved. `userData`: it could be built. */
  datatype LaunchEnv = LaunchEnv(
    ready: bool, publicIp: Create, nic: Create, userData: bool, vms: seq<VmCreate>,
    vmDelete: VmDelete, nicCalls: seq<Call>, pipCalls: seq<Call>)
  {
    predicate Fits(gpu: bool, delays: seq<nat>) {
      && |vms| == (if gpu then 2 else 1)
      && |nicCalls| == |pipCalls| == |delays| + 1
    }

    /** The create calls before the VM all worked. */
    predicate Prepared() { publicIp.Made? && nic.Made? && userData }

    /** Image `k` is the first to work, and every earlier failure was about the image. */
    predicate Picks(k: nat) {
      && k < |vms| && vms[k].VmMade?
      && forall j :: 0 <= j < k ==> ImageError(vms[j])
    }

    /** Every create request of the `try` block, in order: it ends with the first one that
        fails, image errors excepted. */
    function Asked(): seq<Request> {
      if publicIp.NotMade? then [CreatePublicIp]
      else if nic.NotMade? || !userData then [CreatePublicIp, CreateNic]
      else [CreatePublicIp, CreateNic] + VmRequests(Tried(vms))
    }

    /** Is there a VM after the creates, if there was none before? */
    predicate LeavesVm() {
      Prepared() && exists i :: 0 <= i < Tried(vms) && (vms[i].VmMade? || vms[i].left)
    }

    predicate LeavesNic() { publicIp.Made? && (nic.Made? || nic.left) }

    predicate LeavesPublicIp() { publicIp.Made? || publicIp.left }

    /** Each delete is granted once the resource's user is gone. */
    predicate CleanupGranted(delays: seq<nat>)
      requires |nicCalls| == |delays| + 1
    {
      && vmDelete.answer.Acts()
      && SomeGranted(Some(vmDelete.hold), 0, delays, nicCalls)
      && HasHealthy(pipCalls)
    }
  }

  predicate ImageError(v: VmCreate) { v.VmFailed? && v.imageError }

  /** How many images are tried: up to and including the first that works or fails for a
      reason other than the image, or all of them. */
  function Tried(vms: seq<VmCreate>): (n: nat)
    ensures n <= |vms|
    ensures forall i :: 0 <= i < n - 1 ==> ImageError(vms[i])
    ensures n < |vms| ==> n > 0 && !ImageError(vms[n - 1])
  {
    if vms == [] then 0
    else if ImageError(vms[0]) then
      assert forall i :: 0 < i < |vms| ==> vms[i] == vms[1..][i - 1];
      1 + Tried(vms[1..])
    else 1
  }

  /** The number is determined by what it promises. */
  lemma TriedIs(vms: seq<VmCreate>, n: nat)
    requires 0 < n <= |vms|
    requires forall i :: 0 <= i < n - 1 ==> ImageError(vms[i])
    requires n < |vms| ==> !ImageError(vms[n - 1])
    ensures Tried(vms) == n
  {
    var _ := Tried(vms);
  }

  function Repeat(r: Request, n: nat): (s: seq<Request>)
    ensures |s| == n && forall i :: 0 <= i < n ==> s[i] == r
  {
    seq(n, _ => r)
  }

  function VmRequests(n: nat): (s: seq<Request>)
    ensures |s| == n && forall i :: 0 <= i < n ==> s[i] == CreateVm(i)
  {
    seq(n, i requires 0 <= i < n => CreateVm(i))
  }

  function Earlier(a: nat, b: Option<nat>): nat {
    if b.Some? && b.value < a then b.value else a
  }

  class Cloud {
    var clock: nat
    var vm: bool
    var nic: bool
    var publicIp: bool
    /** Until when a deleted VM keeps the NIC in use. */
    var heldUntil: nat
    /** When the platform itself finishes removing the NIC of a deleted VM. */
    var cascade: Option<nat>
    ghost var requests: seq<Request>

    constructor ()
      ensures !vm && !nic && !publicIp && requests == []
    {
      clock, vm, nic, publicIp := 0, false, false, false;
      heldUntil, cascade, requests := 0, None, [];
    }

    /** From when on nothing uses the resource (or it is not there at all). */
    function Release(kind: Kind): Option<nat>
      reads this
    {
      match kind
      case Nic => if !nic then Some(0) else if vm then None else Some(Earlier(heldUntil, cascade))
      case PublicIp => if nic && publicIp then (if vm then None else cascade) else Some(0)
    }

    predicate Free(kind: Kind)
      reads this
    {
      Release(kind).Some? && Release(kind).value <= clock
    }

    function Present(kind: Kind): bool
      reads this
    {
      if kind.Nic? then nic else publicIp
    }

    /** One `begin_delete(...).result()`; false is the exception "still in use" or any other. */
    method BeginDelete(kind: Kind, call: Call) returns (gone: bool)
      modifies this
      ensures gone == (call.answer.Healthy? && old(Free(kind)))
      ensures Present(kind) == (old(Present(kind)) && !(call.answer.Acts() && old(Free(kind))))
      ensures vm == old(vm) && heldUntil == old(heldUntil) && cascade == old(cascade)
      ensures clock == old(clock) + call.duration
      ensures kind.Nic? ==> publicIp == old(publicIp)
      ensures kind.PublicIp? ==> nic == old(nic)
      ensures requests == old(requests) + [Delete(kind)]
    {
      var free := Free(kind);
      if call.answer.Acts() && free {
        if kind.Nic? { nic := false; } else { publicIp := false; }
      }
      requests := requests + [Delete(kind)];
      clock := clock + call.duration;
      gone := call.answer.Healthy? && free;
    }

    /** `_delete_network_resource_with_retries`. */
    method DeleteWithRetries(kind: Kind, delays: seq<nat>, calls: seq<Call>) returns (gone: bool)
      requires |calls| == |delays| + 1
      modifies this
      ensures gone == SomeGranted(old(Release(kind)), old(clock), delays, calls)
      ensures gone ==> !Present(kind)
      ensures !gone ==> clock == IssuedAt(old(clock), delays, calls, |delays|) + calls[|delays|].duration
      ensures clock >= old(clock) && (Present(kind) ==> old(Present(kind)))
      ensures old(Release(kind)).None? || (forall c :: c in calls ==> !c.answer.Acts())
              ==> !gone
      ensures old(Release(kind)).None? || (forall c :: c in calls ==> !c.answer.Acts())
              ==> Present(kind) == old(Present(kind))
      ensures vm == old(vm) && heldUntil == old(heldUntil) && cascade == old(cascade)
      ensures kind.Nic? ==> publicIp == old(publicIp)
      ensures kind.PublicIp? ==> nic == old(nic)
      ensures exists n :: 1 <= n <= |delays| + 1 && requests == old(requests) + Repeat(Delete(kind), n) &&
                (!gone ==> n == |delays| + 1)
    {
      var maxAttempts := |delays| + 1;
      var attempt := 1;
      ghost var release, start := Release(kind), clock;
      while attempt <= maxAttempts
        invariant 1 <= attempt <= maxAttempts + 1
        invariant clock >= start
        invariant attempt <= maxAttempts ==> clock == IssuedAt(start, delays, calls, attempt - 1)
        invariant attempt == maxAttempts + 1 ==>
                    clock == IssuedAt(start, delays, calls, |delays|) + calls[|delays|].duration
        invariant forall k :: 0 <= k < attempt - 1 ==> !Granted(release, start, delays, calls, k)
        invariant Present(kind) ==> old(Present(kind))
        invariant release.None? || (forall c :: c in calls ==> !c.answer.Acts())
                  ==> Present(kind) == old(Present(kind))
        invariant Present(kind) ==> Release(kind) == release
        invariant !Present(kind) && old(Present(kind)) ==> release.Some? && release.value <= clock
        invariant !Present(kind) ==> Release(kind) == Some(0)
        invariant vm == old(vm) && heldUntil == old(heldUntil) && cascade == old(cascade)
        invariant kind.Nic? ==> publicIp == old(publicIp)
        invariant kind.PublicIp? ==> nic == old(nic)
        invariant requests == old(requests) + Repeat(Delete(kind), attempt - 1)
      {
        var k := attempt - 1;
        assert calls[k] in calls;
        gone := BeginDelete(kind, calls[k]);
        assert requests == old(requests) + Repeat(Delete(kind), attempt);
        if gone {
          assert Granted(release, start, delays, calls, k);
          return;
        }
        assert !Granted(release, start, delays, calls, k);
        if attempt < maxAttempts {
          clock := clock + delays[attempt - 1];
        }
        attempt := attempt + 1;
      }
      gone := false;
    }

    /** `_delete_cluster_nic_and_public_ip`: the public IP is tried even when the NIC phase
        gave up, because a NIC in mid cascade-delete goes away by itself. */
    method DeleteNicAndPublicIp(delays: seq<nat>, nicCalls: seq<Call>, pipCalls: seq<Call>)
      returns (nicGone: bool, pipGone: bool)
      requires |nicCalls| == |pipCalls| == |delays| + 1
      modifies this
      ensures vm == old(vm) && heldUntil == old(heldUntil) && cascade == old(cascade)
      ensures nicGone == SomeGranted(old(Release(Nic)), old(clock), delays, nicCalls)
      // With instant, proper calls the NIC goes exactly if within one schedule it is released
      // or goes away by itself.
      ensures !old(vm) && old(nic) && (forall c :: c in nicCalls ==> c == Call(0, Healthy))
              ==> (nicGone <==> || old(heldUntil) <= old(clock) + Sum(delays)
                                || (old(cascade).Some? && old(cascade).value <= old(clock) + Sum(delays)))
      ensures nicGone ==> !nic
      ensures pipGone ==> !publicIp
      ensures (nic ==> old(nic)) && (publicIp ==> old(publicIp))
      // Both phases failing costs at least two full schedules.
      ensures !nicGone && !pipGone ==> clock >= old(clock) + 2 * Sum(delays)
      ensures nicGone && HasHealthy(pipCalls) ==> pipGone
      // A NIC that goes away by itself within two schedules frees the public IP in time ...
      ensures !old(vm) && pipCalls[|delays|].answer.Healthy? &&
              old(cascade).Some? && old(cascade).value <= old(clock) + 2 * Sum(delays)
              ==> pipGone
      // ... and, when the calls take no time, no later.
      ensures !old(vm) && old(nic) && old(publicIp) &&
              (forall c :: c in nicCalls ==> c == Call(0, Broken(false))) &&
              (forall c :: c in pipCalls ==> c == Call(0, Healthy))
              ==> (pipGone <==> old(cascade).Some? && old(cascade).value <= old(clock) + 2 * Sum(delays))
      // While the VM is there nothing below it can go.
      ensures old(vm) && old(nic) ==> nic && publicIp == old(publicIp)
      ensures old(vm) && old(nic) && old(publicIp) ==> !nicGone && !pipGone
      ensures exists a, b :: 1 <= a <= |delays| + 1 && 1 <= b <= |delays| + 1 &&
                requests == old(requests) + Repeat(Delete(Nic), a) + Repeat(Delete(PublicIp), b)
    {
      if !vm && nic && forall c :: c in nicCalls ==> c == Call(0, Healthy) {
        ReleasedInTimeExact(Release(Nic), clock, delays, nicCalls);
      }
      nicGone := DeleteWithRetries(Nic, delays, nicCalls);
      ghost var a :| 1 <= a <= |delays| + 1 && requests == old(requests) + Repeat(Delete(Nic), a);
      ghost var mid, release := clock, Release(PublicIp);
      LastAttempt(old(clock), delays, nicCalls);
      if nicGone && HasHealthy(pipCalls) {
        ScriptGrants(mid, delays, pipCalls);
      }
      pipGone := DeleteWithRetries(PublicIp, delays, pipCalls);
      LastAttempt(mid, delays, pipCalls);
      if release.Some? && release.value <= mid + Sum(delays) && pipCalls[|delays|].answer.Healthy? {
        assert Granted(release, mid, delays, pipCalls, |delays|);
      }
      if forall c :: c in pipCalls ==> c == Call(0, Healthy) {
        ReleasedInTimeExact(release, mid, delays, pipCalls);
      }
      if !old(vm) && old(nic) && old(publicIp) && (forall c :: c in nicCalls ==> c == Call(0, Broken(false))) {
        assert forall c :: c in nicCalls ==> c.duration == 0 && !c.answer.Acts();
        assert nicCalls[|delays|] in nicCalls;
        assert mid == old(clock) + Sum(delays);
        assert release == old(cascade);
      }
    }

    /** One VM delete; false is an exception other than "not found". */
    method DeleteVm(call: VmDelete) returns (gone: bool)
      modifies this
      ensures gone == call.answer.Healthy?
      ensures vm == (old(vm) && !call.answer.Acts())
      ensures heldUntil == if old(vm) && !vm then clock + call.hold else old(heldUntil)
      ensures old(vm) && !vm ==>
                if call.cascade.Some? then cascade == Some(clock + call.cascade.value) else cascade == None
      ensures !old(vm) || vm ==> cascade == old(cascade)
      ensures clock == old(clock) && nic == old(nic) && publicIp == old(publicIp)
      ensures requests == old(requests) + [Request.DeleteVm]
    {
      if vm && call.answer.Acts() {
        vm, heldUntil, cascade := false, clock + call.hold, At(clock, call.cascade);
      }
      requests := requests + [Request.DeleteVm];
      gone := call.answer.Healthy?;
    }

    /** `launch_cluster`, from the first create to the end of its `finally`. */
    method Launch(gpu: bool, delays: seq<nat>, env: LaunchEnv) returns (o: Outcome)
      requires env.Fits(gpu, delays)
      modifies this
      // It succeeds exactly when every create did, up to an image the cloud accepts.
      ensures o.Launched? <==> env.ready && env.Prepared() && exists k: nat :: env.Picks(k)
      ensures o.Launched? ==> env.Picks(o.image) && vm && nic && publicIp
      ensures o.Launched? ==> requests == old(requests) + env.Asked() && o.image + 1 == Tried(env.vms)
      ensures !env.ready ==>
                requests == old(requests) && vm == old(vm) && nic == old(nic) && publicIp == old(publicIp)
      // Otherwise it stops creating at the first failure and cleans up in the order VM, NIC,
      // public IP ...
      ensures o.Raised? && env.ready ==>
                exists a, b :: 1 <= a <= |delays| + 1 && 1 <= b <= |delays| + 1 &&
                  requests == old(requests) + env.Asked() + [Request.DeleteVm] +
                              Repeat(Delete(Nic), a) + Repeat(Delete(PublicIp), b)
      // ... and leaves nothing if each delete is granted once its user is gone.
      ensures o.Raised? && env.ready && env.CleanupGranted(delays) && old(Idle()) ==> !vm && !nic && !publicIp
      // A VM that cannot be deleted holds on to both.
      ensures o.Raised? && env.ready && env.Prepared() && vm ==> nic && publicIp
    {
      if !env.ready {
        return Raised;
      }
      o := Create(env);
      if o.Raised? {
        var vmGone := DeleteVm(env.vmDelete);
        if env.CleanupGranted(delays) && old(Idle()) {
          GrantedShift(Release(Nic), env.vmDelete.hold, clock, delays, env.nicCalls);
        }
        var nicGone, pipGone := DeleteNicAndPublicIp(delays, env.nicCalls, env.pipCalls);
      }
    }

    /** No NIC is held by an earlier VM. */
    predicate Idle()
      reads this
    {
      vm || !nic || heldUntil <= clock
    }

    /** The body of the `try`: the creates, and the images in order of preference. */
    method Create(env: LaunchEnv) returns (o: Outcome)
      modifies this
      ensures o.Launched? <==> env.Prepared() && exists k: nat :: env.Picks(k)
      ensures o.Launched? ==> env.Picks(o.image) && o.image + 1 == Tried(env.vms)
      ensures requests == old(requests) + env.Asked()
      ensures publicIp == (old(publicIp) || env.LeavesPublicIp())
      ensures nic == (old(nic) || env.LeavesNic())
      ensures vm == (old(vm) || env.LeavesVm())
      ensures clock == old(clock)
      ensures if env.LeavesNic() && !old(nic) then heldUntil == clock && cascade == None
              else heldUntil == old(heldUntil) && cascade == old(cascade)
    {
      requests := requests + [CreatePublicIp];
      publicIp := publicIp || env.publicIp.Made? || env.publicIp.left;
      if env.publicIp.NotMade? { return Raised; }
      requests := requests + [CreateNic];
      assert requests == old(requests) + [CreatePublicIp, CreateNic];
      if env.nic.Made? || env.nic.left {
        if !nic { nic, heldUntil, cascade := true, clock, None; }
      }
      if env.nic.NotMade? || !env.userData { return Raised; }
      o := TryImages(env);
      assert requests == old(requests) + ([CreatePublicIp, CreateNic] + VmRequests(Tried(env.vms)));
    }

    /** The images in order of preference: no further one after a success or after an error
        that is not about the image. */
    method TryImages(env: LaunchEnv) returns (o: Outcome)
      modifies this`vm, this`requests
      ensures o.Launched? <==> exists k: nat :: env.Picks(k)
      ensures o.Launched? ==> env.Picks(o.image) && o.image + 1 == Tried(env.vms)
      ensures requests == old(requests) + VmRequests(Tried(env.vms))
      ensures vm == (old(vm) || exists i :: 0 <= i < Tried(env.vms) && (env.vms[i].VmMade? || env.vms[i].left))
    {
      var i := 0;
      while i < |env.vms|
        invariant 0 <= i <= |env.vms|
        invariant forall j :: 0 <= j < i ==> ImageError(env.vms[j])
        invariant requests == old(requests) + VmRequests(i)
        invariant vm == (old(vm) || exists j :: 0 <= j < i && (env.vms[j].VmMade? || env.vms[j].left))
      {
        requests := requests + [CreateVm(i)];
        assert VmRequests(i) + [CreateVm(i)] == VmRequests(i + 1);
        assert requests == old(requests) + VmRequests(i + 1);
        match env.vms[i] {
          case VmMade =>
            vm := true;
            assert env.Picks(i);
            TriedIs(env.vms, i + 1);
            return Launched(i);
          case VmFailed(left, imageError) =>
            vm := vm || left;
            if !imageError {
              TriedIs(env.vms, i + 1);
              return Raised;
            }
        }
        i := i + 1;
      }
      if i > 0 { TriedIs(env.vms, i); }
      return Raised;
    }

    /** `stop_cluster`: a VM delete that fails for any reason but absence stops the teardown. */
    method Stop(delays: seq<nat>, vmDelete: VmDelete, nicCalls: seq<Call>, pipCalls: seq<Call>) returns (ok: bool)
      requires |nicCalls| == |pipCalls| == |delays| + 1
      modifies this
      ensures ok == vmDelete.answer.Healthy?
      ensures ok ==> !vm
      ensures !ok ==> nic == old(nic) && publicIp == old(publicIp) && requests == old(requests) + [Request.DeleteVm]
      ensures ok ==>
                exists a, b :: 1 <= a <= |delays| + 1 && 1 <= b <= |delays| + 1 &&
                  requests == old(requests) + [Request.DeleteVm] + Repeat(Delete(Nic), a) + Repeat(Delete(PublicIp), b)
      // A NIC released within one schedule is deleted, whether this call deleted the VM or the
      // VM had deleted itself before; its public IP follows.
      ensures ok && nicCalls[|delays|].answer.Healthy? &&
              (if old(vm) then vmDelete.hold <= Sum(delays) else old(heldUntil) <= old(clock) + Sum(delays))
              ==> !nic && (HasHealthy(pipCalls) ==> !publicIp)
      // A NIC that goes away by itself within two schedules frees the public IP in time.
      ensures ok && pipCalls[|delays|].answer.Healthy? &&
              (if old(vm) then vmDelete.cascade.Some? && vmDelete.cascade.value <= 2 * Sum(delays)
               else old(cascade).Some? && old(cascade).value <= old(clock) + 2 * Sum(delays))
              ==> !publicIp
    {
      ok := DeleteVm(vmDelete);
      if ok {
        var release := Release(Nic);
        LastAttempt(clock, delays, nicCalls);
        if release.value <= clock + Sum(delays) && nicCalls[|delays|].answer.Healthy? {
          assert Granted(release, clock, delays, nicCalls, |delays|);
        }
        var nicGone, pipGone := DeleteNicAndPublicIp(delays, nicCalls, pipCalls);
      }
    }
  }

  function At(now: nat, after: Option<nat>): Option<nat> {
    if after.Some? then Some(now + after.value) else None
  }

  /** One proper answer is enough for a resource nothing uses. */
  lemma ScriptGrants(start: nat, delays: seq<nat>, calls: seq<Call>)
    requires |calls| == |delays| + 1
    requires HasHealthy(calls)
    ensures SomeGranted(Some(0), start, delays, calls)
  {
    var c :| c in calls && c.answer.Healthy?;
    var k :| 0 <= k < |calls| && calls[k] == c;
    assert Granted(Some(0), start, delays, calls, k);
  }
}
