/** What a bubblewrap argument list means: filesystem operations apply in argument order,
    so the last mount whose target is an ancestor of a path decides how it is seen. */
module Bwrap {
  import opened Text

  datatype Mode = ReadOnly | ReadWrite | Device | ProcFs | Private

  /** `source` is the host's path, if the mount shows one. */
  datatype Mount = Mount(mode: Mode, source: Option<string>, target: string)

  type Path = seq<string>

  function Named(parts: seq<string>): Path {
    if parts == [] then []
    else (if parts[0] == "" || parts[0] == "." then [] else [parts[0]]) + Named(parts[1..])
  }

  /** The components of a path; doubled and trailing slashes and "." do not count. */
  function Parts(path: string): Path {
    Named(Split(path, '/'))
  }

  predicate Covers(target: string, p: Path) {
    Parts(target) <= p
  }

  predicate CleanName(s: string) { s != "" && s != "." && '/' !in s }

  predicate Clean(p: Path) { forall s :: s in p ==> CleanName(s) }

  lemma {:induction false} NamedClean(p: Path)
    requires Clean(p)
    ensures Named(p) == p
  {
    if p != [] {
      assert p[0] in p && [p[0]] + p[1..] == p;
      NamedClean(p[1..]);
    }
  }

  /** A clean absolute path has the components it is written with. */
  lemma PathParts(p: Path)
    requires p != [] && Clean(p)
    ensures Parts("/" + Join(p, '/')) == p
  {
    var j := Join(p, '/');
    SplitOfJoin(p, '/');
    NamedClean(p);
    DotsAndSlashes(j);
    assert Parts(j) == p;
  }

  /** Neither a dot nor a doubled slash counts. */
  lemma DotsAndSlashes(path: string)
    ensures Parts("./" + path) == Parts(path) && Parts("/" + path) == Parts(path)
  {
    AfterName(".", path);
    AfterName("", path);
    assert "" + "/" + path == "/" + path && "." + "/" + path == "./" + path;
  }

  lemma AfterName(name: string, rest: string)
    requires '/' !in name
    ensures Parts(name + "/" + rest) == (if CleanName(name) then [name] else []) + Parts(rest)
  {
    assert name + "/" + rest == name + ['/'] + rest;
    SplitCons(name, rest, '/');
  }

  /** Reading the options of an invocation, up to the command. */
  function Mounts(args: seq<string>): seq<Mount> {
    if args == [] then []
    else if args[0] == "--share-net" || args[0] == "--unshare-ipc" then Mounts(args[1..])
    else if args[0] == "--proc" && |args| >= 2 then [Mount(ProcFs, None, args[1])] + Mounts(args[2..])
    else if args[0] == "--tmpfs" && |args| >= 2 then [Mount(Private, None, args[1])] + Mounts(args[2..])
    else if args[0] == "--ro-bind" && |args| >= 3 then [Mount(ReadOnly, Some(args[1]), args[2])] + Mounts(args[3..])
    else if args[0] == "--bind" && |args| >= 3 then [Mount(ReadWrite, Some(args[1]), args[2])] + Mounts(args[3..])
    else if args[0] == "--dev-bind" && |args| >= 3 then [Mount(Device, Some(args[1]), args[2])] + Mounts(args[3..])
    else []
  }

  /** The last element with a property. */
  function Last<A>(has: A -> bool, xs: seq<A>): Option<A> {
    if xs == [] then None
    else if has(xs[|xs| - 1]) then Some(xs[|xs| - 1])
    else Last(has, xs[..|xs| - 1])
  }

  function Covering(p: Path): Mount -> bool {
    (m: Mount) => Covers(m.target, p)
  }

  /** The mode of the last mount that covers `p`. */
  function ModeOf(mounts: seq<Mount>, p: Path): Option<Mode> {
    match Last(Covering(p), mounts)
    case None => None
    case Some(m) => Some(m.mode)
  }

  /** What the wrapper asks the host about: which paths exist, which are directories, and the
      real file behind /etc/resolv.conf. */
  datatype Host = Host(present: set<string>, directories: set<string>, resolvConf: Option<string>)

  const RESOLV_CONF := "/etc/resolv.conf"

  const DNS_DIRS: seq<string> := ["/run/systemd/resolve", "/run/resolvconf"]

  predicate Usable(path: string, host: Host) {
    path != "" && path in host.present
  }

  /** `[x for x in xs if keep(x)]`. */
  function Kept<A>(keep: A -> bool, xs: seq<A>): seq<A> {
    if xs == [] then []
    else Kept(keep, xs[..|xs| - 1]) + (if keep(xs[|xs| - 1]) then [xs[|xs| - 1]] else [])
  }

  /** `[y for x in xs for y in f(x)]`. */
  function Flat<A, B>(f: A -> seq<B>, xs: seq<A>): seq<B> {
    if xs == [] then [] else Flat(f, xs[..|xs| - 1]) + f(xs[|xs| - 1])
  }

  function UsableOn(host: Host): string -> bool {
    (path: string) => Usable(path, host)
  }

  function UsableOf(paths: seq<string>, host: Host): seq<string> {
    Kept(UsableOn(host), paths)
  }

  function DirectoryOn(host: Host): string -> bool {
    (path: string) => path in host.directories
  }

  /** The resolver directories there are. */
  function DnsDirs(host: Host): seq<string> {
    Kept(DirectoryOn(host), DNS_DIRS)
  }

  // ------------------------------------------------------------------
  // The argument list
  // ------------------------------------------------------------------

  function Bind(flag: string, path: string): seq<string> { [flag, path, path] }

  function BindWith(flag: string): string -> seq<string> {
    (path: string) => Bind(flag, path)
  }

  function BindArgs(flag: string, paths: seq<string>): seq<string> {
    Flat(BindWith(flag), paths)
  }

  function Namespaces(): seq<string> { ["--share-net", "--unshare-ipc"] }

  function RoBind(path: string): seq<string> { Bind("--ro-bind", path) }

  function RwBind(path: string): seq<string> { Bind("--bind", path) }

  function DevBind(path: string): seq<string> { ["--dev-bind", path, path] }

  function Proc(path: string): seq<string> { ["--proc", path] }

  function Tmpfs(path: string): seq<string> { ["--tmpfs", path] }

  /** The mounts every sandbox starts with: the root and names below it. */
  datatype Tree = Tree(root: string, dev: string, proc: string, sys: string, tmp: string)

  const TREE := Tree("/", "dev", "proc", "sys", "tmp")

  function Top(name: string): string { "/" + name }

  function FixedArgs(t: Tree, workspace: string): seq<string> {
    Namespaces() + RoBind(t.root) + DevBind(Top(t.dev)) + Proc(Top(t.proc)) + RwBind(Top(t.sys)) +
    Tmpfs(Top(t.tmp)) + RwBind(workspace)
  }

  function ResolvArgs(host: Host): seq<string> {
    if host.resolvConf.Some? then ["--ro-bind", host.resolvConf.value, RESOLV_CONF] else []
  }

  function Options(workspace: string, ros: seq<string>, rws: seq<string>, host: Host): seq<string> {
    FixedArgs(TREE, workspace) + BindArgs("--ro-bind", UsableOf(ros, host)) + BindArgs("--bind", UsableOf(rws, host)) +
    BindArgs("--ro-bind", DnsDirs(host)) + ResolvArgs(host)
  }

  /** `wrap_command_with_bwrap`; `bwrap` is the binary, if there is one. */
  method WrapCommand(bwrap: Option<string>, cmd: seq<string>, workspace: string,
                     ros: seq<string>, rws: seq<string>, host: Host) returns (args: seq<string>)
    ensures bwrap.None? || bwrap.value == "" ==> args == cmd
    ensures bwrap.Some? && bwrap.value != "" ==> args == [bwrap.value] + Options(workspace, ros, rws, host) + cmd
  {
    if bwrap.None? || bwrap.value == "" { return cmd; }
    var options := BuildOptions(workspace, ros, rws, host);
    args := [bwrap.value] + options + cmd;
  }

  /** The list as it grows: fixed mounts, read paths, read-write paths, resolver. */
  method BuildOptions(workspace: string, ros: seq<string>, rws: seq<string>, host: Host) returns (args: seq<string>)
    ensures args == Options(workspace, ros, rws, host)
  {
    args := FixedArgs(TREE, workspace);
    args := AddBinds(args, "--ro-bind", ros, UsableOn(host));
    args := AddBinds(args, "--bind", rws, UsableOn(host));
    args := AddBinds(args, "--ro-bind", DNS_DIRS, DirectoryOn(host));
    args := args + ResolvArgs(host);
  }

  /** One of the three loops over a list of paths, with its test. */
  method AddBinds(before: seq<string>, flag: string, paths: seq<string>, keep: string -> bool)
    returns (args: seq<string>)
    ensures args == before + BindArgs(flag, Kept(keep, paths))
  {
    args := before;
    var i := 0;
    while i < |paths|
      invariant 0 <= i <= |paths|
      invariant args == before + BindArgs(flag, Kept(keep, paths[..i]))
    {
      AppendStep(before, keep, BindWith(flag), paths, i);
      if keep(paths[i]) {
        args := args + Bind(flag, paths[i]);
      }
      i := i + 1;
    }
    assert paths[..i] == paths;
  }

  lemma KeptStep<A>(keep: A -> bool, xs: seq<A>, i: nat)
    requires i < |xs|
    ensures Kept(keep, xs[..i + 1]) == Kept(keep, xs[..i]) + (if keep(xs[i]) then [xs[i]] else [])
  {
    assert xs[..i + 1][..i] == xs[..i];
  }

  /** One turn of a loop that appends `f(x)` for each `x` it keeps. */
  lemma AppendStep<A, B>(before: seq<B>, keep: A -> bool, f: A -> seq<B>, xs: seq<A>, i: nat)
    requires i < |xs|
    ensures before + Flat(f, Kept(keep, xs[..i + 1])) ==
              before + Flat(f, Kept(keep, xs[..i])) + (if keep(xs[i]) then f(xs[i]) else [])
  {
    KeptStep(keep, xs, i);
    assert Kept(keep, xs[..i]) + [] == Kept(keep, xs[..i]);
  }

  // ------------------------------------------------------------------
  // Its meaning
  // ------------------------------------------------------------------

  /** A mount that shows a path in its own place. */
  function Same(mode: Mode, path: string): Mount { Mount(mode, Some(path), path) }

  function Group(mode: Mode, paths: seq<string>): (r: seq<Mount>)
    ensures |r| == |paths| && forall i :: 0 <= i < |paths| ==> r[i] == Same(mode, paths[i])
  {
    seq(|paths|, i requires 0 <= i < |paths| => Same(mode, paths[i]))
  }

  function FixedMounts(t: Tree, workspace: string): seq<Mount> {
    [Same(ReadOnly, t.root), Same(Device, Top(t.dev)), Mount(ProcFs, None, Top(t.proc)),
     Same(ReadWrite, Top(t.sys)), Mount(Private, None, Top(t.tmp)), Same(ReadWrite, workspace)]
  }

  function ResolvMounts(host: Host): seq<Mount> {
    if host.resolvConf.Some? then [Mount(ReadOnly, host.resolvConf, RESOLV_CONF)] else []
  }

  function MountList(workspace: string, ros: seq<string>, rws: seq<string>, host: Host): seq<Mount> {
    FixedMounts(TREE, workspace) + Group(ReadOnly, UsableOf(ros, host)) + Group(ReadWrite, UsableOf(rws, host)) +
    Group(ReadOnly, DnsDirs(host)) + ResolvMounts(host)
  }

  /** A command, not another option, follows. */
  predicate IsCommand(cmd: seq<string>) {
    Mounts(cmd) == []
  }

  function FlagMode(flag: string): Mode {
    if flag == "--ro-bind" then ReadOnly else ReadWrite
  }

  lemma Assoc<T>(a: seq<T>, b: seq<T>, c: seq<T>)
    ensures a + b + c == a + (b + c)
  {}

  lemma {:induction false} BindsMean(flag: string, paths: seq<string>, rest: seq<string>)
    requires flag == "--ro-bind" || flag == "--bind"
    ensures Mounts(BindArgs(flag, paths) + rest) == Group(FlagMode(flag), paths) + Mounts(rest)
    decreases |paths|
  {
    if paths == [] {
      assert BindArgs(flag, paths) + rest == rest;
    } else {
      var init, last := paths[..|paths| - 1], paths[|paths| - 1];
      var m := FlagMode(flag);
      BindsMean(flag, init, Bind(flag, last) + rest);
      assert paths == init + [last];
      Assoc(BindArgs(flag, init), Bind(flag, last), rest);
      Assoc(Group(m, init), [Same(m, last)], Mounts(rest));
      assert Group(m, paths) == Group(m, init) + [Same(m, last)];
    }
  }

  lemma OneDevice(path: string, rest: seq<string>)
    ensures Mounts(DevBind(path) + rest) == [Same(Device, path)] + Mounts(rest)
  {
    assert (DevBind(path) + rest)[3..] == rest;
  }

  lemma OneProc(path: string, rest: seq<string>)
    ensures Mounts(Proc(path) + rest) == [Mount(ProcFs, None, path)] + Mounts(rest)
  {
    assert (Proc(path) + rest)[2..] == rest;
  }

  lemma OneTmpfs(path: string, rest: seq<string>)
    ensures Mounts(Tmpfs(path) + rest) == [Mount(Private, None, path)] + Mounts(rest)
  {
    assert (Tmpfs(path) + rest)[2..] == rest;
  }

  lemma NamespacesMean(rest: seq<string>)
    ensures Mounts(Namespaces() + rest) == Mounts(rest)
  {
    var args := Namespaces() + rest;
    assert args[1..][0] == "--unshare-ipc" && args[1..][1..] == rest;
  }

  lemma BindIsOne(path: string, rest: seq<string>)
    ensures Mounts(RwBind(path) + rest) == [Same(ReadWrite, path)] + Mounts(rest)
    ensures Mounts(RoBind(path) + rest) == [Same(ReadOnly, path)] + Mounts(rest)
  {
  }

  lemma Assoc7<T>(a: seq<T>, b: seq<T>, c: seq<T>, d: seq<T>, e: seq<T>, f: seq<T>, g: seq<T>, r: seq<T>)
    ensures a + b + c + d + e + f + g + r == a + (b + (c + (d + (e + (f + (g + r))))))
  {}

  lemma FixedMeans(t: Tree, workspace: string, rest: seq<string>)
    ensures Mounts(FixedArgs(t, workspace) + rest) == FixedMounts(t, workspace) + Mounts(rest)
  {
    var t1 := RwBind(workspace) + rest;
    var t2 := Tmpfs(Top(t.tmp)) + t1;
    var t3 := RwBind(Top(t.sys)) + t2;
    var t4 := Proc(Top(t.proc)) + t3;
    var t5 := DevBind(Top(t.dev)) + t4;
    NamespacesMean(RoBind(t.root) + t5);
    BindIsOne(t.root, t5);
    OneDevice(Top(t.dev), t4);
    OneProc(Top(t.proc), t3);
    BindIsOne(Top(t.sys), t2);
    OneTmpfs(Top(t.tmp), t1);
    BindIsOne(workspace, rest);
    Assoc7(Namespaces(), RoBind(t.root), DevBind(Top(t.dev)), Proc(Top(t.proc)), RwBind(Top(t.sys)),
           Tmpfs(Top(t.tmp)), RwBind(workspace), rest);
    SixMounts(t, workspace, Mounts(rest));
  }

  lemma SixMounts(t: Tree, workspace: string, tail: seq<Mount>)
    ensures FixedMounts(t, workspace) + tail ==
              [Same(ReadOnly, t.root)] + ([Same(Device, Top(t.dev))] + ([Mount(ProcFs, None, Top(t.proc))] +
              ([Same(ReadWrite, Top(t.sys))] + ([Mount(Private, None, Top(t.tmp))] +
              ([Same(ReadWrite, workspace)] + tail)))))
  {}

  lemma ResolvMeans(host: Host, cmd: seq<string>)
    requires IsCommand(cmd)
    ensures Mounts(ResolvArgs(host) + cmd) == ResolvMounts(host)
  {
    var args := ResolvArgs(host) + cmd;
    if host.resolvConf.Some? {
      assert args[3..] == cmd;
    } else {
      assert args == cmd;
    }
  }

  /** The argument list means the mounts, in the wrapper's order. */
  lemma OptionsMean(workspace: string, ros: seq<string>, rws: seq<string>, host: Host, cmd: seq<string>)
    requires IsCommand(cmd)
    ensures Mounts(Options(workspace, ros, rws, host) + cmd) == MountList(workspace, ros, rws, host)
  {
    var r, w, d := UsableOf(ros, host), UsableOf(rws, host), DnsDirs(host);
    var t1 := ResolvArgs(host) + cmd;
    var t2 := BindArgs("--ro-bind", d) + t1;
    var t3 := BindArgs("--bind", w) + t2;
    ResolvMeans(host, cmd);
    BindsMean("--ro-bind", d, t1);
    BindsMean("--bind", w, t2);
    BindsMean("--ro-bind", r, t3);
    FixedMeans(TREE, workspace, BindArgs("--ro-bind", r) + t3);
    Assoc5(FixedArgs(TREE, workspace), BindArgs("--ro-bind", r), BindArgs("--bind", w), BindArgs("--ro-bind", d),
           ResolvArgs(host), cmd);
    Assoc5(FixedMounts(TREE, workspace), Group(ReadOnly, r), Group(ReadWrite, w), Group(ReadOnly, d),
           ResolvMounts(host), []);
  }

  lemma Assoc5<T>(a: seq<T>, b: seq<T>, c: seq<T>, d: seq<T>, e: seq<T>, r: seq<T>)
    ensures a + b + c + d + e + r == a + (b + (c + (d + (e + r))))
    ensures r == [] ==> e + r == e && a + b + c + d + e + r == a + b + c + d + e
  {}

  /** How bubblewrap reads each option, source and target apart. */
  lemma OptionMeans(source: string, target: string, rest: seq<string>)
    ensures Mounts(["--ro-bind", source, target] + rest) == [Mount(ReadOnly, Some(source), target)] + Mounts(rest)
    ensures Mounts(["--bind", source, target] + rest) == [Mount(ReadWrite, Some(source), target)] + Mounts(rest)
    ensures Mounts(["--dev-bind", source, target] + rest) == [Mount(Device, Some(source), target)] + Mounts(rest)
    ensures Mounts(["--proc", target] + rest) == [Mount(ProcFs, None, target)] + Mounts(rest)
    ensures Mounts(["--tmpfs", target] + rest) == [Mount(Private, None, target)] + Mounts(rest)
  {
    assert (["--ro-bind", source, target] + rest)[3..] == rest;
    assert (["--bind", source, target] + rest)[3..] == rest;
    assert (["--dev-bind", source, target] + rest)[3..] == rest;
    assert (["--proc", target] + rest)[2..] == rest;
    assert (["--tmpfs", target] + rest)[2..] == rest;
  }

  // ------------------------------------------------------------------
  // Who decides
  // ------------------------------------------------------------------

  predicate AnyCovers(paths: seq<string>, host: Host, p: Path) {
    exists t :: t in paths && Usable(t, host) && Covers(t, p)
  }

  predicate ResolverCovers(host: Host, p: Path) {
    || (exists t :: t in DNS_DIRS && t in host.directories && Covers(t, p))
    || (host.resolvConf.Some? && Covers(RESOLV_CONF, p))
  }

  lemma {:induction false} LastConcat<A>(has: A -> bool, a: seq<A>, b: seq<A>)
    ensures Last(has, a + b) == if Last(has, b).Some? then Last(has, b) else Last(has, a)
  {
    if b == [] {
      assert a + b == a;
    } else {
      LastConcat(has, a, b[..|b| - 1]);
      assert (a + b)[..|a + b| - 1] == a + b[..|b| - 1];
    }
  }

  lemma {:induction false} LastHas<A>(has: A -> bool, xs: seq<A>)
    ensures var r := Last(has, xs);
            if r.Some? then r.value in xs && has(r.value) else forall x :: x in xs ==> !has(x)
  {
    if xs != [] {
      LastHas(has, xs[..|xs| - 1]);
      assert xs == xs[..|xs| - 1] + [xs[|xs| - 1]];
    }
  }

  lemma {:induction false} KeptHas<A>(keep: A -> bool, xs: seq<A>)
    ensures forall x :: x in Kept(keep, xs) <==> x in xs && keep(x)
  {
    if xs != [] {
      KeptHas(keep, xs[..|xs| - 1]);
      assert xs == xs[..|xs| - 1] + [xs[|xs| - 1]];
    }
  }

  lemma ModeOfConcat(a: seq<Mount>, b: seq<Mount>, p: Path)
    ensures ModeOf(a + b, p) == if ModeOf(b, p).Some? then ModeOf(b, p) else ModeOf(a, p)
  {
    LastConcat(Covering(p), a, b);
  }

  lemma ModeOfGroup(mode: Mode, paths: seq<string>, p: Path)
    ensures ModeOf(Group(mode, paths), p) == if exists t :: t in paths && Covers(t, p) then Some(mode) else None
  {
    var g := Group(mode, paths);
    LastHas(Covering(p), g);
    if t :| t in paths && Covers(t, p) {
      var i :| 0 <= i < |paths| && paths[i] == t;
      assert g[i] in g;
    }
  }

  lemma UsableOfIn(paths: seq<string>, host: Host)
    ensures forall t :: t in UsableOf(paths, host) <==> t in paths && t != "" && t in host.present
  {
    KeptHas(UsableOn(host), paths);
  }

  lemma GroupDecides(mode: Mode, paths: seq<string>, host: Host, p: Path)
    ensures ModeOf(Group(mode, UsableOf(paths, host)), p) == if AnyCovers(paths, host, p) then Some(mode) else None
  {
    ModeOfGroup(mode, UsableOf(paths, host), p);
    UsableOfIn(paths, host);
  }

  lemma DnsDecides(host: Host, p: Path)
    ensures ModeOf(Group(ReadOnly, DnsDirs(host)), p) ==
              if exists t :: t in DNS_DIRS && t in host.directories && Covers(t, p) then Some(ReadOnly) else None
  {
    ModeOfGroup(ReadOnly, DnsDirs(host), p);
    KeptHas(DirectoryOn(host), DNS_DIRS);
  }

  function FixedMode(t: Tree, workspace: string, p: Path): Mode {
    if Covers(workspace, p) then ReadWrite
    else if Covers(Top(t.tmp), p) then Private
    else if Covers(Top(t.sys), p) then ReadWrite
    else if Covers(Top(t.proc), p) then ProcFs
    else if Covers(Top(t.dev), p) then Device
    else ReadOnly
  }

  lemma RootCovers(p: Path)
    ensures Covers("/", p)
  {
    assert "/"[1..] == "" && Split("", '/') == [""];
    assert Split("/", '/') == ["", ""];
    assert ["", ""][1..] == [""] && [""][1..] == [];
    assert Named([""]) == [] && Named(["", ""]) == [];
  }

  lemma LastDecides(init: seq<Mount>, last: Mount, p: Path)
    ensures ModeOf(init + [last], p) == if Covers(last.target, p) then Some(last.mode) else ModeOf(init, p)
  {
    assert (init + [last])[..|init|] == init;
  }

  lemma ThreeDecide(init: seq<Mount>, a: Mount, b: Mount, c: Mount, p: Path)
    ensures ModeOf(init + [a, b, c], p) ==
              if Covers(c.target, p) then Some(c.mode)
              else if Covers(b.target, p) then Some(b.mode)
              else if Covers(a.target, p) then Some(a.mode)
              else ModeOf(init, p)
  {
    LastDecides(init, a, p);
    LastDecides(init + [a], b, p);
    LastDecides(init + [a] + [b], c, p);
    assert init + [a, b, c] == init + [a] + [b] + [c];
  }

  lemma RootDecides(t: Tree, p: Path)
    requires Covers(t.root, p)
    ensures ModeOf([] + [Same(ReadOnly, t.root), Same(Device, Top(t.dev)), Mount(ProcFs, None, Top(t.proc))], p) ==
              Some(if Covers(Top(t.proc), p) then ProcFs else if Covers(Top(t.dev), p) then Device else ReadOnly)
  {
    ThreeDecide([], Same(ReadOnly, t.root), Same(Device, Top(t.dev)), Mount(ProcFs, None, Top(t.proc)), p);
  }

  lemma FixedDecides(t: Tree, workspace: string, p: Path)
    requires Covers(t.root, p)
    ensures ModeOf(FixedMounts(t, workspace), p) == Some(FixedMode(t, workspace, p))
  {
    var m := FixedMounts(t, workspace);
    var rest := [m[3], m[4], m[5]];
    RootDecides(t, p);
    ThreeDecide(m[..3], m[3], m[4], m[5], p);
    assert m == m[..3] + rest && m[..3] == [] + [m[0], m[1], m[2]];
  }

  /** For any lists, however they overlap, and any path: a resolver bind decides first, then
      an existing read-write path, then an existing read path, then the workspace and the
      fixed mounts. The order inside each list does not matter. */
  lemma {:induction false} ModeDecision(workspace: string, ros: seq<string>, rws: seq<string>, host: Host,
        cmd: seq<string>, p: Path)
    requires IsCommand(cmd)
    ensures ModeOf(Mounts(Options(workspace, ros, rws, host) + cmd), p) == Some(
              if ResolverCovers(host, p) then ReadOnly
              else if AnyCovers(rws, host, p) then ReadWrite
              else if AnyCovers(ros, host, p) then ReadOnly
              else FixedMode(TREE, workspace, p))
  {
    OptionsMean(workspace, ros, rws, host, cmd);
    FiveDecide(FixedMounts(TREE, workspace), Group(ReadOnly, UsableOf(ros, host)),
               Group(ReadWrite, UsableOf(rws, host)), Group(ReadOnly, DnsDirs(host)), ResolvMounts(host), p);
    GroupDecides(ReadOnly, ros, host, p);
    GroupDecides(ReadWrite, rws, host, p);
    ResolverDecides(host, p);
    RootCovers(p);
    FixedDecides(TREE, workspace, p);
  }

  lemma FiveDecide(a: seq<Mount>, b: seq<Mount>, c: seq<Mount>, d: seq<Mount>, e: seq<Mount>, p: Path)
    ensures ModeOf(a + b + c + d + e, p) ==
              if ModeOf(e, p).Some? then ModeOf(e, p)
              else if ModeOf(d, p).Some? then ModeOf(d, p)
              else if ModeOf(c, p).Some? then ModeOf(c, p)
              else if ModeOf(b, p).Some? then ModeOf(b, p)
              else ModeOf(a, p)
  {
    ModeOfConcat(a + b + c + d, e, p);
    ModeOfConcat(a + b + c, d, p);
    ModeOfConcat(a + b, c, p);
    ModeOfConcat(a, b, p);
  }

  lemma ResolverDecides(host: Host, p: Path)
    ensures ModeOf(Group(ReadOnly, DnsDirs(host)), p).Some? || ModeOf(ResolvMounts(host), p).Some? <==>
              ResolverCovers(host, p)
    ensures ModeOf(Group(ReadOnly, DnsDirs(host)), p) in {None, Some(ReadOnly)}
    ensures ModeOf(ResolvMounts(host), p) in {None, Some(ReadOnly)}
  {
    DnsDecides(host, p);
    if host.resolvConf.Some? {
      LastDecides([], Mount(ReadOnly, host.resolvConf, RESOLV_CONF), p);
      assert ResolvMounts(host) == [] + [Mount(ReadOnly, host.resolvConf, RESOLV_CONF)];
    }
  }

  /** Where nothing listed and no workspace reaches: a private /tmp, a fresh /proc, the host's
      devices and /sys writable, and all else read-only. */
  lemma UnlistedModes(workspace: string, ros: seq<string>, rws: seq<string>, host: Host, cmd: seq<string>, p: Path)
    requires IsCommand(cmd) && !Covers(workspace, p)
    requires !ResolverCovers(host, p) && !AnyCovers(rws, host, p) && !AnyCovers(ros, host, p)
    ensures ModeOf(Mounts(Options(workspace, ros, rws, host) + cmd), p) == Some(TopMode(p))
  {
    ModeDecision(workspace, ros, rws, host, cmd, p);
    TopModes(workspace, p);
  }

  function TopMode(p: Path): Mode {
    if p == [] then ReadOnly
    else match p[0] {
      case "tmp" => Private
      case "sys" => ReadWrite
      case "proc" => ProcFs
      case "dev" => Device
      case _ => ReadOnly
    }
  }

  lemma TopModes(workspace: string, p: Path)
    requires !Covers(workspace, p)
    ensures FixedMode(TREE, workspace, p) == TopMode(p)
  {
    TopModesOf(TREE, workspace, p);
  }

  lemma TopModesOf(t: Tree, workspace: string, p: Path)
    requires CleanName(t.dev) && CleanName(t.proc) && CleanName(t.sys) && CleanName(t.tmp) && !Covers(workspace, p)
    ensures FixedMode(t, workspace, p) ==
              if p == [] then ReadOnly
              else if p[0] == t.tmp then Private
              else if p[0] == t.sys then ReadWrite
              else if p[0] == t.proc then ProcFs
              else if p[0] == t.dev then Device
              else ReadOnly
  {
    TopTarget(t.tmp, p);
    TopTarget(t.sys, p);
    TopTarget(t.proc, p);
    TopTarget(t.dev, p);
  }

  lemma TopTarget(name: string, p: Path)
    requires CleanName(name)
    ensures Covers(Top(name), p) <==> p != [] && p[0] == name
  {
    TopName(name);
    assert [name] <= p <==> p != [] && p[0] == name;
  }

  lemma TopName(name: string)
    requires CleanName(name)
    ensures Parts("/" + name) == [name]
  {
    PathParts([name]);
  }

  // What the three resolver binds cover.

  lemma SystemdTarget(p: Path)
    ensures Covers(DNS_DIRS[0], p) <==> ["run", "systemd", "resolve"] <= p
  {
    ThreeNames(DNS_DIRS[0], "run", "systemd", "resolve", p);
  }

  lemma ResolvconfTarget(p: Path)
    ensures Covers(DNS_DIRS[1], p) <==> ["run", "resolvconf"] <= p
  {
    TwoNames(DNS_DIRS[1], "run", "resolvconf", p);
  }

  lemma FileTarget(p: Path)
    ensures Covers(RESOLV_CONF, p) <==> ["etc", "resolv.conf"] <= p
  {
    TwoNames(RESOLV_CONF, "etc", "resolv.conf", p);
  }

  lemma TwoNames(path: string, a: string, b: string, p: Path)
    requires CleanName(a) && CleanName(b) && path == "/" + a + "/" + b
    ensures Parts(path) == [a, b] && (Covers(path, p) <==> [a, b] <= p)
  {
    TopName(b);
    Below(a, "/" + b);
    assert path == "/" + a + ("/" + b);
  }

  lemma ThreeNames(path: string, a: string, b: string, c: string, p: Path)
    requires CleanName(a) && CleanName(b) && CleanName(c) && path == "/" + a + "/" + b + "/" + c
    ensures Covers(path, p) <==> [a, b, c] <= p
  {
    var rest := "/" + b + "/" + c;
    TwoNames(rest, b, c, p);
    Below(a, rest);
    assert path == "/" + a + rest;
  }

  lemma Below(name: string, rest: string)
    requires CleanName(name) && rest != "" && rest[0] == '/'
    ensures Parts("/" + name + rest) == [name] + Parts(rest)
  {
    DotsAndSlashes(name + rest);
    DotsAndSlashes(rest[1..]);
    AfterName(name, rest[1..]);
    assert "/" + rest[1..] == rest && name + "/" + rest[1..] == name + rest;
    assert "/" + (name + rest) == "/" + name + rest;
  }

  /** The mount that decides about `p`. */
  function Decider(mounts: seq<Mount>, p: Path): Option<Mount> {
    Last(Covering(p), mounts)
  }

  predicate InPlace(m: Mount, host: Host) {
    || m.source == Some(m.target)
    || (m.source == host.resolvConf && m.target == RESOLV_CONF)
  }

  /** Every path shows what the host has in its place, except below a fresh /proc or /tmp and
      for the resolver's configuration, which shows the real file behind it. */
  lemma ShownInPlace(workspace: string, ros: seq<string>, rws: seq<string>, host: Host, cmd: seq<string>, p: Path)
    requires IsCommand(cmd)
    ensures var d := Decider(Mounts(Options(workspace, ros, rws, host) + cmd), p);
            && d.Some? && Covers(d.value.target, p)
            && (d.value.mode.ProcFs? || d.value.mode.Private? <==> d.value.source.None?)
            && (d.value.source.Some? ==> InPlace(d.value, host))
  {
    ModeDecision(workspace, ros, rws, host, cmd, p);
    OptionsMean(workspace, ros, rws, host, cmd);
    var mounts := MountList(workspace, ros, rws, host);
    LastHas(Covering(p), mounts);
    forall m | m in mounts
      ensures m.mode.ProcFs? || m.mode.Private? <==> m.source.None?
      ensures m.source.Some? ==> InPlace(m, host)
    {
      ListedInPlace(workspace, ros, rws, host, m);
    }
  }

  lemma ListedInPlace(workspace: string, ros: seq<string>, rws: seq<string>, host: Host, m: Mount)
    requires m in MountList(workspace, ros, rws, host)
    ensures m.mode.ProcFs? || m.mode.Private? <==> m.source.None?
    ensures m.source.Some? ==> InPlace(m, host)
  {}

  // ------------------------------------------------------------------
  // The local provider's call
  // ------------------------------------------------------------------

  lemma {:induction false} NamedConcat(a: seq<string>, b: seq<string>)
    ensures Named(a + b) == Named(a) + Named(b)
  {
    if a == [] {
      assert a + b == b;
    } else {
      assert (a + b)[1..] == a[1..] + b;
      NamedConcat(a[1..], b);
    }
  }

  /** `os.path.join(dir, name)`. */
  function JoinPath(dir: string, name: string): string {
    if dir != "" && dir[|dir| - 1] == '/' then dir + name else dir + "/" + name
  }

  lemma JoinPathParts(dir: string, name: string)
    ensures Parts(JoinPath(dir, name)) == Parts(dir) + Parts(name)
  {
    if dir != "" && dir[|dir| - 1] == '/' {
      var head := dir[..|dir| - 1];
      assert head + ['/'] + name == JoinPath(dir, name);
      assert head + ['/'] + "" == dir;
      SplitConcat(head, name, '/');
      SplitConcat(head, "", '/');
      NamedConcat(Split(head, '/'), Split(name, '/'));
      NamedConcat(Split(head, '/'), Split("", '/'));
    } else {
      assert dir + ['/'] + name == JoinPath(dir, name);
      SplitConcat(dir, name, '/');
      NamedConcat(Split(dir, '/'), Split(name, '/'));
    }
  }

  datatype Dirs = Dirs(
    job: string, uvCache: string, condaEnv: string, userLocal: string, labSdk: string,
    source: string, tlab: string, hfHome: string, xdgCache: string)

  function LocalWorkspace(d: Dirs): string { JoinPath(d.job, "workspace") }

  function LocalReads(d: Dirs): seq<string> {
    [d.uvCache, d.condaEnv, JoinPath(LocalWorkspace(d), "venv"), d.userLocal, d.labSdk, d.source]
  }

  function LocalRws(d: Dirs): seq<string> {
    [d.job, d.uvCache, d.tlab, d.hfHome, d.xdgCache]
  }

  /** In the local provider's call everything under the job directory, the workspace
      included, stays writable however its lists overlap; only a resolver bind inside it
      could take that away. The same holds under every other existing read-write path. */
  lemma LocalWorkspaceWritable(d: Dirs, host: Host, cmd: seq<string>, p: Path)
    requires IsCommand(cmd) && Usable(d.job, host)
    requires Covers(LocalWorkspace(d), p) || (exists rw :: rw in LocalRws(d) && Usable(rw, host) && Covers(rw, p))
    ensures ModeOf(Mounts(Options(LocalWorkspace(d), LocalReads(d), LocalRws(d), host) + cmd), p) ==
              Some(if ResolverCovers(host, p) then ReadOnly else ReadWrite)
  {
    ModeDecision(LocalWorkspace(d), LocalReads(d), LocalRws(d), host, cmd, p);
    JoinPathParts(d.job, "workspace");
    if Covers(LocalWorkspace(d), p) {
      assert d.job in LocalRws(d) && Covers(d.job, p);
    }
  }

  /** A read path inside an existing read-write path is writable all the same: the shared
      environment lives under the Transformer Lab directory. */
  lemma SharedEnvironmentWritable(d: Dirs, host: Host, cmd: seq<string>, p: Path)
    requires IsCommand(cmd) && Usable(d.job, host) && Usable(d.tlab, host)
    requires d.condaEnv == JoinPath(JoinPath(d.tlab, "envs"), "transformerlab") && Covers(d.condaEnv, p)
    requires !ResolverCovers(host, p)
    ensures ModeOf(Mounts(Options(LocalWorkspace(d), LocalReads(d), LocalRws(d), host) + cmd), p) == Some(ReadWrite)
  {
    JoinPathParts(d.tlab, "envs");
    JoinPathParts(JoinPath(d.tlab, "envs"), "transformerlab");
    assert d.tlab in LocalRws(d) && Covers(d.tlab, p);
    LocalWorkspaceWritable(d, host, cmd, p);
  }
}
