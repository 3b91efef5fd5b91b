/** Names and labels for Google Compute Engine. The functions take the value after Python's
    `str(value).lower()`, so what is proved holds for whatever that produces. */
module GceNames {
  import opened Text

  predicate IsLetter(c: char) { 'a' <= c <= 'z' }

  predicate NameChar(c: char) { IsLetter(c) || IsDigit(c) || c == '-' }

  predicate LabelChar(c: char) { NameChar(c) || c == '_' }

  /** The alphabets: small letters, and with them digits, the hyphen and the underscore. */
  lemma AlphabetExactly(c: char)
    ensures IsLetter(c) <==> c in SMALL_LETTERS
    ensures NameChar(c) <==> c in SMALL_LETTERS || c in DIGITS || c == '-'
    ensures LabelChar(c) <==> NameChar(c) || c == '_'
    ensures Cuts(HYPHEN, c) <==> c == '-'
    ensures Cuts(EDGES, c) <==> c == '-' || c == '_'
  {
    SmallLettersExactly(c);
    DigitsExactly(c);
  }

  const HYPHEN: Cut := Chars({'-'})
  const EDGES: Cut := Chars({'-', '_'})

  /** `re.sub(r"[^...]", "-", s)`. */
  function Replace(s: string, allowed: char -> bool): (r: string)
    ensures |r| == |s|
    ensures forall i :: 0 <= i < |s| ==> r[i] == if allowed(s[i]) then s[i] else '-'
  {
    Map(c => if allowed(c) then c else '-', s)
  }

  /** `re.sub(r"-+", "-", s)`. */
  function Collapse(s: string): string {
    if |s| < 2 then s
    else if s[0] == '-' && s[1] == '-' then Collapse(s[1..])
    else [s[0]] + Collapse(s[1..])
  }

  function Take(s: string, n: nat): string {
    if |s| <= n then s else s[..n]
  }

  function OrElse(s: string, fallback: string): string {
    if s == "" then fallback else s
  }

  /** `_instance_name` before its last fallback. */
  function InstanceCore(lowered: string): string {
    var s := Strip(Collapse(Replace(lowered, NameChar)), HYPHEN);
    var prefixed := if s == "" || !IsLetter(s[0]) then "tfl-" + OrElse(s, "job") else s;
    RStrip(Take(prefixed, 63), HYPHEN)
  }

  function InstanceName(lowered: string): string {
    OrElse(InstanceCore(lowered), "tfl-job")
  }

  /** `_label_value`. */
  function LabelValue(lowered: string): string {
    Take(OrElse(Strip(Collapse(Replace(lowered, LabelChar)), EDGES), "value"), 63)
  }

  // ------------------------------------------------------------------
  // What the results look like
  // ------------------------------------------------------------------

  /** A label of section 2.3.1 of RFC 1035, in lower case. */
  predicate Rfc1035Label(s: string) {
    && 1 <= |s| <= 63
    && IsLetter(s[0]) && s[|s| - 1] != '-'
    && forall i :: 0 <= i < |s| ==> NameChar(s[i])
  }

  /** Google's rule for label values, which this code never leaves empty. */
  predicate GceLabel(s: string) {
    1 <= |s| <= 63 && forall i :: 0 <= i < |s| ==> LabelChar(s[i])
  }

  ghost predicate NoDoubleHyphen(s: string) {
    forall i, j :: 0 <= i < j < |s| && j == i + 1 ==> s[i] != '-' || s[j] != '-'
  }

  predicate All(s: string, allowed: char -> bool) {
    forall i :: 0 <= i < |s| ==> allowed(s[i])
  }

  /** Collapsing keeps the characters and the first one, and leaves no double hyphen. */
  lemma {:induction false} CollapseShape(s: string, allowed: char -> bool)
    requires All(s, allowed)
    ensures All(Collapse(s), allowed) && NoDoubleHyphen(Collapse(s))
    ensures s != "" ==> Collapse(s) != "" && Collapse(s)[0] == s[0]
    ensures NoDoubleHyphen(s) ==> Collapse(s) == s
  {
    if |s| >= 2 {
      CollapseShape(s[1..], allowed);
      assert [s[0]] + s[1..] == s;
      if NoDoubleHyphen(s) {
        assert forall i :: 0 <= i < |s[1..]| ==> s[1..][i] == s[i + 1];
      }
    }
  }

  /** The common first part of both functions: allowed characters, no double hyphens, bare ends. */
  lemma CleanShape(lowered: string, allowed: char -> bool, cut: Cut)
    requires allowed('-')
    ensures var s := Strip(Collapse(Replace(lowered, allowed)), cut);
            All(s, allowed) && NoDoubleHyphen(s) && Bare(s, cut)
    ensures All(lowered, allowed) && NoDoubleHyphen(lowered) && Bare(lowered, cut)
            ==> Strip(Collapse(Replace(lowered, allowed)), cut) == lowered
  {
    CollapseShape(Replace(lowered, allowed), allowed);
    StripWindow(Collapse(Replace(lowered, allowed)), allowed, cut);
    if All(lowered, allowed) && NoDoubleHyphen(lowered) && Bare(lowered, cut) {
      CleanFixed(lowered, allowed, cut);
    }
  }

  lemma StripWindow(s: string, allowed: char -> bool, cut: Cut)
    requires All(s, allowed) && NoDoubleHyphen(s)
    ensures var r := Strip(s, cut); All(r, allowed) && NoDoubleHyphen(r) && Bare(r, cut)
  {
    StripShape(s, cut);
    var k := |s| - |LStrip(s, cut)|;
  }

  lemma CleanFixed(lowered: string, allowed: char -> bool, cut: Cut)
    requires All(lowered, allowed) && NoDoubleHyphen(lowered) && Bare(lowered, cut)
    ensures Strip(Collapse(Replace(lowered, allowed)), cut) == lowered
  {
    assert Replace(lowered, allowed) == lowered;
    CollapseShape(lowered, allowed);
    StripFixed(lowered, cut);
  }

  /** Cutting at 63 characters and trimming leaves the first letter. */
  lemma CutShape(p: string)
    requires p != "" && IsLetter(p[0]) && All(p, NameChar) && NoDoubleHyphen(p)
    ensures var r := RStrip(Take(p, 63), HYPHEN);
            Rfc1035Label(r) && NoDoubleHyphen(r) && (p[|p| - 1] != '-' && |p| <= 63 ==> r == p)
  {
    var t := Take(p, 63);
    var r := RStrip(t, HYPHEN);
    RStripShape(t, HYPHEN);
    assert t == p[0..|t|];
    assert !Cuts(HYPHEN, t[0]);
    assert r == t[0..|r|];
  }

  /** For every input the name is a valid label, and the last fallback is never needed. */
  lemma NameIsLabel(lowered: string)
    ensures InstanceCore(lowered) != ""
    ensures Rfc1035Label(InstanceName(lowered)) && NoDoubleHyphen(InstanceName(lowered))
  {
    CleanShape(lowered, NameChar, HYPHEN);
    var s := Strip(Collapse(Replace(lowered, NameChar)), HYPHEN);
    CutShape(if s == "" || !IsLetter(s[0]) then "tfl-" + OrElse(s, "job") else s);
  }

  /** A string is its own name exactly when it is a label without double hyphens. */
  lemma NameFixed(lowered: string)
    ensures InstanceName(lowered) == lowered <==> Rfc1035Label(lowered) && NoDoubleHyphen(lowered)
  {
    NameIsLabel(lowered);
    if Rfc1035Label(lowered) && NoDoubleHyphen(lowered) {
      CleanShape(lowered, NameChar, HYPHEN);
      CutShape(lowered);
    }
  }

  lemma LowerFixed(s: string)
    requires All(s, LabelChar)
    ensures Lower(s) == s
  {}

  /** `_instance_name` is idempotent: naming a name changes nothing. */
  lemma NameIdempotent(lowered: string)
    ensures InstanceName(Lower(InstanceName(lowered))) == InstanceName(lowered)
  {
    NameIsLabel(lowered);
    LowerFixed(InstanceName(lowered));
    NameFixed(InstanceName(lowered));
  }

  /** If nothing usable is left of the input, the fallbacks are the result. */
  lemma Fallbacks(lowered: string)
    ensures (forall c :: c in lowered ==> !IsLetter(c) && !IsDigit(c)) ==> InstanceName(lowered) == "tfl-job"
    ensures (forall c :: c in lowered ==> !IsLetter(c) && !IsDigit(c)) ==> LabelValue(lowered) == "value"
  {
    if forall c :: c in lowered ==> !IsLetter(c) && !IsDigit(c) {
      CleanedAway(lowered, NameChar, HYPHEN);
      CleanedAway(lowered, LabelChar, EDGES);
      StripFixed("tfl-job", HYPHEN);
      assert RStrip("tfl-job", HYPHEN) == "tfl-job";
    }
  }

  lemma CleanedAway(lowered: string, allowed: char -> bool, cut: Cut)
    requires allowed('-') && forall c :: c in lowered && allowed(c) ==> Cuts(cut, c)
    requires Cuts(cut, '-')
    ensures Strip(Collapse(Replace(lowered, allowed)), cut) == ""
  {
    var r := Replace(lowered, allowed);
    forall i | 0 <= i < |r| ensures Cuts(cut, r[i]) {
      assert lowered[i] in lowered;
    }
    CollapseShape(r, c => Cuts(cut, c));
    AllCut(Collapse(r), cut);
  }

  lemma AllCut(s: string, cut: Cut)
    requires forall i :: 0 <= i < |s| ==> Cuts(cut, s[i])
    ensures Strip(s, cut) == ""
  {
    LStripShape(s, cut);
  }

  /** For every input the label has between 1 and 63 allowed characters, does not begin with
      a hyphen or an underscore, and repeats no hyphen. */
  lemma LabelShape(lowered: string)
    ensures var l := LabelValue(lowered); GceLabel(l) && NoDoubleHyphen(l) && !Cuts(EDGES, l[0])
  {
    CleanShape(lowered, LabelChar, EDGES);
    var s := Strip(Collapse(Replace(lowered, LabelChar)), EDGES);
    var full := OrElse(s, "value");
    assert All(full, LabelChar) && NoDoubleHyphen(full) && full[0] == LabelValue(lowered)[0];
    assert LabelValue(lowered) == full[0..|LabelValue(lowered)|];
    assert !Cuts(EDGES, full[0]);
  }

  /** A string is its own label exactly when it has the shape and bare ends. */
  lemma LabelFixed(lowered: string)
    ensures LabelValue(lowered) == lowered <==>
              GceLabel(lowered) && NoDoubleHyphen(lowered) && Bare(lowered, EDGES)
  {
    LabelShape(lowered);
    CleanShape(lowered, LabelChar, EDGES);
    var s := Strip(Collapse(Replace(lowered, LabelChar)), EDGES);
    if LabelValue(lowered) == lowered && |s| <= 63 {
      assert s == lowered || lowered == "value";
    } else if LabelValue(lowered) == lowered {
      StripInside(lowered);
    }
  }

  /** Cleaning never lengthens. */
  lemma {:induction false} CollapseShorter(s: string)
    ensures |Collapse(s)| <= |s|
  {
    if |s| >= 2 { CollapseShorter(s[1..]); }
  }

  lemma StripInside(lowered: string)
    ensures |Strip(Collapse(Replace(lowered, LabelChar)), EDGES)| <= |lowered|
  {
    CollapseShorter(Replace(lowered, LabelChar));
    StripShape(Collapse(Replace(lowered, LabelChar)), EDGES);
  }

  /** `_label_value` is idempotent exactly when the cut left no hyphen or underscore at the end. */
  lemma LabelIdempotent(lowered: string)
    ensures var l := LabelValue(lowered); LabelValue(Lower(l)) == l <==> !Cuts(EDGES, l[|l| - 1])
  {
    LabelShape(lowered);
    LowerFixed(LabelValue(lowered));
    LabelFixed(LabelValue(lowered));
  }

  /** The exception exists: a 64th character cut off after a hyphen. */
  lemma LabelNotIdempotent(head: string)
    requires |head| == 62 && forall i :: 0 <= i < 62 ==> IsLetter(head[i])
    ensures LabelValue(head + "-x") == head + "-" && LabelValue(head + "-") == head
  {
    var long := head + "-x";
    assert All(long, LabelChar) && NoDoubleHyphen(long) && Bare(long, EDGES);
    CleanShape(long, LabelChar, EDGES);
    assert long[..63] == head + "-";
    CutAgain(head);
  }

  lemma CutAgain(head: string)
    requires |head| == 62 && forall i :: 0 <= i < 62 ==> IsLetter(head[i])
    ensures LabelValue(head + "-") == head
  {
    var cut := head + "-";
    assert Replace(cut, LabelChar) == cut;
    assert NoDoubleHyphen(cut);
    CollapseShape(cut, LabelChar);
    HyphenStripped(head);
  }

  lemma HyphenStripped(head: string)
    requires head != "" && Bare(head, EDGES)
    ensures Strip(head + "-", EDGES) == head
  {
    var cut := head + "-";
    assert LStrip(cut, EDGES) == cut;
    assert cut[..|head|] == head;
    assert RStrip(cut, EDGES) == RStrip(head, EDGES) == head;
  }

  // ------------------------------------------------------------------
  // Finding a listed cluster again
  // ------------------------------------------------------------------

  datatype Instance = Instance(name: string, clusterLabel: Option<string>, teamLabel: string)

  /** The server-side filter of a label query. */
  function Matching(instances: seq<Instance>, cluster: string, team: string): seq<Instance> {
    if instances == [] then []
    else
      (if instances[0].clusterLabel == Some(cluster) && instances[0].teamLabel == team then [instances[0]] else []) +
      Matching(instances[1..], cluster, team)
  }

  /** `_find_instance_by_cluster_name`, on the lower-cased names. */
  function FindByCluster(instances: seq<Instance>, cluster: string, team: string): Option<Instance> {
    var items := Matching(instances, LabelValue(Lower(cluster)), LabelValue(Lower(team)));
    if items == [] then None else Some(items[0])
  }

  /** The name a listing shows for an instance. */
  function ListedName(i: Instance): string {
    if i.clusterLabel.Some? then i.clusterLabel.value else i.name
  }

  /** `list_clusters`: the names of the team's instances, in listing order. */
  method ListClusters(instances: seq<Instance>, team: string) returns (names: seq<string>)
    ensures forall n :: n in names <==>
              exists i :: i in instances && i.teamLabel == LabelValue(Lower(team)) && n == ListedName(i)
  {
    names := [];
    var k := 0;
    while k < |instances|
      invariant 0 <= k <= |instances|
      invariant forall n :: n in names <==>
                  exists i :: i in instances[..k] && i.teamLabel == LabelValue(Lower(team)) && n == ListedName(i)
    {
      var i := instances[k];
      assert instances[..k + 1] == instances[..k] + [i];
      if i.teamLabel == LabelValue(Lower(team)) {
        names := names + [ListedName(i)];
      }
      k := k + 1;
    }
    assert instances[..k] == instances;
  }

  lemma {:induction false} MatchingIs(instances: seq<Instance>, cluster: string, team: string)
    ensures forall i :: i in Matching(instances, cluster, team) <==>
              i in instances && i.clusterLabel == Some(cluster) && i.teamLabel == team
  {
    if instances != [] {
      MatchingIs(instances[1..], cluster, team);
      assert instances == [instances[0]] + instances[1..];
    }
  }

  predicate SameLabels(a: Instance, b: Instance) {
    a.clusterLabel == b.clusterLabel && a.teamLabel == b.teamLabel
  }

  /** The cloud lists the instance before every other one with its labels. */
  predicate ListedFirst(instances: seq<Instance>, i: Instance) {
    exists k :: 0 <= k < |instances| && instances[k] == i &&
      forall j :: 0 <= j < k ==> !SameLabels(instances[j], i)
  }

  lemma {:induction false} MatchingFirst(instances: seq<Instance>, i: Instance)
    requires i in instances && i.clusterLabel.Some?
    ensures var items := Matching(instances, i.clusterLabel.value, i.teamLabel);
            items != [] && SameLabels(items[0], i) && (items[0] == i <==> ListedFirst(instances, i))
  {
    var items := Matching(instances, i.clusterLabel.value, i.teamLabel);
    if SameLabels(instances[0], i) {
      if instances[0] == i { assert ListedFirst(instances, i); }
    } else {
      assert instances == [instances[0]] + instances[1..];
      MatchingFirst(instances[1..], i);
      FirstInRest(instances, i);
    }
  }

  lemma FirstInRest(instances: seq<Instance>, i: Instance)
    requires instances != [] && !SameLabels(instances[0], i)
    ensures ListedFirst(instances, i) <==> ListedFirst(instances[1..], i)
  {
    var rest := instances[1..];
    if k :| 0 <= k < |rest| && rest[k] == i && forall j :: 0 <= j < k ==> !SameLabels(rest[j], i) {
      assert instances[k + 1] == i;
      assert forall j :: 0 <= j < k + 1 ==> !SameLabels(instances[j], i);
    }
    if k :| 0 <= k < |instances| && instances[k] == i && forall j :: 0 <= j < k ==> !SameLabels(instances[j], i) {
      assert k > 0 && rest[k - 1] == i;
      assert forall j :: 0 <= j < k - 1 ==> rest[j] == instances[j + 1];
    }
  }

  /** A label that is its own label value: the shape of one, no double hyphen, bare ends. */
  lemma LabelFound(l: string)
    ensures LabelValue(Lower(l)) == l <==>
              GceLabel(l) && NoDoubleHyphen(l) && Bare(l, EDGES)
  {
    LabelShape(Lower(l));
    if GceLabel(l) {
      LowerFixed(l);
      LabelFixed(l);
    }
  }

  /** Any instance of the team, found again by the name a listing shows for it: an instance
      with its cluster label is found exactly if its label has the shape of a label value with
      bare ends, and it is the very one exactly if the cloud lists it before others with the
      same labels; one that is listed by its own name for want of a label never is. */
  lemma ListedNameFindsItself(instances: seq<Instance>, i: Instance, team: string)
    requires i in instances && i.teamLabel == LabelValue(Lower(team))
    ensures var found := FindByCluster(instances, ListedName(i), team);
            var good := i.clusterLabel.Some? && GceLabel(i.clusterLabel.value) &&
                        NoDoubleHyphen(i.clusterLabel.value) && Bare(i.clusterLabel.value, EDGES);
            && (found.Some? && SameLabels(found.value, i) <==> good)
            && (found == Some(i) <==> good && ListedFirst(instances, i))
  {
    var listed := ListedName(i);
    var items := Matching(instances, LabelValue(Lower(listed)), LabelValue(Lower(team)));
    MatchingIs(instances, LabelValue(Lower(listed)), LabelValue(Lower(team)));
    if items != [] { assert items[0] in items; }
    if i.clusterLabel.Some? {
      LabelFound(listed);
      MatchingFirst(instances, i);
    }
  }

  /** So a cluster launched under a name is found again under its listed name exactly when
      that name does not end in a hyphen or an underscore. */
  lemma LaunchedNameFindsItself(instances: seq<Instance>, i: Instance, launched: string, team: string)
    requires i in instances && i.clusterLabel == Some(LabelValue(launched)) && i.teamLabel == LabelValue(Lower(team))
    ensures var listed := ListedName(i);
            var found := FindByCluster(instances, listed, team);
            && (found.Some? && SameLabels(found.value, i) <==> !Cuts(EDGES, listed[|listed| - 1]))
            && (found == Some(i) <==> !Cuts(EDGES, listed[|listed| - 1]) && ListedFirst(instances, i))
  {
    LabelShape(launched);
    ListedNameFindsItself(instances, i, team);
  }
}
