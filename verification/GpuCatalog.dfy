/** The GPU catalog built from a launch table, and the launcher that must accept what the
    catalog offers. */
module GpuCatalog {
  import opened Text

  /** A launch table's key: GPU type and count. */
  datatype Key = Key(gpu: string, count: int)

  /** Python's order on strings. */
  predicate Below(a: string, b: string) {
    if b == "" then false
    else if a == "" then true
    else if a[0] != b[0] then a[0] < b[0]
    else Below(a[1..], b[1..])
  }

  lemma {:induction false} BelowTransitive(a: string, b: string, c: string)
    requires Below(a, b) && Below(b, c)
    ensures Below(a, c)
  {
    if a != "" && a[0] == b[0] && b[0] == c[0] {
      BelowTransitive(a[1..], b[1..], c[1..]);
    }
  }

  lemma {:induction false} BelowTotal(a: string, b: string)
    ensures Below(a, b) || Below(b, a) || a == b
    ensures !Below(a, a)
  {
    if a != "" {
      BelowTotal(a[1..], a[1..]);
      if b != "" && a[0] == b[0] {
        BelowTotal(a[1..], b[1..]);
        assert a == [a[0]] + a[1..] && b == [b[0]] + b[1..];
      }
    }
  }

  predicate Ascending(keys: seq<Key>) {
    forall i, j :: 0 <= i < j < |keys| ==> Below(keys[i].gpu, keys[j].gpu)
  }

  // ------------------------------------------------------------------
  // gpu_catalog_from_map_keys
  // ------------------------------------------------------------------

  /** `count` is the largest count of `gpu` among `keys`, or 0 if none is positive. */
  predicate IsMax(keys: seq<Key>, gpu: string, count: int) {
    && (forall k :: k in keys && k.gpu == gpu ==> k.count <= count)
    && (count == 0 || Key(gpu, count) in keys)
    && count >= 0
  }

  predicate Offers(keys: seq<Key>, gpu: string) {
    exists k :: k in keys && k.gpu == gpu
  }

  method CatalogFromKeys(keys: seq<Key>) returns (catalog: seq<Key>)
    ensures Ascending(catalog)
    ensures forall gpu :: Offers(keys, gpu) <==> Offers(catalog, gpu)
    ensures forall e :: e in catalog ==> IsMax(keys, e.gpu, e.count)
  {
    var best: map<string, int> := map[];
    var i := 0;
    while i < |keys|
      invariant 0 <= i <= |keys|
      invariant forall gpu :: Offers(keys[..i], gpu) <==> gpu in best
      invariant forall gpu :: gpu in best ==> IsMax(keys[..i], gpu, best[gpu])
    {
      var k := keys[i];
      assert keys[..i + 1] == keys[..i] + [k];
      ghost var before := best;
      var known := if k.gpu in best then best[k.gpu] else 0;
      best := best[k.gpu := if k.count > known then k.count else known];
      forall gpu | gpu in best ensures IsMax(keys[..i + 1], gpu, best[gpu]) {
      }
      i := i + 1;
    }
    assert keys[..i] == keys;
    catalog := SortItems(best);
  }

  /** `sorted(best.items())`, by insertion. */
  method SortItems(best: map<string, int>) returns (items: seq<Key>)
    ensures Ascending(items)
    ensures forall e :: e in items <==> e.gpu in best && best[e.gpu] == e.count
    ensures forall gpu :: gpu in best <==> Offers(items, gpu)
  {
    var rest := best.Keys;
    items := [];
    while rest != {}
      invariant rest <= best.Keys
      invariant Ascending(items)
      invariant forall e :: e in items <==> e.gpu in best && e.gpu !in rest && best[e.gpu] == e.count
      decreases rest
    {
      var gpu :| gpu in rest;
      ghost var before := items;
      items := InsertItem(items, Key(gpu, best[gpu]));
      rest := rest - {gpu};
    }
    forall gpu | gpu in best ensures Offers(items, gpu) {
      assert Key(gpu, best[gpu]) in items;
    }
  }

  method InsertItem(items: seq<Key>, e: Key) returns (r: seq<Key>)
    requires Ascending(items) && forall x :: x in items ==> x.gpu != e.gpu
    ensures Ascending(r)
    ensures forall x :: x in r <==> x in items || x == e
  {
    var i := 0;
    while i < |items| && Below(items[i].gpu, e.gpu)
      invariant 0 <= i <= |items|
      invariant forall j :: 0 <= j < i ==> Below(items[j].gpu, e.gpu)
    {
      i := i + 1;
    }
    r := items[..i] + [e] + items[i..];
    AboveTheRest(items, i, e);
    AscendingConcat(items[..i], e, items[i..]);
    assert items == items[..i] + items[i..];
  }

  lemma AboveTheRest(items: seq<Key>, i: nat, e: Key)
    requires Ascending(items) && i <= |items| && (i < |items| ==> !Below(items[i].gpu, e.gpu))
    requires forall x :: x in items ==> x.gpu != e.gpu
    ensures forall j :: i <= j < |items| ==> Below(e.gpu, items[j].gpu)
  {
    forall j | i <= j < |items| ensures Below(e.gpu, items[j].gpu) {
      assert items[i] in items;
      BelowTotal(items[i].gpu, e.gpu);
      if j > i { BelowTransitive(e.gpu, items[i].gpu, items[j].gpu); }
    }
  }

  lemma AscendingConcat(a: seq<Key>, e: Key, b: seq<Key>)
    requires Ascending(a) && Ascending(b)
    requires (forall x :: x in a ==> Below(x.gpu, e.gpu)) && forall x :: x in b ==> Below(e.gpu, x.gpu)
    ensures Ascending(a + [e] + b)
  {
    var r := a + [e] + b;
    forall i, j | 0 <= i < j < |r| ensures Below(r[i].gpu, r[j].gpu) {
      if i < |a| && j > |a| {
        assert r[i] in a && r[j] in b;
        BelowTransitive(r[i].gpu, e.gpu, r[j].gpu);
      }
    }
  }

  // ------------------------------------------------------------------
  // The launchers
  // ------------------------------------------------------------------

  /** How a provider turns the part before the colon into a table key. AWS and Azure strip
      it; Lambda strips and upper-cases; Nebius upper-cases and drops what is neither letter
      nor digit; GCP strips and maps a few long names to short ones. */
  datatype Provider = Plain | Lambda | Nebius | Gcp

  const LONG_NAMES: map<string, string> := map[
    "NVIDIA_TESLA_T4" := "T4", "TESLA_T4" := "T4", "NVIDIA_TESLA_V100" := "V100", "TESLA_V100" := "V100",
    "NVIDIA_TESLA_P100" := "P100", "TESLA_P100" := "P100", "NVIDIA_L4" := "L4",
    "NVIDIA_A100_80GB" := "A100-80GB", "A100_80GB" := "A100-80GB", "NVIDIA_A100" := "A100",
    "NVIDIA_H100_80GB" := "H100", "H100_80GB" := "H100"]

  predicate Alphanumeric(c: char) {
    IsDigit(c) || 'a' <= c <= 'z' || 'A' <= c <= 'Z'
  }

  function KeepAlphanumeric(s: string): string {
    if s == "" then ""
    else (if Alphanumeric(s[0]) then [s[0]] else []) + KeepAlphanumeric(s[1..])
  }

  function Normalise(p: Provider, raw: string): string {
    match p
    case Plain => Strip(raw, Whitespace)
    case Lambda => Upper(Strip(raw, Whitespace))
    case Nebius => KeepAlphanumeric(Upper(raw))
    case Gcp =>
      var s := Strip(raw, Whitespace);
      if Upper(s) in LONG_NAMES then LONG_NAMES[Upper(s)] else s
  }

  /** Looking an accelerator spec such as "A100:8" up; `None` is the ValueError. */
  function Resolve<V>(p: Provider, table: map<Key, V>, spec: string): Option<V> {
    var parts := Split(Strip(spec, Whitespace), ':');
    var count := if |parts| > 1 then ParseInt(Strip(parts[1], Whitespace)) else Some(1);
    if count.None? then None
    else
      var key := Key(Normalise(p, parts[0]), count.value);
      if key in table then Some(table[key]) else None
  }

  /** A type name the provider's parsing leaves as it is. */
  predicate Stable(p: Provider, gpu: string) {
    ':' !in gpu && Bare(gpu, Whitespace) && Normalise(p, gpu) == gpu
  }

  function Spec(e: Key): string {
    e.gpu + ":" + PrintInt(e.count)
  }

  lemma SpecParts(e: Key)
    requires ':' !in e.gpu && Bare(e.gpu, Whitespace)
    ensures Split(Strip(Spec(e), Whitespace), ':') == [e.gpu, PrintInt(e.count)]
  {
    var n := PrintInt(e.count);
    PrintIntShape(e.count);
    assert Spec(e) == e.gpu + [':'] + n;
    assert Spec(e)[|Spec(e)| - 1] == n[|n| - 1];
    DigitNotSpace(n[|n| - 1]);
    StripFixed(Spec(e), Whitespace);
    SplitCons(e.gpu, n, ':');
    SplitWhole(n, ':');
  }

  /** A printed spec with a stable type resolves to exactly that table row. */
  lemma SpecResolves<V>(p: Provider, table: map<Key, V>, e: Key)
    requires Stable(p, e.gpu)
    ensures Resolve(p, table, Spec(e)) == if e in table then Some(table[e]) else None
  {
    SpecParts(e);
    PrintIntShape(e.count);
    IntRoundTrip(e.count);
  }

  /** A spec without a count asks for one. */
  lemma BareSpecResolves<V>(p: Provider, table: map<Key, V>, gpu: string)
    requires Stable(p, gpu)
    ensures Resolve(p, table, gpu) == if Key(gpu, 1) in table then Some(table[Key(gpu, 1)]) else None
  {
    StripFixed(gpu, Whitespace);
    SplitWhole(gpu, ':');
  }

  /** A spec whose count is no number is refused. */
  lemma BadCountRefused<V>(p: Provider, table: map<Key, V>, gpu: string, count: string)
    requires ':' !in gpu && ':' !in count && ParseInt(count).None?
    requires Bare(gpu + ":" + count, Whitespace)
    ensures Resolve(p, table, gpu + ":" + count) == None
  {
    StripFixed(gpu + ":" + count, Whitespace);
    assert gpu + [':'] + count == gpu + ":" + count;
    SplitCons(gpu, count, ':');
    SplitWhole(count, ':');
    StripTwice(count);
  }

  lemma StripTwice(s: string)
    ensures ParseInt(Strip(s, Whitespace)) == ParseInt(s)
  {
    StripShape(s, Whitespace);
    StripFixed(Strip(s, Whitespace), Whitespace);
  }

  /** Every entry of a catalog, printed and handed to the launcher, gets its table's row. */
  lemma CatalogLaunches<V>(p: Provider, table: map<Key, V>, keys: seq<Key>, catalog: seq<Key>, e: Key)
    requires forall k :: k in keys <==> k in table
    requires forall k :: k in keys ==> k.count > 0 && Stable(p, k.gpu)
    requires forall gpu :: Offers(keys, gpu) <==> Offers(catalog, gpu)
    requires forall x :: x in catalog ==> IsMax(keys, x.gpu, x.count)
    requires e in catalog
    ensures e in table && Resolve(p, table, Spec(e)) == Some(table[e])
    ensures forall k :: k in table && k.gpu == e.gpu ==> k.count <= e.count
  {
    assert Offers(catalog, e.gpu);
    var k :| k in keys && k.gpu == e.gpu;
    assert e.count > 0 && Key(e.gpu, e.count) in keys;
    SpecResolves(p, table, e);
  }

  // ------------------------------------------------------------------
  // The shipped type names
  // ------------------------------------------------------------------

  predicate NameChar(c: char) { Alphanumeric(c) || c == '-' }

  predicate Simple(s: string) {
    s != "" && forall i :: 0 <= i < |s| ==> NameChar(s[i])
  }

  predicate UpperCase(s: string) {
    forall i :: 0 <= i < |s| ==> !('a' <= s[i] <= 'z')
  }

  predicate NoHyphen(s: string) {
    forall i :: 0 <= i < |s| ==> s[i] != '-'
  }

  lemma {:induction false} AlphanumericKept(s: string)
    requires forall i :: 0 <= i < |s| ==> Alphanumeric(s[i])
    ensures KeepAlphanumeric(s) == s
  {
    if s != "" {
      AlphanumericKept(s[1..]);
      assert s == [s[0]] + s[1..];
    }
  }

  /** Letters, digits and hyphens are stable for AWS and Azure; for Lambda and GCP if there
      are no small letters; for Nebius if there are no hyphens either. */
  lemma SimpleNamesStable(gpu: string)
    requires Simple(gpu)
    ensures Stable(Plain, gpu)
    ensures UpperCase(gpu) ==> Stable(Lambda, gpu) && Stable(Gcp, gpu)
    ensures UpperCase(gpu) && NoHyphen(gpu) ==> Stable(Nebius, gpu)
  {
    StripFixed(gpu, Whitespace);
    if UpperCase(gpu) {
      assert Upper(gpu) == gpu;
      if gpu in LONG_NAMES { LongNamesHaveUnderscores(gpu); }
      if NoHyphen(gpu) { AlphanumericKept(gpu); }
    }
  }

  lemma LongNamesHaveUnderscores(gpu: string)
    requires gpu in LONG_NAMES
    ensures '_' in gpu
  {
    assert |gpu| > 6 && (gpu[4] == '_' || gpu[5] == '_' || gpu[6] == '_');
  }

  /** What each normaliser makes of a name of letters, digits and hyphens with spaces around it:
      AWS and Azure the name, Lambda its capitals, GCP the name. */
  lemma PaddedNames(before: string, gpu: string, after: string)
    requires Simple(gpu) && Spaces(before) && Spaces(after)
    ensures Normalise(Plain, before + gpu + after) == gpu
    ensures Normalise(Lambda, before + gpu + after) == Upper(gpu)
    ensures Normalise(Gcp, before + gpu + after) == gpu
  {
    StripPadded(before, gpu, after);
    SimpleIsNotLong(gpu);
  }

  lemma SimpleIsNotLong(gpu: string)
    requires Simple(gpu)
    ensures Upper(gpu) !in LONG_NAMES
  {
    forall i | 0 <= i < |gpu| ensures Upper(gpu)[i] != '_' { assert NameChar(gpu[i]); }
    if Upper(gpu) in LONG_NAMES { LongNamesHaveUnderscores(Upper(gpu)); }
  }

  /** Nebius takes the capitals of the letters and digits and drops everything else. */
  lemma {:induction false} NebiusKeeps(raw: string)
    ensures forall c :: c in Normalise(Nebius, raw) ==> Alphanumeric(c) && !('a' <= c <= 'z')
    ensures raw != "" ==>
              Normalise(Nebius, raw) ==
                (if Alphanumeric(raw[0]) then [UpperChar(raw[0])] else []) + Normalise(Nebius, raw[1..])
  {
    if raw != "" {
      assert Upper(raw)[1..] == Upper(raw[1..]);
      NebiusKeeps(raw[1..]);
    }
  }

  lemma AlphanumericExactly(c: char)
    ensures Alphanumeric(c) <==> c in DIGITS || c in SMALL_LETTERS || c in CAPITAL_LETTERS
  {
    DigitsExactly(c);
    SmallLettersExactly(c);
    CapitalLettersExactly(c);
  }

  /** GCP's long names, in any case, are those of shipped types. */
  lemma LongNamesMean(raw: string)
    requires Upper(raw) in LONG_NAMES && Bare(raw, Whitespace)
    ensures Normalise(Gcp, raw) == LONG_NAMES[Upper(raw)] && LONG_NAMES[Upper(raw)] in GCP_TYPES
  {
    StripFixed(raw, Whitespace);
  }

  const AWS_TYPES: seq<string> := ["T4", "A10G", "L4", "L40S", "V100", "V100-32GB", "A100", "A100-80GB", "H100",
    "H200", "RadeonV520", "Trainium", "Trainium2"]
  const AZURE_TYPES: seq<string> := ["T4", "A100", "H100", "B200", "A10", "V100"]
  const LAMBDA_AMPERE: seq<string> := ["A10", "A100", "A100-SXM4", "A100-80GB", "A6000"]
  const LAMBDA_OTHERS: seq<string> := ["H100", "H100-SXM5", "B200", "V100", "RTX6000", "GH200"]
  const LAMBDA_TYPES: seq<string> := LAMBDA_AMPERE + LAMBDA_OTHERS
  const NEBIUS_TYPES: seq<string> := ["B300", "B200", "H200", "H100", "RTX6000", "RTXPRO6000", "L40S"]
  const GCP_TYPES: seq<string> := ["T4", "V100", "P100", "L4", "A100", "A100-80GB", "H100"]

  /** Every type name of the shipped launch tables is stable for its own provider. */
  lemma {:induction false} ShippedTypesStable()
    ensures forall t :: t in AWS_TYPES ==> Stable(Plain, t)
    ensures forall t :: t in AZURE_TYPES ==> Stable(Plain, t)
    ensures forall t :: t in LAMBDA_TYPES ==> Stable(Lambda, t)
    ensures forall t :: t in NEBIUS_TYPES ==> Stable(Nebius, t)
    ensures forall t :: t in GCP_TYPES ==> Stable(Gcp, t)
  {
    AwsTypesSimple();
    LambdaTypesSimple();
    NebiusTypesSimple();
    GcpTypesSimple();
    forall t | Simple(t) ensures Stable(Plain, t) && (UpperCase(t) ==> Stable(Lambda, t) && Stable(Gcp, t)) &&
                                 (UpperCase(t) && NoHyphen(t) ==> Stable(Nebius, t)) {
      SimpleNamesStable(t);
    }
  }

  lemma AwsTypesSimple()
    ensures forall t :: t in AWS_TYPES ==> Simple(t)
  {}

  lemma LambdaTypesSimple()
    ensures forall t :: t in LAMBDA_TYPES ==> Simple(t) && UpperCase(t)
  {
    AmpereSimple();
    OthersSimple();
  }

  lemma AmpereSimple()
    ensures forall t :: t in LAMBDA_AMPERE ==> Simple(t) && UpperCase(t)
  {}

  lemma OthersSimple()
    ensures forall t :: t in LAMBDA_OTHERS ==> Simple(t) && UpperCase(t)
  {}

  lemma NebiusTypesSimple()
    ensures forall t :: t in NEBIUS_TYPES ==> Simple(t) && UpperCase(t) && NoHyphen(t)
  {}

  lemma GcpTypesSimple()
    ensures forall t :: t in GCP_TYPES ==> Simple(t) && UpperCase(t)
  {}
}
