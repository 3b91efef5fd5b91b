/** SLURM GRES strings: `_parse_gres` and the form it inverts. */
module Gres {
  import opened Text

  type Tally = map<string, int>

  datatype Entry = Entry(gpuType: string, count: int)

  /** The spellings of "no resources" that end the parse at once. */
  predicate Nothing(s: string) {
    s == "" || Lower(s) == "(null)" || Lower(s) == "n/a" || Lower(s) == "none"
  }

  /** Does an entry, stripped, speak of GPUs at all? */
  predicate IsGpu(entry: string) {
    entry != "" && Contains(Lower(entry), "gpu")
  }

  /** The colon-separated parts of such an entry: `gpu:count` or `gpu:type:count...`. */
  function ReadParts(parts: seq<string>): Option<Entry> {
    if |parts| < 2 then None
    else if |parts| == 2 then
      match ParseInt(parts[1])
      case None => None
      case Some(n) => Some(Entry("GPU", n))
    else
      match ParseInt(Split(parts[2], '(')[0])
      case None => None
      case Some(n) => Some(Entry(Upper(parts[1]), n))
  }

  /** What one comma-separated piece contributes; `None` if it is skipped. */
  function ReadEntry(piece: string): Option<Entry> {
    var e := Strip(piece, Whitespace);
    if IsGpu(e) then ReadParts(Split(e, ':')) else None
  }

  function CountOf(m: Tally, gpuType: string): int {
    if gpuType in m then m[gpuType] else 0
  }

  function Add(m: Tally, e: Option<Entry>): Tally {
    match e
    case None => m
    case Some(entry) => m[entry.gpuType := CountOf(m, entry.gpuType) + entry.count]
  }

  function TallyOf(entries: seq<Option<Entry>>): Tally {
    if entries == [] then map[] else Add(TallyOf(entries[..|entries| - 1]), entries[|entries| - 1])
  }

  /** The tally of a line's comma-separated pieces. */
  function Pieces(s: string): Tally {
    TallyOf(Map(ReadEntry, Split(s, ',')))
  }

  function Parse(s: string): Tally {
    if Nothing(s) then map[] else Pieces(s)
  }

  method ParseGres(s: string) returns (gpus: Tally)
    ensures gpus == Parse(s)
  {
    gpus := map[];
    if Nothing(s) { return; }
    ghost var all := Map(ReadEntry, Split(s, ','));
    var pieces := Split(s, ',');
    var i := 0;
    while i < |pieces|
      invariant 0 <= i <= |pieces|
      invariant gpus == TallyOf(all[..i])
    {
      assert all[..i + 1][..i] == all[..i];
      gpus := ParsePiece(gpus, pieces[i]);
      i := i + 1;
    }
    assert all[..i] == all;
  }

  /** The body of the loop over the pieces. */
  method ParsePiece(before: Tally, piece: string) returns (gpus: Tally)
    ensures gpus == Add(before, ReadEntry(piece))
  {
    gpus := before;
    var entry := Strip(piece, Whitespace);
    if entry == "" || !Contains(Lower(entry), "gpu") { return; }
    var parts := Split(entry, ':');
    if |parts| < 2 { return; }
    if |parts| == 2 {
      var count := ParseInt(parts[1]);
      if count.None? { return; }
      gpus := gpus["GPU" := CountOf(gpus, "GPU") + count.value];
    } else {
      var gpuType := Upper(parts[1]);
      var count := ParseInt(Split(parts[2], '(')[0]);
      if count.None? { return; }
      gpus := gpus[gpuType := CountOf(gpus, gpuType) + count.value];
    }
  }

  // ------------------------------------------------------------------
  // Additive
  // ------------------------------------------------------------------

  /** The per-type sum. */
  function Plus(a: Tally, b: Tally): Tally {
    map t | t in a.Keys + b.Keys :: CountOf(a, t) + CountOf(b, t)
  }

  lemma {:induction false} TallyAppend(a: seq<Option<Entry>>, b: seq<Option<Entry>>)
    ensures TallyOf(a + b) == Plus(TallyOf(a), TallyOf(b))
  {
    if b == [] {
      assert a + b == a;
    } else {
      var init, last := b[..|b| - 1], b[|b| - 1];
      TallyAppend(a, init);
      assert (a + b)[..|a + b| - 1] == a + init;
      AddToSum(TallyOf(a), TallyOf(init), last);
    }
  }

  lemma AddToSum(a: Tally, b: Tally, e: Option<Entry>)
    ensures Add(Plus(a, b), e) == Plus(a, Add(b, e))
  {}

  /** Without a 'g' there is no "gpu". */
  lemma NoG(piece: string)
    requires 'g' !in piece && 'G' !in piece
    ensures !IsGpu(Strip(piece, Whitespace))
  {
    var e := Strip(piece, Whitespace);
    if IsGpu(e) {
      var i :| 0 <= i <= |Lower(e)| - 3 && "gpu" <= Lower(e)[i..];
      assert Lower(e)[i..][0] == 'g';
      assert e[i] in e;
      StripIsInside(piece, Whitespace, e[i]);
    }
  }

  /** A skipped line without commas parses to nothing. */
  lemma LoneEntry(s: string)
    requires ',' !in s
    ensures Pieces(s) == Add(map[], ReadEntry(s))
  {
    SplitWhole(s, ',');
    var all := Map(ReadEntry, Split(s, ','));
    assert all == [ReadEntry(s)];
    assert TallyOf(all[..0]) == map[];
  }

  lemma NothingIsEmpty(s: string)
    requires Nothing(s)
    ensures Pieces(s) == map[]
  {
    NothingHasNoG(s);
    NoG(s);
    LoneEntry(s);
  }

  lemma NothingHasNoG(s: string)
    requires Nothing(s)
    ensures 'g' !in s && 'G' !in s && ',' !in s
  {
    assert ',' !in Lower(s) && 'g' !in Lower(s);
    forall i | 0 <= i < |s| ensures s[i] != ',' && s[i] != 'g' && s[i] != 'G' {
      assert Lower(s)[i] in Lower(s);
    }
  }

  /** Ending the parse early changes nothing. */
  lemma ParseIsPieces(s: string)
    ensures Parse(s) == Pieces(s)
  {
    if Nothing(s) { NothingIsEmpty(s); }
  }

  /** Parsing `a + "," + b` adds up what `a` and `b` parse to, for all strings. */
  lemma ParseIsAdditive(a: string, b: string)
    ensures Parse(a + "," + b) == Plus(Parse(a), Parse(b))
  {
    assert a + [','] + b == a + "," + b;
    ParseIsPieces(a);
    ParseIsPieces(b);
    ParseIsPieces(a + [','] + b);
    SplitConcat(a, b, ',');
    MapConcat(ReadEntry, Split(a, ','), Split(b, ','));
    TallyAppend(Map(ReadEntry, Split(a, ',')), Map(ReadEntry, Split(b, ',')));
  }

  // ------------------------------------------------------------------
  // Invertible
  // ------------------------------------------------------------------

  function PrintEntry(e: Entry): string {
    "gpu:" + e.gpuType + ":" + PrintInt(e.count)
  }

  function PrintAll(entries: seq<Entry>): string {
    if entries == [] then ""
    else if |entries| == 1 then PrintEntry(entries[0])
    else PrintAll(entries[..|entries| - 1]) + "," + PrintEntry(entries[|entries| - 1])
  }

  function SumAll(entries: seq<Entry>): Tally {
    if entries == [] then map[]
    else Add(SumAll(entries[..|entries| - 1]), Some(entries[|entries| - 1]))
  }

  lemma GpuPrefix(rest: string)
    ensures Contains(Lower("gpu:" + rest), "gpu")
  {
    var l := Lower("gpu:" + rest);
    assert l[0] == 'g' && l[1] == 'p' && l[2] == 'u';
    assert "gpu" <= l[0..];
  }

  lemma GpuBare(rest: string)
    requires rest != "" && !Cuts(Whitespace, rest[|rest| - 1])
    ensures Strip("gpu:" + rest, Whitespace) == "gpu:" + rest
  {
    StripFixed("gpu:" + rest, Whitespace);
  }

  lemma GpuSplit(rest: string)
    ensures Split("gpu:" + rest, ':') == ["gpu"] + Split(rest, ':')
  {
    var head := "gpu";
    SplitCons(head, rest, ':');
    assert head + [':'] + rest == "gpu:" + rest;
  }

  /** A line that starts with "gpu:" and ends in a visible character is read part by part. */
  lemma GpuLine(rest: string)
    requires rest != "" && !Cuts(Whitespace, rest[|rest| - 1])
    ensures ReadEntry("gpu:" + rest) == ReadParts(["gpu"] + Split(rest, ':'))
  {
    GpuPrefix(rest);
    GpuBare(rest);
    GpuSplit(rest);
  }

  lemma CountIsOnePart(n: int)
    ensures ':' !in PrintInt(n) && '(' !in PrintInt(n) && ',' !in PrintInt(n)
    ensures Split(PrintInt(n), ':') == [PrintInt(n)] && Split(PrintInt(n), '(') == [PrintInt(n)]
  {
    PrintIntShape(n);
    SplitWhole(PrintInt(n), ':');
    SplitWhole(PrintInt(n), '(');
  }

  /** A printed entry is read part by part. */
  lemma EntryReads(e: Entry)
    ensures ReadEntry(PrintEntry(e)) == ReadParts(["gpu"] + (Split(e.gpuType, ':') + [PrintInt(e.count)]))
  {
    EntryText(e.gpuType, PrintInt(e.count));
    TypeAndCount(e.gpuType, e.count);
    GpuLine(e.gpuType + ":" + PrintInt(e.count));
  }

  lemma EntryText(t: string, n: string)
    ensures "gpu:" + (t + ":" + n) == "gpu:" + t + ":" + n
  {}

  lemma TypeAndCount(t: string, n: int)
    ensures var rest := t + ":" + PrintInt(n);
            && rest != "" && !Cuts(Whitespace, rest[|rest| - 1])
            && Split(rest, ':') == Split(t, ':') + [PrintInt(n)]
  {
    PrintIntShape(n);
    DigitNotSpace(PrintInt(n)[|PrintInt(n)| - 1]);
    CountIsOnePart(n);
    SplitConcat(t, PrintInt(n), ':');
    assert t + [':'] + PrintInt(n) == t + ":" + PrintInt(n);
  }

  /** A printed entry reads back exactly when its type is upper-case and has no colon. */
  lemma EntryRoundTrip(e: Entry)
    ensures ReadEntry(PrintEntry(e)) == Some(e) <==> ':' !in e.gpuType && Upper(e.gpuType) == e.gpuType
  {
    EntryReads(e);
    if ':' in e.gpuType {
      SplitParts(e.gpuType, ':');
      CountIsOnePart(e.count);
      ReadsNoColon(["gpu"] + (Split(e.gpuType, ':') + [PrintInt(e.count)]));
    } else {
      SplitWhole(e.gpuType, ':');
      CountIsOnePart(e.count);
      IntRoundTrip(e.count);
      assert ["gpu"] + ([e.gpuType] + [PrintInt(e.count)]) == ["gpu", e.gpuType, PrintInt(e.count)];
    }
  }

  /** A type that was read has no colon. */
  lemma ReadsNoColon(parts: seq<string>)
    requires forall p :: p in parts ==> ':' !in p
    ensures ReadParts(parts).Some? ==> ':' !in ReadParts(parts).value.gpuType
  {
    if |parts| > 2 {
      assert parts[1] in parts;
      UpperKeepsColon(parts[1]);
    }
  }

  lemma UpperKeepsColon(s: string)
    requires ':' !in s
    ensures ':' !in Upper(s)
  {
    assert forall i :: 0 <= i < |s| ==> s[i] in s;
  }

  predicate Printable(e: Entry) {
    Upper(e.gpuType) == e.gpuType && ':' !in e.gpuType && ',' !in e.gpuType
  }

  /** Parsing the printed form of any list of entries gives their per-type totals. */
  lemma {:induction false} ParseInvertsPrint(entries: seq<Entry>)
    requires forall e :: e in entries ==> Printable(e)
    ensures Parse(PrintAll(entries)) == SumAll(entries)
  {
    if entries != [] {
      var init, last := entries[..|entries| - 1], entries[|entries| - 1];
      assert last in entries;
      OneEntry(last);
      ParseInvertsPrint(init);
      AddIsPlus(SumAll(init), last);
      if |entries| > 1 {
        ParseIsAdditive(PrintAll(init), PrintEntry(last));
      } else {
        AddIsPlus(map[], last);
      }
    }
  }

  lemma AddIsPlus(m: Tally, e: Entry)
    ensures Add(m, Some(e)) == Plus(m, map[e.gpuType := e.count])
    ensures m == map[] ==> Add(m, Some(e)) == map[e.gpuType := e.count]
  {}

  lemma OneEntry(e: Entry)
    requires Printable(e)
    ensures Parse(PrintEntry(e)) == map[e.gpuType := e.count]
  {
    EntryRoundTrip(e);
    var s := PrintEntry(e);
    CountIsOnePart(e.count);
    assert ',' !in s;
    LoneEntry(s);
    ParseIsPieces(s);
  }

  /** So a map comes back from its printed form, in whatever order it was printed. */
  lemma {:induction false} MapRoundTrip(m: Tally, entries: seq<Entry>)
    requires DistinctTypes(entries)
    requires forall e :: e in entries <==> e.gpuType in m && m[e.gpuType] == e.count
    requires forall e :: e in entries ==> Printable(e)
    ensures Parse(PrintAll(entries)) == m
  {
    ParseInvertsPrint(entries);
    SumDistinct(entries);
    forall t | t in m ensures t in SumAll(entries) && SumAll(entries)[t] == m[t] {
      assert Entry(t, m[t]) in entries;
    }
    assert forall t :: t in Types(entries) ==> t in m;
  }

  function Types(entries: seq<Entry>): set<string> {
    set e | e in entries :: e.gpuType
  }

  predicate DistinctTypes(entries: seq<Entry>) {
    forall i, j :: 0 <= i < j < |entries| ==> entries[i].gpuType != entries[j].gpuType
  }

  /** The map knows exactly the types of the entries, with their counts. */
  predicate Agrees(m: Tally, entries: seq<Entry>) {
    m.Keys == Types(entries) && forall e :: e in entries ==> m[e.gpuType] == e.count
  }

  lemma InitDistinct(entries: seq<Entry>)
    requires entries != [] && DistinctTypes(entries)
    ensures DistinctTypes(entries[..|entries| - 1])
    ensures entries[|entries| - 1].gpuType !in Types(entries[..|entries| - 1])
  {}

  lemma AddAgrees(m: Tally, entries: seq<Entry>, e: Entry)
    requires Agrees(m, entries) && e.gpuType !in Types(entries)
    ensures Agrees(Add(m, Some(e)), entries + [e])
  {
    assert Types(entries + [e]) == Types(entries) + {e.gpuType} by {
      assert forall x :: x in entries + [e] <==> x in entries || x == e;
    }
    assert forall x :: x in entries ==> x.gpuType in Types(entries);
  }

  lemma {:induction false} SumDistinct(entries: seq<Entry>)
    requires DistinctTypes(entries)
    ensures Agrees(SumAll(entries), entries)
  {
    if entries != [] {
      var init, last := entries[..|entries| - 1], entries[|entries| - 1];
      InitDistinct(entries);
      SumDistinct(init);
      AddAgrees(SumAll(init), init, last);
      assert entries == init + [last];
    }
  }

  // ------------------------------------------------------------------
  // Every form of a piece
  // ------------------------------------------------------------------

  /** "gpu:2", in any case: that many of the type "GPU". */
  lemma UntypedReads(gpu: string, n: int)
    requires Lower(gpu) == "gpu"
    ensures Parse(gpu + ":" + PrintInt(n)) == map["GPU" := n]
  {
    var s := gpu + ":" + PrintInt(n);
    CountIsOnePart(n);
    IntRoundTrip(n);
    GpuStart(gpu, ":" + PrintInt(n));
    PrintIntShape(n);
    DigitNotSpace(PrintInt(n)[|PrintInt(n)| - 1]);
    assert s == gpu + (":" + PrintInt(n)) && s[|s| - 1] == PrintInt(n)[|PrintInt(n)| - 1];
    StripFixed(s, Whitespace);
    assert gpu + [':'] + PrintInt(n) == s;
    SplitCons(gpu, PrintInt(n), ':');
    ParseIsPieces(s);
    LoneEntry(s);
  }

  /** A piece that starts with the word, in any case, speaks of GPUs. */
  lemma GpuStart(gpu: string, rest: string)
    requires Lower(gpu) == "gpu"
    ensures IsGpu(gpu + rest) && !Cuts(Whitespace, gpu[0]) && ':' !in gpu && ',' !in gpu
  {
    var l := Lower(gpu + rest);
    assert |Lower(gpu)| == 3 && Lower(gpu)[0] == 'g' && Lower(gpu)[1] == 'p' && Lower(gpu)[2] == 'u';
    assert l[0] == 'g' && l[1] == 'p' && l[2] == 'u';
    assert "gpu" <= l[0..];
  }

  /** "gpu:type:2" with any type: that many of the type in capitals. */
  lemma TypedReads(gpuType: string, n: int)
    requires ':' !in gpuType && ',' !in gpuType
    ensures Parse("gpu:" + gpuType + ":" + PrintInt(n)) == map[Upper(gpuType) := n]
  {
    var e := Entry(gpuType, n);
    EntryReads(e);
    SplitWhole(gpuType, ':');
    CountIsOnePart(n);
    IntRoundTrip(n);
    ReadThree("gpu", gpuType, PrintInt(n));
    assert ',' !in PrintEntry(e);
    LoneEntry(PrintEntry(e));
    ParseIsPieces(PrintEntry(e));
  }

  /** A count that is no number makes the piece count for nothing, typed or not; so does the
      lack of any count, or of the letters "gpu". */
  lemma MalformedIsSkipped(piece: string)
    requires var e := Strip(piece, Whitespace);
             var parts := Split(e, ':');
             || !Contains(Lower(e), "gpu")
             || |parts| < 2
             || (|parts| == 2 && ParseInt(parts[1]).None?)
             || (|parts| > 2 && ParseInt(Split(parts[2], '(')[0]).None?)
    ensures forall m :: Add(m, ReadEntry(piece)) == m
  {}

  // ------------------------------------------------------------------
  // Socket suffixes
  // ------------------------------------------------------------------

  /** What SLURM puts between "(S:" and ")": numbers, ranges and commas. */
  predicate SocketList(s: string) {
    forall c :: c in s ==> IsDigit(c) || c == '-' || c == ','
  }

  /** The first of the comma-separated sockets, and what follows its comma. */
  function FirstSocket(sockets: string): string { Split(sockets, ',')[0] }

  lemma {:induction false} SplitAtFirst(s: string, sep: char)
    requires sep in s
    ensures var a := Split(s, sep)[0];
            |a| < |s| && s == a + [sep] + s[|a| + 1..] && sep !in a
  {
    if s[0] != sep {
      assert s == [s[0]] + s[1..];
      SplitAtFirst(s[1..], sep);
    }
  }

  /** A piece without the letter g is skipped, and so is a whole line of them. */
  lemma {:induction false} NoGpuNothing(s: string)
    requires 'g' !in s && 'G' !in s
    ensures Pieces(s) == map[]
    decreases |s|
  {
    if ',' in s {
      SplitAtFirst(s, ',');
      var a := Split(s, ',')[0];
      var b := s[|a| + 1..];
      assert 'g' !in a && 'G' !in a && 'g' !in b && 'G' !in b;
      NoG(a);
      LoneEntry(a);
      NoGpuNothing(b);
      SplitConcat(a, b, ',');
      MapConcat(ReadEntry, Split(a, ','), Split(b, ','));
      TallyAppend(Map(ReadEntry, Split(a, ',')), Map(ReadEntry, Split(b, ',')));
    } else {
      NoG(s);
      LoneEntry(s);
    }
  }

  /** The end of a piece cut at the first comma: never a space. */
  function CutEnd(sockets: string): string {
    FirstSocket(sockets) + (if ',' in sockets then "" else ")")
  }

  lemma CutEndShape(sockets: string)
    requires SocketList(sockets)
    ensures forall c :: c in CutEnd(sockets) ==> IsDigit(c) || c == '-' || c == ')'
    ensures Split(CutEnd(sockets), ':') == [CutEnd(sockets)] && Split(CutEnd(sockets), '(') == [CutEnd(sockets)]
  {
    if ',' in sockets {
      SplitAtFirst(sockets, ',');
      assert forall c :: c in FirstSocket(sockets) ==> c in sockets;
    } else {
      SplitWhole(sockets, ',');
    }
    SplitWhole(CutEnd(sockets), ':');
    SplitWhole(CutEnd(sockets), '(');
  }

  /** What follows a comma and has no g counts for nothing. */
  lemma TailIgnored(head: string, tail: string)
    requires ',' !in head && 'g' !in tail && 'G' !in tail
    ensures Parse(head + "," + tail) == Add(map[], ReadEntry(head))
  {
    ParseIsAdditive(head, tail);
    ParseIsPieces(head);
    LoneEntry(head);
    ParseIsPieces(tail);
    NoGpuNothing(tail);
    PlusNothing(Parse(head));
  }

  lemma PlusNothing(m: Tally)
    ensures Plus(m, map[]) == m
  {}

  lemma SocketChar(sockets: string, part: string)
    requires SocketList(sockets) && forall c :: c in part ==> c in sockets
    ensures forall c :: c in part + ")" ==> IsDigit(c) || c == '-' || c == ',' || c == ')'
  {}

  /** So only the piece up to the first comma of the sockets is read. */
  lemma OnlyHeadCounts(head: string, sockets: string)
    requires ',' !in head && SocketList(sockets)
    ensures Parse(head + (sockets + ")")) == Add(map[], ReadEntry(head + CutEnd(sockets)))
  {
    if ',' in sockets { SocketsCut(head, sockets); } else { SocketsWhole(head, sockets); }
  }

  lemma SocketsCut(head: string, sockets: string)
    requires ',' !in head && SocketList(sockets) && ',' in sockets
    ensures Parse(head + (sockets + ")")) == Add(map[], ReadEntry(head + CutEnd(sockets)))
  {
    SplitAtFirst(sockets, ',');
    var first := FirstSocket(sockets);
    var rest := sockets[|first| + 1..];
    SocketChar(sockets, rest);
    TailIgnored(head + first, rest + ")");
    CutText(head, first, rest);
    assert CutEnd(sockets) == first;
  }

  lemma CutText(head: string, first: string, rest: string)
    ensures head + first + "," + (rest + ")") == head + (first + [','] + rest + ")")
  {}

  lemma SocketsWhole(head: string, sockets: string)
    requires ',' !in head && SocketList(sockets) && ',' !in sockets
    ensures Parse(head + (sockets + ")")) == Add(map[], ReadEntry(head + CutEnd(sockets)))
  {
    SplitWhole(sockets, ',');
    assert CutEnd(sockets) == sockets + ")";
    ParseIsPieces(head + CutEnd(sockets));
    LoneEntry(head + CutEnd(sockets));
  }

  /** An entry with its sockets, such as "gpu:a100:4(S:0-1)" or "gpu:2(S:0-1)". */
  function WithSockets(before: string, sockets: string): string {
    Head(before) + (sockets + ")")
  }

  function Head(before: string): string { "gpu:" + before + "(S:" }

  lemma SocketHead(before: string)
    requires ',' !in before
    ensures ',' !in Head(before)
  {}

  /** A line with sockets is read part by part, up to the first comma. */
  lemma SocketLine(before: string, sockets: string)
    requires ',' !in before && SocketList(sockets)
    ensures Parse(WithSockets(before, sockets)) ==
              Add(map[], ReadParts(["gpu"] + (Split(before + "(S", ':') + [CutEnd(sockets)])))
  {
    SocketHead(before);
    OnlyHeadCounts(Head(before), sockets);
    HeadEntry(before, sockets);
  }

  lemma HeadEntry(before: string, sockets: string)
    requires SocketList(sockets)
    ensures ReadEntry(Head(before) + CutEnd(sockets)) ==
              ReadParts(["gpu"] + (Split(before + "(S", ':') + [CutEnd(sockets)]))
  {
    HeadJoins(before, CutEnd(sockets));
    SocketEntry(before + "(S", sockets);
  }

  lemma HeadJoins(before: string, after: string)
    ensures "gpu:" + (before + "(S" + [':'] + after) == Head(before) + after
  {}

  lemma SocketEntry(before: string, sockets: string)
    requires SocketList(sockets)
    ensures ReadEntry("gpu:" + (before + [':'] + CutEnd(sockets))) ==
              ReadParts(["gpu"] + (Split(before, ':') + [CutEnd(sockets)]))
  {
    var rest := before + [':'] + CutEnd(sockets);
    CutEndShape(sockets);
    var last := rest[|rest| - 1];
    assert last == ':' || last in CutEnd(sockets);
    GpuLine(rest);
    SplitConcat(before, CutEnd(sockets), ':');
  }

  lemma ReadFour(kind: string, gpuType: string, count: string, sockets: string)
    ensures ReadParts([kind] + ([gpuType, count] + [sockets])) ==
              match ParseInt(Split(count, '(')[0])
              case None => None
              case Some(n) => Some(Entry(Upper(gpuType), n))
  {
    assert [kind] + ([gpuType, count] + [sockets]) == [kind, gpuType, count, sockets];
  }

  lemma ReadThree(kind: string, gpuType: string, count: string)
    ensures ReadParts([kind] + ([gpuType] + [count])) ==
              match ParseInt(Split(count, '(')[0])
              case None => None
              case Some(n) => Some(Entry(Upper(gpuType), n))
  {
    assert [kind] + ([gpuType] + [count]) == [kind, gpuType, count];
  }

  /** A typed entry may carry its sockets, e.g. "gpu:a100:4(S:0-1,3)". */
  lemma TypedWithSockets(gpuType: string, n: int, sockets: string)
    requires ':' !in gpuType && ',' !in gpuType && SocketList(sockets)
    ensures Parse(WithSockets(gpuType + ":" + PrintInt(n), sockets)) == map[Upper(gpuType) := n]
  {
    CountIsOnePart(n);
    IntRoundTrip(n);
    SocketLine(gpuType + ":" + PrintInt(n), sockets);
    TypedParts(gpuType, PrintInt(n));
    ReadFour("gpu", gpuType, PrintInt(n) + "(S", CutEnd(sockets));
  }

  lemma TypedParts(gpuType: string, count: string)
    requires ':' !in gpuType && ':' !in count && '(' !in count
    ensures Split(gpuType + ":" + count + "(S", ':') == [gpuType, count + "(S"]
    ensures Split(count + "(S", '(')[0] == count
  {
    SplitCons(gpuType, count + "(S", ':');
    SplitWhole(count + "(S", ':');
    assert gpuType + [':'] + (count + "(S") == gpuType + ":" + count + "(S";
    SplitCons(count, "S", '(');
    assert count + ['('] + "S" == count + "(S";
  }

  /** An untyped one may not: its count is lost. Without a comma the entry is dropped, and so
      it is if the first of several sockets is a range; a single first socket is taken for
      the count of a type that does not exist. */
  lemma UntypedWithSockets(n: int, sockets: string)
    requires SocketList(sockets)
    ensures var v := ParseInt(FirstSocket(sockets));
            Parse(WithSockets(PrintInt(n), sockets)) ==
              if ',' in sockets && v.Some? then map[PrintInt(n) + "(S" := v.value] else map[]
  {
    CountIsOnePart(n);
    var count := PrintInt(n) + "(S";
    SocketLine(PrintInt(n), sockets);
    SplitWhole(count, ':');
    ReadThree("gpu", count, CutEnd(sockets));
    CutEndCount(sockets);
    UpperOfCount(n);
  }

  lemma CutEndCount(sockets: string)
    requires SocketList(sockets)
    ensures ParseInt(Split(CutEnd(sockets), '(')[0]) ==
              if ',' in sockets then ParseInt(FirstSocket(sockets)) else None
  {
    CutEndShape(sockets);
    if ',' in sockets {
      assert CutEnd(sockets) == FirstSocket(sockets);
    } else {
      NotANumber(CutEnd(sockets));
    }
  }

  lemma UpperOfCount(n: int)
    ensures Upper(PrintInt(n) + "(S") == PrintInt(n) + "(S"
  {
    PrintIntShape(n);
    var s := PrintInt(n) + "(S";
    forall i | 0 <= i < |s| ensures UpperChar(s[i]) == s[i] {
      if i < |PrintInt(n)| { assert s[i] in PrintInt(n); }
    }
  }
}
