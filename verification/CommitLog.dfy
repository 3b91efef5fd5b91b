/** Reading `git log --format=%H|%aN|%aI --numstat` back into commits. */
module CommitLog {
  import opened Text

  /** One numstat line; binary files show dashes. */
  datatype Stat = Changed(added: nat, deleted: nat, path: string) | Binary(path: string)

  datatype Commit = Commit(hash: string, author: string, date: string, stats: seq<Stat>)

  /** What `fetch_commits` keeps of a commit. */
  datatype Record = Record(hash: string, author: string, date: string, added: int, deleted: int)

  // ------------------------------------------------------------------
  // Lines
  // ------------------------------------------------------------------

  /** Where `str.splitlines()` breaks. */
  predicate IsBreak(c: char) {
    || '\n' <= c <= '\r' || '\U{1C}' <= c <= '\U{1E}'
    || c == '\U{85}' || c == '\U{2028}' || c == '\U{2029}'
  }

  /** Python's list: line feed, vertical tab, form feed, carriage return, the file, group and
      record separators, next line, and the line and paragraph separators. */
  lemma BreaksExactly(c: char)
    ensures IsBreak(c) <==>
              c in ['\n', '\U{B}', '\U{C}', '\r', '\U{1C}', '\U{1D}', '\U{1E}', '\U{85}', '\U{2028}', '\U{2029}']
  {}

  predicate OneLine(s: string) {
    forall c :: c in s ==> !IsBreak(c)
  }

  /** `splitlines()`: a final break does not start another line. Output read as text has
      had its carriage returns translated already, so each break is one character. */
  function SplitLines(s: string): seq<string> {
    if s == "" then []
    else if |s| == 1 then [if IsBreak(s[0]) then "" else s]
    else Attach(s[0], SplitLines(s[1..]))
  }

  /** One character more on the first of the lines that follow. */
  function Attach(c: char, rest: seq<string>): seq<string> {
    if IsBreak(c) then [""] + rest
    else if rest == [] then [[c]]
    else [[c] + rest[0]] + rest[1..]
  }

  lemma AttachConcat(c: char, a: seq<string>, b: seq<string>)
    requires a != []
    ensures Attach(c, a + b) == Attach(c, a) + b
  {
  }

  function Unlines(lines: seq<string>): string {
    if lines == [] then "" else lines[0] + "\n" + Unlines(lines[1..])
  }

  lemma SplitStep(c: char, s: string)
    requires s != ""
    ensures SplitLines([c] + s) == Attach(c, SplitLines(s))
  {
    assert ([c] + s)[1..] == s;
  }

  /** A break always ends a line: splitting distributes over it. */
  lemma {:induction false} SplitLinesConcat(a: string, b: string)
    ensures SplitLines(a + "\n" + b) == SplitLines(a + "\n") + SplitLines(b)
  {
    if a == "" {
      BreakFirst(b);
    } else {
      SplitLinesConcat(a[1..], b);
      FirstCharSplit(a[0], a[1..] + "\n", b);
      assert [a[0]] + (a[1..] + "\n") == a + "\n";
    }
  }

  lemma BreakFirst(b: string)
    ensures SplitLines("" + "\n" + b) == SplitLines("" + "\n") + SplitLines(b)
  {
    assert "" + "\n" + b == ['\n'] + b;
    if b != "" { SplitStep('\n', b); } else { assert ['\n'] + b == ['\n']; }
  }

  /** What a first character does to the lines does not depend on what follows the second. */
  lemma FirstCharSplit(c: char, u: string, b: string)
    requires u != "" && SplitLines(u + b) == SplitLines(u) + SplitLines(b)
    ensures SplitLines([c] + u + b) == SplitLines([c] + u) + SplitLines(b)
  {
    assert [c] + u + b == [c] + (u + b) && (u + b)[0] == u[0];
    LinesNonEmpty(u);
    calc {
      SplitLines([c] + (u + b));
    == { SplitStep(c, u + b); }
      Attach(c, SplitLines(u) + SplitLines(b));
    == { AttachConcat(c, SplitLines(u), SplitLines(b)); }
      Attach(c, SplitLines(u)) + SplitLines(b);
    == { SplitStep(c, u); }
      SplitLines([c] + u) + SplitLines(b);
    }
  }

  lemma LinesNonEmpty(s: string)
    ensures s != "" ==> SplitLines(s) != []
  {}

  lemma {:induction false} SplitFirstLine(line: string, brk: char, rest: string)
    requires OneLine(line) && IsBreak(brk)
    ensures SplitLines(line + [brk] + rest) == [line] + SplitLines(rest)
  {
    if line == "" {
      assert line + [brk] + rest == [brk] + rest;
      if rest != "" { SplitStep(brk, rest); } else { assert [brk] + rest == [brk]; }
    } else {
      var after := line[1..] + [brk] + rest;
      assert line[0] in line && line == [line[0]] + line[1..];
      SplitFirstLine(line[1..], brk, rest);
      SplitStep(line[0], after);
      assert [line[0]] + after == line + [brk] + rest;
      assert if |line| == 1 then after[0] == brk else after[0] == line[1] && line[1] in line;
    }
  }

  lemma SplitOneLine(line: string)
    requires OneLine(line)
    ensures SplitLines(line + "\n") == [line]
  {
    SplitFirstLine(line, '\n', "");
    assert line + ['\n'] + "" == line + "\n";
  }

  /** No line has a break in it. */
  lemma {:induction false} LinesAreLines(s: string)
    ensures forall l :: l in SplitLines(s) ==> OneLine(l)
  {
    if s != "" {
      LinesAreLines(s[1..]);
      var rest := SplitLines(s[1..]);
      if !IsBreak(s[0]) {
        assert rest != [] ==> rest[0] in rest && forall l :: l in rest[1..] ==> l in rest;
        forall l | l in SplitLines(s) ensures OneLine(l) {
          if rest == [] || l !in rest {
            assert l == [s[0]] || l == [s[0]] + rest[0];
          }
        }
      }
    }
  }

  /** The lines a reader sees of printed lines, some of which may break. */
  function Seen(lines: seq<string>): seq<string> {
    if lines == [] then [] else SplitLines(lines[0] + "\n") + Seen(lines[1..])
  }

  lemma {:induction false} SplitOfUnlines(lines: seq<string>)
    ensures SplitLines(Unlines(lines)) == Seen(lines)
  {
    if lines != [] {
      SplitOfUnlines(lines[1..]);
      SplitLinesConcat(lines[0], Unlines(lines[1..]));
    }
  }

  lemma {:induction false} SeenConcat(a: seq<string>, b: seq<string>)
    ensures Seen(a + b) == Seen(a) + Seen(b)
  {
    if a == [] {
      assert a + b == b;
    } else {
      assert (a + b)[1..] == a[1..] + b;
      SeenConcat(a[1..], b);
    }
  }

  lemma {:induction false} SeenWhole(lines: seq<string>)
    requires forall l :: l in lines ==> OneLine(l)
    ensures Seen(lines) == lines
  {
    if lines != [] {
      SplitOneLine(lines[0]);
      SeenWhole(lines[1..]);
    }
  }

  // ------------------------------------------------------------------
  // The reader
  // ------------------------------------------------------------------

  /** `^[0-9a-f]{40,64}$`. */
  predicate IsSha(s: string) {
    40 <= |s| <= 64 && forall c :: c in s ==> IsDigit(c) || 'a' <= c <= 'f'
  }

  datatype Reader = Reader(commits: seq<Record>, current: Option<Record>)

  function Flush(r: Reader): seq<Record> {
    if r.current.Some? then r.commits + [r.current.value] else r.commits
  }

  /** Exactly two bars, and a hash before the first. */
  predicate IsHeader(line: string) {
    |Split(line, '|')| == 3 && IsSha(Split(line, '|')[0])
  }

  /** What a line adds to the counters: a bad second number leaves the first one counted. */
  function StatOf(line: string): (int, int) {
    var parts := Split(line, '\t');
    if Strip(line, Whitespace) == "" || |parts| < 3 || parts[0] == "-" || parts[1] == "-" then (0, 0)
    else
      match ParseInt(parts[0])
      case None => (0, 0)
      case Some(added) =>
        match ParseInt(parts[1])
        case None => (added, 0)
        case Some(deleted) => (added, deleted)
  }

  function AddTo(rec: Record, n: (int, int)): Record {
    rec.(added := rec.added + n.0, deleted := rec.deleted + n.1)
  }

  /** The reader after counting `n` for the commit it is at, if any. */
  function Count(r: Reader, n: (int, int)): Reader {
    if r.current.Some? then r.(current := Some(AddTo(r.current.value, n))) else r
  }

  function ReadLine(r: Reader, line: string): Reader {
    if IsHeader(line) then
      var parts := Split(line, '|');
      Reader(Flush(r), Some(Record(parts[0], parts[1], parts[2], 0, 0)))
    else Count(r, StatOf(line))
  }

  /** A loop that carries `s` through the elements. */
  function Fold<S, A>(step: (S, A) -> S, s: S, xs: seq<A>): S {
    if xs == [] then s else step(Fold(step, s, xs[..|xs| - 1]), xs[|xs| - 1])
  }

  function ReadLines(r: Reader, lines: seq<string>): Reader {
    Fold(ReadLine, r, lines)
  }

  const NOTHING := Reader([], None)

  /** The loop of `fetch_commits` over the output of git. */
  method FetchCommits(output: string) returns (commits: seq<Record>)
    ensures commits == Flush(ReadLines(NOTHING, SplitLines(output)))
  {
    var lines := SplitLines(output);
    var current: Option<Record> := None;
    commits := [];
    var i := 0;
    while i < |lines|
      invariant 0 <= i <= |lines|
      invariant Reader(commits, current) == ReadLines(NOTHING, lines[..i])
    {
      var line := lines[i];
      assert lines[..i + 1][..i] == lines[..i];
      i := i + 1;
      if IsHeader(line) {
        var parts := Split(line, '|');
        if current.Some? { commits := commits + [current.value]; }
        current := Some(Record(parts[0], parts[1], parts[2], 0, 0));
        continue;
      }
      if current.Some? {
        var n := StatOf(line);
        current := Some(AddTo(current.value, n));
      }
    }
    assert lines[..i] == lines;
    if current.Some? { commits := commits + [current.value]; }
  }

  // ------------------------------------------------------------------
  // The printer
  // ------------------------------------------------------------------

  function Header(c: Commit): string {
    c.hash + "|" + c.author + "|" + c.date
  }

  function StatLine(s: Stat): string {
    match s
    case Changed(added, deleted, path) => PrintNat(added) + "\t" + PrintNat(deleted) + "\t" + path
    case Binary(path) => "-\t-\t" + path
  }

  function StatLines(stats: seq<Stat>): seq<string> {
    if stats == [] then [] else [""] + Map(StatLine, stats)
  }

  function CommitLines(c: Commit): seq<string> {
    [Header(c)] + StatLines(c.stats)
  }

  function LogLines(commits: seq<Commit>): seq<string> {
    if commits == [] then [] else LogLines(commits[..|commits| - 1]) + CommitLines(commits[|commits| - 1])
  }

  /** A SHA-1 or SHA-256 object name as git prints it. */
  predicate GitHash(s: string) {
    (|s| == 40 || |s| == 64) && forall c :: c in s ==> c in "0123456789abcdef"
  }

  /** What starts a header line: 40 to 64 small hexadecimal digits, which git's hashes are. */
  lemma ShaExactly(s: string)
    ensures IsSha(s) <==> 40 <= |s| <= 64 && forall c :: c in s ==> c in "0123456789abcdef"
    ensures GitHash(s) ==> IsSha(s)
  {
    var digits := "0123456789abcdef";
    assert forall c :: c in digits <==> IsDigit(c) || 'a' <= c <= 'f' by {
      forall c: char | IsDigit(c) || 'a' <= c <= 'f' ensures c in digits {
        var k := if IsDigit(c) then c as int - '0' as int else c as int - 'a' as int + 10;
        assert digits[k] == c;
      }
    }
  }

  /** What git guarantees about the fields: a hash, an ISO date, quoted paths. Of the author
      nothing: git drops line feeds in a name, but not the other characters that break lines. */
  predicate GitCommit(c: Commit) {
    && GitHash(c.hash) && '|' !in c.date && OneLine(c.date)
    && forall s :: s in c.stats ==> OneLine(s.path)
  }

  /** An author that survives the trip: no bar and nothing that breaks lines. */
  predicate Clean(c: Commit) { '|' !in c.author && OneLine(c.author) }

  function Totals(stats: seq<Stat>): (int, int) {
    if stats == [] then (0, 0)
    else
      var t, s := Totals(stats[..|stats| - 1]), stats[|stats| - 1];
      if s.Changed? then (t.0 + s.added, t.1 + s.deleted) else t
  }

  function Summary(c: Commit): Record {
    Record(c.hash, c.author, c.date, Totals(c.stats).0, Totals(c.stats).1)
  }

  /** A line that is read as a header starts a record, any other counts for the last one. */
  function Absorb(earlier: seq<Record>, line: string): seq<Record> {
    if IsHeader(line) then
      earlier + [Record(Split(line, '|')[0], Split(line, '|')[1], Split(line, '|')[2], 0, 0)]
    else Bump(earlier, StatOf(line))
  }

  function Bump(earlier: seq<Record>, n: (int, int)): seq<Record> {
    if earlier == [] then [] else earlier[|earlier| - 1 := AddTo(earlier[|earlier| - 1], n)]
  }

  /** One more commit printed after those that read as `earlier`. The lines of a header that
      is not clean stand for themselves, and the changed lines go to whatever came last. */
  function MergeOne(earlier: seq<Record>, c: Commit): seq<Record> {
    if Clean(c) then earlier + [Summary(c)]
    else Bump(Fold(Absorb, earlier, SplitLines(Header(c) + "\n")), Totals(c.stats))
  }

  /** What the reader makes of the log. */
  function Merge(commits: seq<Commit>): seq<Record> {
    Fold(MergeOne, [], commits)
  }

  // ------------------------------------------------------------------
  // Single lines
  // ------------------------------------------------------------------

  lemma {:induction false} SplitCount(s: string, sep: char)
    ensures |Split(s, sep)| == 1 + multiset(s)[sep]
  {
    if s != "" {
      SplitCount(s[1..], sep);
      assert s == [s[0]] + s[1..];
    }
  }

  lemma {:induction false} SplitHead(a: string, b: string, sep: char)
    requires sep !in a
    ensures Split(a + b, sep)[0] == a + Split(b, sep)[0]
  {
    if a == "" {
      assert a + b == b;
    } else {
      assert (a + b)[1..] == a[1..] + b;
      SplitHead(a[1..], b, sep);
    }
  }

  /** A header line is recognised exactly when the author has no bar. */
  lemma HeaderRecognised(c: Commit)
    requires GitCommit(c)
    ensures IsHeader(Header(c)) <==> '|' !in c.author
    ensures '|' !in c.author ==> Split(Header(c), '|') == [c.hash, c.author, c.date]
  {
    ShaExactly(c.hash);
    assert '|' !in c.hash;
    var tail := c.author + "|" + c.date;
    assert Header(c) == c.hash + ['|'] + tail;
    SplitCons(c.hash, tail, '|');
    assert tail == c.author + ['|'] + c.date;
    SplitConcat(c.author, c.date, '|');
    SplitWhole(c.date, '|');
    SplitCount(c.author, '|');
    if '|' !in c.author { SplitWhole(c.author, '|'); }
  }

  /** A line that is no number up to its first tab adds nothing. */
  lemma BarredHeaderAddsNothing(c: Commit)
    requires GitCommit(c)
    ensures StatOf(Header(c)) == (0, 0)
  {
    var tail := c.author + "|" + c.date;
    var head := c.hash + "|";
    assert '\t' !in head;
    assert Header(c) == head + tail;
    SplitHead(head, tail, '\t');
    var first := Split(Header(c), '\t')[0];
    assert first[|c.hash|] == '|';
    BarIsNoNumber(first);
  }

  lemma {:induction false} DigitsOnly(s: string, c: char)
    requires ParseDigits(s).Some? && c in s
    ensures IsDigit(c) || c == '_'
  {
    var high := s[..|s| - 1];
    if c != s[|s| - 1] && high != "" {
      var body := if high[|high| - 1] == '_' then high[..|high| - 1] else high;
      assert c in high;
      if c in body { DigitsOnly(body, c); }
    }
  }

  lemma BarIsNoNumber(s: string)
    requires '|' in s
    ensures ParseInt(s).None?
  {
    var i :| 0 <= i < |s| && s[i] == '|';
    StripKeeps(s, Whitespace, i);
    var t := Strip(s, Whitespace);
    if t[0] == '-' || t[0] == '+' {
      assert '|' in t[1..];
      if ParseDigits(t[1..]).Some? { DigitsOnly(t[1..], '|'); }
    } else {
      if ParseDigits(t).Some? { DigitsOnly(t, '|'); }
    }
  }

  /** Stripping keeps every character that is not stripped itself. */
  lemma StripKeeps(s: string, cut: Cut, i: nat)
    requires i < |s| && !Cuts(cut, s[i])
    ensures s[i] in Strip(s, cut)
  {
    var l := LStrip(s, cut);
    LStripShape(s, cut);
    RStripShape(l, cut);
    var k := i - (|s| - |l|);
    assert l[k] == s[i];
    assert RStrip(l, cut)[k] == s[i];
  }

  /** What stands before the first tab. */
  function FirstColumn(s: Stat): string {
    if s.Changed? then PrintNat(s.added) else "-"
  }

  function OtherColumns(s: Stat): string {
    if s.Changed? then PrintNat(s.deleted) + "\t" + s.path else "-\t" + s.path
  }

  lemma StatLineStart(s: Stat)
    ensures StatLine(s) == FirstColumn(s) + "\t" + OtherColumns(s)
    ensures FirstColumn(s) != "" && forall c :: c in FirstColumn(s) ==> IsDigit(c) || c == '-'
  {
    if s.Changed? { PrintNatDigits(s.added); }
  }

  /** A numstat line is never taken for a header, whatever its path. */
  lemma StatIsNoHeader(s: Stat)
    ensures !IsHeader(StatLine(s)) && Strip(StatLine(s), Whitespace) != ""
  {
    StatLineStart(s);
    var head, tail := FirstColumn(s), OtherColumns(s);
    var start := head + "\t";
    assert '|' !in start;
    assert StatLine(s) == start + tail;
    SplitHead(start, tail, '|');
    var first := Split(StatLine(s), '|')[0];
    assert first[|head|] == '\t' && '\t' in first;
    assert StatLine(s)[0] == head[0] && head[0] in head;
    DigitNotSpace(head[0]);
    StripKeeps(StatLine(s), Whitespace, 0);
  }

  lemma StatReads(s: Stat)
    ensures StatOf(StatLine(s)) == if s.Changed? then (s.added, s.deleted) else (0, 0)
  {
    StatIsNoHeader(s);
    if s.Changed? {
      var a, d := PrintNat(s.added), PrintNat(s.deleted);
      TwoColumns(a, d, s.path, s.added, s.deleted);
    } else {
      var line := StatLine(s);
      assert line == "-" + ['\t'] + ("-" + ['\t'] + s.path);
      SplitCons("-", "-" + ['\t'] + s.path, '\t');
      SplitCons("-", s.path, '\t');
    }
  }

  /** Lines that git would not print: a dash in either column, fewer than three columns or a
      first column that is no number count for nothing; a second one that is none lets the
      first count. */
  lemma OddColumns(line: string)
    requires Strip(line, Whitespace) != ""
    ensures var parts := Split(line, '\t');
      |parts| < 3 || parts[0] == "-" || parts[1] == "-" || ParseInt(parts[0]).None? ==> StatOf(line) == (0, 0)
    ensures var parts := Split(line, '\t');
      |parts| >= 3 && parts[0] != "-" && parts[1] != "-" && ParseInt(parts[0]).Some? && ParseInt(parts[1]).None? ==>
        StatOf(line) == (ParseInt(parts[0]).value, 0)
  {}

  lemma TwoColumns(a: string, d: string, path: string, added: nat, deleted: nat)
    requires a == PrintNat(added) && d == PrintNat(deleted)
    ensures var parts := Split(a + "\t" + d + "\t" + path, '\t');
            && |parts| >= 3 && parts[0] == a && parts[1] == d && a != "-" && d != "-"
            && ParseInt(a) == Some(added) && ParseInt(d) == Some(deleted)
  {
    ColumnReads(a, added);
    ColumnReads(d, deleted);
    var tail := d + ['\t'] + path;
    assert a + "\t" + d + "\t" + path == a + ['\t'] + tail;
    SplitCons(a, tail, '\t');
    SplitCons(d, path, '\t');
  }

  lemma ColumnReads(a: string, n: nat)
    requires a == PrintNat(n)
    ensures a != "-" && '\t' !in a && ParseInt(a) == Some(n)
  {
    PrintNatDigits(n);
    ParseSigned(a);
    assert '-' !in a;
  }

  // ------------------------------------------------------------------
  // The round trip
  // ------------------------------------------------------------------

  lemma {:induction false} FoldConcat<S, A>(step: (S, A) -> S, s: S, a: seq<A>, b: seq<A>)
    ensures Fold(step, s, a + b) == Fold(step, Fold(step, s, a), b)
  {
    if b == [] {
      assert a + b == a;
    } else {
      FoldConcat(step, s, a, b[..|b| - 1]);
      assert (a + b)[..|a + b| - 1] == a + b[..|b| - 1];
    }
  }

  lemma FoldOne<S, A>(step: (S, A) -> S, s: S, x: A)
    ensures Fold(step, s, [x]) == step(s, x)
  {
    assert [x][..0] == [];
    assert Fold(step, s, [x][..0]) == s;
  }

  /** Folding over images is folding with the composed step. */
  lemma {:induction false} FoldMap<S(!new), A(!new), B>(step: (S, B) -> S, g: A -> B, step': (S, A) -> S, s: S,
        xs: seq<A>)
    requires forall s, x :: step'(s, x) == step(s, g(x))
    ensures Fold(step, s, Map(g, xs)) == Fold(step', s, xs)
  {
    if xs != [] {
      FoldMap(step, g, step', s, xs[..|xs| - 1]);
      assert Map(g, xs)[..|xs| - 1] == Map(g, xs[..|xs| - 1]);
    }
  }

  function Counted(s: Stat): (int, int) {
    if s.Changed? then (s.added, s.deleted) else (0, 0)
  }

  lemma CountTwice(r: Reader, a: (int, int), b: (int, int))
    ensures Count(Count(r, a), b) == Count(r, (a.0 + b.0, a.1 + b.1))
    ensures Count(r, (0, 0)) == r
  {}

  lemma ReadStat(r: Reader, s: Stat)
    ensures ReadLine(r, StatLine(s)) == Count(r, Counted(s))
  {
    StatIsNoHeader(s);
    StatReads(s);
  }

  function CountStat(r: Reader, s: Stat): Reader {
    Count(r, Counted(s))
  }

  lemma {:induction false} CountStats(r: Reader, stats: seq<Stat>)
    ensures Fold(CountStat, r, stats) == Count(r, Totals(stats))
  {
    if stats == [] {
      CountTwice(r, (0, 0), (0, 0));
    } else {
      var init := stats[..|stats| - 1];
      CountStats(r, init);
      CountTwice(r, Totals(init), Counted(stats[|stats| - 1]));
    }
  }

  lemma ReadStats(r: Reader, stats: seq<Stat>)
    ensures ReadLines(r, Map(StatLine, stats)) == Count(r, Totals(stats))
  {
    forall r, s ensures CountStat(r, s) == ReadLine(r, StatLine(s)) {
      ReadStat(r, s);
    }
    FoldMap(ReadLine, StatLine, CountStat, r, stats);
    CountStats(r, stats);
  }

  lemma BlankLine(r: Reader)
    ensures ReadLine(r, "") == r
  {
    assert Split("", '|') == [""];
  }

  /** The reader seen from its flushed list. */
  predicate Started(r: Reader) { r.current.None? ==> r.commits == [] }

  lemma AbsorbsLine(r: Reader, line: string)
    requires Started(r)
    ensures var r' := ReadLine(r, line); Started(r') && Flush(r') == Absorb(Flush(r), line)
  {
    CountFlush(r, StatOf(line));
  }

  lemma {:induction false} AbsorbsLines(r: Reader, lines: seq<string>)
    requires Started(r)
    ensures var r' := ReadLines(r, lines); Started(r') && Flush(r') == Fold(Absorb, Flush(r), lines)
  {
    if lines != [] {
      AbsorbsLines(r, lines[..|lines| - 1]);
      AbsorbsLine(ReadLines(r, lines[..|lines| - 1]), lines[|lines| - 1]);
    }
  }

  lemma CountFlush(r: Reader, n: (int, int))
    ensures Started(r) ==> Started(Count(r, n)) && Flush(Count(r, n)) == Bump(Flush(r), n)
  {}

  /** The lines of a commit as a reader sees them. */
  function SeenLines(c: Commit): seq<string> {
    SplitLines(Header(c) + "\n") + StatLines(c.stats)
  }

  lemma ReadStatLines(r: Reader, stats: seq<Stat>)
    ensures ReadLines(r, StatLines(stats)) == Count(r, Totals(stats))
  {
    if stats == [] {
      CountTwice(r, (0, 0), (0, 0));
    } else {
      FoldConcat(ReadLine, r, [""], Map(StatLine, stats));
      FoldOne(ReadLine, r, "");
      BlankLine(r);
      ReadStats(r, stats);
    }
  }

  /** Reading one commit does to the flushed list what merging it does. */
  lemma ReadMerges(r: Reader, c: Commit)
    requires GitCommit(c) && Started(r)
    ensures var r' := ReadLines(r, SeenLines(c));
            Started(r') && Flush(r') == MergeOne(Flush(r), c)
  {
    var head := SplitLines(Header(c) + "\n");
    var r1 := ReadLines(r, head);
    AbsorbsLines(r, head);
    FoldConcat(ReadLine, r, head, StatLines(c.stats));
    ReadStatLines(r1, c.stats);
    CountFlush(r1, Totals(c.stats));
    if Clean(c) { CleanHeader(Flush(r), c); }
  }

  lemma CleanHeader(earlier: seq<Record>, c: Commit)
    requires GitCommit(c) && Clean(c)
    ensures Bump(Fold(Absorb, earlier, SplitLines(Header(c) + "\n")), Totals(c.stats)) == earlier + [Summary(c)]
  {
    HeaderRecognised(c);
    HeaderOneLine(c);
    SplitOneLine(Header(c));
    FoldOne(Absorb, earlier, Header(c));
  }

  lemma HeaderOneLine(c: Commit)
    requires GitCommit(c)
    ensures OneLine(Header(c)) <==> OneLine(c.author)
  {
    var h := Header(c);
    assert forall i :: 0 <= i < |c.author| ==> h[|c.hash| + 1 + i] == c.author[i];
    if !OneLine(c.author) {
      var i :| 0 <= i < |c.author| && IsBreak(c.author[i]);
      assert h[|c.hash| + 1 + i] in h;
    }
  }

  lemma {:induction false} ReadLog(commits: seq<Commit>)
    requires forall c :: c in commits ==> GitCommit(c)
    ensures var r := ReadLines(NOTHING, Seen(LogLines(commits)));
            Flush(r) == Merge(commits) && Started(r)
  {
    if commits != [] {
      var init, last := commits[..|commits| - 1], commits[|commits| - 1];
      assert last in commits;
      ReadLog(init);
      SeenConcat(LogLines(init), CommitLines(last));
      SeenCommit(last);
      FoldConcat(ReadLine, NOTHING, Seen(LogLines(init)), SeenLines(last));
      ReadMerges(ReadLines(NOTHING, Seen(LogLines(init))), last);
    }
  }

  lemma SeenCommit(c: Commit)
    requires GitCommit(c)
    ensures Seen(CommitLines(c)) == SeenLines(c)
  {
    SeenConcat([Header(c)], StatLines(c.stats));
    StatLinesWhole(c.stats);
    assert [Header(c)][1..] == [];
  }

  lemma StatLinesWhole(stats: seq<Stat>)
    requires forall s :: s in stats ==> OneLine(s.path)
    ensures Seen(StatLines(stats)) == StatLines(stats)
  {
    forall l | l in StatLines(stats) ensures OneLine(l) {
      if l != "" {
        var i :| 0 <= i < |stats| && l == StatLine(stats[i]);
        StatOneLine(stats[i]);
      }
    }
    SeenWhole(StatLines(stats));
  }

  lemma StatOneLine(s: Stat)
    requires OneLine(s.path)
    ensures OneLine(StatLine(s))
  {
    if s.Changed? {
      PrintNatDigits(s.added);
      PrintNatDigits(s.deleted);
    }
  }

  // ------------------------------------------------------------------
  // What comes back
  // ------------------------------------------------------------------

  predicate CleanRecord(r: Record) { '|' !in r.author && OneLine(r.author) }

  /** Whatever the text, no author that was read has a bar or a break. */
  lemma {:induction false} ReadsClean(earlier: seq<Record>, lines: seq<string>)
    requires forall l :: l in lines ==> OneLine(l)
    requires forall r :: r in earlier ==> CleanRecord(r)
    ensures forall r :: r in Fold(Absorb, earlier, lines) ==> CleanRecord(r)
  {
    if lines != [] {
      var line := lines[|lines| - 1];
      ReadsClean(earlier, lines[..|lines| - 1]);
      if IsHeader(line) {
        HeaderClean(line);
      } else {
        BumpClean(Fold(Absorb, earlier, lines[..|lines| - 1]), StatOf(line));
      }
    }
  }

  lemma HeaderClean(line: string)
    requires OneLine(line) && IsHeader(line)
    ensures CleanRecord(Record(Split(line, '|')[0], Split(line, '|')[1], Split(line, '|')[2], 0, 0))
  {
    SplitParts(line, '|');
    assert Split(line, '|')[1] in Split(line, '|');
    forall c | c in Split(line, '|')[1] ensures c in line {
      SplitInside(line, '|', Split(line, '|')[1], c);
    }
  }

  lemma BumpClean(earlier: seq<Record>, n: (int, int))
    requires forall r :: r in earlier ==> CleanRecord(r)
    ensures forall r :: r in Bump(earlier, n) ==> CleanRecord(r)
  {
    if earlier != [] {
      assert earlier[|earlier| - 1] in earlier;
      var b := Bump(earlier, n);
      forall i | 0 <= i < |b| ensures CleanRecord(b[i]) {
        assert earlier[i] in earlier;
      }
    }
  }

  lemma {:induction false} SplitInside(s: string, sep: char, part: string, c: char)
    requires part in Split(s, sep) && c in part
    ensures c in s
  {
    if s != "" {
      var rest := Split(s[1..], sep);
      assert rest[0] in rest;
      if part in rest {
        SplitInside(s[1..], sep, part, c);
      } else if c != s[0] {
        assert part == [s[0]] + rest[0] && c in rest[0];
        SplitInside(s[1..], sep, rest[0], c);
      }
      assert s == [s[0]] + s[1..];
    }
  }

  lemma {:induction false} MergedClean(commits: seq<Commit>)
    ensures forall r :: r in Merge(commits) ==> CleanRecord(r)
  {
    if commits != [] {
      var init, last := commits[..|commits| - 1], commits[|commits| - 1];
      MergedClean(init);
      if !Clean(last) {
        LinesAreLines(Header(last) + "\n");
        ReadsClean(Merge(init), SplitLines(Header(last) + "\n"));
        BumpClean(Fold(Absorb, Merge(init), SplitLines(Header(last) + "\n")), Totals(last.stats));
      }
    }
  }

  lemma {:induction false} CleanMerge(commits: seq<Commit>)
    requires forall c :: c in commits ==> Clean(c)
    ensures Merge(commits) == Map(Summary, commits)
  {
    if commits != [] {
      var init, last := commits[..|commits| - 1], commits[|commits| - 1];
      assert last in commits;
      CleanMerge(init);
      assert Map(Summary, commits) == Map(Summary, init) + [Summary(last)];
    }
  }

  lemma SameMeansClean(commits: seq<Commit>)
    requires Merge(commits) == Map(Summary, commits)
    ensures forall c :: c in commits ==> Clean(c)
  {
    MergedClean(commits);
    forall c | c in commits ensures Clean(c) {
      var i :| 0 <= i < |commits| && commits[i] == c;
      assert Map(Summary, commits)[i] in Merge(commits);
    }
  }

  /** For every list of commits, whatever their authors, reading git's text gives the merged
      list; it is the list itself, with the right totals, exactly when no author contains a
      bar or a character that breaks lines. */
  lemma LogRoundTrip(commits: seq<Commit>)
    requires forall c :: c in commits ==> GitCommit(c)
    ensures Flush(ReadLines(NOTHING, SplitLines(Unlines(LogLines(commits))))) == Merge(commits)
    ensures Merge(commits) == Map(Summary, commits) <==> forall c :: c in commits ==> Clean(c)
  {
    SplitOfUnlines(LogLines(commits));
    ReadLog(commits);
    if forall c :: c in commits ==> Clean(c) { CleanMerge(commits); }
    if Merge(commits) == Map(Summary, commits) { SameMeansClean(commits); }
  }

  /** A header with a bar in its author but no break is no record: its changed lines go to
      the commit printed before it, or nowhere. */
  lemma BarredMerges(earlier: seq<Record>, c: Commit)
    requires GitCommit(c) && '|' in c.author && OneLine(c.author)
    ensures MergeOne(earlier, c) == Bump(earlier, Totals(c.stats))
  {
    HeaderRecognised(c);
    BarredHeaderAddsNothing(c);
    HeaderOneLine(c);
    SplitOneLine(Header(c));
    FoldOne(Absorb, earlier, Header(c));
  }

  /** A header broken by its author can be read as another commit: here by U+2028, with the
      hash kept, the rest of the name for a date, and nothing left of the real date. */
  lemma BrokenHeaderMisread(hash: string, a: string, b: string, rest: string, date: string)
    requires GitHash(hash) && OneLine(a) && OneLine(b) && OneLine(rest) && OneLine(date)
    requires '|' !in a && '|' !in b && '|' !in rest && '|' !in date
    ensures var n := StatOf(rest + "|" + date);
            Merge([Commit(hash, a + "|" + b + "\U{2028}" + rest, date, [])]) == [Record(hash, a, b, n.0, n.1)]
  {
    var c := Commit(hash, a + "|" + b + "\U{2028}" + rest, date, []);
    BrokenLines(c, a, b, rest);
    TwoParts(rest, date);
    ReadsTwo(hash, a, b, rest + "|" + date);
    assert c.author[|a|] == '|';
    FoldOne(MergeOne, [], c);
  }

  lemma BrokenLines(c: Commit, a: string, b: string, rest: string)
    requires GitCommit(c) && c.author == a + "|" + b + "\U{2028}" + rest
    requires OneLine(a) && OneLine(b) && OneLine(rest)
    ensures SplitLines(Header(c) + "\n") == [Header(Commit(c.hash, a, b, [])), rest + "|" + c.date]
  {
    var one, two := Header(Commit(c.hash, a, b, [])), rest + "|" + c.date;
    ShaExactly(c.hash);
    assert OneLine(one) && OneLine(two);
    BrokenText(c.hash, a, b, rest, c.date);
    BreakInTwo(one, '\U{2028}', two);
  }

  lemma BrokenText(hash: string, a: string, b: string, rest: string, date: string)
    ensures hash + "|" + (a + "|" + b + "\U{2028}" + rest) + "|" + date ==
              (hash + "|" + a + "|" + b) + ['\U{2028}'] + (rest + "|" + date)
  {}

  lemma ReadsTwo(hash: string, a: string, b: string, line: string)
    requires GitHash(hash) && '|' !in a && '|' !in b && OneLine(b) && !IsHeader(line)
    ensures Fold(Absorb, [], [Header(Commit(hash, a, b, [])), line]) ==
              [Record(hash, a, b, StatOf(line).0, StatOf(line).1)]
  {
    var one := Header(Commit(hash, a, b, []));
    HeaderRecognised(Commit(hash, a, b, []));
    FoldConcat(Absorb, [], [one], [line]);
    FoldOne(Absorb, [], one);
    FoldOne(Absorb, Absorb([], one), line);
    assert [one] + [line] == [one, line];
  }

  lemma TwoParts(a: string, b: string)
    requires '|' !in a && '|' !in b
    ensures !IsHeader(a + "|" + b)
  {
    SplitCons(a, b, '|');
    SplitWhole(b, '|');
    assert a + ['|'] + b == a + "|" + b;
  }

  lemma BreakInTwo(one: string, brk: char, two: string)
    requires OneLine(one) && OneLine(two) && IsBreak(brk)
    ensures SplitLines(one + [brk] + two + "\n") == [one, two]
  {
    SplitFirstLine(one, brk, two + "\n");
    SplitOneLine(two);
    assert one + [brk] + (two + "\n") == one + [brk] + two + "\n";
  }
}
