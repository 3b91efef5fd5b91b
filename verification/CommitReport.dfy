/** The weekly aggregation of `build_report`: nested counters by week and author, and the
    arrays read from them for each author. The week key of a date is the environment's. */
module CommitReport {
  import opened Text
  import opened CommitLog

  type Week = string

  /** A `defaultdict(lambda: defaultdict(int))`. */
  type Table = map<Week, map<string, int>>

  function At(t: Table, week: Week, author: string): int {
    if week in t && author in t[week] then t[week][author] else 0
  }

  function Raise(t: Table, week: Week, author: string, n: int): Table {
    var row := if week in t then t[week] else map[];
    t[week := row[author := At(t, week, author) + n]]
  }

  lemma RaiseAt(t: Table, week: Week, author: string, n: int, w: Week, a: string)
    ensures At(Raise(t, week, author, n), w, a) == At(t, w, a) + (if w == week && a == author then n else 0)
  {}

  /** The contribution of one commit to a counter. */
  datatype Measure = Commits | Added | Deleted

  function Amount(m: Measure, r: Record): int {
    match m
    case Commits => 1
    case Added => r.added
    case Deleted => r.deleted
  }

  /** What a counter must hold: the sum over the commits of that week and author. */
  function Cell(m: Measure, rs: seq<Record>, weekOf: string -> Week, week: Week, author: string): int {
    if rs == [] then 0
    else
      var last := rs[|rs| - 1];
      Cell(m, rs[..|rs| - 1], weekOf, week, author) +
      (if weekOf(last.date) == week && last.author == author then Amount(m, last) else 0)
  }

  function AuthorTotal(m: Measure, rs: seq<Record>, author: string): int {
    if rs == [] then 0
    else
      AuthorTotal(m, rs[..|rs| - 1], author) +
      (if rs[|rs| - 1].author == author then Amount(m, rs[|rs| - 1]) else 0)
  }

  function Total(m: Measure, rs: seq<Record>): int {
    if rs == [] then 0 else Total(m, rs[..|rs| - 1]) + Amount(m, rs[|rs| - 1])
  }

  function Weeks(rs: seq<Record>, weekOf: string -> Week): set<Week> {
    set r | r in rs :: weekOf(r.date)
  }

  function AuthorsOf(rs: seq<Record>, weekOf: string -> Week, week: Week): set<string> {
    set r | r in rs && weekOf(r.date) == week :: r.author
  }

  /** A table knows exactly the weeks that occur and, in each, the authors of that week. */
  ghost predicate Keyed(t: Table, rs: seq<Record>, weekOf: string -> Week) {
    t.Keys == Weeks(rs, weekOf) && forall w :: w in t ==> t[w].Keys == AuthorsOf(rs, weekOf, w)
  }

  lemma KeyedStep(t: Table, rs: seq<Record>, r: Record, weekOf: string -> Week, n: int)
    requires Keyed(t, rs, weekOf)
    ensures Keyed(Raise(t, weekOf(r.date), r.author, n), rs + [r], weekOf)
  {
    var week := weekOf(r.date);
    var rs' := rs + [r];
    assert forall x :: x in rs' <==> x in rs || x == r;
    assert Weeks(rs', weekOf) == Weeks(rs, weekOf) + {week};
    forall w ensures AuthorsOf(rs', weekOf, w) == AuthorsOf(rs, weekOf, w) + (if w == week then {r.author} else {}) {}
    if week !in t {
      assert AuthorsOf(rs, weekOf, week) == {};
    }
  }

  /** The three tables hold the sums, and know exactly the weeks and authors that occur. */
  ghost predicate Aggregates(rs: seq<Record>, weekOf: string -> Week, counts: Table, added: Table, deleted: Table)
  {
    && (forall w, a :: At(counts, w, a) == Cell(Commits, rs, weekOf, w, a))
    && (forall w, a :: At(added, w, a) == Cell(Added, rs, weekOf, w, a))
    && (forall w, a :: At(deleted, w, a) == Cell(Deleted, rs, weekOf, w, a))
    && Keyed(counts, rs, weekOf) && Keyed(added, rs, weekOf) && Keyed(deleted, rs, weekOf)
  }

  function AuthorSet(rs: seq<Record>): set<string> {
    set r | r in rs :: r.author
  }

  method Aggregate(rs: seq<Record>, weekOf: string -> Week)
    returns (counts: Table, added: Table, deleted: Table, authors: set<string>)
    ensures Aggregates(rs, weekOf, counts, added, deleted)
    ensures authors == AuthorSet(rs)
  {
    counts, added, deleted, authors := map[], map[], map[], {};
    var i := 0;
    while i < |rs|
      invariant 0 <= i <= |rs|
      invariant Aggregates(rs[..i], weekOf, counts, added, deleted)
      invariant authors == AuthorSet(rs[..i])
    {
      var r := rs[i];
      var week := weekOf(r.date);
      ghost var done := rs[..i];
      assert rs[..i + 1] == done + [r];
      StepAggregates(done, r, weekOf, counts, added, deleted);
      counts := Raise(counts, week, r.author, 1);
      added := Raise(added, week, r.author, r.added);
      deleted := Raise(deleted, week, r.author, r.deleted);
      authors := authors + {r.author};
      i := i + 1;
    }
    assert rs[..i] == rs;
  }

  lemma StepAggregates(rs: seq<Record>, r: Record, weekOf: string -> Week, counts: Table, added: Table, deleted: Table)
    requires Aggregates(rs, weekOf, counts, added, deleted)
    ensures var week := weekOf(r.date);
            Aggregates(rs + [r], weekOf, Raise(counts, week, r.author, 1),
                       Raise(added, week, r.author, r.added), Raise(deleted, week, r.author, r.deleted))
  {
    var week := weekOf(r.date);
    var rs' := rs + [r];
    assert rs'[..|rs|] == rs;
    forall w, a
      ensures At(Raise(counts, week, r.author, 1), w, a) == Cell(Commits, rs', weekOf, w, a)
      ensures At(Raise(added, week, r.author, r.added), w, a) == Cell(Added, rs', weekOf, w, a)
      ensures At(Raise(deleted, week, r.author, r.deleted), w, a) == Cell(Deleted, rs', weekOf, w, a)
    {
      RaiseAt(counts, week, r.author, 1, w, a);
      RaiseAt(added, week, r.author, r.added, w, a);
      RaiseAt(deleted, week, r.author, r.deleted, w, a);
    }
    KeyedStep(counts, rs, r, weekOf, 1);
    KeyedStep(added, rs, r, weekOf, r.added);
    KeyedStep(deleted, rs, r, weekOf, r.deleted);
  }

  // ------------------------------------------------------------------
  // The arrays
  // ------------------------------------------------------------------

  /** One author's array: `[table[w][author] for w in all_week_keys]`. */
  function Series(t: Table, weeks: seq<Week>, author: string): (s: seq<int>)
    ensures |s| == |weeks| && forall i :: 0 <= i < |weeks| ==> s[i] == At(t, weeks[i], author)
  {
    seq(|weeks|, i requires 0 <= i < |weeks| => At(t, weeks[i], author))
  }

  function Sum(s: seq<int>): int {
    if s == [] then 0 else Sum(s[..|s| - 1]) + s[|s| - 1]
  }

  predicate Distinct(s: seq<string>) {
    forall i, j :: 0 <= i < j < |s| ==> s[i] != s[j]
  }

  /** Extending the commits by one changes one entry of the row, if its week is listed. */
  lemma {:induction false} RowStep(m: Measure, rs: seq<Record>, weekOf: string -> Week, weeks: seq<Week>,
        author: string)
    requires rs != [] && Distinct(weeks)
    ensures var r := rs[|rs| - 1];
            RowSum(m, rs, weekOf, weeks, author) == RowSum(m, rs[..|rs| - 1], weekOf, weeks, author) +
              (if weekOf(r.date) in weeks && r.author == author then Amount(m, r) else 0)
  {
    if weeks != [] {
      var init, last := weeks[..|weeks| - 1], weeks[|weeks| - 1];
      RowStep(m, rs, weekOf, init, author);
      assert weeks == init + [last];
      assert last !in init;
    }
  }

  function RowSum(m: Measure, rs: seq<Record>, weekOf: string -> Week, weeks: seq<Week>, author: string): int {
    if weeks == [] then 0
    else
      RowSum(m, rs, weekOf, weeks[..|weeks| - 1], author) + Cell(m, rs, weekOf, weeks[|weeks| - 1], author)
  }

  lemma {:induction false} RowZero(m: Measure, weekOf: string -> Week, weeks: seq<Week>, author: string)
    ensures RowSum(m, [], weekOf, weeks, author) == 0
  {
    if weeks != [] { RowZero(m, weekOf, weeks[..|weeks| - 1], author); }
  }

  predicate Lists(weeks: seq<Week>, rs: seq<Record>, weekOf: string -> Week) {
    Distinct(weeks) && forall r :: r in rs ==> weekOf(r.date) in weeks
  }

  lemma {:induction false} RowIsAuthorTotal(m: Measure, rs: seq<Record>, weekOf: string -> Week, weeks: seq<Week>,
        author: string)
    requires Lists(weeks, rs, weekOf)
    ensures RowSum(m, rs, weekOf, weeks, author) == AuthorTotal(m, rs, author)
  {
    if rs == [] {
      RowZero(m, weekOf, weeks, author);
    } else {
      assert rs[|rs| - 1] in rs;
      RowIsAuthorTotal(m, rs[..|rs| - 1], weekOf, weeks, author);
      RowStep(m, rs, weekOf, weeks, author);
    }
  }

  lemma {:induction false} SeriesIsRow(m: Measure, rs: seq<Record>, weekOf: string -> Week, t: Table,
        weeks: seq<Week>, author: string)
    requires forall w :: At(t, w, author) == Cell(m, rs, weekOf, w, author)
    ensures Sum(Series(t, weeks, author)) == RowSum(m, rs, weekOf, weeks, author)
  {
    if weeks != [] {
      SeriesIsRow(m, rs, weekOf, t, weeks[..|weeks| - 1], author);
      assert Series(t, weeks, author)[..|weeks| - 1] == Series(t, weeks[..|weeks| - 1], author);
    }
  }

  /** The sum over a list of authors. */
  function AllAuthors(m: Measure, rs: seq<Record>, authors: seq<string>): int {
    if authors == [] then 0
    else AllAuthors(m, rs, authors[..|authors| - 1]) + AuthorTotal(m, rs, authors[|authors| - 1])
  }

  lemma {:induction false} AuthorsStep(m: Measure, rs: seq<Record>, authors: seq<string>)
    requires rs != [] && Distinct(authors)
    ensures AllAuthors(m, rs, authors) == AllAuthors(m, rs[..|rs| - 1], authors) +
              (if rs[|rs| - 1].author in authors then Amount(m, rs[|rs| - 1]) else 0)
  {
    if authors != [] {
      var init, last := authors[..|authors| - 1], authors[|authors| - 1];
      AuthorsStep(m, rs, init);
      assert authors == init + [last];
      assert last !in init;
    }
  }

  lemma {:induction false} AuthorsZero(m: Measure, authors: seq<string>)
    ensures AllAuthors(m, [], authors) == 0
  {
    if authors != [] { AuthorsZero(m, authors[..|authors| - 1]); }
  }

  lemma {:induction false} AuthorsMakeTotal(m: Measure, rs: seq<Record>, authors: seq<string>)
    requires Distinct(authors) && forall r :: r in rs ==> r.author in authors
    ensures AllAuthors(m, rs, authors) == Total(m, rs)
  {
    if rs == [] {
      AuthorsZero(m, authors);
    } else {
      assert rs[|rs| - 1] in rs;
      AuthorsMakeTotal(m, rs[..|rs| - 1], authors);
      AuthorsStep(m, rs, authors);
    }
  }

  function ReportTotal(t: Table, weeks: seq<Week>, authors: seq<string>): int {
    if authors == [] then 0
    else ReportTotal(t, weeks, authors[..|authors| - 1]) + Sum(Series(t, weeks, authors[|authors| - 1]))
  }

  /** Conservation: over any listing of the weeks and authors that occur, each author's array
      sums to that author's share, and the arrays together to the totals of the log. */
  lemma {:induction false} ReportConserves(m: Measure, rs: seq<Record>, weekOf: string -> Week, t: Table,
                                           weeks: seq<Week>, authors: seq<string>)
    requires forall w, a :: At(t, w, a) == Cell(m, rs, weekOf, w, a)
    requires Lists(weeks, rs, weekOf)
    requires Distinct(authors) && forall r :: r in rs ==> r.author in authors
    ensures forall a :: Sum(Series(t, weeks, a)) == AuthorTotal(m, rs, a)
    ensures ReportTotal(t, weeks, authors) == Total(m, rs)
  {
    forall a ensures Sum(Series(t, weeks, a)) == AuthorTotal(m, rs, a) {
      SeriesIsRow(m, rs, weekOf, t, weeks, a);
      RowIsAuthorTotal(m, rs, weekOf, weeks, a);
    }
    ReportIsAuthors(m, rs, t, weeks, authors);
    AuthorsMakeTotal(m, rs, authors);
  }

  lemma {:induction false} ReportIsAuthors(m: Measure, rs: seq<Record>, t: Table, weeks: seq<Week>,
        authors: seq<string>)
    requires forall a :: Sum(Series(t, weeks, a)) == AuthorTotal(m, rs, a)
    ensures ReportTotal(t, weeks, authors) == AllAuthors(m, rs, authors)
  {
    if authors != [] {
      ReportIsAuthors(m, rs, t, weeks, authors[..|authors| - 1]);
    }
  }

  // ------------------------------------------------------------------
  // Conservation in the reader, for any text
  // ------------------------------------------------------------------

  function Part(m: Measure, n: (int, int)): int {
    match m
    case Commits => 0
    case Added => n.0
    case Deleted => n.1
  }

  /** What one line contributes: a header one commit, any other line its numbers. */
  function Worth(m: Measure, line: string): int {
    if IsHeader(line) then (if m == Commits then 1 else 0) else Part(m, StatOf(line))
  }

  function SumOf<A>(value: A -> int, xs: seq<A>): int {
    if xs == [] then 0 else SumOf(value, xs[..|xs| - 1]) + value(xs[|xs| - 1])
  }

  function WorthAll(m: Measure, lines: seq<string>): int {
    SumOf(line => Worth(m, line), lines)
  }

  lemma {:induction false} SumConcat<A>(value: A -> int, a: seq<A>, b: seq<A>)
    ensures SumOf(value, a + b) == SumOf(value, a) + SumOf(value, b)
  {
    if b == [] {
      assert a + b == a;
    } else {
      SumConcat(value, a, b[..|b| - 1]);
      assert (a + b)[..|a + b| - 1] == a + b[..|b| - 1];
    }
  }

  lemma SumOne<A>(value: A -> int, x: A)
    ensures SumOf(value, [x]) == value(x)
  {
    assert [x][..0] == [];
  }

  lemma {:induction false} SumMap<A(!new), B>(value: B -> int, f: A -> B, value': A -> int, xs: seq<A>)
    requires forall x :: value'(x) == value(f(x))
    ensures SumOf(value, Map(f, xs)) == SumOf(value', xs)
  {
    if xs != [] {
      SumMap(value, f, value', xs[..|xs| - 1]);
      assert Map(f, xs)[..|xs| - 1] == Map(f, xs[..|xs| - 1]);
    }
  }

  /** How many lines come before the first header. */
  function BeforeHeader(lines: seq<string>): (n: nat)
    ensures n <= |lines|
    ensures forall i :: 0 <= i < n ==> !IsHeader(lines[i])
    ensures n < |lines| ==> IsHeader(lines[n])
  {
    if lines == [] then 0
    else
      var n := BeforeHeader(lines[..|lines| - 1]);
      if n == |lines| - 1 && !IsHeader(lines[|lines| - 1]) then |lines| else n
  }

  lemma AbsorbWorth(m: Measure, rs: seq<Record>, line: string)
    ensures Total(m, Absorb(rs, line)) ==
              Total(m, rs) + (if rs == [] && !IsHeader(line) then 0 else Worth(m, line))
    ensures Absorb(rs, line) == [] <==> rs == [] && !IsHeader(line)
  {
    if IsHeader(line) {
    } else {
    }
  }

  /** Whatever the text, the reader counts every header and every number from the first header
      on, once, and nothing before it. */
  lemma {:induction false} TextConserved(m: Measure, lines: seq<string>)
    ensures var rs := Fold(Absorb, [], lines);
            && Total(m, rs) + WorthAll(m, lines[..BeforeHeader(lines)]) == WorthAll(m, lines)
            && (rs == [] <==> BeforeHeader(lines) == |lines|)
  {
    if lines != [] {
      var init, last := lines[..|lines| - 1], lines[|lines| - 1];
      TextConserved(m, init);
      AbsorbWorth(m, Fold(Absorb, [], init), last);
      var n := BeforeHeader(init);
      if n == |init| && !IsHeader(last) {
        assert lines[..BeforeHeader(lines)] == lines && init[..n] == init;
      } else {
        assert lines[..BeforeHeader(lines)] == init[..n];
      }
    }
  }

  // ------------------------------------------------------------------
  // From log text to report
  // ------------------------------------------------------------------

  /** What git reported for the commits. */
  function Reported(m: Measure, commits: seq<Commit>): int {
    if commits == [] then 0
    else Reported(m, commits[..|commits| - 1]) + Amount(m, Summary(commits[|commits| - 1]))
  }

  /** What the lines of a commit's header are worth beyond the one commit they announce. */
  function Noise(m: Measure, commits: seq<Commit>): int {
    if commits == [] then 0
    else
      Noise(m, commits[..|commits| - 1]) +
      WorthAll(m, SplitLines(Header(commits[|commits| - 1]) + "\n")) - (if m == Commits then 1 else 0)
  }

  lemma WorthConcat(m: Measure, a: seq<string>, b: seq<string>)
    ensures WorthAll(m, a + b) == WorthAll(m, a) + WorthAll(m, b)
  {
    SumConcat(line => Worth(m, line), a, b);
  }

  lemma WorthOne(m: Measure, line: string)
    ensures WorthAll(m, [line]) == Worth(m, line)
  {
    SumOne(l => Worth(m, l), line);
  }

  lemma StatWorth(m: Measure, s: Stat)
    ensures Worth(m, StatLine(s)) == Part(m, Counted(s))
  {
    StatIsNoHeader(s);
    StatReads(s);
  }

  lemma {:induction false} PartsSum(m: Measure, stats: seq<Stat>)
    ensures SumOf(s => Part(m, Counted(s)), stats) == Part(m, Totals(stats))
  {
    if stats != [] { PartsSum(m, stats[..|stats| - 1]); }
  }

  lemma StatsWorth(m: Measure, stats: seq<Stat>)
    ensures WorthAll(m, Map(StatLine, stats)) == Part(m, Totals(stats))
  {
    forall s ensures Worth(m, StatLine(s)) == Part(m, Counted(s)) { StatWorth(m, s); }
    SumMap(line => Worth(m, line), StatLine, s => Part(m, Counted(s)), stats);
    PartsSum(m, stats);
  }

  lemma StatLinesWorth(m: Measure, stats: seq<Stat>)
    ensures WorthAll(m, StatLines(stats)) == Part(m, Totals(stats))
  {
    if stats != [] {
      WorthConcat(m, [""], Map(StatLine, stats));
      WorthOne(m, "");
      assert Split("", '|') == [""];
      StatsWorth(m, stats);
    }
  }

  lemma {:induction false} LogWorth(m: Measure, commits: seq<Commit>)
    requires forall c :: c in commits ==> GitCommit(c)
    ensures WorthAll(m, Seen(LogLines(commits))) == Reported(m, commits) + Noise(m, commits)
  {
    if commits != [] {
      var init, last := commits[..|commits| - 1], commits[|commits| - 1];
      assert last in commits;
      LogWorth(m, init);
      SeenConcat(LogLines(init), CommitLines(last));
      SeenCommit(last);
      WorthConcat(m, Seen(LogLines(init)), SeenLines(last));
      WorthConcat(m, SplitLines(Header(last) + "\n"), StatLines(last.stats));
      StatLinesWorth(m, last.stats);
    }
  }

  /** For every list of commits: what was read, and what stands before the first header, is
      what git reported and the noise of broken headers. */
  lemma LogConserved(m: Measure, commits: seq<Commit>)
    requires forall c :: c in commits ==> GitCommit(c)
    ensures var lines := SplitLines(Unlines(LogLines(commits)));
            Total(m, Flush(ReadLines(NOTHING, lines))) + WorthAll(m, lines[..BeforeHeader(lines)]) ==
              Reported(m, commits) + Noise(m, commits)
  {
    var lines := SplitLines(Unlines(LogLines(commits)));
    SplitOfUnlines(LogLines(commits));
    AbsorbsLines(NOTHING, lines);
    TextConserved(m, lines);
    LogWorth(m, commits);
  }

  /** An author without line breaks makes no noise, except for the commit that a bar hides. */
  lemma {:induction false} UnbrokenNoise(m: Measure, commits: seq<Commit>)
    requires forall c :: c in commits ==> GitCommit(c) && OneLine(c.author)
    ensures Noise(m, commits) == if m == Commits then -Barred(commits) else 0
  {
    if commits != [] {
      var init, last := commits[..|commits| - 1], commits[|commits| - 1];
      assert last in commits;
      UnbrokenNoise(m, init);
      HeaderOneLine(last);
      SplitOneLine(Header(last));
      WorthOne(m, Header(last));
      HeaderRecognised(last);
      BarredHeaderAddsNothing(last);
    }
  }

  /** How many authors have a bar. */
  function Barred(commits: seq<Commit>): int {
    if commits == [] then 0
    else Barred(commits[..|commits| - 1]) + (if '|' in commits[|commits| - 1].author then 1 else 0)
  }

  lemma {:induction false} ReportedCommits(commits: seq<Commit>)
    ensures Reported(Commits, commits) == |commits|
  {
    if commits != [] { ReportedCommits(commits[..|commits| - 1]); }
  }

  lemma {:induction false} NothingCounted(lines: seq<string>)
    requires forall l :: l in lines ==> !IsHeader(l)
    ensures WorthAll(Commits, lines) == 0
  {
    if lines != [] {
      assert lines[|lines| - 1] in lines;
      NothingCounted(lines[..|lines| - 1]);
    }
  }

  /** Without broken headers the commits counted are those whose author has no bar. */
  lemma CommitsCounted(commits: seq<Commit>)
    requires forall c :: c in commits ==> GitCommit(c) && OneLine(c.author)
    ensures Total(Commits, Merge(commits)) == |commits| - Barred(commits)
  {
    LogRoundTrip(commits);
    LogConserved(Commits, commits);
    UnbrokenNoise(Commits, commits);
    ReportedCommits(commits);
    var lines := SplitLines(Unlines(LogLines(commits)));
    NothingCounted(lines[..BeforeHeader(lines)]);
  }

  lemma {:induction false} SummariesTotal(m: Measure, commits: seq<Commit>)
    ensures Total(m, Map(Summary, commits)) == Reported(m, commits)
  {
    if commits != [] {
      var init, last := commits[..|commits| - 1], commits[|commits| - 1];
      SummariesTotal(m, init);
      assert Map(Summary, commits)[..|init|] == Map(Summary, init);
    }
  }

  /** From git's text to the arrays: if every author is clean, the text reads as the commits,
      and the arrays built from that add up to what git reported, commits, added and deleted
      lines alike. */
  lemma LogToReport(m: Measure, commits: seq<Commit>, weekOf: string -> Week, t: Table,
                    weeks: seq<Week>, authors: seq<string>)
    requires forall c :: c in commits ==> GitCommit(c) && Clean(c)
    requires forall w, a :: At(t, w, a) == Cell(m, Map(Summary, commits), weekOf, w, a)
    requires Lists(weeks, Map(Summary, commits), weekOf)
    requires Distinct(authors) && forall c :: c in commits ==> c.author in authors
    ensures Flush(ReadLines(NOTHING, SplitLines(Unlines(LogLines(commits))))) == Map(Summary, commits)
    ensures ReportTotal(t, weeks, authors) == Reported(m, commits)
  {
    LogRoundTrip(commits);
    ReportConserves(m, Map(Summary, commits), weekOf, t, weeks, authors);
    SummariesTotal(m, commits);
  }
}
