/**
 * The apt tasks. The tasks run commands on the local machine through
 * `execute_command`, which is an input here: a `Shell` tells what the n-th
 * command of a run does. The bodies sort the requested packages into result
 * lists and collect per-host reports, and the model makes that
 * classification precise, together with the parser for `apt list` output.
 */
module Apt {
  import opened Wrappers
  import opened Text

  // ---------------------------------------------------------------------------
  // One line of `apt list`

  /** The groups of `^(\S+)/(\S+)\s+(\S+)` on a matching line, with the whitespace between groups 2 and 3. */
  datatype Listing = Listing(name: string, suite: string, gap: string, version: string)

  function Render(e: Listing): string {
    e.name + "/" + e.suite + e.gap + e.version
  }

  /** The last `/` at an index below `j`, or -1 when there is none. */
  function LastSlashBefore(s: string, j: int): (k: int)
    requires j <= |s|
    ensures -1 <= k && (k < j || k == -1)
    ensures k >= 0 ==> s[k] == '/'
    ensures forall m :: k < m < j && 0 <= m ==> s[m] != '/'
    decreases j
  {
    if j <= 0 then -1 else if s[j - 1] == '/' then j - 1 else LastSlashBefore(s, j - 1)
  }

  /**
   * `re.match(r"^(\S+)/(\S+)\s+(\S+)", line)`. Group 1, the slash and group 2
   * all lie in the first run of non-whitespace; the greedy group 1 ends at the
   * last slash of that run that still leaves group 2 a character, and group 3
   * is the whole next run of non-whitespace.
   */
  function MatchLine(line: string): (r: Option<Listing>)
    ensures r.Some? ==>
              && r.value.name != [] && NoSpace(r.value.name)
              && r.value.suite != [] && NoSpace(r.value.suite)
              && r.value.gap != [] && AllSpace(r.value.gap)
              && r.value.version != [] && NoSpace(r.value.version)
              && StartsWith(line, Render(r.value))
              && (|Render(r.value)| == |line| || IsSpace(line[|Render(r.value)|]))
  {
    var t := SpanNonSpace(line, 0);
    var k := LastSlashBefore(line, t - 1);
    var w := SpanSpace(line, t);
    var v := SpanNonSpace(line, w);
    if k < 1 || w == t || v == w then None
    else
      GroupsOf(line, k, t, w, v);
      Some(Listing(line[..k], line[k + 1..t], line[t..w], line[w..v]))
  }

  /** The four groups cut out of a line at `k`, `t`, `w` and `v` have the pattern's shape and render to its prefix. */
  lemma GroupsOf(line: string, k: nat, t: nat, w: nat, v: nat)
    requires 1 <= k && k + 1 < t < w < v <= |line| && line[k] == '/'
    requires forall m :: 0 <= m < t ==> !IsSpace(line[m])
    requires forall m :: t <= m < w ==> IsSpace(line[m])
    requires forall m :: w <= m < v ==> !IsSpace(line[m])
    requires v == |line| || IsSpace(line[v])
    ensures var e := Listing(line[..k], line[k + 1..t], line[t..w], line[w..v]);
      && e.name != [] && NoSpace(e.name)
      && e.suite != [] && NoSpace(e.suite)
      && e.gap != [] && AllSpace(e.gap)
      && e.version != [] && NoSpace(e.version)
      && StartsWith(line, Render(e))
      && (|Render(e)| == |line| || IsSpace(line[|Render(e)|]))
  {
    NoSpaceSlice(line, 0, k);
    NoSpaceSlice(line, k + 1, t);
    AllSpaceSlice(line, t, w);
    NoSpaceSlice(line, w, v);
    RenderSlices(line, k, t, w, v);
  }

  lemma NoSpaceSlice(s: string, i: nat, j: nat)
    requires i <= j <= |s|
    requires forall m :: i <= m < j ==> !IsSpace(s[m])
    ensures NoSpace(s[i..j])
  {
    forall m | 0 <= m < j - i
      ensures !IsSpace(s[i..j][m])
    {
      assert s[i..j][m] == s[i + m];
    }
  }

  lemma AllSpaceSlice(s: string, i: nat, j: nat)
    requires i <= j <= |s|
    requires forall m :: i <= m < j ==> IsSpace(s[m])
    ensures AllSpace(s[i..j])
  {
    forall m | 0 <= m < j - i
      ensures IsSpace(s[i..j][m])
    {
      assert s[i..j][m] == s[i + m];
    }
  }

  /** Cutting a prefix at slash `k` and at `t`, `w`, `v` and rendering the pieces gives the prefix back. */
  lemma RenderSlices(line: string, k: nat, t: nat, w: nat, v: nat)
    requires k < t <= w <= v <= |line| && line[k] == '/'
    ensures Render(Listing(line[..k], line[k + 1..t], line[t..w], line[w..v])) == line[..v]
  {
    assert line[..k + 1] == line[..k] + "/";
    assert line[..t] == line[..k + 1] + line[k + 1..t];
    assert line[..w] == line[..t] + line[t..w];
    assert line[..v] == line[..w] + line[w..v];
  }

  /** Every line of the pattern's shape matches, whatever follows it. */
  lemma MatchSucceeds(name: string, suite: string, gap: string, version: string, tail: string)
    requires name != [] && NoSpace(name) && suite != [] && NoSpace(suite)
    requires gap != [] && AllSpace(gap) && version != [] && NoSpace(version)
    ensures MatchLine(name + "/" + suite + gap + version + tail).Some?
  {
    var line := name + "/" + suite + gap + version + tail;
    var t0 := |name| + 1 + |suite|;
    assert forall m :: 0 <= m < t0 ==> !IsSpace(line[m]) by {
      forall m | 0 <= m < t0 ensures !IsSpace(line[m]) {
        if m < |name| {
          assert line[m] == name[m];
        } else if m > |name| {
          assert line[m] == suite[m - |name| - 1];
        }
      }
    }
    assert line[t0] == gap[0];
    Spans(line, t0, |gap|);
    assert line[|name|] == '/';
    assert line[t0 + |gap|] == version[0];
  }

  /** The run ends where the text says: at `t0` comes whitespace, running `g` characters to non-whitespace. */
  lemma Spans(line: string, t0: nat, g: nat)
    requires 0 < g && t0 + g < |line|
    requires forall m :: 0 <= m < t0 ==> !IsSpace(line[m])
    requires forall m :: t0 <= m < t0 + g ==> IsSpace(line[m])
    requires !IsSpace(line[t0 + g])
    ensures SpanNonSpace(line, 0) == t0
    ensures SpanSpace(line, t0) == t0 + g
  {
    SpanNonSpaceIs(line, 0, t0);
    SpanSpaceIs(line, t0, t0 + g);
  }

  /**
   * A line `name/suite version` plus a tail that is empty or starts with
   * whitespace gives back exactly its groups, when the suite holds no slash.
   */
  lemma MatchExact(e: Listing, tail: string)
    requires e.name != [] && NoSpace(e.name) && e.suite != [] && NoSpace(e.suite) && '/' !in e.suite
    requires e.gap != [] && AllSpace(e.gap) && e.version != [] && NoSpace(e.version)
    requires tail == [] || IsSpace(tail[0])
    ensures MatchLine(Render(e) + tail) == Some(e)
  {
    var line := Render(e) + tail;
    var a := |e.name|;
    var t0 := a + 1 + |e.suite|;
    var w0 := t0 + |e.gap|;
    var v0 := w0 + |e.version|;
    NameSuiteRun(e, tail);
    GapVersionRuns(e, tail);
    assert line[..a] == e.name;
    assert line[a + 1..t0] == e.suite;
    assert line[t0..w0] == e.gap;
    assert line[w0..v0] == e.version;
    MatchAt(line, a, t0, w0, v0);
  }

  /** In a rendered line, name, slash and suite form one run of non-whitespace with its only slash after the name. */
  lemma NameSuiteRun(e: Listing, tail: string)
    requires NoSpace(e.name) && NoSpace(e.suite) && '/' !in e.suite
    ensures var line := Render(e) + tail;
      var a := |e.name|;
      && line[a] == '/'
      && (forall m :: 0 <= m < a + 1 + |e.suite| ==> !IsSpace(line[m]))
      && (forall m :: a < m < a + |e.suite| ==> line[m] != '/')
  {
    var line := Render(e) + tail;
    var a := |e.name|;
    forall m | 0 <= m < a + 1 + |e.suite|
      ensures !IsSpace(line[m])
      ensures a < m ==> line[m] == e.suite[m - a - 1]
    {
      if m < a {
        assert line[m] == e.name[m];
      } else if m > a {
        assert line[m] == e.suite[m - a - 1];
      }
    }
  }

  /** In a rendered line, the gap is whitespace, then the version is non-whitespace up to the tail. */
  lemma GapVersionRuns(e: Listing, tail: string)
    requires AllSpace(e.gap) && NoSpace(e.version) && e.version != []
    requires tail == [] || IsSpace(tail[0])
    ensures var line := Render(e) + tail;
      var t0 := |e.name| + 1 + |e.suite|;
      var w0 := t0 + |e.gap|;
      var v0 := w0 + |e.version|;
      && v0 <= |line|
      && (forall m :: t0 <= m < w0 ==> IsSpace(line[m]))
      && (forall m :: w0 <= m < v0 ==> !IsSpace(line[m]))
      && (v0 == |line| || IsSpace(line[v0]))
  {
    var line := Render(e) + tail;
    var t0 := |e.name| + 1 + |e.suite|;
    var w0 := t0 + |e.gap|;
    var v0 := w0 + |e.version|;
    forall m | t0 <= m < w0
      ensures IsSpace(line[m])
    {
      assert line[m] == e.gap[m - t0];
    }
    forall m | w0 <= m < v0
      ensures !IsSpace(line[m])
    {
      assert line[m] == e.version[m - w0];
    }
    if v0 < |line| {
      assert line[v0] == tail[0];
    }
  }

  /** Where the groups lie determines the match: group 1 ends at `a`, group 2 at `t0`, the gap at `w0`, group 3 at `v0`. */
  lemma MatchAt(line: string, a: nat, t0: nat, w0: nat, v0: nat)
    requires 1 <= a && a + 1 < t0 < w0 < v0 <= |line|
    requires line[a] == '/'
    requires forall m :: 0 <= m < t0 ==> !IsSpace(line[m])
    requires forall m :: t0 <= m < w0 ==> IsSpace(line[m])
    requires forall m :: w0 <= m < v0 ==> !IsSpace(line[m])
    requires forall m :: a < m < t0 - 1 ==> line[m] != '/'
    requires v0 == |line| || IsSpace(line[v0])
    ensures MatchLine(line) == Some(Listing(line[..a], line[a + 1..t0], line[t0..w0], line[w0..v0]))
  {
    Spans(line, t0, w0 - t0);
    assert SpanNonSpace(line, 0) == t0 && SpanSpace(line, t0) == w0;
    SlashAt(line, a, t0 - 1);
    assert LastSlashBefore(line, t0 - 1) == a;
    SpanNonSpaceIs(line, w0, v0);
    MatchFromRuns(line, a, t0, w0, v0);
  }

  /** Once the four runs are known, `MatchLine` cuts the line at them. */
  lemma MatchFromRuns(line: string, a: nat, t0: nat, w0: nat, v0: nat)
    requires 1 <= a && t0 < w0 < v0 <= |line|
    requires SpanNonSpace(line, 0) == t0 && SpanSpace(line, t0) == w0 && SpanNonSpace(line, w0) == v0
    requires t0 >= 1 && LastSlashBefore(line, t0 - 1) == a
    ensures MatchLine(line) == Some(Listing(line[..a], line[a + 1..t0], line[t0..w0], line[w0..v0]))
  {
  }

  /** The last slash below `j` is at `k` when no slash lies strictly between. */
  lemma SlashAt(s: string, k: nat, j: int)
    requires k < j <= |s| && s[k] == '/'
    requires forall m :: k < m < j ==> s[m] != '/'
    ensures LastSlashBefore(s, j) == k
  {
  }

  /** The run of non-whitespace from `i` ends at `j` when the text says so. */
  lemma {:induction false} SpanNonSpaceIs(s: string, i: nat, j: nat)
    requires i <= j <= |s|
    requires forall m :: i <= m < j ==> !IsSpace(s[m])
    requires j == |s| || IsSpace(s[j])
    ensures SpanNonSpace(s, i) == j
    decreases j - i
  {
    if i < j {
      SpanNonSpaceIs(s, i + 1, j);
    }
  }

  /** The run of whitespace from `i` ends at `j` when the text says so. */
  lemma {:induction false} SpanSpaceIs(s: string, i: nat, j: nat)
    requires i <= j <= |s|
    requires forall m :: i <= m < j ==> IsSpace(s[m])
    requires j == |s| || !IsSpace(s[j])
    ensures SpanSpace(s, i) == j
    decreases j - i
  {
    if i < j {
      SpanSpaceIs(s, i + 1, j);
    }
  }

  // ---------------------------------------------------------------------------
  // `parse_apt_list`

  /** Lines set aside before matching: empty, or starting with `WARNING` or `Listing`. */
  predicate Noise(line: string) {
    line == [] || StartsWith(line, "WARNING") || StartsWith(line, "Listing")
  }

  function LineEntry(line: string): Option<Listing> {
    if Noise(line) then None else MatchLine(line)
  }

  /** What each line contributes: its groups, or nothing for noise and lines that do not match. */
  function Entries(lines: seq<string>): (es: seq<Option<Listing>>)
    ensures |es| == |lines| && forall i :: 0 <= i < |lines| ==> es[i] == LineEntry(lines[i])
  {
    seq(|lines|, i requires 0 <= i < |lines| => LineEntry(lines[i]))
  }

  /** The table entries give, each one setting its name's version in turn. */
  function Tabulate(es: seq<Option<Listing>>): map<string, string>
    decreases |es|
  {
    if es == [] then map[]
    else
      var m := Tabulate(es[..|es| - 1]);
      match es[|es| - 1]
      case None => m
      case Some(e) => m[e.name := e.version]
  }

  /** The parse of a whole `apt list` output: stripped, then split into lines. */
  function ParsedList(output: string): map<string, string> {
    Tabulate(Entries(Split(Strip(output), '\n')))
  }

  method ParseAptList(output: string) returns (packages: map<string, string>)
    ensures packages == ParsedList(output)
  {
    var lines := Split(Strip(output), '\n');
    ghost var es := Entries(lines);
    packages := map[];
    for i := 0 to |lines|
      invariant packages == Tabulate(es[..i])
    {
      var line := lines[i];
      assert es[..i + 1][..i] == es[..i];
      if line == [] || StartsWith(line, "WARNING") || StartsWith(line, "Listing") {
        continue;
      }
      var m := MatchLine(line);
      if m.Some? {
        packages := packages[m.value.name := m.value.version];
      }
    }
    assert es[..|lines|] == es;
  }

  /** Entry `i` is for `name`. */
  predicate NamedAt(es: seq<Option<Listing>>, i: int, name: string) {
    0 <= i < |es| && es[i].Some? && es[i].value.name == name
  }

  predicate WellFormedEntry(e: Listing) {
    e.name != [] && NoSpace(e.name) && e.version != [] && NoSpace(e.version)
  }

  /** Every entry a line gives has a name and a version that are runs of non-whitespace. */
  lemma EntriesWellFormed(lines: seq<string>)
    ensures forall i :: 0 <= i < |lines| && Entries(lines)[i].Some? ==> WellFormedEntry(Entries(lines)[i].value)
  {
  }

  /** So every name in the table is a non-empty run of non-whitespace, and so is its version. */
  lemma {:induction false} TableWellFormed(es: seq<Option<Listing>>)
    requires forall i :: 0 <= i < |es| && es[i].Some? ==> WellFormedEntry(es[i].value)
    ensures forall n :: n in Tabulate(es) ==> WellFormedEntry(Listing(n, "", "", Tabulate(es)[n]))
    decreases |es|
  {
    if es != [] {
      TableWellFormed(es[..|es| - 1]);
    }
  }

  /** A name is in the table exactly when some entry is for it. */
  lemma {:induction false} TableNames(es: seq<Option<Listing>>, name: string)
    ensures name in Tabulate(es) <==> exists i :: NamedAt(es, i, name)
    decreases |es|
  {
    if es != [] {
      var init := es[..|es| - 1];
      TableNames(init, name);
      assert es[|es| - 1].Some? && es[|es| - 1].value.name == name ==> NamedAt(es, |es| - 1, name);
      if exists i :: NamedAt(init, i, name) {
        var i :| NamedAt(init, i, name);
        assert NamedAt(es, i, name);
      }
      if exists i :: NamedAt(es, i, name) {
        var i :| NamedAt(es, i, name);
        if i < |init| {
          assert NamedAt(init, i, name);
        }
      }
    }
  }

  /** When a name repeats, the last entry for it sets its version. */
  lemma {:induction false} LastLineWins(es: seq<Option<Listing>>, i: nat)
    requires i < |es| && es[i].Some?
    requires forall j :: i < j < |es| ==> !NamedAt(es, j, es[i].value.name)
    ensures es[i].value.name in Tabulate(es)
    ensures Tabulate(es)[es[i].value.name] == es[i].value.version
    decreases |es|
  {
    var init := es[..|es| - 1];
    if i < |init| {
      forall j | i < j < |init|
        ensures !NamedAt(init, j, init[i].value.name)
      {
        assert !NamedAt(es, j, es[i].value.name);
      }
      LastLineWins(init, i);
      assert !NamedAt(es, |es| - 1, es[i].value.name);
    }
  }

  /** A noise line may be dropped from anywhere without changing the table. */
  lemma {:induction false} NoiseIgnored(before: seq<string>, line: string, after: seq<string>)
    requires Noise(line)
    ensures Tabulate(Entries(before + [line] + after)) == Tabulate(Entries(before + after))
  {
    var x := Entries(before + [line] + after);
    var y := Entries(before + after);
    assert x == y[..|before|] + [None] + y[|before|..];
    DropNone(y[..|before|], y[|before|..]);
    assert y[..|before|] + y[|before|..] == y;
  }

  lemma {:induction false} DropNone(before: seq<Option<Listing>>, after: seq<Option<Listing>>)
    ensures Tabulate(before + [None] + after) == Tabulate(before + after)
    decreases |after|
  {
    if after == [] {
      assert (before + [None] + after)[..|before|] == before;
      assert before + after == before;
    } else {
      var init := after[..|after| - 1];
      DropNone(before, init);
      var x := before + [None] + after;
      var y := before + after;
      assert x[..|x| - 1] == before + [None] + init;
      assert y[..|y| - 1] == before + init;
    }
  }

  // ---------------------------------------------------------------------------
  // The parser against the listing it reads

  /** A row of an `apt list` listing: `name/suite version` and the rest of the line. */
  datatype Row = Row(entry: Listing, tail: string)

  function RowLine(r: Row): string {
    Render(r.entry) + r.tail
  }

  /** What apt prints for a package: groups as the pattern wants, no newline inside, not mistaken for noise. */
  predicate WellFormedRow(r: Row) {
    var e := r.entry;
    && e.name != [] && NoSpace(e.name) && e.suite != [] && NoSpace(e.suite) && '/' !in e.suite
    && e.gap != [] && AllSpace(e.gap) && e.version != [] && NoSpace(e.version)
    && (r.tail == [] || (IsSpace(r.tail[0]) && !IsSpace(r.tail[|r.tail| - 1])))
    && '\n' !in RowLine(r)
    && !Noise(RowLine(r))
  }

  /** The table a listing of rows describes, a later row for a name replacing an earlier one. */
  function Table(rows: seq<Row>): map<string, string>
    decreases |rows|
  {
    if rows == [] then map[]
    else Table(rows[..|rows| - 1])[rows[|rows| - 1].entry.name := rows[|rows| - 1].entry.version]
  }

  function RowLines(rows: seq<Row>): (lines: seq<string>)
    ensures |lines| == |rows| && forall i :: 0 <= i < |rows| ==> lines[i] == RowLine(rows[i])
  {
    seq(|rows|, i requires 0 <= i < |rows| => RowLine(rows[i]))
  }

  /** The output apt prints: a `Listing...` header, then one line per row. */
  function ListingOutput(rows: seq<Row>): string {
    Join(["Listing..."] + RowLines(rows), '\n')
  }

  /** Parsing the printed listing gives back the table it was printed from. */
  lemma ListingRoundTrip(rows: seq<Row>)
    requires forall i :: 0 <= i < |rows| ==> WellFormedRow(rows[i])
    ensures ParsedList(ListingOutput(rows)) == Table(rows)
  {
    ListingSplits(rows);
    RowEntries(rows);
    TabulateRows(rows);
  }

  /** The listing output is already stripped and splits back into its header and row lines. */
  lemma ListingSplits(rows: seq<Row>)
    requires forall i :: 0 <= i < |rows| ==> WellFormedRow(rows[i])
    ensures Split(Strip(ListingOutput(rows)), '\n') == ["Listing..."] + RowLines(rows)
  {
    var lines := ["Listing..."] + RowLines(rows);
    ListingLines(rows);
    JoinEnds(lines, '\n');
    StripTrimmed(Join(lines, '\n'));
    JoinSplit(lines, '\n');
  }

  /** The printed lines hold no newline and do not start or end with whitespace. */
  lemma ListingLines(rows: seq<Row>)
    requires forall i :: 0 <= i < |rows| ==> WellFormedRow(rows[i])
    ensures var lines := ["Listing..."] + RowLines(rows);
      forall i :: 0 <= i < |lines| ==>
        '\n' !in lines[i] && lines[i] != [] && !IsSpace(lines[i][0]) && !IsSpace(lines[i][|lines[i]| - 1])
  {
    var lines := ["Listing..."] + RowLines(rows);
    forall i | 0 <= i < |lines|
      ensures '\n' !in lines[i] && lines[i] != [] && !IsSpace(lines[i][0]) && !IsSpace(lines[i][|lines[i]| - 1])
    {
      if i > 0 {
        var r := rows[i - 1];
        assert lines[i] == RowLine(r);
        assert RowLine(r)[0] == r.entry.name[0];
        if r.tail == [] {
          assert RowLine(r)[|RowLine(r)| - 1] == r.entry.version[|r.entry.version| - 1];
        }
      }
    }
  }

  function RowEntryList(rows: seq<Row>): (es: seq<Option<Listing>>)
    ensures |es| == |rows| && forall i :: 0 <= i < |rows| ==> es[i] == Some(rows[i].entry)
  {
    seq(|rows|, i requires 0 <= i < |rows| => Some(rows[i].entry))
  }

  /** The header is noise and each row's line gives back the row's groups. */
  lemma RowEntries(rows: seq<Row>)
    requires forall i :: 0 <= i < |rows| ==> WellFormedRow(rows[i])
    ensures Entries(["Listing..."] + RowLines(rows)) == [None] + RowEntryList(rows)
  {
    var lines := ["Listing..."] + RowLines(rows);
    var es := Entries(lines);
    var want := [None] + RowEntryList(rows);
    assert |es| == |lines| == |want|;
    forall i | 0 <= i < |lines|
      ensures es[i] == want[i]
    {
      if i == 0 {
        HeaderIsNoise();
      } else {
        RowEntryAt(rows, i - 1);
      }
    }
  }

  lemma HeaderIsNoise()
    ensures LineEntry("Listing...") == None
  {
    assert StartsWith("Listing...", "Listing");
  }

  lemma RowEntryAt(rows: seq<Row>, i: nat)
    requires i < |rows| && WellFormedRow(rows[i])
    ensures LineEntry((["Listing..."] + RowLines(rows))[i + 1]) == Some(rows[i].entry)
  {
    assert (["Listing..."] + RowLines(rows))[i + 1] == RowLine(rows[i]);
    RowEntry(rows[i]);
  }

  lemma RowEntry(r: Row)
    requires WellFormedRow(r)
    ensures LineEntry(RowLine(r)) == Some(r.entry)
  {
    MatchExact(r.entry, r.tail);
  }

  lemma {:induction false} TabulateRows(rows: seq<Row>)
    ensures Tabulate([None] + RowEntryList(rows)) == Table(rows)
    decreases |rows|
  {
    if rows != [] {
      var init := rows[..|rows| - 1];
      TabulateRows(init);
      var es := [None] + RowEntryList(rows);
      assert es[..|es| - 1] == [None] + RowEntryList(init);
    }
  }

  /** A join of pieces whose ends are not whitespace has no whitespace at its ends either. */
  lemma {:induction false} JoinEnds(pieces: seq<string>, sep: char)
    requires |pieces| >= 1
    requires forall i :: 0 <= i < |pieces| ==> pieces[i] != [] && !IsSpace(pieces[i][0]) && !IsSpace(pieces[i][|pieces[i]| - 1])
    ensures Trimmed(Join(pieces, sep))
    ensures Join(pieces, sep) != [] && Join(pieces, sep)[0] == pieces[0][0]
    decreases |pieces|
  {
    if |pieces| > 1 {
      JoinEnds(pieces[..|pieces| - 1], sep);
    }
  }

  // ---------------------------------------------------------------------------
  // Commands

  datatype Exit = Exit(code: int, stdout: string, stderr: string)

  /**
   * `execute_command` on the machine the tasks run on: what the `n`-th command
   * of a run, as handed to the shell, returns. It exits, with both outputs
   * already stripped, or it raises and the error carries the message (a
   * timeout, a command that cannot be started).
   */
  type Shell = (nat, string) -> Result<Exit>

  /** The command line `execute_command` hands to the shell. */
  function Sudo(command: string, sudo: bool): string {
    if sudo then "sudo " + command else command
  }

  function Execute(shell: Shell, n: nat, command: string, sudo: bool): Result<Exit> {
    shell(n, Sudo(command, sudo))
  }

  // ---------------------------------------------------------------------------
  // The package loop of `ensure_packages_installed` and `ensure_packages_removed`

  datatype Failure = Failure(package: string, error: string)

  /**
   * The loop so far: packages acted on successfully, packages set aside, the
   * failures, the commands issued, and the message when a command raised.
   */
  datatype Sorting = Sorting(done: seq<string>, setAside: seq<string>, failed: seq<Failure>, issued: seq<string>, raised: Option<string>)

  function AptCommand(verb: string, package: string): string {
    "apt " + verb + " -y " + package
  }

  /** The requested packages whose presence in the listing is `present`, in request order. */
  function Select(pkgs: seq<string>, listed: map<string, string>, present: bool): (r: seq<string>)
    ensures forall p :: p in r ==> p in pkgs && (p in listed) == present
    ensures forall p :: p in pkgs && (p in listed) == present ==> p in r
    decreases |pkgs|
  {
    if pkgs == [] then []
    else
      var p := pkgs[|pkgs| - 1];
      Select(pkgs[..|pkgs| - 1], listed, present) + (if (p in listed) == present then [p] else [])
  }

  function Commands(verb: string, pkgs: seq<string>): (cs: seq<string>)
    ensures |cs| == |pkgs| && forall i :: 0 <= i < |pkgs| ==> cs[i] == Sudo(AptCommand(verb, pkgs[i]), true)
  {
    seq(|pkgs|, i requires 0 <= i < |pkgs| => Sudo(AptCommand(verb, pkgs[i]), true))
  }

  function FailedNames(fs: seq<Failure>): (ns: seq<string>)
    ensures |ns| == |fs| && forall i :: 0 <= i < |fs| ==> ns[i] == fs[i].package
  {
    seq(|fs|, i requires 0 <= i < |fs| => fs[i].package)
  }

  /**
   * The loop over `pkgs`: a package whose presence equals `skipWhenListed` is
   * set aside; any other gets `apt <verb> -y` under sudo as call
   * `base + |issued|`, and lands in `done` or `failed` by its exit code. A
   * command that raises ends the loop.
   */
  function Sort(shell: Shell, base: nat, pkgs: seq<string>, listed: map<string, string>, verb: string, skipWhenListed: bool): Sorting
    decreases |pkgs|
  {
    if pkgs == [] then Sorting([], [], [], [], None)
    else Advance(shell, base, Sort(shell, base, pkgs[..|pkgs| - 1], listed, verb, skipWhenListed), pkgs[|pkgs| - 1], listed, verb, skipWhenListed)
  }

  /** One turn of the loop, for package `p`. */
  function Advance(shell: Shell, base: nat, so: Sorting, p: string, listed: map<string, string>, verb: string, skipWhenListed: bool): Sorting {
    if so.raised.Some? then so
    else if (p in listed) == skipWhenListed then so.(setAside := so.setAside + [p])
    else
      var cmd := AptCommand(verb, p);
      match Execute(shell, base + |so.issued|, cmd, true)
      case Err(m) => Sorting(so.done, so.setAside, so.failed, so.issued + [Sudo(cmd, true)], Some(m))
      case Ok(x) =>
        if x.code == 0 then Sorting(so.done + [p], so.setAside, so.failed, so.issued + [Sudo(cmd, true)], None)
        else Sorting(so.done, so.setAside, so.failed + [Failure(p, x.stderr)], so.issued + [Sudo(cmd, true)], None)
  }

  /** Once a command has raised, the rest of the packages change nothing. */
  lemma {:induction false} SortStaysRaised(shell: Shell, base: nat, pkgs: seq<string>, listed: map<string, string>, verb: string, skipWhenListed: bool, k: nat)
    requires k <= |pkgs| && Sort(shell, base, pkgs[..k], listed, verb, skipWhenListed).raised.Some?
    ensures Sort(shell, base, pkgs, listed, verb, skipWhenListed) == Sort(shell, base, pkgs[..k], listed, verb, skipWhenListed)
    decreases |pkgs| - k
  {
    if k < |pkgs| {
      assert pkgs[..k + 1][..k] == pkgs[..k];
      SortStaysRaised(shell, base, pkgs, listed, verb, skipWhenListed, k + 1);
    } else {
      assert pkgs[..k] == pkgs;
    }
  }

  method SortPackages(shell: Shell, base: nat, pkgs: seq<string>, listed: map<string, string>, verb: string, skipWhenListed: bool)
    returns (so: Sorting)
    ensures so == Sort(shell, base, pkgs, listed, verb, skipWhenListed)
  {
    so := Sorting([], [], [], [], None);
    for i := 0 to |pkgs|
      invariant so == Sort(shell, base, pkgs[..i], listed, verb, skipWhenListed)
      invariant so.raised.None?
    {
      assert pkgs[..i + 1][..i] == pkgs[..i];
      var p := pkgs[i];
      if (p in listed) == skipWhenListed {
        so := so.(setAside := so.setAside + [p]);
        continue;
      }
      var cmd := AptCommand(verb, p);
      var x := Execute(shell, base + |so.issued|, cmd, true);
      so := so.(issued := so.issued + [Sudo(cmd, true)]);
      if x.Err? {
        so := so.(raised := Some(x.reason));
        SortStaysRaised(shell, base, pkgs, listed, verb, skipWhenListed, i + 1);
        return;
      }
      if x.value.code == 0 {
        so := so.(done := so.done + [p]);
      } else {
        so := so.(failed := so.failed + [Failure(p, x.value.stderr)]);
      }
    }
    assert pkgs[..|pkgs|] == pkgs;
  }

  /**
   * What the loop has done with `pkgs`: the commands issued are those for the
   * packages it acts on, in order, cut short only by a raise; without a raise
   * the set-aside list is exactly the packages whose presence equals
   * `skipWhenListed`, and every other package is in `done` or `failed`, once.
   */
  predicate Accounts(so: Sorting, acted: seq<string>, aside: seq<string>, verb: string) {
    && |so.issued| <= |acted| && so.issued == Commands(verb, acted[..|so.issued|])
    && (so.raised.None? ==>
          && so.setAside == aside
          && |so.issued| == |acted|
          && multiset(so.done) + multiset(FailedNames(so.failed)) == multiset(acted))
  }

  lemma {:induction false} SortSorts(shell: Shell, base: nat, pkgs: seq<string>, listed: map<string, string>, verb: string, skipWhenListed: bool)
    ensures Accounts(Sort(shell, base, pkgs, listed, verb, skipWhenListed),
                     Select(pkgs, listed, !skipWhenListed), Select(pkgs, listed, skipWhenListed), verb)
    ensures Sort(shell, base, pkgs, listed, verb, skipWhenListed).raised.None? ==>
              Sort(shell, base, pkgs, listed, verb, skipWhenListed).issued == Commands(verb, Select(pkgs, listed, !skipWhenListed))
    decreases |pkgs|
  {
    if pkgs != [] {
      var init := pkgs[..|pkgs| - 1];
      var p := pkgs[|pkgs| - 1];
      SortSorts(shell, base, init, listed, verb, skipWhenListed);
      var so := Sort(shell, base, init, listed, verb, skipWhenListed);
      var before := Select(init, listed, !skipWhenListed);
      var acted := Select(pkgs, listed, !skipWhenListed);
      assert acted[..|before|] == before;
      if so.raised.Some? {
        assert acted[..|so.issued|] == before[..|so.issued|];
      } else if (p in listed) == skipWhenListed {
        assert acted == before;
      } else {
        assert acted == before + [p];
        ActAccounts(shell, base, so, p, listed, verb, skipWhenListed, before, Select(init, listed, skipWhenListed));
      }
    }
    var acted := Select(pkgs, listed, !skipWhenListed);
    assert acted[..|acted|] == acted;
  }

  lemma ActAccounts(shell: Shell, base: nat, so: Sorting, p: string, listed: map<string, string>, verb: string, skipWhenListed: bool,
                    acted: seq<string>, aside: seq<string>)
    requires Accounts(so, acted, aside, verb)
    requires so.raised.None? && (p in listed) != skipWhenListed
    ensures Accounts(Advance(shell, base, so, p, listed, verb, skipWhenListed), acted + [p], aside, verb)
  {
    var issued := so.issued + [Sudo(AptCommand(verb, p), true)];
    assert issued == Commands(verb, acted + [p]);
    assert (acted + [p])[..|issued|] == acted + [p];
    var next := Advance(shell, base, so, p, listed, verb, skipWhenListed);
    AdvanceActs(shell, base, so, p, listed, verb, skipWhenListed);
    if next.raised.None? {
      var x := Execute(shell, base + |so.issued|, AptCommand(verb, p), true).value;
      if x.code != 0 {
        assert FailedNames(so.failed + [Failure(p, x.stderr)]) == FailedNames(so.failed) + [p];
      }
    }
  }

  /** The turn for a package the loop acts on: one more command, and the package's outcome. */
  lemma AdvanceActs(shell: Shell, base: nat, so: Sorting, p: string, listed: map<string, string>, verb: string, skipWhenListed: bool)
    requires so.raised.None? && (p in listed) != skipWhenListed
    ensures var next := Advance(shell, base, so, p, listed, verb, skipWhenListed);
      var x := Execute(shell, base + |so.issued|, AptCommand(verb, p), true);
      && next.issued == so.issued + [Sudo(AptCommand(verb, p), true)] && next.setAside == so.setAside
      && (x.Err? ==> next.raised == Some(x.reason))
      && (x.Ok? && x.value.code == 0 ==> next.raised.None? && next.done == so.done + [p] && next.failed == so.failed)
      && (x.Ok? && x.value.code != 0 ==>
            next.raised.None? && next.done == so.done && next.failed == so.failed + [Failure(p, x.value.stderr)])
  {
  }

  /** Every requested package falls on exactly one side of the listing. */
  lemma {:induction false} SelectPartitions(pkgs: seq<string>, listed: map<string, string>)
    ensures multiset(Select(pkgs, listed, true)) + multiset(Select(pkgs, listed, false)) == multiset(pkgs)
    decreases |pkgs|
  {
    if pkgs != [] {
      SelectPartitions(pkgs[..|pkgs| - 1], listed);
      assert pkgs == pkgs[..|pkgs| - 1] + [pkgs[|pkgs| - 1]];
    }
  }

  /** A command names one package: equal commands are for the same package. */
  lemma CommandNamesPackage(verb: string, p: string, q: string)
    requires Sudo(AptCommand(verb, p), true) == Sudo(AptCommand(verb, q), true)
    ensures p == q
  {
    var prefix := "sudo apt " + verb + " -y ";
    assert Sudo(AptCommand(verb, p), true) == prefix + p;
    assert Sudo(AptCommand(verb, q), true) == prefix + q;
    assert (prefix + p)[|prefix|..] == p;
    assert (prefix + q)[|prefix|..] == q;
  }

  /** Commands of verbs with different first letters never coincide. */
  lemma VerbsDiffer(v1: string, v2: string, p: string, q: string)
    requires v1 != [] && v2 != [] && v1[0] != v2[0]
    ensures Sudo(AptCommand(v1, p), true) != Sudo(AptCommand(v2, q), true)
  {
    assert Sudo(AptCommand(v1, p), true)[9] == v1[0];
    assert Sudo(AptCommand(v2, q), true)[9] == v2[0];
  }

  /** No command of the loop is for a package that was set aside. */
  lemma SetAsideNeverActedOn(shell: Shell, base: nat, pkgs: seq<string>, listed: map<string, string>, verb: string, skipWhenListed: bool, p: string)
    requires Sudo(AptCommand(verb, p), true) in Sort(shell, base, pkgs, listed, verb, skipWhenListed).issued
    ensures p in pkgs && (p in listed) != skipWhenListed
  {
    SortSorts(shell, base, pkgs, listed, verb, skipWhenListed);
    var so := Sort(shell, base, pkgs, listed, verb, skipWhenListed);
    var acted := Select(pkgs, listed, !skipWhenListed);
    assert so.issued == Commands(verb, acted[..|so.issued|]);
    var j :| 0 <= j < |so.issued| && so.issued[j] == Sudo(AptCommand(verb, p), true);
    assert so.issued[j] == Sudo(AptCommand(verb, acted[j]), true);
    CommandNamesPackage(verb, p, acted[j]);
  }

  // ---------------------------------------------------------------------------
  // `ensure_packages_installed` and `ensure_packages_removed`

  const NoApt := "apt command not found on local system"

  datatype InstallReport = InstallReport(
    host: string, packages: seq<string>,
    installed: seq<string>, alreadyInstalled: seq<string>, failed: seq<Failure>,
    cacheUpdated: bool)

  datatype RemovalReport = RemovalReport(
    host: string, packages: seq<string>,
    removed: seq<string>, alreadyRemoved: seq<string>, failed: seq<Failure>)

  /** A task's result, or the error it raises, with every command it issued, in order. */
  datatype Run<T> = Run(result: Result<T>, issued: seq<string>)

  /** The number of the `apt list --installed` call. */
  function ListCall(updateCache: bool): nat {
    if updateCache then 2 else 1
  }

  /** The table of installed packages the run reads, or nothing when the listing did not run through. */
  function Listed(shell: Shell, n: nat): map<string, string> {
    match Execute(shell, n, "apt list --installed", false)
    case Ok(x) => if x.code == 0 then ParsedList(x.stdout) else map[]
    case Err(_) => map[]
  }

  /**
   * `apt list --installed` as call `n`, then the package loop from call
   * `n + 1`, as both tasks run them inside their `try`: a failed or raising
   * listing and a raising package command become the task's error.
   */
  function ListAndSort(shell: Shell, n: nat, packages: seq<string>, verb: string, skipWhenListed: bool): (Result<Sorting>, seq<string>) {
    match Execute(shell, n, "apt list --installed", false)
    case Err(m) => (Err("Task failed: " + m), ["apt list --installed"])
    case Ok(x) =>
      if x.code != 0 then (Err("Task failed: Failed to list installed packages: " + x.stderr), ["apt list --installed"])
      else
        var so := Sort(shell, n + 1, packages, ParsedList(x.stdout), verb, skipWhenListed);
        (if so.raised.Some? then Err("Task failed: " + so.raised.value) else Ok(so), ["apt list --installed"] + so.issued)
  }

  /**
   * The commands `ensure_packages_installed` runs before the listing: the
   * probe for apt, outside the task's `try`, and the cache update when
   * asked for. The first component is the error that ends the task there.
   */
  function Preflight(shell: Shell, updateCache: bool): (r: (Option<string>, seq<string>))
    ensures r.1 != [] && r.1[0] == "which apt"
    ensures forall c :: c in r.1 ==> c == "which apt" || c == "sudo apt update"
    ensures r.0.None? ==> r.1 == if updateCache then ["which apt", "sudo apt update"] else ["which apt"]
  {
    match Execute(shell, 0, "which apt", false)
    case Err(m) => (Some(m), ["which apt"])
    case Ok(probe) =>
      if probe.code != 0 then (Some(NoApt), ["which apt"])
      else if !updateCache then (None, ["which apt"])
      else
        match Execute(shell, 1, "apt update", true)
        case Err(m) => (Some("Task failed: " + m), ["which apt", "sudo apt update"])
        case Ok(update) =>
          if update.code != 0 then (Some("Task failed: Failed to update package cache: " + update.stderr), ["which apt", "sudo apt update"])
          else (None, ["which apt", "sudo apt update"])
  }

  /** `ensure_packages_installed` with the machine given as `shell`, and `str(host)` as `host`. */
  function Installing(shell: Shell, host: string, packages: seq<string>, updateCache: bool): Run<InstallReport> {
    var (err, pre) := Preflight(shell, updateCache);
    if err.Some? then Run(Err(err.value), pre)
    else
      var (r, issued) := ListAndSort(shell, ListCall(updateCache), packages, "install", true);
      match r
      case Err(m) => Run(Err(m), pre + issued)
      case Ok(so) => Run(Ok(InstallReport(host, packages, so.done, so.setAside, so.failed, updateCache)), pre + issued)
  }

  function RemoveVerb(purge: bool): string {
    if purge then "purge" else "remove"
  }

  /** `ensure_packages_removed`, likewise. */
  function Removing(shell: Shell, host: string, packages: seq<string>, purge: bool): Run<RemovalReport> {
    var (err, pre) := Preflight(shell, false);
    if err.Some? then Run(Err(err.value), pre)
    else
      var (r, issued) := ListAndSort(shell, 1, packages, RemoveVerb(purge), false);
      match r
      case Err(m) => Run(Err(m), pre + issued)
      case Ok(so) => Run(Ok(RemovalReport(host, packages, so.done, so.setAside, so.failed)), pre + issued)
  }

  /** The listing and the package loop, as the two tasks run them. */
  method ListAndSortPackages(shell: Shell, n: nat, packages: seq<string>, verb: string, skipWhenListed: bool)
    returns (r: Result<Sorting>, issued: seq<string>)
    ensures (r, issued) == ListAndSort(shell, n, packages, verb, skipWhenListed)
  {
    issued := ["apt list --installed"];
    var list := Execute(shell, n, "apt list --installed", false);
    if list.Err? {
      return Err("Task failed: " + list.reason), issued;
    }
    if list.value.code != 0 {
      return Err("Task failed: Failed to list installed packages: " + list.value.stderr), issued;
    }
    var installed := ParseAptList(list.value.stdout);
    var so := SortPackages(shell, n + 1, packages, installed, verb, skipWhenListed);
    issued := issued + so.issued;
    if so.raised.Some? {
      return Err("Task failed: " + so.raised.value), issued;
    }
    r := Ok(so);
  }

  method EnsurePackagesInstalled(shell: Shell, host: string, packages: seq<string>, updateCache: bool)
    returns (r: Result<InstallReport>, issued: seq<string>)
    ensures Run(r, issued) == Installing(shell, host, packages, updateCache)
  {
    issued := ["which apt"];
    var probe := Execute(shell, 0, "which apt", false);
    if probe.Err? {
      return Err(probe.reason), issued;
    }
    if probe.value.code != 0 {
      return Err(NoApt), issued;
    }
    if updateCache {
      var update := Execute(shell, 1, "apt update", true);
      issued := issued + ["sudo apt update"];
      if update.Err? {
        return Err("Task failed: " + update.reason), issued;
      }
      if update.value.code != 0 {
        return Err("Task failed: Failed to update package cache: " + update.value.stderr), issued;
      }
    }
    var sorted, rest := ListAndSortPackages(shell, ListCall(updateCache), packages, "install", true);
    issued := issued + rest;
    if sorted.Err? {
      return Err(sorted.reason), issued;
    }
    var so := sorted.value;
    r := Ok(InstallReport(host, packages, so.done, so.setAside, so.failed, updateCache));
  }

  method EnsurePackagesRemoved(shell: Shell, host: string, packages: seq<string>, purge: bool)
    returns (r: Result<RemovalReport>, issued: seq<string>)
    ensures Run(r, issued) == Removing(shell, host, packages, purge)
  {
    issued := ["which apt"];
    var probe := Execute(shell, 0, "which apt", false);
    if probe.Err? {
      return Err(probe.reason), issued;
    }
    if probe.value.code != 0 {
      return Err(NoApt), issued;
    }
    var action := if purge then "purge" else "remove";
    var sorted, rest := ListAndSortPackages(shell, 1, packages, action, false);
    issued := issued + rest;
    if sorted.Err? {
      return Err(sorted.reason), issued;
    }
    var so := sorted.value;
    r := Ok(RemovalReport(host, packages, so.done, so.setAside, so.failed));
  }

  /**
   * What the listing-and-loop part of either task does: a successful run
   * sets aside exactly the packages on one side of the listing and sends
   * every other one to `done` or `failed`, once; and any package command
   * issued is for a requested package on the other side.
   */
  lemma ListAndSortMeaning(shell: Shell, n: nat, packages: seq<string>, verb: string, skipWhenListed: bool)
    ensures var (r, issued) := ListAndSort(shell, n, packages, verb, skipWhenListed);
      var listed := Listed(shell, n);
      && issued != [] && issued[0] == "apt list --installed"
      && (r.Ok? ==>
            && r.value.setAside == Select(packages, listed, skipWhenListed)
            && multiset(r.value.done) + multiset(FailedNames(r.value.failed)) == multiset(Select(packages, listed, !skipWhenListed))
            && issued == ["apt list --installed"] + Commands(verb, Select(packages, listed, !skipWhenListed)))
      && (forall p :: Sudo(AptCommand(verb, p), true) in issued ==> p in packages && (p in listed) != skipWhenListed)
      && (forall other, p :: other != [] && verb != [] && other[0] != verb[0] ==> Sudo(AptCommand(other, p), true) !in issued)
  {
    var (r, issued) := ListAndSort(shell, n, packages, verb, skipWhenListed);
    var listed := Listed(shell, n);
    var x := Execute(shell, n, "apt list --installed", false);
    if x.Ok? && x.value.code == 0 {
      SortSorts(shell, n + 1, packages, listed, verb, skipWhenListed);
      forall p | Sudo(AptCommand(verb, p), true) in issued
        ensures p in packages && (p in listed) != skipWhenListed
      {
        ListIsNoPackageCommand(verb, p);
        SetAsideNeverActedOn(shell, n + 1, packages, listed, verb, skipWhenListed, p);
      }
      forall other, p | other != [] && verb != [] && other[0] != verb[0]
        ensures Sudo(AptCommand(other, p), true) !in issued
      {
        ListIsNoPackageCommand(other, p);
        OtherVerbNeverIssued(shell, n + 1, packages, listed, verb, skipWhenListed, other, p);
      }
    } else {
      forall p | Sudo(AptCommand(verb, p), true) in issued
        ensures false
      {
        ListIsNoPackageCommand(verb, p);
      }
      forall other, p | other != [] && verb != [] && other[0] != verb[0]
        ensures Sudo(AptCommand(other, p), true) !in issued
      {
        ListIsNoPackageCommand(other, p);
      }
    }
  }

  /** The loop issues commands of its own verb only. */
  lemma OtherVerbNeverIssued(shell: Shell, base: nat, pkgs: seq<string>, listed: map<string, string>, verb: string, skipWhenListed: bool,
                             other: string, p: string)
    requires other != [] && verb != [] && other[0] != verb[0]
    ensures Sudo(AptCommand(other, p), true) !in Sort(shell, base, pkgs, listed, verb, skipWhenListed).issued
  {
    SortSorts(shell, base, pkgs, listed, verb, skipWhenListed);
    var so := Sort(shell, base, pkgs, listed, verb, skipWhenListed);
    var acted := Select(pkgs, listed, !skipWhenListed);
    assert so.issued == Commands(verb, acted[..|so.issued|]);
    forall j | 0 <= j < |so.issued|
      ensures so.issued[j] != Sudo(AptCommand(other, p), true)
    {
      VerbsDiffer(other, verb, p, acted[j]);
    }
  }

  lemma ListIsNoPackageCommand(verb: string, p: string)
    ensures Sudo(AptCommand(verb, p), true) != "apt list --installed"
  {
    assert Sudo(AptCommand(verb, p), true)[0] == 's';
  }

  /**
   * `ensure_packages_installed`: the first command looks for apt; a
   * successful report echoes the request, records whether the cache was
   * updated, lists as already installed exactly the requested packages the
   * listing shows, and puts every other requested package in `installed` or
   * `failed`, so each requested package is in exactly one list. No install
   * command is ever issued for a package the listing shows.
   */
  lemma InstallingSortsEachPackageOnce(shell: Shell, host: string, packages: seq<string>, updateCache: bool)
    ensures var run := Installing(shell, host, packages, updateCache);
      var listed := Listed(shell, ListCall(updateCache));
      && run.issued != [] && run.issued[0] == "which apt"
      && (run.result.Ok? ==>
            && run.result.value.host == host && run.result.value.packages == packages
            && run.result.value.cacheUpdated == updateCache
            && run.result.value.alreadyInstalled == Select(packages, listed, true)
            && multiset(run.result.value.installed) + multiset(run.result.value.alreadyInstalled)
                 + multiset(FailedNames(run.result.value.failed)) == multiset(packages))
      && (forall p :: Sudo(AptCommand("install", p), true) in run.issued ==> p in packages && p !in listed)
  {
    var (err, pre) := Preflight(shell, updateCache);
    forall p ensures Sudo(AptCommand("install", p), true) !in pre {
      assert Sudo(AptCommand("install", p), true)[9] == 'i';
    }
    if err.None? {
      var run := Installing(shell, host, packages, updateCache);
      var listed := Listed(shell, ListCall(updateCache));
      var (r, issued) := ListAndSort(shell, ListCall(updateCache), packages, "install", true);
      assert run.issued == pre + issued;
      ListAndSortMeaning(shell, ListCall(updateCache), packages, "install", true);
      forall p | Sudo(AptCommand("install", p), true) in run.issued
        ensures p in packages && p !in listed
      {
        assert Sudo(AptCommand("install", p), true) in issued;
      }
      if r.Ok? {
        assert run.result.value == InstallReport(host, packages, r.value.done, r.value.setAside, r.value.failed, updateCache);
        SelectPartitions(packages, listed);
      }
    }
  }

  /**
   * `ensure_packages_removed`: a successful report lists as already removed
   * exactly the requested packages the listing does not show, and puts every
   * other requested package in `removed` or `failed`, once. Commands use the
   * verb `purge` exactly when asked to purge: the other verb never appears,
   * and neither touches a package the listing does not show.
   */
  lemma RemovingSortsEachPackageOnce(shell: Shell, host: string, packages: seq<string>, purge: bool)
    ensures var run := Removing(shell, host, packages, purge);
      var listed := Listed(shell, 1);
      var verb := RemoveVerb(purge);
      var other := RemoveVerb(!purge);
      && run.issued != [] && run.issued[0] == "which apt"
      && (run.result.Ok? ==>
            && run.result.value.host == host && run.result.value.packages == packages
            && run.result.value.alreadyRemoved == Select(packages, listed, false)
            && multiset(run.result.value.removed) + multiset(run.result.value.alreadyRemoved)
                 + multiset(FailedNames(run.result.value.failed)) == multiset(packages))
      && (forall p :: Sudo(AptCommand(verb, p), true) in run.issued ==> p in packages && p in listed)
      && (forall p :: Sudo(AptCommand(other, p), true) !in run.issued)
  {
    var verb := RemoveVerb(purge);
    var run := Removing(shell, host, packages, purge);
    var (err, pre) := Preflight(shell, false);
    forall p, v ensures Sudo(AptCommand(v, p), true) !in pre {
      assert Sudo(AptCommand(v, p), true)[5] == 'a';
    }
    if err.None? {
      var listed := Listed(shell, 1);
      var (r, issued) := ListAndSort(shell, 1, packages, verb, false);
      assert run.issued == pre + issued;
      ListAndSortMeaning(shell, 1, packages, verb, false);
      var other := RemoveVerb(!purge);
      assert other[0] != verb[0];
      forall p ensures Sudo(AptCommand(other, p), true) !in run.issued {
        assert Sudo(AptCommand(other, p), true) !in pre;
        assert Sudo(AptCommand(other, p), true) !in issued;
      }
      if r.Ok? {
        assert run.result.value == RemovalReport(host, packages, r.value.done, r.value.setAside, r.value.failed);
        SelectPartitions(packages, listed);
      }
    }
  }

  // ---------------------------------------------------------------------------
  // `get_package_info`

  /** A value of the dictionary `get_package_info` returns. */
  datatype InfoValue = Text(text: string) | Flag(flag: bool)

  /** A key as `get_package_info` normalises it: stripped, lower-cased, `-` turned into `_`. */
  function InfoKey(raw: string): string {
    ReplaceChar(Lower(Strip(raw)), '-', '_')
  }

  /** The key and value a line of `apt show` contributes: split at the first colon, both sides stripped. */
  function Field(line: string): Option<(string, string)> {
    if ':' in line then
      var i := FirstIndex(line, ':');
      Some((InfoKey(line[..i]), Strip(line[i + 1..])))
    else None
  }

  function FieldList(lines: seq<string>): (fs: seq<Option<(string, string)>>)
    ensures |fs| == |lines| && forall i :: 0 <= i < |lines| ==> fs[i] == Field(lines[i])
  {
    seq(|lines|, i requires 0 <= i < |lines| => Field(lines[i]))
  }

  /** The dictionary after the fields `fs`, in order, are written over `info`. */
  function Record(info: map<string, InfoValue>, fs: seq<Option<(string, string)>>): map<string, InfoValue>
    decreases |fs|
  {
    if fs == [] then info
    else
      var m := Record(info, fs[..|fs| - 1]);
      match fs[|fs| - 1]
      case None => m
      case Some((k, v)) => m[k := Text(v)]
  }

  function Presets(package: string, host: string): map<string, InfoValue> {
    map["package" := Text(package), "found" := Flag(true), "host" := Text(host)]
  }

  /** `get_package_info`, with the machine given as `shell` and `str(host)` as `host`; it has no `try`. */
  function PackageInfo(shell: Shell, host: string, package: string): Result<map<string, InfoValue>> {
    match Execute(shell, 0, "which apt", false)
    case Err(m) => Err(m)
    case Ok(probe) =>
      if probe.code != 0 then Err(NoApt)
      else
        match Execute(shell, 1, "apt show " + package, false)
        case Err(m) => Err(m)
        case Ok(x) =>
          if x.code != 0 then Ok(map["package" := Text(package), "found" := Flag(false), "error" := Text(x.stderr)])
          else Ok(Record(Presets(package, host), FieldList(Split(x.stdout, '\n'))))
  }

  method GetPackageInfo(shell: Shell, host: string, package: string) returns (r: Result<map<string, InfoValue>>)
    ensures r == PackageInfo(shell, host, package)
  {
    var probe := Execute(shell, 0, "which apt", false);
    if probe.Err? {
      return Err(probe.reason);
    }
    if probe.value.code != 0 {
      return Err(NoApt);
    }
    var shown := Execute(shell, 1, "apt show " + package, false);
    if shown.Err? {
      return Err(shown.reason);
    }
    var x := shown.value;
    if x.code != 0 {
      return Ok(map["package" := Text(package), "found" := Flag(false), "error" := Text(x.stderr)]);
    }
    var info := Presets(package, host);
    var lines := Split(x.stdout, '\n');
    for i := 0 to |lines|
      invariant info == Record(Presets(package, host), FieldList(lines)[..i])
    {
      assert FieldList(lines)[..i + 1][..i] == FieldList(lines)[..i];
      var line := lines[i];
      if ':' in line {
        var j := FirstIndex(line, ':');
        info := info[InfoKey(line[..j]) := Text(Strip(line[j + 1..]))];
      }
    }
    assert FieldList(lines)[..|lines|] == FieldList(lines);
    r := Ok(info);
  }

  /** A key in the form the normalisation leaves: stripped, no colon, no hyphen, no ASCII capital. */
  predicate NormalKey(k: string) {
    && Trimmed(k)
    && (forall i :: 0 <= i < |k| ==> k[i] != ':' && k[i] != '-' && !('A' <= k[i] <= 'Z'))
  }

  /** Whatever text precedes the first colon normalises to a key of that form. */
  lemma InfoKeyNormal(raw: string)
    requires ':' !in raw
    ensures NormalKey(InfoKey(raw))
  {
    var t := Strip(raw);
    var a :| Surrounds(raw, t, a);
    forall i | 0 <= i < |t| ensures t[i] != ':' {
      assert t[i] == raw[a + i];
    }
  }

  /** Every key a line adds is in normal form, and its value is stripped. */
  lemma FieldNormal(line: string)
    ensures Field(line).Some? ==> NormalKey(Field(line).value.0) && Trimmed(Field(line).value.1)
  {
    if ':' in line {
      InfoKeyNormal(line[..FirstIndex(line, ':')]);
    }
  }

  /** Line `i` sets key `k`. */
  predicate SetsAt(fs: seq<Option<(string, string)>>, i: int, k: string) {
    0 <= i < |fs| && fs[i].Some? && fs[i].value.0 == k
  }

  /**
   * The keys of the dictionary: the presets and the keys the lines set, and
   * no other; a key no line sets keeps its preset value.
   */
  lemma {:induction false} RecordKeys(info: map<string, InfoValue>, fs: seq<Option<(string, string)>>, k: string)
    ensures k in Record(info, fs) <==> k in info || exists i :: SetsAt(fs, i, k)
    ensures (forall i :: !SetsAt(fs, i, k)) && k in info ==> Record(info, fs)[k] == info[k]
    decreases |fs|
  {
    if fs != [] {
      var init := fs[..|fs| - 1];
      RecordKeys(info, init, k);
      assert fs[|fs| - 1].Some? && fs[|fs| - 1].value.0 == k ==> SetsAt(fs, |fs| - 1, k);
      if exists i :: SetsAt(init, i, k) {
        var i :| SetsAt(init, i, k);
        assert SetsAt(fs, i, k);
      }
      if exists i :: SetsAt(fs, i, k) {
        var i :| SetsAt(fs, i, k);
        if i < |init| {
          assert SetsAt(init, i, k);
        }
      }
      if forall i :: !SetsAt(fs, i, k) {
        forall i ensures !SetsAt(init, i, k) {
          assert !SetsAt(fs, i, k);
        }
        assert !SetsAt(fs, |fs| - 1, k);
      }
    }
  }

  /** When several lines set a key, the last one decides its value, presets included. */
  lemma {:induction false} LastFieldWins(info: map<string, InfoValue>, fs: seq<Option<(string, string)>>, i: nat)
    requires i < |fs| && fs[i].Some?
    requires forall j :: i < j < |fs| ==> !SetsAt(fs, j, fs[i].value.0)
    ensures fs[i].value.0 in Record(info, fs)
    ensures Record(info, fs)[fs[i].value.0] == Text(fs[i].value.1)
    decreases |fs|
  {
    var init := fs[..|fs| - 1];
    if i < |init| {
      forall j | i < j < |init|
        ensures !SetsAt(init, j, init[i].value.0)
      {
        assert !SetsAt(fs, j, fs[i].value.0);
      }
      LastFieldWins(info, init, i);
      assert !SetsAt(fs, |fs| - 1, fs[i].value.0);
    }
  }

  /**
   * What `get_package_info` returns when it finds nothing: apt missing is
   * an error, and a failed `apt show` gives exactly `package`,
   * `found = False` and the error output.
   */
  lemma PackageInfoNotFound(shell: Shell, host: string, package: string)
    ensures var probe := Execute(shell, 0, "which apt", false);
      probe.Ok? && probe.value.code != 0 ==> PackageInfo(shell, host, package) == Err(NoApt)
    ensures var shown := Execute(shell, 1, "apt show " + package, false);
      var r := PackageInfo(shell, host, package);
      r.Ok? && shown.Ok? && shown.value.code != 0 ==>
        && r.value.Keys == {"package", "found", "error"}
        && r.value["package"] == Text(package)
        && r.value["found"] == Flag(false)
        && r.value["error"] == Text(shown.value.stderr)
  {
  }

  /**
   * After a successful `apt show`, the dictionary holds the three presets
   * and the keys its lines set; each added key is in normal form and holds
   * a stripped text.
   */
  lemma PackageInfoFields(shell: Shell, host: string, package: string)
    ensures var shown := Execute(shell, 1, "apt show " + package, false);
      var r := PackageInfo(shell, host, package);
      r.Ok? && shown.Ok? && shown.value.code == 0 ==>
        && {"package", "found", "host"} <= r.value.Keys
        && (forall k :: k in r.value && k !in {"package", "found", "host"} ==> NormalKey(k) && r.value[k].Text? && Trimmed(r.value[k].text))
  {
    var shown := Execute(shell, 1, "apt show " + package, false);
    var r := PackageInfo(shell, host, package);
    if r.Ok? && shown.Ok? && shown.value.code == 0 {
      RecordShape(Presets(package, host), Split(shown.value.stdout, '\n'));
    }
  }

  lemma RecordShape(presets: map<string, InfoValue>, lines: seq<string>)
    ensures var info := Record(presets, FieldList(lines));
      && presets.Keys <= info.Keys
      && (forall k :: k in info && k !in presets ==> NormalKey(k) && info[k].Text? && Trimmed(info[k].text))
  {
    var fs := FieldList(lines);
    var info := Record(presets, fs);
    forall k | k in presets ensures k in info {
      RecordKeys(presets, fs, k);
    }
    forall k | k in info && k !in presets
      ensures NormalKey(k) && info[k].Text? && Trimmed(info[k].text)
    {
      RecordKeys(presets, fs, k);
      var i :| SetsAt(fs, i, k);
      var last := LastSetter(fs, i, k);
      LastFieldWins(presets, fs, last);
      FieldNormal(lines[last]);
    }
  }

  /** The last line that sets `k`, given one that does. */
  lemma {:induction false} LastSetter(fs: seq<Option<(string, string)>>, i: nat, k: string) returns (last: nat)
    requires SetsAt(fs, i, k)
    ensures i <= last && SetsAt(fs, last, k)
    ensures forall j :: last < j < |fs| ==> !SetsAt(fs, j, k)
    decreases |fs| - i
  {
    if exists j :: i < j < |fs| && SetsAt(fs, j, k) {
      var j :| i < j < |fs| && SetsAt(fs, j, k);
      last := LastSetter(fs, j, k);
    } else {
      last := i;
    }
  }

  /**
   * Output keys overwrite the presets: a line `Package:<v>` (any letter case
   * of the key would do) replaces the requested package's name by `v`.
   */
  lemma PackageLineOverwrites(package: string, host: string, lines: seq<string>, v: string)
    requires Trimmed(v)
    ensures var m := Record(Presets(package, host), FieldList(lines + ["Package:" + v]));
      "package" in m && m["package"] == Text(v)
  {
    var fs := FieldList(lines + ["Package:" + v]);
    PackageField(v);
    assert fs[|fs| - 1] == Some(("package", v));
    LastFieldWins(Presets(package, host), fs, |fs| - 1);
  }

  lemma PackageField(v: string)
    requires Trimmed(v)
    ensures Field("Package:" + v) == Some(("package", v))
  {
    var line := "Package:" + v;
    assert line[..7] == "Package";
    FirstIndexIs(line, ':', 7);
    PackageKey();
    assert line[8..] == v;
    StripTrimmed(v);
  }

  /** The key of a `Package:` line is `package`. */
  lemma PackageKey()
    ensures InfoKey("Package") == "package"
  {
    StripTrimmed("Package");
    LowerPackage();
    ReplaceAbsent("package", '-', '_');
  }

  lemma LowerPackage()
    ensures Lower("Package") == "package"
  {
    var l := Lower("Package");
    assert LowerChar('P') == 'p';
    forall k | 1 <= k < 7
      ensures l[k] == "package"[k]
    {
      assert 'a' <= "Package"[k] <= 'z';
    }
  }

  // ---------------------------------------------------------------------------
  // The scheduled tasks over a list of hosts

  /** Which of `update_package_cache`, `check_security_updates`, `cleanup_unused_packages` runs. */
  datatype Job = UpdateCache | CheckSecurity | Cleanup

  datatype CommandOutcome = CommandOutcome(success: bool, output: string)

  /**
   * One host's entry in a scheduled task's result. The `timestamp` field
   * carries `str(host)`, which is the host name.
   */
  datatype HostResult =
    | HostFailed(error: string)
    | CacheUpdated(message: string, timestamp: string)
    | UpdatesFound(upgradeableCount: nat, securityCount: nat, upgradeable: seq<string>, security: seq<string>, timestamp: string)
    | CleanedUp(success: bool, autoremove: CommandOutcome, autoclean: CommandOutcome, timestamp: string)

  const NoAptOnHost := "apt command not found"
  const CacheMessage := "Package cache updated successfully"
  const ShownUpgradable := 10

  /** A line of `apt list --upgradable` that names an upgradable package (`"/" in line` is a membership test). */
  predicate UpgradableLine(line: string) {
    '/' in line && Contains(line, "upgradable")
  }

  /** An upgradable line whose lower-cased text mentions security, urgent or critical. */
  predicate SecurityLine(line: string) {
    var l := Lower(line);
    UpgradableLine(line) && (Contains(l, "security") || Contains(l, "urgent") || Contains(l, "critical"))
  }

  /** `line.split("/")[0]`. */
  function PackageName(line: string): string {
    Split(line, '/')[0]
  }

  function Upgradable(lines: seq<string>): (names: seq<string>)
    decreases |lines|
  {
    if lines == [] then []
    else
      var line := lines[|lines| - 1];
      Upgradable(lines[..|lines| - 1]) + if UpgradableLine(line) then [PackageName(line)] else []
  }

  function SecurityUpdates(lines: seq<string>): (names: seq<string>)
    decreases |lines|
  {
    if lines == [] then []
    else
      var line := lines[|lines| - 1];
      SecurityUpdates(lines[..|lines| - 1]) + if SecurityLine(line) then [PackageName(line)] else []
  }

  /** `names[:10]`. */
  function FirstShown(names: seq<string>): (shown: seq<string>)
    ensures |shown| == if |names| < ShownUpgradable then |names| else ShownUpgradable
    ensures shown == names[..|shown|]
  {
    if |names| <= ShownUpgradable then names else names[..ShownUpgradable]
  }

  /** The scan of `apt list --upgradable`, line by line. */
  method ScanUpgradable(lines: seq<string>) returns (upgradeable: seq<string>, security: seq<string>)
    ensures upgradeable == Upgradable(lines) && security == SecurityUpdates(lines)
  {
    upgradeable, security := [], [];
    for i := 0 to |lines|
      invariant upgradeable == Upgradable(lines[..i]) && security == SecurityUpdates(lines[..i])
    {
      assert lines[..i + 1][..i] == lines[..i];
      var line := lines[i];
      if '/' in line && Contains(line, "upgradable") {
        var name := Split(line, '/')[0];
        upgradeable := upgradeable + [name];
        var l := Lower(line);
        if Contains(l, "security") || Contains(l, "urgent") || Contains(l, "critical") {
          security := security + [name];
        }
      }
    }
    assert lines[..|lines|] == lines;
  }

  /** Every security update is also counted among the upgradable packages, in the same order. */
  lemma {:induction false} SecurityAmongUpgradable(lines: seq<string>)
    ensures multiset(SecurityUpdates(lines)) <= multiset(Upgradable(lines))
    ensures |SecurityUpdates(lines)| <= |Upgradable(lines)|
    decreases |lines|
  {
    if lines != [] {
      SecurityAmongUpgradable(lines[..|lines| - 1]);
    }
  }

  /** A reported name is the text of its line before the first `/`. */
  lemma {:induction false} NamesBeforeSlash(lines: seq<string>)
    ensures forall n :: n in Upgradable(lines) ==>
      '/' !in n && exists i :: 0 <= i < |lines| && UpgradableLine(lines[i]) && n == lines[i][..FirstIndex(lines[i], '/')]
    decreases |lines|
  {
    if lines != [] {
      var init := lines[..|lines| - 1];
      var line := lines[|lines| - 1];
      NamesBeforeSlash(init);
      forall n | n in Upgradable(lines)
        ensures '/' !in n && exists i :: 0 <= i < |lines| && UpgradableLine(lines[i]) && n == lines[i][..FirstIndex(lines[i], '/')]
      {
        if n in Upgradable(init) {
          var i :| 0 <= i < |init| && UpgradableLine(init[i]) && n == init[i][..FirstIndex(init[i], '/')];
          assert lines[i] == init[i];
        } else {
          assert UpgradableLine(line) && n == PackageName(line);
          SplitHead(line, '/');
          assert lines[|lines| - 1] == line;
        }
      }
    }
  }

  /** Conversely, the name of every upgradable line is reported. */
  lemma {:induction false} UpgradableComplete(lines: seq<string>)
    ensures forall i :: 0 <= i < |lines| && UpgradableLine(lines[i]) ==>
      lines[i][..FirstIndex(lines[i], '/')] in Upgradable(lines)
    decreases |lines|
  {
    if lines != [] {
      var init := lines[..|lines| - 1];
      var line := lines[|lines| - 1];
      UpgradableComplete(init);
      forall i | 0 <= i < |lines| && UpgradableLine(lines[i])
        ensures lines[i][..FirstIndex(lines[i], '/')] in Upgradable(lines)
      {
        if i < |init| {
          assert init[i] == lines[i];
        } else {
          SplitHead(line, '/');
        }
      }
    }
  }

  /** `line` is a security line and carries `n` before its first `/`. */
  predicate Carries(line: string, n: string) {
    SecurityLine(line) && n == line[..FirstIndex(line, '/')]
  }

  /** Some line of the listing carries `n` as a security update. */
  predicate SecurityName(lines: seq<string>, n: string) {
    exists i :: 0 <= i < |lines| && Carries(lines[i], n)
  }

  /** A line carries exactly the name the scan takes from it. */
  lemma CarriesName(line: string, n: string)
    ensures Carries(line, n) <==> SecurityLine(line) && n == PackageName(line)
  {
    if '/' in line {
      SplitHead(line, '/');
    }
  }

  lemma SecurityNameLast(lines: seq<string>, n: string)
    requires lines != []
    ensures SecurityName(lines, n) <==> SecurityName(lines[..|lines| - 1], n) || Carries(lines[|lines| - 1], n)
  {
    var init := lines[..|lines| - 1];
    if SecurityName(lines, n) {
      var i :| 0 <= i < |lines| && Carries(lines[i], n);
      if i < |init| {
        assert init[i] == lines[i];
      }
    }
    if SecurityName(init, n) {
      var i :| 0 <= i < |init| && Carries(init[i], n);
      assert lines[i] == init[i];
    }
  }

  /** A name is reported as a security update exactly when some security line carries it. */
  lemma {:induction false} SecurityNames(lines: seq<string>)
    ensures forall n :: n in SecurityUpdates(lines) <==> SecurityName(lines, n)
    decreases |lines|
  {
    if lines != [] {
      SecurityNames(lines[..|lines| - 1]);
      forall n
        ensures n in SecurityUpdates(lines) <==> SecurityName(lines, n)
      {
        SecurityNameLast(lines, n);
        CarriesName(lines[|lines| - 1], n);
      }
    }
  }

  /** The result for `hostname` in one task, with the number of commands it issued; calls are numbered from `n`. */
  function OnHost(job: Job, shell: Shell, n: nat, hostname: string): (HostResult, nat) {
    match Execute(shell, n, "which apt", false)
    case Err(m) => (HostFailed(m), 1)
    case Ok(probe) =>
      if probe.code != 0 then (HostFailed(NoAptOnHost), 1)
      else
        match job
        case UpdateCache =>
          (match Execute(shell, n + 1, "apt update", true)
           case Err(m) => HostFailed(m)
           case Ok(x) => if x.code == 0 then CacheUpdated(CacheMessage, hostname) else HostFailed("Failed to update cache: " + x.stderr),
           2)
        case CheckSecurity =>
          (match Execute(shell, n + 1, "apt list --upgradable", false)
           case Err(m) => HostFailed(m)
           case Ok(x) =>
             if x.code == 0 then
               var lines := Split(Strip(x.stdout), '\n');
               var up := Upgradable(lines);
               var sec := SecurityUpdates(lines);
               UpdatesFound(|up|, |sec|, FirstShown(up), sec, hostname)
             else HostFailed("Failed to check updates: " + x.stderr),
           2)
        case Cleanup =>
          match Execute(shell, n + 1, "apt autoremove -y", true)
          case Err(m) => (HostFailed(m), 2)
          case Ok(a) =>
            match Execute(shell, n + 2, "apt autoclean", true)
            case Err(m) => (HostFailed(m), 3)
            case Ok(c) => (CleanedUp(a.code == 0 && c.code == 0, Outcome(a), Outcome(c), hostname), 3)
  }

  /** The `{"success", "output"}` entry of one cleanup command. */
  function Outcome(x: Exit): CommandOutcome {
    CommandOutcome(x.code == 0, if x.code == 0 then x.stdout else x.stderr)
  }

  /**
   * A scheduled task over `hosts`, in order: each host's entry is written
   * under its name, so a repeated name keeps its last entry. The second
   * component counts the commands issued.
   */
  function OverHosts(job: Job, shell: Shell, hosts: seq<string>): (map<string, HostResult>, nat)
    decreases |hosts|
  {
    if hosts == [] then (map[], 0)
    else
      var (results, n) := OverHosts(job, shell, hosts[..|hosts| - 1]);
      var h := hosts[|hosts| - 1];
      var (res, used) := OnHost(job, shell, n, h);
      (results[h := res], n + used)
  }

  method RunOnHost(job: Job, shell: Shell, n: nat, hostname: string) returns (res: HostResult, used: nat)
    ensures (res, used) == OnHost(job, shell, n, hostname)
  {
    used := 1;
    var probe := Execute(shell, n, "which apt", false);
    if probe.Err? {
      return HostFailed(probe.reason), used;
    }
    if probe.value.code != 0 {
      return HostFailed(NoAptOnHost), used;
    }
    match job {
      case UpdateCache =>
        used := 2;
        var x := Execute(shell, n + 1, "apt update", true);
        if x.Err? {
          res := HostFailed(x.reason);
        } else if x.value.code == 0 {
          res := CacheUpdated(CacheMessage, hostname);
        } else {
          res := HostFailed("Failed to update cache: " + x.value.stderr);
        }
      case CheckSecurity =>
        used := 2;
        var x := Execute(shell, n + 1, "apt list --upgradable", false);
        if x.Err? {
          res := HostFailed(x.reason);
        } else if x.value.code == 0 {
          var up, sec := ScanUpgradable(Split(Strip(x.value.stdout), '\n'));
          res := UpdatesFound(|up|, |sec|, FirstShown(up), sec, hostname);
        } else {
          res := HostFailed("Failed to check updates: " + x.value.stderr);
        }
      case Cleanup =>
        used := 2;
        var a := Execute(shell, n + 1, "apt autoremove -y", true);
        if a.Err? {
          return HostFailed(a.reason), used;
        }
        used := 3;
        var c := Execute(shell, n + 2, "apt autoclean", true);
        if c.Err? {
          return HostFailed(c.reason), used;
        }
        var autoremove := CommandOutcome(a.value.code == 0, if a.value.code == 0 then a.value.stdout else a.value.stderr);
        var autoclean := CommandOutcome(c.value.code == 0, if c.value.code == 0 then c.value.stdout else c.value.stderr);
        res := CleanedUp(autoremove.success && autoclean.success, autoremove, autoclean, hostname);
    }
  }

  method RunOverHosts(job: Job, shell: Shell, hosts: seq<string>) returns (results: map<string, HostResult>)
    ensures results == OverHosts(job, shell, hosts).0
  {
    results := map[];
    var n := 0;
    for i := 0 to |hosts|
      invariant (results, n) == OverHosts(job, shell, hosts[..i])
    {
      assert hosts[..i + 1][..i] == hosts[..i];
      var res, used := RunOnHost(job, shell, n, hosts[i]);
      results := results[hosts[i] := res];
      n := n + used;
    }
    assert hosts[..|hosts|] == hosts;
  }

  method UpdatePackageCache(shell: Shell, hosts: seq<string>) returns (results: map<string, HostResult>)
    ensures results == OverHosts(UpdateCache, shell, hosts).0
  {
    results := RunOverHosts(UpdateCache, shell, hosts);
  }

  method CheckSecurityUpdates(shell: Shell, hosts: seq<string>) returns (results: map<string, HostResult>)
    ensures results == OverHosts(CheckSecurity, shell, hosts).0
  {
    results := RunOverHosts(CheckSecurity, shell, hosts);
  }

  method CleanupUnusedPackages(shell: Shell, hosts: seq<string>) returns (results: map<string, HostResult>)
    ensures results == OverHosts(Cleanup, shell, hosts).0
  {
    results := RunOverHosts(Cleanup, shell, hosts);
  }

  /** Every host gets an entry, whatever happens on it, and nothing else does; each host issues one to three commands. */
  lemma {:induction false} EveryHostReported(job: Job, shell: Shell, hosts: seq<string>)
    ensures OverHosts(job, shell, hosts).0.Keys == set h | h in hosts
    ensures |hosts| <= OverHosts(job, shell, hosts).1 <= 3 * |hosts|
    decreases |hosts|
  {
    if hosts != [] {
      var init := hosts[..|hosts| - 1];
      EveryHostReported(job, shell, init);
      assert hosts == init + [hosts[|hosts| - 1]];
    }
  }

  /** A host's entry is the one from its last visit: earlier visits to a repeated name are overwritten. */
  lemma {:induction false} LastVisitWins(job: Job, shell: Shell, hosts: seq<string>, i: nat)
    requires i < |hosts| && forall j :: i < j < |hosts| ==> hosts[j] != hosts[i]
    ensures var results := OverHosts(job, shell, hosts).0;
      hosts[i] in results && results[hosts[i]] == OnHost(job, shell, OverHosts(job, shell, hosts[..i]).1, hosts[i]).0
    decreases |hosts|
  {
    var init := hosts[..|hosts| - 1];
    if i < |init| {
      assert init[..i] == hosts[..i];
      LastVisitWins(job, shell, init, i);
    }
  }

  /**
   * `cleanup_unused_packages`: a host whose commands all ran is reported
   * cleaned up, successfully exactly when both autoremove and autoclean exit
   * 0, each with its output on success and its error output otherwise; any
   * command raising, or apt missing, reports a failure instead.
   */
  lemma CleanupSuccess(shell: Shell, n: nat, hostname: string)
    ensures var res := OnHost(Cleanup, shell, n, hostname).0;
      var probe := Execute(shell, n, "which apt", false);
      var a := Execute(shell, n + 1, "apt autoremove -y", true);
      var c := Execute(shell, n + 2, "apt autoclean", true);
      && (res.CleanedUp? <==> probe.Ok? && probe.value.code == 0 && a.Ok? && c.Ok?)
      && (res.CleanedUp? ==>
            && (res.success <==> a.value.code == 0 && c.value.code == 0)
            && (res.autoremove.success <==> a.value.code == 0)
            && (res.autoclean.success <==> c.value.code == 0)
            && res.autoremove.output == (if a.value.code == 0 then a.value.stdout else a.value.stderr)
            && res.autoclean.output == (if c.value.code == 0 then c.value.stdout else c.value.stderr)
            && res.timestamp == hostname)
  {
  }

  /**
   * `check_security_updates`: a report counts every upgradable line, shows
   * at most the first ten names, and has no more security updates than
   * upgradable packages, each of them among those.
   */
  lemma SecurityReport(shell: Shell, n: nat, hostname: string)
    ensures var res := OnHost(CheckSecurity, shell, n, hostname).0;
      var x := Execute(shell, n + 1, "apt list --upgradable", false);
      res.UpdatesFound? ==>
        && x.Ok? && x.value.code == 0
        && var all := Upgradable(Split(Strip(x.value.stdout), '\n'));
        && res.upgradeableCount == |all|
        && res.upgradeable == all[..|res.upgradeable|]
        && |res.upgradeable| == (if |all| < 10 then |all| else 10)
        && res.securityCount == |res.security| <= res.upgradeableCount
        && multiset(res.security) <= multiset(all)
        && (forall p :: p in res.security <==> SecurityName(Split(Strip(x.value.stdout), '\n'), p))
        && res.timestamp == hostname
  {
    var x := Execute(shell, n + 1, "apt list --upgradable", false);
    var res := OnHost(CheckSecurity, shell, n, hostname).0;
    if res.UpdatesFound? {
      var lines := Split(Strip(x.value.stdout), '\n');
      SecurityAmongUpgradable(lines);
      SecurityNames(lines);
    }
  }

  /** `update_package_cache`: a host is reported updated exactly when apt is there and `sudo apt update` exits 0. */
  lemma CacheUpdatedIff(shell: Shell, n: nat, hostname: string)
    ensures var res := OnHost(UpdateCache, shell, n, hostname).0;
      var probe := Execute(shell, n, "which apt", false);
      var x := Execute(shell, n + 1, "apt update", true);
      && (res.CacheUpdated? <==> probe.Ok? && probe.value.code == 0 && x.Ok? && x.value.code == 0)
      && (res.CacheUpdated? ==> res == CacheUpdated(CacheMessage, hostname))
      && (probe.Ok? && probe.value.code == 0 && x.Ok? && x.value.code != 0 ==> res == HostFailed("Failed to update cache: " + x.value.stderr))
  {
  }
}
