/** mx_analyze_workids.py: combine `workid bibid` pair lines into a table
    from each workid to its bibids, warn about bibids that turn up under more
    than one workid, write the table sorted by workid and summarise it as a
    histogram of list sizes. */
module AnalyzeWorkids {
  import opened Text
  import Sorting

  const WorkidFmt := "http://worldcat.org/entity/work/id/%d"

  /** The warning raised when a bibid meets a workid it was not yet listed
      with: the bibid and all of its workids, the new one last. */
  datatype Conflict = Conflict(bibid: string, workids: seq<int>)

  /** The two dictionaries of a `workids` object, and the conflict warnings
      logged while they were filled. */
  datatype Tables = Tables(workids: map<int, seq<string>>, bibids: map<string, seq<int>>, conflicts: seq<Conflict>)

  const Empty := Tables(map[], map[], [])

  /** What `read` makes of one input line: a comment or blank line, a line
      it rejects (fewer than two tokens, or a first token that `int()`
      refuses), or a pair of tokens 0 and 1. */
  datatype PairLine = Ignored | Bad | Pair(workid: int, bibid: string)

  function ParsePairLine(line: string): PairLine
  {
    if IsIgnored(line) then Ignored
    else
      var d := Split(line);
      // With one token, int(d[0]) runs first and then d[1] raises: either
      // way the line is dropped.
      if |d| < 2 then Bad
      else match ParseInt(d[0])
        case None => Bad
        case Some(w) => Pair(w, d[1])
  }

  /** The list stored under `k`, or the empty list when there is none. */
  function ListOrEmpty<K, V>(m: map<K, seq<V>>, k: K): seq<V>
  {
    if k in m then m[k] else []
  }

  /** One accepted pair: append to the forward list, and extend the reverse
      list (warning) only when the workid is new for that bibid. */
  function Record(t: Tables, w: int, b: string): Tables
  {
    var forward := t.workids[w := if w in t.workids then t.workids[w] + [b] else [b]];
    if b in t.bibids then
      if w !in t.bibids[b] then
        var seen := t.bibids[b] + [w];
        Tables(forward, t.bibids[b := seen], t.conflicts + [Conflict(b, seen)])
      else Tables(forward, t.bibids, t.conflicts)
    else Tables(forward, t.bibids[b := [w]], t.conflicts)
  }

  function ReadLine(t: Tables, line: string): Tables
  {
    match ParsePairLine(line)
    case Pair(w, b) => Record(t, w, b)
    case _ => t
  }

  /** The tables after reading `lines` in order, starting from `t`. */
  function ReadLines(t: Tables, lines: seq<string>): Tables
    decreases |lines|
  {
    if |lines| == 0 then t
    else ReadLine(ReadLines(t, lines[..|lines| - 1]), lines[|lines| - 1])
  }

  predicate NoDuplicates<T(==)>(s: seq<T>)
  {
    forall i, j :: 0 <= i < j < |s| ==> s[i] != s[j]
  }

  /** Number of conflict warnings about bibid `b`. */
  function ConflictsAbout(log: seq<Conflict>, b: string): nat
  {
    if |log| == 0 then 0
    else ConflictsAbout(log[..|log| - 1], b) + (if log[|log| - 1].bibid == b then 1 else 0)
  }

  /** Lists are never empty, bibids are tokens, and a bibid lists each of
      its workids once. */
  ghost predicate WellFormed(t: Tables)
  {
    && (forall w :: w in t.workids ==> |t.workids[w]| > 0 && AllTokens(t.workids[w]))
    && (forall b :: b in t.bibids ==> IsToken(b) && |t.bibids[b]| > 0 && NoDuplicates(t.bibids[b]))
  }

  /** `b` is in `workids[w]` exactly when `w` is in `bibids[b]`. */
  ghost predicate Mirrored(t: Tables)
  {
    && (forall w, b :: w in t.workids && b in t.workids[w] ==> b in t.bibids && w in t.bibids[b])
    && (forall b, w :: b in t.bibids && w in t.bibids[b] ==> w in t.workids && b in t.workids[w])
  }

  /** One warning per workid of a bibid beyond its first. */
  ghost predicate ConflictsCounted(t: Tables)
  {
    forall b :: ConflictsAbout(t.conflicts, b) == if b in t.bibids then |t.bibids[b]| - 1 else 0
  }

  ghost predicate Invariant(t: Tables)
  {
    WellFormed(t) && Mirrored(t) && ConflictsCounted(t)
  }

  lemma RecordWellFormed(t: Tables, w: int, b: string)
    requires WellFormed(t) && IsToken(b)
    ensures WellFormed(Record(t, w, b))
  {
    var u := Record(t, w, b);
    forall v | v in u.workids
      ensures |u.workids[v]| > 0 && AllTokens(u.workids[v])
    {
      if v != w {
        assert u.workids[v] == t.workids[v];
      }
    }
    forall c | c in u.bibids
      ensures IsToken(c) && |u.bibids[c]| > 0 && NoDuplicates(u.bibids[c])
    {
      if c != b {
        assert u.bibids[c] == t.bibids[c];
      }
    }
  }

  lemma RecordMirrored(t: Tables, w: int, b: string)
    requires Mirrored(t)
    ensures Mirrored(Record(t, w, b))
  {
    var u := Record(t, w, b);
    forall v, c | v in u.workids && c in u.workids[v]
      ensures c in u.bibids && v in u.bibids[c]
    {
      if v != w {
        assert c in t.workids[v];
      } else if c != b && w in t.workids {
        assert c in t.workids[w];
      }
    }
    forall c, v | c in u.bibids && v in u.bibids[c]
      ensures v in u.workids && c in u.workids[v]
    {
      if c != b {
        assert v in t.bibids[c];
      } else if v != w {
        assert v in t.bibids[b];
      }
    }
  }

  lemma RecordCounted(t: Tables, w: int, b: string)
    requires ConflictsCounted(t)
    ensures ConflictsCounted(Record(t, w, b))
  {
    var u := Record(t, w, b);
    if b in t.bibids && w !in t.bibids[b] {
      var seen := t.bibids[b] + [w];
      assert u.conflicts == t.conflicts + [Conflict(b, seen)];
      assert u.bibids == t.bibids[b := seen];
      forall c
        ensures ConflictsAbout(u.conflicts, c) == if c in u.bibids then |u.bibids[c]| - 1 else 0
      {
        ConflictsAboutSnoc(t.conflicts, Conflict(b, seen), c);
      }
    } else if b in t.bibids {
      assert u.conflicts == t.conflicts && u.bibids == t.bibids;
    } else {
      assert u.conflicts == t.conflicts && u.bibids == t.bibids[b := [w]];
      forall c
        ensures ConflictsAbout(u.conflicts, c) == if c in u.bibids then |u.bibids[c]| - 1 else 0
      {
        if c == b {
          assert ConflictsAbout(t.conflicts, c) == 0;
        }
      }
    }
  }

  lemma ConflictsAboutSnoc(log: seq<Conflict>, x: Conflict, c: string)
    ensures ConflictsAbout(log + [x], c) == ConflictsAbout(log, c) + (if x.bibid == c then 1 else 0)
  {
    assert (log + [x])[..|log|] == log;
  }

  lemma RecordPreserves(t: Tables, w: int, b: string)
    requires Invariant(t) && IsToken(b)
    ensures Invariant(Record(t, w, b))
  {
    RecordWellFormed(t, w, b);
    RecordMirrored(t, w, b);
    RecordCounted(t, w, b);
  }

  /** Every line keeps the invariant. */
  lemma ReadLinePreserves(t: Tables, line: string)
    requires Invariant(t)
    ensures Invariant(ReadLine(t, line))
  {
    match ParsePairLine(line)
    case Pair(w, b) =>
      RecordPreserves(t, w, b);
    case _ =>
  }

  lemma {:induction false} ReadLinesPreserves(t: Tables, lines: seq<string>)
    requires Invariant(t)
    ensures Invariant(ReadLines(t, lines))
    decreases |lines|
  {
    if |lines| > 0 {
      ReadLinesPreserves(t, lines[..|lines| - 1]);
      ReadLinePreserves(ReadLines(t, lines[..|lines| - 1]), lines[|lines| - 1]);
    }
  }

  /** The effect of one line: comment, blank and rejected lines change
      nothing; an accepted pair appends its bibid to its workid's list and
      leaves every other workid alone; a warning is logged exactly when the
      bibid is known but not yet with this workid, and it lists all of the
      bibid's workids. */
  lemma ReadLineEffect(t: Tables, line: string)
    ensures !ParsePairLine(line).Pair? ==> ReadLine(t, line) == t
    ensures ParsePairLine(line).Pair? ==>
      var w, b, u := ParsePairLine(line).workid, ParsePairLine(line).bibid, ReadLine(t, line);
      && u.workids.Keys == t.workids.Keys + {w}
      && u.workids[w] == ListOrEmpty(t.workids, w) + [b]
      && (forall v :: v in t.workids && v != w ==> u.workids[v] == t.workids[v])
      && b in u.bibids && w in u.bibids[b]
      && (u.conflicts != t.conflicts <==> b in t.bibids && w !in t.bibids[b])
      && (u.conflicts != t.conflicts ==> u.conflicts == t.conflicts + [Conflict(b, u.bibids[b])])
  {
  }

  /** A line with more than two tokens is read as its first two. */
  lemma ExtraTokensDropped(first: string, bibid: string, rest: seq<string>, w: int)
    requires IsToken(first) && IsToken(bibid) && AllTokens(rest)
    requires ParseInt(first) == Some(w)
    ensures ParsePairLine(Join([first, bibid] + rest)) == Pair(w, bibid)
  {
    var line := Join([first, bibid] + rest);
    SplitJoin([first, bibid] + rest);
    IgnoredByTokens(line);
    assert first[0] != '#';
  }

  /** The bibids of the accepted lines about workid `w`, in input order. */
  function BibidsOf(lines: seq<string>, w: int): seq<string>
    decreases |lines|
  {
    if |lines| == 0 then []
    else
      var p := ParsePairLine(lines[|lines| - 1]);
      BibidsOf(lines[..|lines| - 1], w) + (if p.Pair? && p.workid == w then [p.bibid] else [])
  }

  /** The workids of the accepted lines about bibid `b`, in input order. */
  function WorkidsOf(lines: seq<string>, b: string): seq<int>
    decreases |lines|
  {
    if |lines| == 0 then []
    else
      var p := ParsePairLine(lines[|lines| - 1]);
      WorkidsOf(lines[..|lines| - 1], b) + (if p.Pair? && p.bibid == b then [p.workid] else [])
  }

  /** `s` followed by the elements of `more` it does not hold yet, each
      once, in first-seen order. */
  function AppendNew<T(==)>(s: seq<T>, more: seq<T>): seq<T>
    decreases |more|
  {
    if |more| == 0 then s
    else
      var s' := AppendNew(s, more[..|more| - 1]);
      if more[|more| - 1] in s' then s' else s' + [more[|more| - 1]]
  }

  /** The forward table keeps every accepted pair, duplicates included:
      each workid's list is its old list followed by the bibids of the
      accepted lines about it, in input order. */
  lemma {:induction false} ReadLinesForward(t: Tables, lines: seq<string>, w: int)
    ensures w in ReadLines(t, lines).workids <==> w in t.workids || |BibidsOf(lines, w)| > 0
    ensures w in ReadLines(t, lines).workids ==>
      ReadLines(t, lines).workids[w] == ListOrEmpty(t.workids, w) + BibidsOf(lines, w)
    decreases |lines|
  {
    if |lines| > 0 {
      ReadLinesForward(t, lines[..|lines| - 1], w);
    }
  }

  /** The reverse table lists, for each bibid, the distinct workids it was
      paired with, in first-seen order. */
  lemma {:induction false} ReadLinesReverse(t: Tables, lines: seq<string>, b: string)
    ensures b in ReadLines(t, lines).bibids <==> b in t.bibids || |WorkidsOf(lines, b)| > 0
    ensures b in ReadLines(t, lines).bibids ==>
      ReadLines(t, lines).bibids[b] == AppendNew(ListOrEmpty(t.bibids, b), WorkidsOf(lines, b))
    decreases |lines|
  {
    if |lines| > 0 {
      var prefix, last := lines[..|lines| - 1], lines[|lines| - 1];
      ReadLinesReverse(t, prefix, b);
      ReadLineReverse(ReadLines(t, prefix), last, b);
      var ws := WorkidsOf(lines, b);
      var p := ParsePairLine(last);
      if p.Pair? && p.bibid == b {
        assert ws == WorkidsOf(prefix, b) + [p.workid];
        assert ws[..|ws| - 1] == WorkidsOf(prefix, b);
      } else {
        assert ws == WorkidsOf(prefix, b);
      }
    }
  }

  /** One line extends a bibid's reverse list by the line's workid when
      the line is about that bibid and the workid is new for it. */
  lemma ReadLineReverse(t: Tables, line: string, b: string)
    ensures var p := ParsePairLine(line);
      && (b in ReadLine(t, line).bibids <==> b in t.bibids || (p.Pair? && p.bibid == b))
      && (b in ReadLine(t, line).bibids ==>
            ReadLine(t, line).bibids[b] ==
              if p.Pair? && p.bibid == b && p.workid !in ListOrEmpty(t.bibids, b)
              then ListOrEmpty(t.bibids, b) + [p.workid]
              else ListOrEmpty(t.bibids, b))
  {
  }

  lemma ListsNonEmpty(t: Tables)
    requires WellFormed(t)
    ensures forall w :: w in t.workids ==> |t.workids[w]| > 0
  {
  }

  lemma EmptyInvariant()
    ensures Invariant(Empty)
  {
  }

  /** Reading a whole file from scratch logs one warning for each distinct
      workid of a bibid beyond its first. */
  lemma ConflictsPerBibid(lines: seq<string>, b: string)
    ensures ConflictsAbout(ReadLines(Empty, lines).conflicts, b) ==
      if |WorkidsOf(lines, b)| == 0 then 0 else |AppendNew([], WorkidsOf(lines, b))| - 1
  {
    EmptyInvariant();
    ReadLinesPreserves(Empty, lines);
    ReadLinesReverse(Empty, lines, b);
    assert ListOrEmpty(Empty.bibids, b) == [];
  }

  /** ... and keeps every pair of a conflicted bibid in the forward table:
      conflicts are reported, never resolved. */
  lemma ConflictedPairsKept(lines: seq<string>, b: string, w: int)
    requires w in WorkidsOf(lines, b)
    ensures w in ReadLines(Empty, lines).workids && b in ReadLines(Empty, lines).workids[w]
  {
    EmptyInvariant();
    ReadLinesPreserves(Empty, lines);
    ReadLinesReverse(Empty, lines, b);
    assert ListOrEmpty(Empty.bibids, b) == [];
    AppendNewHolds([], WorkidsOf(lines, b), w);
  }

  lemma {:induction false} AppendNewHolds<T>(s: seq<T>, more: seq<T>, x: T)
    requires x in more
    ensures x in AppendNew(s, more)
    decreases |more|
  {
    if x != more[|more| - 1] {
      assert x in more[..|more| - 1];
      AppendNewHolds(s, more[..|more| - 1], x);
    }
  }

  /** One output line: `"%d %s" % (workid, " ".join(bibids))`. */
  function WorksLine(w: int, bibids: seq<string>): string
  {
    IntToDecimal(w) + " " + Join(bibids)
  }

  function Header(workidFmt: string, bibidFmt: string): seq<string>
  {
    [ "#workid bibids",
      "#workid fmt string is " + workidFmt + " to get URI",
      "#prefix fmt string is  " + bibidFmt + " to get URI" ]
  }

  /** Splitting an output line gives back its workid and its bibids, and
      the line is not mistaken for a comment. */
  lemma WorksLineRoundTrip(w: int, bibids: seq<string>)
    requires |bibids| > 0 && AllTokens(bibids)
    ensures Split(WorksLine(w, bibids)) == [IntToDecimal(w)] + bibids
    ensures ParseInt(IntToDecimal(w)) == Some(w)
    ensures !IsIgnored(WorksLine(w, bibids))
  {
    IntToDecimalRoundTrip(w);
    var ts := [IntToDecimal(w)] + bibids;
    assert ts[1..] == bibids;
    assert Join(ts) == WorksLine(w, bibids);
    SplitJoin(ts);
    IgnoredByTokens(WorksLine(w, bibids));
  }

  lemma WorksLineLeading(w: int, bibids: seq<string>)
    requires |bibids| > 0 && AllTokens(bibids)
    ensures LeadingWorkid(WorksLine(w, bibids)) == Some(w)
    ensures Split(WorksLine(w, bibids))[1..] == bibids
    ensures !IsIgnored(WorksLine(w, bibids))
  {
    WorksLineRoundTrip(w, bibids);
  }

  lemma HeaderIgnored(workidFmt: string, bibidFmt: string)
    ensures forall i :: 0 <= i < 3 ==> IsIgnored(Header(workidFmt, bibidFmt)[i])
  {
  }

  /** `body` lists `workids` one workid per line, in ascending numeric
      order: no line reads as a comment, each is the line `WorksLine` writes
      for a workid of the table (so it starts with that workid followed by
      exactly its bibids), and every workid has a line. */
  ghost predicate ListsTable(workids: map<int, seq<string>>, body: seq<string>)
  {
    && (forall i :: 0 <= i < |body| ==> !IsIgnored(body[i]))
    && (forall i :: 0 <= i < |body| ==>
          LeadingWorkid(body[i]).Some? && LeadingWorkid(body[i]).value in workids &&
          Split(body[i])[1..] == workids[LeadingWorkid(body[i]).value] &&
          body[i] == WorksLine(LeadingWorkid(body[i]).value, workids[LeadingWorkid(body[i]).value]))
    && (forall i, j :: 0 <= i < j < |body| ==>
          LeadingWorkid(body[i]).value < LeadingWorkid(body[j]).value)
    && (forall w :: w in workids ==> exists i :: 0 <= i < |body| && LeadingWorkid(body[i]) == Some(w))
  }

  /** Lines written for ascending keys list the table in ascending order. */
  lemma BodyListsTable(workids: map<int, seq<string>>, keys: seq<int>, body: seq<string>)
    requires forall w :: w in workids ==> |workids[w]| > 0 && AllTokens(workids[w])
    requires forall i, j :: 0 <= i < j < |keys| ==> keys[i] < keys[j]
    requires forall x :: x in keys <==> x in workids
    requires |body| == |keys|
    requires forall k :: 0 <= k < |keys| ==> body[k] == WorksLine(keys[k], workids[keys[k]])
    ensures ListsTable(workids, body)
  {
    forall k | 0 <= k < |keys|
      ensures LeadingWorkid(body[k]) == Some(keys[k])
      ensures Split(body[k])[1..] == workids[keys[k]]
      ensures !IsIgnored(body[k])
    {
      assert keys[k] in workids;
      WorksLineLeading(keys[k], workids[keys[k]]);
    }
    forall i, j | 0 <= i < j < |body|
      ensures LeadingWorkid(body[i]).value < LeadingWorkid(body[j]).value
    {
    }
    forall w | w in workids
      ensures exists i :: 0 <= i < |body| && LeadingWorkid(body[i]) == Some(w)
    {
      var k :| 0 <= k < |keys| && keys[k] == w;
      assert LeadingWorkid(body[k]) == Some(w);
    }
  }

  /** The workid a line starts with, if its first token is an integer. */
  function LeadingWorkid(line: string): Option<int>
  {
    var d := Split(line);
    if |d| == 0 then None else ParseInt(d[0])
  }

  function Min(a: int, b: int): int
  {
    if a < b then a else b
  }

  /** The workids whose list has exactly `n` bibids. */
  ghost function WithSize(workids: map<int, seq<string>>, ws: set<int>, n: int): set<int>
  {
    set w | w in ws && w in workids && |workids[w]| == n
  }

  /** The first workid met with a given list size, and the first three (at
      most) of its bibids. */
  datatype Example = Example(workid: int, bibids: seq<string>)

  /** One histogram line: list size, number of workids with that size, and
      the example. */
  datatype HistogramRow = HistogramRow(size: int, count: nat, example: Example)

  function SumCounts(rows: seq<HistogramRow>): nat
  {
    if |rows| == 0 then 0 else rows[0].count + SumCounts(rows[1..])
  }

  /** Some row is about list size `n`. */
  predicate HasRow(rows: seq<HistogramRow>, n: int)
  {
    |rows| > 0 && (rows[0].size == n || HasRow(rows[1..], n))
  }

  /** The workids whose list size has a row. */
  ghost function Covered(workids: map<int, seq<string>>, rows: seq<HistogramRow>): set<int>
  {
    set w | w in workids && HasRow(rows, |workids[w]|)
  }

  /** Rows for distinct sizes, each counting the workids of its size, add up
      to the number of workids whose size has a row. */
  lemma {:induction false} SumCountsCovered(workids: map<int, seq<string>>, rows: seq<HistogramRow>)
    requires forall i, j :: 0 <= i < j < |rows| ==> rows[i].size != rows[j].size
    requires forall i :: 0 <= i < |rows| ==> rows[i].count == |WithSize(workids, workids.Keys, rows[i].size)|
    ensures SumCounts(rows) == |Covered(workids, rows)|
    decreases |rows|
  {
    if |rows| == 0 {
      forall w
        ensures w !in Covered(workids, rows)
      {
      }
      assert Covered(workids, rows) == {};
    } else {
      var head := WithSize(workids, workids.Keys, rows[0].size);
      var tail := Covered(workids, rows[1..]);
      SumCountsCovered(workids, rows[1..]);
      forall w
        ensures w in Covered(workids, rows) <==> w in head + tail
      {
        if w in workids {
          assert HasRow(rows, |workids[w]|) <==> rows[0].size == |workids[w]| || HasRow(rows[1..], |workids[w]|);
        }
      }
      assert Covered(workids, rows) == head + tail;
      forall w | w in head && w in tail
        ensures false
      {
        HasRowAt(rows[1..], |workids[w]|);
      }
      assert head * tail == {};
    }
  }

  lemma {:induction false} HasRowFrom(rows: seq<HistogramRow>, i: int)
    requires 0 <= i < |rows|
    ensures HasRow(rows, rows[i].size)
    decreases i
  {
    if i > 0 {
      HasRowFrom(rows[1..], i - 1);
    }
  }

  lemma {:induction false} HasRowAt(rows: seq<HistogramRow>, n: int)
    requires HasRow(rows, n)
    ensures exists i :: 0 <= i < |rows| && rows[i].size == n
    decreases |rows|
  {
    if rows[0].size != n {
      HasRowAt(rows[1..], n);
      var i :| 0 <= i < |rows[1..]| && rows[1..][i].size == n;
      assert rows[i + 1].size == n;
    }
  }

  /** `e` is a workid whose list has `n` bibids, with the first three (at
      most) of them. */
  ghost predicate IsExample(workids: map<int, seq<string>>, e: Example, n: int)
  {
    e.workid in workids && |workids[e.workid]| == n && e.bibids == workids[e.workid][..Min(3, n)]
  }

  /** What the first loop of `stats` has built after visiting the workids
      in `done`. */
  ghost predicate Tallied(workids: map<int, seq<string>>, done: set<int>, counts: map<int, nat>, example: map<int, Example>)
  {
    && done <= workids.Keys
    && counts.Keys == example.Keys
    && (forall w :: w in done ==> |workids[w]| in counts)
    && (forall n :: n in counts ==> counts[n] == |WithSize(workids, done, n)|)
    && (forall n :: n in example ==> IsExample(workids, example[n], n))
  }

  lemma WithSizeAdd(workids: map<int, seq<string>>, done: set<int>, w: int, m: int)
    requires w in workids && w !in done
    ensures |WithSize(workids, done + {w}, m)| ==
      |WithSize(workids, done, m)| + (if m == |workids[w]| then 1 else 0)
  {
    if m == |workids[w]| {
      assert WithSize(workids, done + {w}, m) == WithSize(workids, done, m) + {w};
    } else {
      assert WithSize(workids, done + {w}, m) == WithSize(workids, done, m);
    }
  }

  lemma TallyEmpty(workids: map<int, seq<string>>)
    ensures Tallied(workids, {}, map[], map[])
  {
  }

  /** Visiting one more workid whose size was seen before keeps the tally. */
  lemma TallyBump(workids: map<int, seq<string>>, done: set<int>, counts: map<int, nat>, example: map<int, Example>, w: int)
    requires Tallied(workids, done, counts, example)
    requires w in workids && w !in done && |workids[w]| in counts
    ensures Tallied(workids, done + {w}, counts[|workids[w]| := counts[|workids[w]|] + 1], example)
  {
    var n := |workids[w]|;
    var counts' := counts[n := counts[n] + 1];
    forall m | m in counts'
      ensures counts'[m] == |WithSize(workids, done + {w}, m)|
    {
      WithSizeAdd(workids, done, w, m);
    }
  }

  /** Visiting one more workid of a size not seen before starts a new tally
      for that size, with this workid as its example. */
  lemma TallyNew(workids: map<int, seq<string>>, done: set<int>, counts: map<int, nat>, example: map<int, Example>, w: int)
    requires Tallied(workids, done, counts, example)
    requires w in workids && w !in done && |workids[w]| !in counts
    ensures var n := |workids[w]|;
      Tallied(workids, done + {w}, counts[n := 1], example[n := Example(w, workids[w][..Min(3, n)])])
  {
    var n := |workids[w]|;
    var counts' := counts[n := 1];
    assert forall v :: v in done ==> |workids[v]| != n;
    assert WithSize(workids, done, n) == {};
    forall m | m in counts'
      ensures counts'[m] == |WithSize(workids, done + {w}, m)|
    {
      WithSizeAdd(workids, done, w, m);
    }
  }

  /** The histogram `stats` logs for `workids`: one row per list size, in
      ascending order, each size at least 1, each counting the workids of
      that size and carrying one of them as its example; the counts add up
      to the number of workids. */
  ghost predicate Histogram(workids: map<int, seq<string>>, rows: seq<HistogramRow>)
  {
    && (forall i, j :: 0 <= i < j < |rows| ==> rows[i].size < rows[j].size)
    && (forall i :: 0 <= i < |rows| ==>
          rows[i].size >= 1 && rows[i].count == |WithSize(workids, workids.Keys, rows[i].size)|)
    && (forall i :: 0 <= i < |rows| ==> IsExample(workids, rows[i].example, rows[i].size))
    && (forall w :: w in workids ==> exists i :: 0 <= i < |rows| && rows[i].size == |workids[w]|)
    && SumCounts(rows) == |workids|
  }

  /** The rows listed for the sorted keys of a complete tally. */
  lemma TallyRows(workids: map<int, seq<string>>, counts: map<int, nat>, example: map<int, Example>, keys: seq<int>, rows: seq<HistogramRow>)
    requires Tallied(workids, workids.Keys, counts, example)
    requires forall w :: w in workids ==> |workids[w]| > 0
    requires forall i, j :: 0 <= i < j < |keys| ==> keys[i] < keys[j]
    requires forall x :: x in keys <==> x in counts.Keys
    requires forall k :: 0 <= k < |keys| ==> keys[k] in counts && keys[k] in example
    requires |rows| == |keys|
    requires forall k :: 0 <= k < |keys| ==> rows[k] == HistogramRow(keys[k], counts[keys[k]], example[keys[k]])
    ensures Histogram(workids, rows)
  {
    forall i, j | 0 <= i < j < |rows|
      ensures rows[i].size < rows[j].size
    {
    }
    forall i | 0 <= i < |rows|
      ensures rows[i].size >= 1
    {
      assert keys[i] in example;
      assert IsExample(workids, example[keys[i]], keys[i]);
    }
    forall w | w in workids
      ensures exists i :: 0 <= i < |rows| && rows[i].size == |workids[w]|
    {
      var k :| 0 <= k < |keys| && keys[k] == |workids[w]|;
      assert rows[k].size == |workids[w]|;
    }
    SumCountsAll(workids, rows);
  }

  /** Rows for distinct sizes that between them cover every workid count
      every workid exactly once. */
  lemma SumCountsAll(workids: map<int, seq<string>>, rows: seq<HistogramRow>)
    requires forall i, j :: 0 <= i < j < |rows| ==> rows[i].size < rows[j].size
    requires forall i :: 0 <= i < |rows| ==> rows[i].count == |WithSize(workids, workids.Keys, rows[i].size)|
    requires forall w :: w in workids ==> exists i :: 0 <= i < |rows| && rows[i].size == |workids[w]|
    ensures SumCounts(rows) == |workids|
  {
    forall w | w in workids
      ensures w in Covered(workids, rows)
    {
      var k :| 0 <= k < |rows| && rows[k].size == |workids[w]|;
      HasRowFrom(rows, k);
    }
    SumCountsCovered(workids, rows);
    assert Covered(workids, rows) == workids.Keys;
  }

  /** The second loop of `stats`: one row per size, in the order given. */
  method ListRows(keys: seq<int>, counts: map<int, nat>, example: map<int, Example>) returns (rows: seq<HistogramRow>)
    requires forall k :: 0 <= k < |keys| ==> keys[k] in counts && keys[k] in example
    ensures |rows| == |keys|
    ensures forall k :: 0 <= k < |keys| ==> rows[k] == HistogramRow(keys[k], counts[keys[k]], example[keys[k]])
  {
    rows := [];
    var i := 0;
    while i < |keys|
      invariant i <= |keys|
      invariant |rows| == i
      invariant forall k :: 0 <= k < i ==> rows[k] == HistogramRow(keys[k], counts[keys[k]], example[keys[k]])
    {
      rows := rows + [HistogramRow(keys[i], counts[keys[i]], example[keys[i]])];
      i := i + 1;
    }
  }

  class Workids {
    var workids: map<int, seq<string>>
    var bibids: map<string, seq<int>>
    var conflicts: seq<Conflict>
    var workidFmt: string
    var bibidFmt: string

    ghost function State(): Tables
      reads this
    {
      Tables(workids, bibids, conflicts)
    }

    ghost predicate Valid()
      reads this
    {
      Invariant(State())
    }

    /** `workids(file=None)`: empty tables, filled from the file's lines
        when one is given. */
    constructor (file: Option<seq<string>>)
      ensures Valid()
      ensures State() == if file.Some? then ReadLines(Empty, file.value) else Empty
      ensures workidFmt == WorkidFmt && bibidFmt == "%s"
    {
      workids := map[];
      bibids := map[];
      conflicts := [];
      workidFmt := WorkidFmt;
      bibidFmt := "%s";
      new;
      if file.Some? {
        var _ := Read(file.value);
      }
    }

    /** `read`: returns the number of lines read. */
    method Read(lines: seq<string>) returns (n: nat)
      requires Valid()
      modifies this
      ensures Valid()
      ensures State() == ReadLines(old(State()), lines)
      ensures workidFmt == old(workidFmt) && bibidFmt == old(bibidFmt)
      ensures n == |lines|
    {
      n := 0;
      while n < |lines|
        invariant n <= |lines|
        invariant Valid()
        invariant State() == ReadLines(old(State()), lines[..n])
        invariant workidFmt == old(workidFmt) && bibidFmt == old(bibidFmt)
      {
        var line := lines[n];
        ghost var before := State();
        n := n + 1;
        if !IsIgnored(line) {
          var d := Split(line);
          var parsed := if |d| < 2 then None else ParseInt(d[0]);
          if parsed.Some? {
            var workid, bibid := parsed.value, d[1];
            assert ParsePairLine(line) == Pair(workid, bibid);
            if workid in workids {
              workids := workids[workid := workids[workid] + [bibid]];
            } else {
              workids := workids[workid := [bibid]];
            }
            if bibid in bibids {
              if workid !in bibids[bibid] {
                bibids := bibids[bibid := bibids[bibid] + [workid]];
                conflicts := conflicts + [Conflict(bibid, bibids[bibid])];
              }
            } else {
              bibids := bibids[bibid := [workid]];
            }
            assert State() == Record(before, workid, bibid);
          } else {
            assert !ParsePairLine(line).Pair?;
          }
        }
        assert State() == ReadLine(before, line);
        assert lines[..n][..n - 1] == lines[..n - 1];
        ReadLinePreserves(before, line);
      }
      assert lines[..n] == lines;
    }

    /** `write_works_data`: three header lines, then one line per workid in
        ascending numeric order, each splitting back into that workid and
        its bibids in stored order. Only the header lines read as comments. */
    method WriteWorksData() returns (out: seq<string>)
      requires Valid()
      ensures |out| == 3 + |workids|
      ensures out[..3] == Header(workidFmt, bibidFmt)
      ensures forall i :: 0 <= i < 3 ==> IsIgnored(out[i])
      ensures ListsTable(workids, out[3..])
    {
      var keys := Sorting.SortInts(workids.Keys);
      var body := [];
      var i := 0;
      while i < |keys|
        invariant i <= |keys|
        invariant |body| == i
        invariant forall k :: 0 <= k < i ==> body[k] == WorksLine(keys[k], workids[keys[k]])
      {
        body := body + [WorksLine(keys[i], workids[keys[i]])];
        i := i + 1;
      }
      out := Header(workidFmt, bibidFmt) + body;
      assert out[3..] == body;
      HeaderIgnored(workidFmt, bibidFmt);
      BodyListsTable(workids, keys, body);
    }

    /** The first loop of `stats`: visits every workid once, in any order,
        counting the workids of each list size and keeping the first one
        seen of each size as its example. */
    method Tally() returns (counts: map<int, nat>, example: map<int, Example>)
      ensures Tallied(workids, workids.Keys, counts, example)
    {
      var table := workids;
      counts := map[];
      example := map[];
      var rest := table.Keys;
      ghost var done: set<int> := {};
      TallyEmpty(table);
      while rest != {}
        invariant rest !! done && rest + done == table.Keys
        invariant Tallied(table, done, counts, example)
        decreases rest
      {
        var workid := Sorting.Pick(rest);
        var n := |table[workid]|;
        if n in counts {
          TallyBump(table, done, counts, example, workid);
          counts := counts[n := counts[n] + 1];
        } else {
          TallyNew(table, done, counts, example, workid);
          counts := counts[n := 1];
          example := example[n := Example(workid, table[workid][..Min(3, n)])];
        }
        rest := rest - {workid};
        done := done + {workid};
      }
    }

    /** `stats`: for each list size, in ascending order, how many workids
        have a list of that size, and one of them as an example with at
        most three of its bibids. */
    method Stats() returns (rows: seq<HistogramRow>)
      requires Valid()
      ensures Histogram(workids, rows)
    {
      var counts, example := Tally();
      var keys := Sorting.SortInts(counts.Keys);
      assert forall k :: 0 <= k < |keys| ==> keys[k] in counts && keys[k] in example by {
        forall k | 0 <= k < |keys|
          ensures keys[k] in counts && keys[k] in example
        {
          assert keys[k] in keys;
        }
      }
      rows := ListRows(keys, counts, example);
      ListsNonEmpty(State());
      TallyRows(workids, counts, example, keys, rows);
    }
  }
}
