/** mx_get_oclc_workids.py: index our bibids by OCLC number, stream OCLC's
    three-column concordance (`oclcnum oclcnum workid`) looking each line up
    in that index, collect the bibids found under each OCLC workid and write
    them out sorted by workid. */
module GetOclcWorkids {
  import opened Text
  import Sorting
  import opened Totals

  /** What `read` makes of one line of the bibid–oclcnum file: a comment or
      blank line, a line with fewer than two tokens, or tokens 0 and 1. */
  datatype IndexLine = Skipped | Short | Entry(bibid: string, oclcnum: string)

  function ParseIndexLine(line: string): IndexLine
  {
    if IsIgnored(line) then Skipped
    else
      var d := Split(line);
      if |d| < 2 then Short else Entry(d[0], d[1])
  }

  /** `bibids[oclcnum] = bibid` for an entry line; other lines change nothing. */
  function ReadLine(index: map<string, string>, line: string): map<string, string>
  {
    match ParseIndexLine(line)
    case Entry(b, o) => index[o := b]
    case _ => index
  }

  /** The index after reading `lines` in order, starting from `index`. */
  function ReadLines(index: map<string, string>, lines: seq<string>): map<string, string>
    decreases |lines|
  {
    if |lines| == 0 then index
    else ReadLine(ReadLines(index, lines[..|lines| - 1]), lines[|lines| - 1])
  }

  /** `line` is an entry line for OCLC number `o`. */
  predicate Registers(line: string, o: string)
  {
    ParseIndexLine(line).Entry? && ParseIndexLine(line).oclcnum == o
  }

  /** An OCLC number is indexed after reading exactly when it was indexed
      before or some entry line names it; its bibid is the one on the last
      such line, and numbers no line names keep their old bibid. */
  lemma {:induction false} LastWins(index: map<string, string>, lines: seq<string>, o: string)
    ensures o in ReadLines(index, lines) <==>
      o in index || exists i :: 0 <= i < |lines| && Registers(lines[i], o)
    ensures forall i :: (0 <= i < |lines| && Registers(lines[i], o) &&
      (forall j :: i < j < |lines| ==> !Registers(lines[j], o))) ==>
        ReadLines(index, lines)[o] == ParseIndexLine(lines[i]).bibid
    ensures (forall i :: 0 <= i < |lines| ==> !Registers(lines[i], o)) && o in index ==>
      ReadLines(index, lines)[o] == index[o]
    decreases |lines|
  {
    if |lines| > 0 {
      var prefix := lines[..|lines| - 1];
      var last := lines[|lines| - 1];
      LastWins(index, prefix, o);
      ReadLineAt(ReadLines(index, prefix), last, o);
      forall i | 0 <= i < |prefix|
        ensures prefix[i] == lines[i]
      {
      }
      if Registers(last, o) {
        assert Registers(lines[|lines| - 1], o);
      } else {
        if i :| 0 <= i < |lines| && Registers(lines[i], o) {
          assert i < |prefix|;
          assert Registers(prefix[i], o);
        }
      }
    }
  }

  /** One line sets the entry for `o` when it registers `o`, and otherwise
      leaves it as it was. */
  lemma ReadLineAt(index: map<string, string>, line: string, o: string)
    ensures Registers(line, o) ==>
      o in ReadLine(index, line) && ReadLine(index, line)[o] == ParseIndexLine(line).bibid
    ensures !Registers(line, o) ==>
      (o in ReadLine(index, line) <==> o in index) &&
      (o in index ==> ReadLine(index, line)[o] == index[o])
  {
  }

  /** Only the first OCLC number on a line is indexed: a line made of a
      bibid, an OCLC number and any further tokens maps that number, and no
      other, to the bibid. */
  lemma OnlyFirstOclcnum(index: map<string, string>, bibid: string, oclcnum: string, rest: seq<string>)
    requires IsToken(bibid) && IsToken(oclcnum) && AllTokens(rest)
    requires bibid[0] != '#'
    ensures ParseIndexLine(Join([bibid, oclcnum] + rest)) == Entry(bibid, oclcnum)
    ensures ReadLine(index, Join([bibid, oclcnum] + rest)) == index[oclcnum := bibid]
  {
    var line := Join([bibid, oclcnum] + rest);
    SplitJoin([bibid, oclcnum] + rest);
    IgnoredByTokens(line);
  }

  /** Bibids and OCLC numbers come from `split()`, so they are tokens. */
  ghost predicate IndexOfTokens(index: map<string, string>)
  {
    forall o :: o in index ==> IsToken(o) && IsToken(index[o])
  }

  lemma {:induction false} ReadLinesTokens(index: map<string, string>, lines: seq<string>)
    requires IndexOfTokens(index)
    ensures IndexOfTokens(ReadLines(index, lines))
    decreases |lines|
  {
    if |lines| > 0 {
      ReadLinesTokens(index, lines[..|lines| - 1]);
    }
  }

  /** `add_work`: append `bibid` to the list of `workid`, creating it when
      the workid is new. */
  function AddedWork(works: map<string, seq<string>>, bibid: string, workid: string): (r: map<string, seq<string>>)
    ensures r.Keys == works.Keys + {workid}
    ensures workid in works ==> r[workid] == works[workid] + [bibid]
    ensures workid !in works ==> r[workid] == [bibid]
    ensures forall k :: k in works && k != workid ==> r[k] == works[k]
  {
    if workid in works then works[workid := works[workid] + [bibid]] else works[workid := [bibid]]
  }

  /** The length of each list in `works`. */
  function Sizes(works: map<string, seq<string>>): map<string, nat>
  {
    map k | k in works :: |works[k]|
  }

  /** The number of (workid, bibid) entries in `works`, duplicates counted. */
  ghost function Entries(works: map<string, seq<string>>): nat
  {
    Total(Sizes(works))
  }

  /** `add_work` adds exactly one entry. */
  lemma AddWorkCount(works: map<string, seq<string>>, bibid: string, workid: string)
    ensures Entries(AddedWork(works, bibid, workid)) == Entries(works) + 1
  {
    var r := AddedWork(works, bibid, workid);
    var n := if workid in works then |works[workid]| else 0;
    assert Sizes(r) == Sizes(works)[workid := n + 1];
    TotalUpdate(Sizes(works), workid, n + 1);
  }

  /** Workids and their bibids are tokens, and no list is empty. */
  ghost predicate WorksOfTokens(works: map<string, seq<string>>)
  {
    forall w :: w in works ==> IsToken(w) && |works[w]| > 0 && AllTokens(works[w])
  }

  /** Where a concordance line found its bibid. */
  datatype Hit = Col1 | Col2 | Miss

  /** Column 1 is looked up first; column 2 only when column 1 is not indexed. */
  function Lookup(index: map<string, string>, oclcnum1: string, oclcnum2: string): (h: Hit)
    ensures h == Col1 <==> oclcnum1 in index
    ensures h == Col2 <==> oclcnum1 !in index && oclcnum2 in index
    ensures h == Miss <==> oclcnum1 !in index && oclcnum2 !in index
  {
    if oclcnum1 in index then Col1 else if oclcnum2 in index then Col2 else Miss
  }

  /** The variables of the concordance loop: the works collected, the line
      counter `n`, the two match counters, and whether a line failed to
      unpack into three tokens (the `ValueError` that ends the run). */
  datatype JoinState = JoinState(works: map<string, seq<string>>, n: nat, num1: nat, num2: nat, aborted: bool)

  /** One iteration of the loop; after a failed line nothing more is read. */
  function JoinLine(index: map<string, string>, s: JoinState, line: string): JoinState
  {
    if s.aborted then s
    else
      var d := Split(line);
      var s' := s.(n := s.n + 1);
      if |d| != 3 then s'.(aborted := true)
      else match Lookup(index, d[0], d[1])
        case Col1 => s'.(works := AddedWork(s.works, index[d[0]], d[2]), num1 := s.num1 + 1)
        case Col2 => s'.(works := AddedWork(s.works, index[d[1]], d[2]), num2 := s.num2 + 1)
        case Miss => s'
  }

  /** The loop over the concordance `lines`, starting from `s`. */
  function JoinLines(index: map<string, string>, s: JoinState, lines: seq<string>): JoinState
    decreases |lines|
  {
    if |lines| == 0 then s
    else JoinLine(index, JoinLines(index, s, lines[..|lines| - 1]), lines[|lines| - 1])
  }

  /** A concordance line `o1 o2 w` whose first number is indexed adds the
      bibid of `o1` to `w` and counts a column-1 match, whatever `o2` is;
      one whose first number is not indexed falls back to `o2`; one with
      neither indexed only advances the line counter. */
  lemma JoinLineOnTokens(index: map<string, string>, s: JoinState, o1: string, o2: string, w: string)
    requires !s.aborted
    requires IsToken(o1) && IsToken(o2) && IsToken(w)
    ensures var r := JoinLine(index, s, Join([o1, o2, w]));
      && !r.aborted && r.n == s.n + 1
      && (o1 in index ==>
            r.works == AddedWork(s.works, index[o1], w) && r.num1 == s.num1 + 1 && r.num2 == s.num2)
      && (o1 !in index && o2 in index ==>
            r.works == AddedWork(s.works, index[o2], w) && r.num1 == s.num1 && r.num2 == s.num2 + 1)
      && (o1 !in index && o2 !in index ==>
            r.works == s.works && r.num1 == s.num1 && r.num2 == s.num2)
  {
    SplitJoin([o1, o2, w]);
  }

  /** Column 2 is not consulted when column 1 is indexed. */
  lemma Col1Wins(index: map<string, string>, s: JoinState, o1: string, o2: string, o2': string, w: string)
    requires !s.aborted && o1 in index
    requires IsToken(o1) && IsToken(o2) && IsToken(o2') && IsToken(w)
    ensures JoinLine(index, s, Join([o1, o2, w])) == JoinLine(index, s, Join([o1, o2', w]))
  {
    JoinLineOnTokens(index, s, o1, o2, w);
    JoinLineOnTokens(index, s, o1, o2', w);
  }

  /** Each line read adds at most one entry, and every entry added is
      counted by exactly one of the two match counters. */
  ghost predicate Balanced(s: JoinState, base: nat)
  {
    Entries(s.works) == base + s.num1 + s.num2 && s.num1 + s.num2 <= s.n
  }

  lemma {:induction false} JoinLinesBalanced(index: map<string, string>, s: JoinState, lines: seq<string>, base: nat)
    requires Balanced(s, base)
    ensures Balanced(JoinLines(index, s, lines), base)
    ensures JoinLines(index, s, lines).n <= s.n + |lines|
    decreases |lines|
  {
    if |lines| > 0 {
      var prefix := lines[..|lines| - 1];
      JoinLinesBalanced(index, s, prefix, base);
      var p := JoinLines(index, s, prefix);
      var d := Split(lines[|lines| - 1]);
      if !p.aborted && |d| == 3 {
        match Lookup(index, d[0], d[1])
        case Col1 => AddWorkCount(p.works, index[d[0]], d[2]);
        case Col2 => AddWorkCount(p.works, index[d[1]], d[2]);
        case Miss =>
      }
    }
  }

  /** After the whole concordance: the entries collected are the column-1
      matches plus the column-2 matches, and there are no more matches than
      lines read. */
  lemma JoinCounts(index: map<string, string>, works: map<string, seq<string>>, lines: seq<string>)
    ensures var r := JoinLines(index, JoinState(works, 0, 0, 0, false), lines);
      Entries(r.works) == Entries(works) + r.num1 + r.num2 && r.num1 + r.num2 <= r.n <= |lines|
  {
    JoinLinesBalanced(index, JoinState(works, 0, 0, 0, false), lines, Entries(works));
  }

  /** Once a line has failed, the rest of the concordance is not read. */
  lemma {:induction false} JoinLinesStopped(index: map<string, string>, s: JoinState, lines: seq<string>)
    requires s.aborted
    ensures JoinLines(index, s, lines) == s
    decreases |lines|
  {
    if |lines| > 0 {
      JoinLinesStopped(index, s, lines[..|lines| - 1]);
    }
  }

  /** The run fails exactly when some line does not split into three
      tokens, and then at the first such line: `n` is its line number and
      all earlier lines were joined. Otherwise every line is read. */
  lemma {:induction false} AbortsAtFirstMalformed(index: map<string, string>, s: JoinState, lines: seq<string>)
    requires !s.aborted
    ensures var r := JoinLines(index, s, lines);
      && (r.aborted <==> exists i :: 0 <= i < |lines| && |Split(lines[i])| != 3)
      && (!r.aborted ==> r.n == s.n + |lines|)
      && (r.aborted ==>
            && s.n < r.n <= s.n + |lines|
            && |Split(lines[r.n - s.n - 1])| != 3
            && forall i :: 0 <= i < r.n - s.n - 1 ==> |Split(lines[i])| == 3)
    decreases |lines|
  {
    if |lines| > 0 {
      var prefix := lines[..|lines| - 1];
      AbortsAtFirstMalformed(index, s, prefix);
      var p := JoinLines(index, s, prefix);
      forall i | 0 <= i < |prefix|
        ensures prefix[i] == lines[i]
      {
      }
      if !p.aborted && |Split(lines[|lines| - 1])| == 3 {
        forall i | 0 <= i < |lines|
          ensures |Split(lines[i])| == 3
        {
          if i < |prefix| {
            assert lines[i] == prefix[i];
          }
        }
      }
    }
  }

  /** Joining never breaks the shape `write_works_data` relies on: the
      workids come from `split()` and the bibids from the index. */
  lemma {:induction false} JoinLinesTokens(index: map<string, string>, s: JoinState, lines: seq<string>)
    requires IndexOfTokens(index) && WorksOfTokens(s.works)
    ensures WorksOfTokens(JoinLines(index, s, lines).works)
    decreases |lines|
  {
    if |lines| > 0 {
      JoinLinesTokens(index, s, lines[..|lines| - 1]);
      JoinLineTokens(index, JoinLines(index, s, lines[..|lines| - 1]), lines[|lines| - 1]);
    }
  }

  lemma JoinLineTokens(index: map<string, string>, s: JoinState, line: string)
    requires IndexOfTokens(index) && WorksOfTokens(s.works)
    ensures WorksOfTokens(JoinLine(index, s, line).works)
  {
    var d := Split(line);
    if !s.aborted && |d| == 3 {
      if d[0] in index {
        AddedWorkTokens(s.works, index[d[0]], d[2]);
      } else if d[1] in index {
        AddedWorkTokens(s.works, index[d[1]], d[2]);
      }
    }
  }

  lemma AddedWorkTokens(works: map<string, seq<string>>, bibid: string, workid: string)
    requires WorksOfTokens(works) && IsToken(bibid) && IsToken(workid)
    ensures WorksOfTokens(AddedWork(works, bibid, workid))
  {
  }

  /** Reading `lines2` after `lines1` is reading `lines1 + lines2`. */
  lemma {:induction false} JoinLinesAppend(index: map<string, string>, s: JoinState, lines1: seq<string>, lines2: seq<string>)
    ensures JoinLines(index, s, lines1 + lines2) == JoinLines(index, JoinLines(index, s, lines1), lines2)
    decreases |lines2|
  {
    if |lines2| == 0 {
      assert lines1 + lines2 == lines1;
    } else {
      var all := lines1 + lines2;
      assert all[..|all| - 1] == lines1 + lines2[..|lines2| - 1];
      JoinLinesAppend(index, s, lines1, lines2[..|lines2| - 1]);
    }
  }

  const WorksHeader := "#workid bibids"

  /** The header reads back as a comment. */
  lemma HeaderIgnored()
    ensures IsIgnored(WorksHeader)
  {
    assert WorksHeader[0] == '#';
    assert TrimStart(WorksHeader) == WorksHeader;
  }

  /** `"%s %s\n" % (workid, " ".join(bibids))`, without the newline. */
  function WorksLine(workid: string, bibids: seq<string>): string
  {
    workid + " " + Join(bibids)
  }

  /** A written line splits back into its workid and its bibids. */
  lemma WorksLineRoundTrip(workid: string, bibids: seq<string>)
    requires IsToken(workid) && |bibids| > 0 && AllTokens(bibids)
    ensures Split(WorksLine(workid, bibids)) == [workid] + bibids
  {
    var ts := [workid] + bibids;
    assert ts[1..] == bibids;
    assert Join(ts) == WorksLine(workid, bibids);
    SplitJoin(ts);
  }

  /** `body` lists `works`: each line is the line `WorksLine` writes for a
      workid of `works`, and splits into that workid followed by exactly its
      bibids; the workids ascend in byte-wise order
      (so each appears once), and every workid has a line. */
  ghost predicate ListsWorks(works: map<string, seq<string>>, body: seq<string>)
  {
    && (forall i :: 0 <= i < |body| ==>
          |Split(body[i])| >= 2 && Split(body[i])[0] in works && Split(body[i])[1..] == works[Split(body[i])[0]] &&
          body[i] == WorksLine(Split(body[i])[0], works[Split(body[i])[0]]))
    && (forall i, j :: 0 <= i < j < |body| ==> LexLess(Split(body[i])[0], Split(body[j])[0]))
    && (forall w :: w in works ==> exists i :: 0 <= i < |body| && Split(body[i])[0] == w)
  }

  /** Lines written for keys in byte-wise order list the whole table in
      that order, one line per workid. */
  lemma BodyListsWorks(works: map<string, seq<string>>, keys: seq<string>, body: seq<string>)
    requires WorksOfTokens(works)
    requires Sorting.Ascending(keys, LexLess)
    requires forall x :: x in keys <==> x in works
    requires |body| == |keys|
    requires forall k :: 0 <= k < |keys| ==> body[k] == WorksLine(keys[k], works[keys[k]])
    ensures ListsWorks(works, body)
  {
    forall k | 0 <= k < |keys|
      ensures Split(body[k]) == [keys[k]] + works[keys[k]]
    {
      assert keys[k] in works;
      WorksLineRoundTrip(keys[k], works[keys[k]]);
    }
    forall w | w in works
      ensures exists i :: 0 <= i < |body| && Split(body[i])[0] == w
    {
      var k :| 0 <= k < |keys| && keys[k] == w;
      assert Split(body[k])[0] == w;
    }
  }

  /** A `bibid_oclcnums` object: the index from OCLC number to bibid and the
      works collected from the concordance. */
  class BibidOclcnums {
    var bibids: map<string, string>
    var works: map<string, seq<string>>

    ghost predicate Valid()
      reads this
    {
      IndexOfTokens(bibids) && WorksOfTokens(works)
    }

    /** `bibid_oclcnums(file)`: empty, then `read(file)` when a file is given. */
    constructor (file: Option<seq<string>>)
      ensures Valid()
      ensures bibids == (if file.Some? then ReadLines(map[], file.value) else map[])
      ensures works == map[]
    {
      bibids := map[];
      works := map[];
      new;
      if file.Some? {
        var _ := Read(file.value);
      }
    }

    /** `read`: index every entry line's first OCLC number against its
        bibid; returns the line count `n`. */
    method Read(lines: seq<string>) returns (n: nat)
      requires Valid()
      modifies this
      ensures Valid()
      ensures bibids == ReadLines(old(bibids), lines)
      ensures works == old(works)
      ensures n == |lines|
    {
      n := 0;
      while n < |lines|
        invariant n <= |lines|
        invariant bibids == ReadLines(old(bibids), lines[..n])
        invariant works == old(works)
      {
        var line := lines[n];
        n := n + 1;
        if !IsIgnored(line) {
          var d := Split(line);
          if |d| >= 2 {
            var bibid := d[0];
            var oclcnum := d[1];
            bibids := bibids[oclcnum := bibid];
          }
        }
        assert lines[..n][..n - 1] == lines[..n - 1];
      }
      assert lines[..n] == lines;
      ReadLinesTokens(old(bibids), lines);
    }

    /** `add_work`. */
    method AddWork(bibid: string, workid: string)
      modifies this
      ensures works == AddedWork(old(works), bibid, workid)
      ensures bibids == old(bibids)
      ensures old(Valid()) && IsToken(bibid) && IsToken(workid) ==> Valid()
    {
      if workid in works {
        works := works[workid := works[workid] + [bibid]];
      } else {
        works := works[workid := [bibid]];
      }
      if old(Valid()) && IsToken(bibid) && IsToken(workid) {
        AddedWorkTokens(old(works), bibid, workid);
      }
    }

    /** `write_works_data`: the header comment, then one line per workid in
        byte-wise order of the workid strings, each splitting back into that
        workid and its bibids in the order they were added. */
    method WriteWorksData() returns (out: seq<string>)
      requires Valid()
      ensures |out| == 1 + |works|
      ensures out[0] == WorksHeader
      ensures ListsWorks(works, out[1..])
    {
      var keys := Sorting.SortStrings(works.Keys);
      var body := [];
      var i := 0;
      while i < |keys|
        invariant i <= |keys|
        invariant |body| == i
        invariant forall k :: 0 <= k < i ==> body[k] == WorksLine(keys[k], works[keys[k]])
      {
        body := body + [WorksLine(keys[i], works[keys[i]])];
        i := i + 1;
      }
      out := [WorksHeader] + body;
      BodyListsWorks(works, keys, body);
      assert out[1..] == body;
    }
  }

  /** The concordance loop of the script: each line must split into exactly
      three tokens `oclcnum1 oclcnum2 workid`; the bibid indexed under
      column 1, or failing that column 2, is added to the workid's list.
      Returns the line counter, the two match counters and whether a line
      failed to unpack, which ends the run before anything is written. */
  method JoinConcordance(bo: BibidOclcnums, lines: seq<string>) returns (n: nat, num1: nat, num2: nat, aborted: bool)
    requires bo.Valid()
    modifies bo
    ensures bo.Valid()
    ensures bo.bibids == old(bo.bibids)
    ensures JoinState(bo.works, n, num1, num2, aborted) ==
      JoinLines(bo.bibids, JoinState(old(bo.works), 0, 0, 0, false), lines)
  {
    ghost var start := JoinState(bo.works, 0, 0, 0, false);
    n, num1, num2, aborted := 0, 0, 0, false;
    while n < |lines|
      invariant n <= |lines|
      invariant bo.bibids == old(bo.bibids)
      invariant JoinState(bo.works, n, num1, num2, false) == JoinLines(bo.bibids, start, lines[..n])
    {
      var line := lines[n];
      assert lines[..n + 1] == lines[..n] + [line];
      assert lines[..n + 1][..n] == lines[..n];
      n := n + 1;
      var d := Split(line);
      if |d| != 3 {
        aborted := true;
        JoinLinesAppend(bo.bibids, start, lines[..n], lines[n..]);
        assert lines[..n] + lines[n..] == lines;
        JoinLinesStopped(bo.bibids, JoinState(bo.works, n, num1, num2, true), lines[n..]);
        JoinLinesTokens(bo.bibids, start, lines[..n]);
        return;
      }
      var oclcnum1, oclcnum2, workid := d[0], d[1], d[2];
      if oclcnum1 in bo.bibids {
        bo.AddWork(bo.bibids[oclcnum1], workid);
        num1 := num1 + 1;
      } else if oclcnum2 in bo.bibids {
        bo.AddWork(bo.bibids[oclcnum2], workid);
        num2 := num2 + 1;
      }
    }
    assert lines[..n] == lines;
    JoinLinesTokens(bo.bibids, start, lines);
  }
}
