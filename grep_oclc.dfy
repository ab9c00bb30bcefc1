/** mx_grep_oclc.py: for each MARC record, print the local bibid (field
    001) followed by the OCLC numbers found in the `$a` subfields of the
    first 035 field, and keep counts of records seen, records matched and
    subfields matched. */
module GrepOclc {
  import opened Text
  import GetOclcWorkids

  /** What `grep` reads from a record: the value of field 001, if there is
      one, and the `$a` subfields of the first 035 field, if there is one. */
  datatype MarcRecord = MarcRecord(controlNumber: Option<string>, f035: Option<seq<string>>)

  const OclcPrefix := "(OCoLC)"

  /** `re.match(r'\(OCoLC\)(\d+)$', ref)`: the digits after the prefix when
      nothing else follows them. */
  function OclcNumber(ref: string): Option<string>
  {
    if |ref| >= |OclcPrefix| && ref[..|OclcPrefix|] == OclcPrefix && IsDigits(ref[|OclcPrefix|..])
    then Some(ref[|OclcPrefix|..])
    else None
  }

  /** A subfield matches exactly when it is the prefix followed by one or
      more digits, and the match is those digits. */
  lemma OclcNumberExact(ref: string, digits: string)
    ensures OclcNumber(ref) == Some(digits) <==> ref == OclcPrefix + digits && IsDigits(digits)
  {
    if ref == OclcPrefix + digits {
      assert ref[..|OclcPrefix|] == OclcPrefix;
      assert ref[|OclcPrefix|..] == digits;
    }
  }

  /** The `oclcnums` list built from the subfields `refs`, in subfield order. */
  function Extract(refs: seq<string>): (nums: seq<string>)
    ensures |nums| <= |refs|
    ensures forall i :: 0 <= i < |nums| ==> IsDigits(nums[i])
    decreases |refs|
  {
    if |refs| == 0 then []
    else
      var nums := Extract(refs[..|refs| - 1]);
      match OclcNumber(refs[|refs| - 1])
      case Some(d) => nums + [d]
      case None => nums
  }

  /** Extraction works subfield by subfield and keeps their order. */
  lemma {:induction false} ExtractAppend(a: seq<string>, b: seq<string>)
    ensures Extract(a + b) == Extract(a) + Extract(b)
    decreases |b|
  {
    if |b| == 0 {
      assert a + b == a;
    } else {
      var ab := a + b;
      assert ab[..|ab| - 1] == a + b[..|b| - 1];
      ExtractAppend(a, b[..|b| - 1]);
    }
  }

  /** The numbers extracted are exactly the matches of the subfields. */
  lemma {:induction false} ExtractExact(refs: seq<string>, x: string)
    ensures x in Extract(refs) <==> exists i :: 0 <= i < |refs| && OclcNumber(refs[i]) == Some(x)
    decreases |refs|
  {
    if |refs| > 0 {
      var prefix := refs[..|refs| - 1];
      ExtractExact(prefix, x);
      if i :| 0 <= i < |refs| && OclcNumber(refs[i]) == Some(x) {
        if i < |prefix| {
          assert prefix[i] == refs[i];
        }
      }
      if j :| 0 <= j < |prefix| && OclcNumber(prefix[j]) == Some(x) {
        assert refs[j] == prefix[j];
      }
    }
  }

  /** What one call of `grep` does besides counting: print a line, print
      nothing, or log a bad record (no field 001, so `.value()` raises). */
  datatype GrepOutcome = Emitted(line: string) | Silent | BadRecord

  /** How much `fields_matched` grows on `r`. */
  function FieldsMatched(r: MarcRecord): nat
  {
    if r.controlNumber.Some? && r.f035.Some? then |Extract(r.f035.value)| else 0
  }

  /** A record is printed exactly when at least one of its subfields
      matched, as its bibid, a tab and the numbers; it is bad exactly when
      it has no field 001. */
  function GrepRecord(r: MarcRecord): (o: GrepOutcome)
    ensures o.Emitted? <==> FieldsMatched(r) > 0
    ensures o.Emitted? ==> o.line == r.controlNumber.value + "\t" + Join(Extract(r.f035.value))
    ensures o.BadRecord? <==> r.controlNumber.None?
  {
    match r.controlNumber
    case None => BadRecord
    case Some(bibid) =>
      match r.f035
      case None => Silent
      case Some(refs) =>
        var nums := Extract(refs);
        if |nums| > 0 then Emitted(bibid + "\t" + Join(nums)) else Silent
  }

  /** A printed line is an entry line for `read` of mx_get_oclc_workids.py,
      which indexes the first number extracted against the bibid. */
  lemma EmittedLineIndexed(r: MarcRecord, index: map<string, string>)
    requires GrepRecord(r).Emitted?
    requires IsToken(r.controlNumber.value) && r.controlNumber.value[0] != '#'
    ensures var nums := Extract(r.f035.value);
      && GetOclcWorkids.ParseIndexLine(GrepRecord(r).line) == GetOclcWorkids.Entry(r.controlNumber.value, nums[0])
      && GetOclcWorkids.ReadLine(index, GrepRecord(r).line) == index[nums[0] := r.controlNumber.value]
  {
    var bibid := r.controlNumber.value;
    var nums := Extract(r.f035.value);
    var line := GrepRecord(r).line;
    assert AllTokens(nums) by {
      forall i | 0 <= i < |nums|
        ensures IsToken(nums[i])
      {
        assert IsDigits(nums[i]);
      }
    }
    SplitJoin(nums);
    assert line == bibid + ("\t" + Join(nums));
    SplitTokenThen(bibid, "\t" + Join(nums));
    assert ("\t" + Join(nums)) == ['\t'] + Join(nums);
    SplitSkipsSpace('\t', Join(nums));
    IgnoredByTokens(line);
  }

  /** The link above needs a whitespace-free bibid. A 001 value with a
      space inside, `a b`, is printed as it is, and the index reader then
      takes `b` for the OCLC number and `a` for the bibid: the extracted
      number is not what gets indexed. */
  lemma SpacedBibidMisindexed(a: string, b: string, refs: seq<string>, index: map<string, string>)
    requires IsToken(a) && a[0] != '#' && IsToken(b)
    requires |Extract(refs)| > 0
    ensures var r := MarcRecord(Some(a + " " + b), Some(refs));
      && GrepRecord(r) == Emitted(a + " " + b + "\t" + Join(Extract(refs)))
      && GetOclcWorkids.ParseIndexLine(GrepRecord(r).line) == GetOclcWorkids.Entry(a, b)
      && GetOclcWorkids.ReadLine(index, GrepRecord(r).line) == index[b := a]
  {
    var line := a + " " + b + "\t" + Join(Extract(refs));
    var tail := "\t" + Join(Extract(refs));
    assert line == a + " " + b + tail;
    Regroup(a, b, tail);
    SplitTwoWords(a, b, tail);
    IgnoredByTokens(line);
  }

  /** `a b` followed by nothing or by whitespace splits into `a`, `b` and
      the words of the rest. */
  lemma SplitTwoWords(a: string, b: string, tail: string)
    requires IsToken(a) && IsToken(b)
    requires |tail| == 0 || IsSpace(tail[0])
    ensures Split(a + ([' '] + (b + tail))) == [a, b] + Split(tail)
  {
    var rest := b + tail;
    assert Split(rest) == [b] + Split(tail) by {
      SplitTokenThen(b, tail);
    }
    assert Split([' '] + rest) == Split(rest) by {
      SplitSkipsSpace(' ', rest);
    }
    SplitTokenThen(a, [' '] + rest);
  }

  lemma Regroup(a: string, b: string, tail: string)
    ensures a + " " + b + tail == a + ([' '] + (b + tail))
  {
  }

  /** The lines printed for `records`, in order. */
  function EmittedLines(records: seq<MarcRecord>): seq<string>
    decreases |records|
  {
    if |records| == 0 then []
    else
      var lines := EmittedLines(records[..|records| - 1]);
      match GrepRecord(records[|records| - 1])
      case Emitted(line) => lines + [line]
      case _ => lines
  }

  /** How much `fields_matched` grows on `records`. */
  function FieldsMatchedAll(records: seq<MarcRecord>): nat
    decreases |records|
  {
    if |records| == 0 then 0
    else FieldsMatchedAll(records[..|records| - 1]) + FieldsMatched(records[|records| - 1])
  }

  /** Over any run, no more records are printed than were seen or than
      subfields matched. */
  lemma {:induction false} EmittedBounded(records: seq<MarcRecord>)
    ensures |EmittedLines(records)| <= |records|
    ensures |EmittedLines(records)| <= FieldsMatchedAll(records)
    decreases |records|
  {
    if |records| > 0 {
      EmittedBounded(records[..|records| - 1]);
    }
  }

  /** An `mx_grepper` and its three counters. */
  class Grepper {
    var recordsSeen: nat
    var recordsMatched: nat
    var fieldsMatched: nat

    /** Each matched record contributed at least one matched subfield. */
    ghost predicate Valid()
      reads this
    {
      recordsMatched <= recordsSeen && recordsMatched <= fieldsMatched
    }

    constructor ()
      ensures recordsSeen == 0 && recordsMatched == 0 && fieldsMatched == 0
      ensures Valid()
    {
      recordsSeen := 0;
      recordsMatched := 0;
      fieldsMatched := 0;
    }

    /** `grep(record)`. */
    method Grep(record: MarcRecord) returns (outcome: GrepOutcome)
      requires Valid()
      modifies this
      ensures Valid()
      ensures outcome == GrepRecord(record)
      ensures recordsSeen == old(recordsSeen) + 1
      ensures fieldsMatched == old(fieldsMatched) + FieldsMatched(record)
      ensures recordsMatched == old(recordsMatched) + (if outcome.Emitted? then 1 else 0)
    {
      recordsSeen := recordsSeen + 1;
      if record.controlNumber.None? {
        return BadRecord;
      }
      var bibid := record.controlNumber.value;
      if record.f035.Some? {
        var refs := record.f035.value;
        var oclcnums := [];
        var i := 0;
        while i < |refs|
          invariant i <= |refs|
          invariant oclcnums == Extract(refs[..i])
          invariant fieldsMatched == old(fieldsMatched) + |oclcnums|
          invariant recordsSeen == old(recordsSeen) + 1 && recordsMatched == old(recordsMatched)
        {
          var m := OclcNumber(refs[i]);
          assert refs[..i + 1][..i] == refs[..i];
          if m.Some? {
            oclcnums := oclcnums + [m.value];
            fieldsMatched := fieldsMatched + 1;
          }
          i := i + 1;
        }
        assert refs[..i] == refs;
        if |oclcnums| > 0 {
          recordsMatched := recordsMatched + 1;
          return Emitted(bibid + "\t" + Join(oclcnums));
        }
      }
      return Silent;
    }

    /** `map_xml(mg.grep, fh)`: `grep` on each record of a file in turn,
        collecting the printed lines. */
    method GrepAll(records: seq<MarcRecord>) returns (out: seq<string>)
      requires Valid()
      modifies this
      ensures Valid()
      ensures out == EmittedLines(records)
      ensures recordsSeen == old(recordsSeen) + |records|
      ensures recordsMatched == old(recordsMatched) + |out|
      ensures fieldsMatched == old(fieldsMatched) + FieldsMatchedAll(records)
    {
      out := [];
      var i := 0;
      while i < |records|
        invariant i <= |records|
        invariant Valid()
        invariant out == EmittedLines(records[..i])
        invariant recordsSeen == old(recordsSeen) + i
        invariant recordsMatched == old(recordsMatched) + |out|
        invariant fieldsMatched == old(fieldsMatched) + FieldsMatchedAll(records[..i])
      {
        var outcome := Grep(records[i]);
        assert records[..i + 1][..i] == records[..i];
        if outcome.Emitted? {
          out := out + [outcome.line];
        }
        i := i + 1;
      }
      assert records[..i] == records;
    }
  }
}
