/**
 * What the scanner of the ADIF reader promises: where records come from,
 * how the record counter moves, what a header end throws away, and what a
 * single tag does to the staging record.
 */
module ScanProperties {
  import opened Wrappers
  import opened Text
  import opened Numbers
  import opened Adif

  // ---------------------------------------------------------------- the tags a scan visits

  /** The next tag from `pos`: the `<` and the `>` that close it, when there is one. */
  function NextTag(raw: string, pos: nat): (r: Option<(nat, nat)>)
    ensures r.Some? ==> pos <= r.value.0 < r.value.1 < |raw|
    ensures r.Some? ==> raw[r.value.0] == '<' && raw[r.value.1] == '>'
    ensures r.Some? ==> forall j :: pos <= j < r.value.0 ==> raw[j] != '<'
    ensures r.Some? ==> forall j :: r.value.0 <= j < r.value.1 ==> raw[j] != '>'
    ensures r.None? ==> Find(raw, '<', pos) == -1 || Find(raw, '>', Find(raw, '<', pos)) == -1
  {
    var lt := Find(raw, '<', pos);
    if lt == -1 then None
    else
      var gt := Find(raw, '>', lt);
      if gt == -1 then None else Some((lt, gt))
  }

  /** The lower-cased name of the tag between `lt` and `gt`. */
  function TagName(raw: string, lt: nat, gt: nat): string
    requires lt < gt <= |raw|
  {
    Lower(FieldDef(raw, lt, gt)[0])
  }

  /** How many `eor` tags the scan from `pos` visits. */
  function EorCount(raw: string, pos: nat): nat
    decreases |raw| - pos
  {
    match NextTag(raw, pos)
    case None => 0
    case Some((lt, gt)) => (if TagName(raw, lt, gt) == "eor" then 1 else 0) + EorCount(raw, gt)
  }

  /** Where the scan from `pos` resumes after the last `eoh` tag it visits, or -1 when it visits none. */
  function LastEoh(raw: string, pos: nat): (q: int)
    ensures q == -1 || pos < q < |raw|
    decreases |raw| - pos
  {
    match NextTag(raw, pos)
    case None => -1
    case Some((lt, gt)) =>
      var later := LastEoh(raw, gt);
      if later != -1 then later
      else if TagName(raw, lt, gt) == "eoh" then gt
      else -1
  }

  /** The scan from `pos` visits the tag `(lt, gt)` next. */
  lemma ScanAtTag(raw: string, pos: nat, recs: seq<Record>, rec: Record, recNo: nat, log: seq<Diagnostic>, lt: nat, gt: nat)
    requires NextTag(raw, pos) == Some((lt, gt))
    ensures var step := Tag(raw, lt, gt, recs, rec, recNo, log);
            Scan(raw, pos, recs, rec, recNo, log)
            == if step.Stop? then step.outcome else Scan(raw, gt, step.recs, step.rec, step.recNo, step.log)
  {
  }

  // ---------------------------------------------------------------- empty input

  /** Text without a `<` from `pos` on adds no record: the scan returns what it has collected. */
  lemma NoTagNoRecords(raw: string, pos: nat, recs: seq<Record>, rec: Record, recNo: nat, log: seq<Diagnostic>)
    requires forall j :: pos <= j < |raw| ==> raw[j] != '<'
    ensures Scan(raw, pos, recs, rec, recNo, log) == LoadOutcome(Ok(recs), recNo, log)
  {
    assert Find(raw, '<', pos) == -1;
  }

  /** A load of text without a `<`, the empty text among them, returns no records and leaves counter and log alone. */
  lemma LoadWithoutTags(raw: string, recNo: nat, log: seq<Diagnostic>)
    requires '<' !in raw
    ensures Scan(raw, 0, [], map[], recNo, log) == LoadOutcome(Ok([]), recNo, log)
  {
    NoTagNoRecords(raw, 0, [], map[], recNo, log);
  }

  // ---------------------------------------------------------------- records and the counter

  /** The counter goes up by exactly one for each `eor` tag of a load that succeeds. */
  lemma {:induction false} RecNoCountsEors(raw: string, pos: nat, recs: seq<Record>, rec: Record, recNo: nat, log: seq<Diagnostic>)
    requires Scan(raw, pos, recs, rec, recNo, log).result.Ok?
    ensures Scan(raw, pos, recs, rec, recNo, log).recNo == recNo + EorCount(raw, pos)
    decreases |raw| - pos
  {
    match NextTag(raw, pos)
    case None =>
    case Some((lt, gt)) =>
      ScanAtTag(raw, pos, recs, rec, recNo, log, lt, gt);
      var step := Tag(raw, lt, gt, recs, rec, recNo, log);
      if step.Go? {
        RecNoCountsEors(raw, gt, step.recs, step.rec, step.recNo, step.log);
      }
  }

  /**
   * Without an `eoh`, a load that succeeds returns the records it started
   * with followed by one record per `eor` tag: records come only from `eor`,
   * and fields staged after the last `eor` are dropped.
   */
  lemma {:induction false} RecordsComeFromEors(raw: string, pos: nat, recs: seq<Record>, rec: Record, recNo: nat, log: seq<Diagnostic>)
    requires Scan(raw, pos, recs, rec, recNo, log).result.Ok?
    requires LastEoh(raw, pos) == -1
    ensures var out := Scan(raw, pos, recs, rec, recNo, log).result.value;
            |out| == |recs| + EorCount(raw, pos) && out[..|recs|] == recs
    decreases |raw| - pos
  {
    match NextTag(raw, pos)
    case None =>
    case Some((lt, gt)) =>
      var step := Tag(raw, lt, gt, recs, rec, recNo, log);
      assert step.Go? && Scan(raw, pos, recs, rec, recNo, log) == Scan(raw, gt, step.recs, step.rec, step.recNo, step.log) by {
        ScanAtTag(raw, pos, recs, rec, recNo, log, lt, gt);
        TagStep(raw, lt, gt, recs, rec, recNo, log);
      }
      assert LastEoh(raw, gt) == -1 && TagName(raw, lt, gt) != "eoh";
      assert EorCount(raw, pos) == (if TagName(raw, lt, gt) == "eor" then 1 else 0) + EorCount(raw, gt);
      TagKeepsRecords(raw, lt, gt, recs, rec, recNo, log);
      RecordsComeFromEors(raw, gt, step.recs, step.rec, step.recNo, step.log);
      var out := Scan(raw, gt, step.recs, step.rec, step.recNo, step.log).result.value;
      assert out[..|step.recs|][..|recs|] == out[..|recs|];
  }

  /** A tag other than `eoh` keeps the records emitted so far, and only `eor` adds one. */
  lemma TagKeepsRecords(raw: string, lt: nat, gt: nat, recs: seq<Record>, rec: Record, recNo: nat, log: seq<Diagnostic>)
    requires lt < gt <= |raw|
    requires TagName(raw, lt, gt) != "eoh"
    ensures var step := Tag(raw, lt, gt, recs, rec, recNo, log);
            step.Go? ==> |step.recs| == |recs| + (if TagName(raw, lt, gt) == "eor" then 1 else 0) && step.recs[..|recs|] == recs
  {
    var step := Tag(raw, lt, gt, recs, rec, recNo, log);
    if step.Go? && TagName(raw, lt, gt) == "eor" {
      assert step.recs[..|recs|] == recs;
    }
  }

  /** The fix-up's outcome, apart from its log, does not depend on the record number. */
  lemma {:induction false} ConvertIntsIgnoresRecNo(rec: Record, fields: seq<string>, n1: nat, n2: nat)
    ensures ConvertInts(rec, fields, n1).result == ConvertInts(rec, fields, n2).result
    decreases |fields|
  {
    if fields != [] {
      var f := fields[0];
      if f in rec && rec[f].Str? {
        match ParseInt(rec[f].text)
        case Some(n) => ConvertIntsIgnoresRecNo(rec[f := Int(n)], fields[1..], n1, n2);
        case None => ConvertIntsIgnoresRecNo(rec[f := Int(-1)], fields[1..], n1, n2);
      } else {
        ConvertIntsIgnoresRecNo(rec, fields[1..], n1, n2);
      }
    }
  }

  /** What a load returns does not depend on the counter or the log it starts from. */
  lemma {:induction false} ResultIgnoresCounters(raw: string, pos: nat, recs: seq<Record>, rec: Record,
                                                 n1: nat, l1: seq<Diagnostic>, n2: nat, l2: seq<Diagnostic>)
    ensures Scan(raw, pos, recs, rec, n1, l1).result == Scan(raw, pos, recs, rec, n2, l2).result
    decreases |raw| - pos
  {
    match NextTag(raw, pos)
    case None =>
    case Some((lt, gt)) =>
      ScanAtTag(raw, pos, recs, rec, n1, l1, lt, gt);
      ScanAtTag(raw, pos, recs, rec, n2, l2, lt, gt);
      var s1 := Tag(raw, lt, gt, recs, rec, n1, l1);
      var s2 := Tag(raw, lt, gt, recs, rec, n2, l2);
      if TagName(raw, lt, gt) == "eor" {
        FixedIgnoresRecNo(rec, n1, n2);
      }
      assert s1.Stop? == s2.Stop?;
      assert s1.Stop? ==> s1.outcome.result == s2.outcome.result;
      if s1.Go? {
        assert s1.recs == s2.recs && s1.rec == s2.rec;
        ResultIgnoresCounters(raw, gt, s1.recs, s1.rec, s1.recNo, s1.log, s2.recNo, s2.log);
      }
  }

  /** The fix-up succeeds or fails with the same record, whatever the record number. */
  lemma FixedIgnoresRecNo(rec: Record, n1: nat, n2: nat)
    ensures Fixed(rec, n1).result == Fixed(rec, n2).result
  {
    match CoerceKeys(rec, SortedKeys(rec.Keys), None)
    case Err(_) =>
    case Ok(coerced) => ConvertIntsIgnoresRecNo(coerced, IntFields, n1, n2);
  }

  // ---------------------------------------------------------------- the end of the header

  /** After the last `eoh` the scan meets no other. */
  lemma {:induction false} LastEohIsLast(raw: string, pos: nat)
    requires LastEoh(raw, pos) != -1
    ensures LastEoh(raw, LastEoh(raw, pos)) == -1
    decreases |raw| - pos
  {
    match NextTag(raw, pos)
    case None =>
    case Some((lt, gt)) =>
      if LastEoh(raw, gt) != -1 {
        LastEohIsLast(raw, gt);
      }
  }

  /**
   * A load that succeeds returns what a fresh scan from just after the last
   * `eoh` returns: records and staged fields met before it, the header's
   * among them, never reach the output.
   */
  lemma {:induction false} OutputAfterLastEoh(raw: string, pos: nat, recs: seq<Record>, rec: Record, recNo: nat, log: seq<Diagnostic>)
    requires Scan(raw, pos, recs, rec, recNo, log).result.Ok?
    requires LastEoh(raw, pos) != -1
    ensures Scan(raw, pos, recs, rec, recNo, log).result == Scan(raw, LastEoh(raw, pos), [], map[], 0, []).result
    decreases |raw| - pos
  {
    match NextTag(raw, pos)
    case None =>
    case Some((lt, gt)) =>
      ScanAtTag(raw, pos, recs, rec, recNo, log, lt, gt);
      var step := Tag(raw, lt, gt, recs, rec, recNo, log);
      if LastEoh(raw, gt) != -1 {
        OutputAfterLastEoh(raw, gt, step.recs, step.rec, step.recNo, step.log);
      } else {
        assert step == Go([], map[], recNo, log);
        ResultIgnoresCounters(raw, gt, [], map[], recNo, log, 0, []);
      }
  }

  /** A load that succeeds returns exactly one record per `eor` after the last `eoh`, or per `eor` at all when there is none. */
  lemma LoadRecordCount(raw: string, recNo: nat, log: seq<Diagnostic>)
    requires Scan(raw, 0, [], map[], recNo, log).result.Ok?
    ensures |Scan(raw, 0, [], map[], recNo, log).result.value|
            == if LastEoh(raw, 0) == -1 then EorCount(raw, 0) else EorCount(raw, LastEoh(raw, 0))
  {
    var q := LastEoh(raw, 0);
    if q == -1 {
      RecordsComeFromEors(raw, 0, [], map[], recNo, log);
    } else {
      OutputAfterLastEoh(raw, 0, [], map[], recNo, log);
      LastEohIsLast(raw, 0);
      RecordsComeFromEors(raw, q, [], map[], 0, []);
    }
  }

  // ---------------------------------------------------------------- one tag

  /** A tag without `:` that is neither `eor` nor `eoh` changes nothing. */
  lemma PlainTagIgnored(raw: string, lt: nat, gt: nat, recs: seq<Record>, rec: Record, recNo: nat, log: seq<Diagnostic>)
    requires lt < gt <= |raw|
    requires ':' !in raw[lt + 1..gt]
    requires Lower(raw[lt + 1..gt]) != "eor" && Lower(raw[lt + 1..gt]) != "eoh"
    ensures Tag(raw, lt, gt, recs, rec, recNo, log) == Go(recs, rec, recNo, log)
  {
    SplitWithoutSep(raw[lt + 1..gt], ':');
  }

  /**
   * A tag `<name:len>` or `<name:len:type>` stores the `len` characters after
   * its `>` under the lower-cased name, replacing any earlier value; a length
   * that is not an integer ends the load.
   */
  lemma FieldTagStores(raw: string, lt: nat, gt: nat, name: string, len: string, suffix: string,
                       recs: seq<Record>, rec: Record, recNo: nat, log: seq<Diagnostic>)
    requires lt < gt <= |raw|
    requires raw[lt + 1..gt] == name + [':'] + len + suffix
    requires ':' !in name && ':' !in len && (suffix == [] || suffix[0] == ':')
    requires Lower(name) != "eor" && Lower(name) != "eoh"
    ensures Tag(raw, lt, gt, recs, rec, recNo, log)
            == match ParseInt(len)
               case None => Stop(LoadOutcome(Err(BadLength(len)), recNo, log))
               case Some(n) => Go(recs, rec[Lower(name) := Str(FieldValue(raw, gt, n))], recNo, log)
  {
    FieldDefParts(raw, lt, gt, name, len, suffix);
  }

  /** The name and the length of a tag `<name:len>` or `<name:len:type>`. */
  lemma FieldDefParts(raw: string, lt: nat, gt: nat, name: string, len: string, suffix: string)
    requires lt < gt <= |raw|
    requires raw[lt + 1..gt] == name + [':'] + len + suffix
    requires ':' !in name && ':' !in len && (suffix == [] || suffix[0] == ':')
    ensures |FieldDef(raw, lt, gt)| >= 2 && FieldDef(raw, lt, gt)[0] == name && FieldDef(raw, lt, gt)[1] == len
  {
    var s := raw[lt + 1..gt];
    var rest := [':'] + len + suffix;
    assert s == name + rest && rest[1..] == len + suffix;
    SplitHead(name, rest, ':');
    SplitHead(len, suffix, ':');
  }

  /** The stored value is the text after the `>`, cut at `n` characters or at the end of the input, when it holds no `&lt;`. */
  lemma FieldValueIsSlice(raw: string, gt: nat, n: nat)
    requires gt < |raw|
    requires NoEntity(raw[gt + 1..if gt + n + 1 < |raw| then gt + n + 1 else |raw|])
    ensures FieldValue(raw, gt, n) == raw[gt + 1..if gt + n + 1 < |raw| then gt + n + 1 else |raw|]
  {
    PySliceFrom(raw, gt + 1, gt + n + 1);
    DecodeWithoutEntity(raw[gt + 1..if gt + n + 1 < |raw| then gt + n + 1 else |raw|]);
  }

  /**
   * A writer that escapes every `<` of a value `v` as `&lt;` and gives the
   * escaped length gets `v` back.
   */
  lemma FieldValueRoundTrip(raw: string, gt: nat, v: string)
    requires NoEntity(v)
    requires gt < |raw| && StartsWith(raw[gt + 1..], EncodeLt(v))
    ensures FieldValue(raw, gt, |EncodeLt(v)|) == v
  {
    var e := EncodeLt(v);
    var stop := gt + |e| + 1;
    assert stop <= |raw|;
    assert PySlice(raw, gt + 1, stop) == e by {
      PySliceFrom(raw, gt + 1, stop);
      assert raw[gt + 1..stop] == raw[gt + 1..][..|e|];
    }
    DecodeEncode(v);
  }
}
