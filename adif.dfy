/**
 * The ADIF (Amateur Data Interchange Format) log reader: a scanner that
 * turns the text of a log into records, one per QSO, and the fix-up that
 * coerces each record's values to dates, times, frequencies and integers
 * before the record is emitted.
 */
module Adif {
  import opened Wrappers
  import opened Text
  import opened Numbers
  import opened Strptime

  /** A field value: the decoded text, or what the fix-up made of it. */
  datatype Value =
    | Str(text: string)
    | Int(n: int)
    | Date(date: CalendarDate)
    | Time(time: TimeOfDay)
    | Freq(literal: string)   // float(text): the number itself is not modelled, only that the text is a float

  /** A record maps lower-case field names to values. */
  type Record = map<string, Value>

  /** The exceptions that end a load. */
  datatype LoadError =
    | UnclosedTag(at: nat)                // a `<` at `at` with no `>` after it
    | BadLength(length: string)           // int(length) of a field definition raised ValueError
    | BadDate(key: string, text: string)  // strptime(text, '%Y%m%d') raised ValueError
    | BadFreq(key: string, text: string)  // float(text) raised ValueError
    | BadTime(key: string, text: string)  // strptime(text, fmt) raised ValueError
    | UnboundFormat(key: string)          // a time_ value whose length never chose a format
    | NotText(key: string)                // a string operation applied to a value that is no longer text

  /** What the reader logs when an integer field does not convert: the field, the record number, the text. */
  datatype Diagnostic = Diagnostic(field: string, recNo: nat, text: string)

  /** The result of a fix-up, with what it logged on the way. */
  datatype FixOutcome = FixOutcome(result: Result<Record, LoadError>, log: seq<Diagnostic>)

  /** The result of a load, with the record counter and the log it leaves behind. */
  datatype LoadOutcome = LoadOutcome(result: Result<seq<Record>, LoadError>, recNo: nat, log: seq<Diagnostic>)

  /** The fields converted with int(), in the order they are converted. */
  const IntFields: seq<string> := ["dxcc", "cqz", "ituz", "tx_pwr"]

  /** The time format a time_ value of length `len` selects; any other length keeps the previous one. */
  function FormatFor(len: nat, previous: Option<TimeFormat>): (r: Option<TimeFormat>)
    ensures 3 <= len <= 6 ==> r.Some? && (r.value == HourMinuteSecond <==> len >= 5)
    ensures !(3 <= len <= 6) ==> r == previous
  {
    if len == 5 || len == 6 then Some(HourMinuteSecond)
    else if len == 3 || len == 4 then Some(HourMinute)
    else previous
  }

  /** The names whose values the first loop of the fix-up may change. */
  predicate IsCoercedName(k: string) {
    EndsWith(k, "_date") || k == "freq" || StartsWith(k, "time_") || k == "tx_pwr"
  }

  // ---------------------------------------------------------------- fix-up

  /**
   * What the first loop of the fix-up does to key `k` with value `v`, given
   * the time format `fmt` an earlier time_ key chose: the new value and the
   * format for the keys after it.
   */
  function CoerceOne(k: string, v: Value, fmt: Option<TimeFormat>): (r: Result<(Value, Option<TimeFormat>), LoadError>)
    ensures !IsCoercedName(k) ==> r == Ok((v, fmt))
    ensures r.Ok? && r.value.0.Str? ==> r.value.0 == v
    ensures r.Ok? && r.value.1 != fmt ==> StartsWith(k, "time_") && r.value.0.Time? && r.value.1.Some?
  {
    if EndsWith(k, "_date") then
      match v
      case Str(s) =>
        (match ParseDate(s)
         case Some(d) => Ok((Date(d), fmt))
         case None => Err(BadDate(k, s)))
      case _ => Err(NotText(k))
    else if k == "freq" then
      match v
      case Str(s) => if IsFloatLiteral(s) then Ok((Freq(s), fmt)) else Err(BadFreq(k, s))
      case _ => Err(NotText(k))
    else if StartsWith(k, "time_") then
      match v
      case Str(s) =>
        var f := FormatFor(|s|, fmt);
        if f.None? then Err(UnboundFormat(k))
        else
          (match ParseTime(s, f.value)
           case Some(t) => Ok((Time(t), f))
           case None => Err(BadTime(k, s)))
      case _ => Err(NotText(k))
    else if k == "tx_pwr" then
      match v
      case Str(s) => Ok((if Lower(s) == "unknown" then Int(-1) else v, fmt))
      case _ => Err(NotText(k))
    else Ok((v, fmt))
  }

  /**
   * The first loop of the fix-up over the keys `ks` (all keys, sorted, at
   * the top), with `fmt` the time format chosen by an earlier time_ key.
   */
  function CoerceKeys(rec: Record, ks: seq<string>, fmt: Option<TimeFormat>): (r: Result<Record, LoadError>)
    requires forall k :: k in ks ==> k in rec
    ensures r.Ok? ==> r.value.Keys == rec.Keys
    ensures r.Ok? ==> forall k | k in rec && k !in ks :: r.value[k] == rec[k]
    decreases |ks|
  {
    if ks == [] then Ok(rec)
    else
      match CoerceOne(ks[0], rec[ks[0]], fmt)
      case Err(e) => Err(e)
      case Ok((v, f)) => CoerceKeys(rec[ks[0] := v], ks[1..], f)
  }

  /** The first loop from its `i`-th key on, one key at a time. */
  lemma CoerceKeysAt(cur: Record, ks: seq<string>, i: nat, fmt: Option<TimeFormat>)
    requires i < |ks| && forall k :: k in ks ==> k in cur
    ensures forall k :: k in ks[i..] ==> k in cur
    ensures CoerceKeys(cur, ks[i..], fmt)
            == match CoerceOne(ks[i], cur[ks[i]], fmt)
               case Err(e) => Err(e)
               case Ok((v, f)) => CoerceKeys(cur[ks[i] := v], ks[i + 1..], f)
  {
    assert ks[i..][0] == ks[i] && ks[i..][1..] == ks[i + 1..];
  }

  /**
   * The second loop of the fix-up: int() on each present field of `fields`;
   * text that is not an integer is logged and replaced by -1. Only text and
   * the -1 of an `unknown` tx_pwr reach it from the first loop.
   */
  function ConvertInts(rec: Record, fields: seq<string>, recNo: nat): FixOutcome
    decreases |fields|
  {
    if fields == [] then FixOutcome(Ok(rec), [])
    else
      var f := fields[0];
      if f !in rec then ConvertInts(rec, fields[1..], recNo)
      else
        match rec[f]
        case Int(_) => ConvertInts(rec, fields[1..], recNo)
        case Str(s) =>
          (match ParseInt(s)
           case Some(n) => ConvertInts(rec[f := Int(n)], fields[1..], recNo)
           case None =>
             var rest := ConvertInts(rec[f := Int(-1)], fields[1..], recNo);
             FixOutcome(rest.result, [Diagnostic(f, recNo, s)] + rest.log))
        case _ => FixOutcome(Err(NotText(f)), [])
  }

  /** The integer loop keeps the record's keys and logs at most one diagnostic per listed field, each for this record. */
  lemma {:induction false} ConvertIntsShape(rec: Record, fields: seq<string>, recNo: nat)
    ensures var r := ConvertInts(rec, fields, recNo);
            && (r.result.Ok? ==> r.result.value.Keys == rec.Keys)
            && |r.log| <= |fields|
            && forall d | d in r.log :: d.recNo == recNo && d.field in fields
    decreases |fields|
  {
    if fields != [] {
      var f := fields[0];
      var tail := fields[1..];
      assert fields == [f] + tail;
      if f in rec && rec[f].Str? {
        var n := ParseInt(rec[f].text);
        var next := if n.Some? then rec[f := Int(n.value)] else rec[f := Int(-1)];
        assert next.Keys == rec.Keys;
        ConvertIntsShape(next, tail, recNo);
      } else if f !in rec || rec[f].Int? {
        ConvertIntsShape(rec, tail, recNo);
      }
    }
  }

  /** The second loop from its `j`-th field on, one field at a time. */
  lemma ConvertIntsAt(cur: Record, fields: seq<string>, j: nat, recNo: nat)
    requires j < |fields|
    ensures var f := fields[j];
            var tail := ConvertInts(cur, fields[j..], recNo);
            (f !in cur || cur[f].Int? ==> tail == ConvertInts(cur, fields[j + 1..], recNo))
            && (f in cur && cur[f].Str? && ParseInt(cur[f].text).Some? ==>
                  tail == ConvertInts(cur[f := Int(ParseInt(cur[f].text).value)], fields[j + 1..], recNo))
            && (f in cur && cur[f].Str? && ParseInt(cur[f].text).None? ==>
                  var rest := ConvertInts(cur[f := Int(-1)], fields[j + 1..], recNo);
                  tail.result == rest.result && tail.log == [Diagnostic(f, recNo, cur[f].text)] + rest.log)
            && (f in cur && !cur[f].Str? && !cur[f].Int? ==> tail == FixOutcome(Err(NotText(f)), []))
  {
    assert fields[j..][0] == fields[j] && fields[j..][1..] == fields[j + 1..];
  }

  /** The whole fix-up of record number `recNo`: the keys in sorted order, then the integer fields. */
  function Fixed(rec: Record, recNo: nat): FixOutcome {
    match CoerceKeys(rec, SortedKeys(rec.Keys), None)
    case Err(e) => FixOutcome(Err(e), [])
    case Ok(coerced) => ConvertInts(coerced, IntFields, recNo)
  }

  /** The fix-up keeps the record's keys and logs at most one diagnostic per integer field, each for this record. */
  lemma FixedShape(rec: Record, recNo: nat)
    ensures var r := Fixed(rec, recNo);
            && (r.result.Ok? ==> r.result.value.Keys == rec.Keys)
            && |r.log| <= |IntFields|
            && forall d | d in r.log :: d.recNo == recNo && d.field in IntFields
  {
    match CoerceKeys(rec, SortedKeys(rec.Keys), None)
    case Err(_) =>
    case Ok(coerced) => ConvertIntsShape(coerced, IntFields, recNo);
  }

  // ---------------------------------------------------------------- scanner

  /** The parts of the field definition between the `<` at `lt` and the `>` at `gt`. */
  function FieldDef(raw: string, lt: nat, gt: nat): (parts: seq<string>)
    requires lt < gt <= |raw|
    ensures |parts| >= 1
  {
    Split(raw[lt + 1..gt], ':')
  }

  /** What one tag does: it ends the load, or the scan goes on with new records, staging record, counter and log. */
  datatype Step =
    | Stop(outcome: LoadOutcome)
    | Go(recs: seq<Record>, rec: Record, recNo: nat, log: seq<Diagnostic>)

  /** The value of a field of length `n` whose tag closes at `gt`: at most `n` characters, `&lt;` decoded. */
  function FieldValue(raw: string, gt: nat, n: int): (r: string)
    ensures |r| <= |raw|
    ensures n >= 0 ==> |r| <= n
  {
    DecodeLt(PySlice(raw, gt + 1, gt + n + 1))
  }

  /**
   * The tag between the `<` at `lt` and the `>` at `gt`, met with `recs`
   * emitted, `rec` staged, counter `recNo` and log `log`.
   */
  function Tag(raw: string, lt: nat, gt: nat, recs: seq<Record>, rec: Record, recNo: nat, log: seq<Diagnostic>): (r: Step)
    requires lt < gt <= |raw|
  {
    var def := FieldDef(raw, lt, gt);
    var name := Lower(def[0]);
    if name == "eor" then
      var fixed := Fixed(rec, recNo);
      match fixed.result
      case Err(e) => Stop(LoadOutcome(Err(e), recNo, log + fixed.log))
      case Ok(r) => Go(recs + [r], map[], recNo + 1, log + fixed.log)
    else if name == "eoh" then
      Go([], map[], recNo, log)
    else if |def| > 1 then
      match ParseInt(def[1])
      case None => Stop(LoadOutcome(Err(BadLength(def[1])), recNo, log))
      case Some(n) => Go(recs, rec[name := Str(FieldValue(raw, gt, n))], recNo, log)
    else
      Go(recs, rec, recNo, log)
  }

  /**
   * The load from scan position `pos`, with `recs` the records emitted so
   * far, `rec` the staging record, `recNo` the record counter and `log` what
   * has been logged. After each tag the scan resumes at its `>`.
   */
  function Scan(raw: string, pos: nat, recs: seq<Record>, rec: Record, recNo: nat, log: seq<Diagnostic>): LoadOutcome
    decreases |raw| - pos
  {
    var lt := Find(raw, '<', pos);
    if lt == -1 then LoadOutcome(Ok(recs), recNo, log)
    else
      var gt := Find(raw, '>', lt);
      if gt == -1 then LoadOutcome(Err(UnclosedTag(lt)), recNo, log)
      else
        match Tag(raw, lt, gt, recs, rec, recNo, log)
        case Stop(o) => o
        case Go(recs', rec', recNo', log') => Scan(raw, gt, recs', rec', recNo', log')
  }

  /** One tag either ends the load with an error, keeping the counter, or goes on with the counter raised by at most one; either way the log only grows. */
  lemma TagStep(raw: string, lt: nat, gt: nat, recs: seq<Record>, rec: Record, recNo: nat, log: seq<Diagnostic>)
    requires lt < gt <= |raw|
    ensures var r := Tag(raw, lt, gt, recs, rec, recNo, log);
            && (r.Stop? ==> r.outcome.result.Err? && r.outcome.recNo == recNo && log <= r.outcome.log)
            && (r.Go? ==> recNo <= r.recNo <= recNo + 1 && log <= r.log)
  {
  }

  /** A load never lowers the record counter and only appends to the log, whether it succeeds or fails. */
  lemma {:induction false} ScanGrows(raw: string, pos: nat, recs: seq<Record>, rec: Record, recNo: nat, log: seq<Diagnostic>)
    ensures var r := Scan(raw, pos, recs, rec, recNo, log);
            recNo <= r.recNo && log <= r.log
    decreases |raw| - pos
  {
    var lt := Find(raw, '<', pos);
    if lt != -1 {
      var gt := Find(raw, '>', lt);
      if gt != -1 {
        var step := Tag(raw, lt, gt, recs, rec, recNo, log);
        TagStep(raw, lt, gt, recs, rec, recNo, log);
        if step.Go? {
          ScanGrows(raw, gt, step.recs, step.rec, step.recNo, step.log);
        }
      }
    }
  }

  /** The reader: a record counter kept across loads, and the error log. */
  class ADIFReader {
    var recNo: nat
    var diagnostics: seq<Diagnostic>

    constructor ()
      ensures recNo == 0 && diagnostics == []
    {
      recNo := 0;
      diagnostics := [];
    }

    /** Coerce the values of `rec`, logging each integer field that does not convert. */
    method AdifFixup(rec: Record) returns (r: Result<Record, LoadError>)
      modifies this`diagnostics
      ensures r == Fixed(rec, recNo).result
      ensures diagnostics == old(diagnostics) + Fixed(rec, recNo).log
    {
      var coerced := CoerceFields(rec);
      if coerced.Err? {
        return Err(coerced.error);
      }
      r := ConvertIntFields(coerced.value, IntFields);
    }

    /** The first loop of the fix-up: every key in sorted order, the time format carried from one time_ key to the next. */
    method CoerceFields(rec: Record) returns (r: Result<Record, LoadError>)
      ensures r == CoerceKeys(rec, SortedKeys(rec.Keys), None)
    {
      var ks := SortedKeys(rec.Keys);
      var cur := rec;
      var fmt: Option<TimeFormat> := None;
      for i := 0 to |ks|
        invariant forall k :: k in ks ==> k in cur
        invariant CoerceKeys(cur, ks[i..], fmt) == CoerceKeys(rec, ks, None)
      {
        var k := ks[i];
        CoerceKeysAt(cur, ks, i, fmt);
        var converted := CoerceOne(k, cur[k], fmt);
        if converted.Err? {
          return Err(converted.error);
        }
        cur := cur[k := converted.value.0];
        fmt := converted.value.1;
      }
      return Ok(cur);
    }

    /** The second loop of the fix-up: the integer fields `fields` of the coerced record `rec`. */
    method ConvertIntFields(rec: Record, fields: seq<string>) returns (r: Result<Record, LoadError>)
      modifies this`diagnostics
      ensures r == ConvertInts(rec, fields, recNo).result
      ensures diagnostics == old(diagnostics) + ConvertInts(rec, fields, recNo).log
    {
      var cur := rec;
      for j := 0 to |fields|
        invariant ConvertInts(cur, fields[j..], recNo).result == ConvertInts(rec, fields, recNo).result
        invariant diagnostics + ConvertInts(cur, fields[j..], recNo).log
               == old(diagnostics) + ConvertInts(rec, fields, recNo).log
      {
        var f := fields[j];
        ConvertIntsAt(cur, fields, j, recNo);
        if f in cur {
          match cur[f]
          case Int(_) =>
          case Str(s) =>
            var n := ParseInt(s);
            if n.Some? {
              cur := cur[f := Int(n.value)];
            } else {
              ghost var rest := ConvertInts(cur[f := Int(-1)], fields[j + 1..], recNo).log;
              assert (diagnostics + [Diagnostic(f, recNo, s)]) + rest == diagnostics + ([Diagnostic(f, recNo, s)] + rest);
              diagnostics := diagnostics + [Diagnostic(f, recNo, s)];
              cur := cur[f := Int(-1)];
            }
          case _ =>
            return Err(NotText(f));
        }
      }
      return Ok(cur);
    }

    /** Read the records of `raw`: each `<eor>` emits the fixed-up staging record, each `<eoh>` discards all so far. */
    method Load(raw: string) returns (r: Result<seq<Record>, LoadError>)
      modifies this
      ensures var o := Scan(raw, 0, [], map[], old(recNo), old(diagnostics));
              r == o.result && recNo == o.recNo && diagnostics == o.log
    {
      // The search for the end of the header looks for the empty pattern, which matches at 0.
      var pos := 0;
      var recs: seq<Record> := [];
      var rec: Record := map[];
      while true
        invariant Scan(raw, pos, recs, rec, recNo, diagnostics) == Scan(raw, 0, [], map[], old(recNo), old(diagnostics))
        decreases |raw| - pos
      {
        var lt := Find(raw, '<', pos);
        if lt == -1 {
          return Ok(recs);
        }
        var gt := Find(raw, '>', lt);
        if gt == -1 {
          return Err(UnclosedTag(lt));
        }
        var fieldDef := FieldDef(raw, lt, gt);
        var fieldName := Lower(fieldDef[0]);
        ghost var step := Tag(raw, lt, gt, recs, rec, recNo, diagnostics);
        ghost var state := Scan(raw, pos, recs, rec, recNo, diagnostics);
        assert step.Stop? ==> state == step.outcome;
        assert step.Go? ==> state == Scan(raw, gt, step.recs, step.rec, step.recNo, step.log);
        if fieldName == "eor" {
          ghost var log0 := diagnostics;
          var fixed := AdifFixup(rec);
          assert diagnostics == log0 + Fixed(rec, recNo).log;
          if fixed.Err? {
            assert step == Stop(LoadOutcome(Err(fixed.error), recNo, diagnostics));
            return Err(fixed.error);
          }
          assert step == Go(recs + [fixed.value], map[], recNo + 1, diagnostics);
          recs := recs + [fixed.value];
          recNo := recNo + 1;
          rec := map[];
        } else if fieldName == "eoh" {
          assert step == Go([], map[], recNo, diagnostics);
          recs := [];
          rec := map[];
        } else if |fieldDef| > 1 {
          var fieldLen := ParseInt(fieldDef[1]);
          if fieldLen.None? {
            assert step == Stop(LoadOutcome(Err(BadLength(fieldDef[1])), recNo, diagnostics));
            return Err(BadLength(fieldDef[1]));
          }
          rec := rec[fieldName := Str(FieldValue(raw, gt, fieldLen.value))];
          assert step == Go(recs, rec, recNo, diagnostics);
        } else {
          assert step == Go(recs, rec, recNo, diagnostics);
        }
        pos := gt;
      }
    }
  }
}
