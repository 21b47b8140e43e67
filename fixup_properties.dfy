/**
 * What the fix-up of the ADIF reader promises about a record: the key set
 * stays, each value changes only as its name says, the integer fields
 * always end up integers, and what gets logged.
 */
module FixupProperties {
  import opened Wrappers
  import opened Text
  import opened Numbers
  import opened Strptime
  import opened Adif

  /** No key occurs twice. */
  predicate Distinct(ks: seq<string>) {
    forall i, j :: 0 <= i < j < |ks| ==> ks[i] != ks[j]
  }

  /** The first loop may turn `v`, the value of `k`, into `w`: it does so for some time format carried in. */
  ghost predicate CoercedTo(k: string, v: Value, w: Value) {
    exists f: Option<TimeFormat> :: CoerceOne(k, v, f).Ok? && CoerceOne(k, v, f).value.0 == w
  }

  /** `int(v)`, or the default -1 when the text is not an integer. */
  function AsInt(v: Value): Value {
    match v
    case Str(s) => Int(match ParseInt(s) case Some(n) => n case None => -1)
    case _ => v
  }

  /** Field `f` holds text that int() refuses and that is not the `unknown` transmit power. */
  predicate Unconvertible(rec: Record, f: string) {
    f in rec && rec[f].Str? && ParseInt(rec[f].text).None?
    && !(f == "tx_pwr" && Lower(rec[f].text) == "unknown")
  }

  /** One log entry for each field of `fields`, in order, whose text does not convert. */
  function Failures(rec: Record, fields: seq<string>, recNo: nat): seq<Diagnostic>
    decreases |fields|
  {
    if fields == [] then []
    else
      (if Unconvertible(rec, fields[0]) then [Diagnostic(fields[0], recNo, rec[fields[0]].text)] else [])
      + Failures(rec, fields[1..], recNo)
  }

  // ---------------------------------------------------------------- the first loop

  lemma DistinctTail(ks: seq<string>)
    requires |ks| >= 1 && Distinct(ks)
    ensures Distinct(ks[1..]) && ks[0] !in ks[1..]
  {
    forall j | 0 <= j < |ks| - 1
      ensures ks[1..][j] != ks[0]
    {
      assert ks[1..][j] == ks[j + 1];
    }
  }

  /**
   * A first loop that succeeds over distinct keys keeps the key set, leaves
   * the keys it does not visit alone, and changes each key it visits as
   * CoerceOne allows.
   */
  lemma {:induction false} CoerceKeysEach(rec: Record, ks: seq<string>, fmt: Option<TimeFormat>)
    requires forall k :: k in ks ==> k in rec
    requires Distinct(ks)
    requires CoerceKeys(rec, ks, fmt).Ok?
    ensures var r := CoerceKeys(rec, ks, fmt).value;
            r.Keys == rec.Keys
            && (forall k :: k in rec && k !in ks ==> r[k] == rec[k])
            && (forall k :: k in ks ==> CoercedTo(k, rec[k], r[k]))
    decreases |ks|
  {
    if ks != [] {
      var k0 := ks[0];
      var c := CoerceOne(k0, rec[k0], fmt);
      var next := rec[k0 := c.value.0];
      DistinctTail(ks);
      CoerceKeysEach(next, ks[1..], c.value.1);
      var r := CoerceKeys(rec, ks, fmt).value;
      assert r == CoerceKeys(next, ks[1..], c.value.1).value;
      assert r[k0] == c.value.0;
      forall k | k in ks
        ensures CoercedTo(k, rec[k], r[k])
      {
        if k == k0 {
          assert CoerceOne(k, rec[k], fmt).Ok? && CoerceOne(k, rec[k], fmt).value.0 == r[k];
        } else {
          assert k in ks[1..] && next[k] == rec[k];
        }
      }
    }
  }

  /** A first loop over distinct keys in which every value converts, whatever the format carried in, succeeds. */
  lemma {:induction false} CoerceKeysSucceeds(rec: Record, ks: seq<string>, fmt: Option<TimeFormat>)
    requires forall k :: k in ks ==> k in rec
    requires Distinct(ks)
    requires forall k, f :: k in ks ==> CoerceOne(k, rec[k], f).Ok?
    ensures CoerceKeys(rec, ks, fmt).Ok?
    decreases |ks|
  {
    if ks != [] {
      var k0 := ks[0];
      var c := CoerceOne(k0, rec[k0], fmt);
      var next := rec[k0 := c.value.0];
      DistinctTail(ks);
      forall k, f | k in ks[1..]
        ensures CoerceOne(k, next[k], f).Ok?
      {
        assert next[k] == rec[k];
      }
      CoerceKeysSucceeds(next, ks[1..], c.value.1);
    }
  }

  // ---------------------------------------------------------------- the second loop

  /** Setting a field outside `fields` does not change what is logged for them. */
  lemma {:induction false} FailuresFrame(rec: Record, fields: seq<string>, recNo: nat, f: string, v: Value)
    requires f !in fields
    ensures Failures(rec[f := v], fields, recNo) == Failures(rec, fields, recNo)
    decreases |fields|
  {
    if fields != [] {
      FailuresFrame(rec, fields[1..], recNo, f, v);
    }
  }

  /** The second loop over distinct fields succeeds exactly when each present field holds text or an integer. */
  lemma {:induction false} ConvertIntsOk(rec: Record, fields: seq<string>, recNo: nat)
    requires Distinct(fields)
    ensures ConvertInts(rec, fields, recNo).result.Ok?
            <==> forall f :: f in fields && f in rec ==> rec[f].Str? || rec[f].Int?
    decreases |fields|
  {
    if fields != [] {
      var f := fields[0];
      DistinctTail(fields);
      var next := if f in rec && rec[f].Str? then rec[f := AsInt(rec[f])] else rec;
      ConvertIntsOk(next, fields[1..], recNo);
      assert forall g :: g in fields[1..] ==> g != f;
      assert forall g :: g in fields[1..] && g in rec ==> g in next && next[g] == rec[g];
      assert forall g :: g in fields <==> g == f || g in fields[1..];
      assert ConvertInts(rec, fields, recNo).result.Ok?
             <==> (f in rec ==> rec[f].Str? || rec[f].Int?) && ConvertInts(next, fields[1..], recNo).result.Ok?;
    }
  }

  /**
   * When it succeeds, the second loop keeps the key set, makes every present
   * field of `fields` an integer (-1 when its text does not convert) and
   * leaves the other fields alone.
   */
  lemma {:induction false} ConvertIntsValues(rec: Record, fields: seq<string>, recNo: nat)
    requires Distinct(fields)
    requires ConvertInts(rec, fields, recNo).result.Ok?
    ensures var r := ConvertInts(rec, fields, recNo).result.value;
            r.Keys == rec.Keys
            && (forall k :: k in rec && k !in fields ==> r[k] == rec[k])
            && (forall k :: k in rec && k in fields ==> r[k] == AsInt(rec[k]) && r[k].Int?)
    decreases |fields|
  {
    if fields != [] {
      var f := fields[0];
      DistinctTail(fields);
      var next := if f in rec && rec[f].Str? then rec[f := AsInt(rec[f])] else rec;
      assert ConvertInts(rec, fields, recNo).result == ConvertInts(next, fields[1..], recNo).result;
      ConvertIntsValues(next, fields[1..], recNo);
      assert forall g :: g in fields[1..] ==> g != f;
      assert f in rec ==> rec[f].Str? || rec[f].Int?;
    }
  }

  /** When it succeeds, the second loop logs exactly the fields whose text does not convert, in order. */
  lemma {:induction false} ConvertIntsLog(rec: Record, fields: seq<string>, recNo: nat)
    requires Distinct(fields)
    requires forall f :: f in fields && f == "tx_pwr" ==> f !in rec || !rec[f].Str? || Lower(rec[f].text) != "unknown"
    requires ConvertInts(rec, fields, recNo).result.Ok?
    ensures ConvertInts(rec, fields, recNo).log == Failures(rec, fields, recNo)
    decreases |fields|
  {
    if fields != [] {
      var f := fields[0];
      DistinctTail(fields);
      var next := if f in rec && rec[f].Str? then rec[f := AsInt(rec[f])] else rec;
      forall g | g in fields[1..] && g == "tx_pwr"
        ensures g !in next || !next[g].Str? || Lower(next[g].text) != "unknown"
      {
        assert g != f;
      }
      assert ConvertInts(rec, fields, recNo).result == ConvertInts(next, fields[1..], recNo).result;
      ConvertIntsLog(next, fields[1..], recNo);
      if f in rec && rec[f].Str? {
        FailuresFrame(rec, fields[1..], recNo, f, AsInt(rec[f]));
      }
    }
  }

  /** The three facts about the second loop together. */
  lemma ConvertIntsEach(rec: Record, fields: seq<string>, recNo: nat)
    requires Distinct(fields)
    requires forall f :: f in fields && f == "tx_pwr" ==> f !in rec || !rec[f].Str? || Lower(rec[f].text) != "unknown"
    ensures ConvertInts(rec, fields, recNo).result.Ok?
            <==> forall f :: f in fields && f in rec ==> rec[f].Str? || rec[f].Int?
    ensures ConvertInts(rec, fields, recNo).result.Ok? ==>
            var r := ConvertInts(rec, fields, recNo).result.value;
            r.Keys == rec.Keys
            && (forall k :: k in rec && k !in fields ==> r[k] == rec[k])
            && (forall k :: k in rec && k in fields ==> r[k] == AsInt(rec[k]) && r[k].Int?)
            && ConvertInts(rec, fields, recNo).log == Failures(rec, fields, recNo)
  {
    ConvertIntsOk(rec, fields, recNo);
    if ConvertInts(rec, fields, recNo).result.Ok? {
      ConvertIntsValues(rec, fields, recNo);
      ConvertIntsLog(rec, fields, recNo);
    }
  }

  // ---------------------------------------------------------------- the whole fix-up

  /** The two loops of a fix-up that succeeds. */
  lemma FixedSteps(rec: Record, recNo: nat)
    requires Fixed(rec, recNo).result.Ok?
    ensures CoerceKeys(rec, SortedKeys(rec.Keys), None).Ok?
    ensures var c := CoerceKeys(rec, SortedKeys(rec.Keys), None).value;
            Fixed(rec, recNo) == ConvertInts(c, IntFields, recNo)
            && c.Keys == rec.Keys
            && (forall k :: k in rec ==> CoercedTo(k, rec[k], c[k]))
  {
    var ks := SortedKeys(rec.Keys);
    SortedKeysSorted(rec.Keys);
    CoerceKeysEach(rec, ks, None);
  }

  /** A fix-up fails when the first loop fails on one of the keys whatever time format it carries in. */
  lemma FixedFails(rec: Record, recNo: nat, k: string)
    requires k in rec
    requires forall f :: CoerceOne(k, rec[k], f).Err?
    ensures Fixed(rec, recNo).result.Err?
  {
    if Fixed(rec, recNo).result.Ok? {
      FixedSteps(rec, recNo);
    }
  }

  /** The integer fields are distinct, none is a date, time or frequency name, and only tx_pwr among them is touched by the first loop. */
  lemma IntFieldNames()
    ensures Distinct(IntFields)
    ensures forall f :: f in IntFields ==> !EndsWith(f, "_date") && f != "freq" && !StartsWith(f, "time_")
    ensures forall f :: f in IntFields && f != "tx_pwr" ==> !IsCoercedName(f)
  {
    TxPwrName();
    assert IntFields == ["dxcc", "cqz", "ituz", "tx_pwr"];
  }

  /** `tx_pwr` is neither a date nor a time name. */
  lemma TxPwrName()
    ensures !EndsWith("tx_pwr", "_date") && !StartsWith("tx_pwr", "time_")
  {
    assert "tx_pwr"[1..] != "_date" by {
      assert "tx_pwr"[1..][0] == 'x';
    }
    assert "tx_pwr"[..5] != "time_" by {
      assert "tx_pwr"[..5][1] == 'x';
    }
  }

  /** A transmit power still text after the first loop is the text it was, and not `unknown`. */
  lemma TxPwrCoerced(v: Value, w: Value)
    requires CoercedTo("tx_pwr", v, w) && w.Str?
    ensures v == w && Lower(w.text) != "unknown"
  {
    TxPwrName();
    var g :| CoerceOne("tx_pwr", v, g).Ok? && CoerceOne("tx_pwr", v, g).value.0 == w;
  }

  /** The record between the two loops of a fix-up that succeeds, and what the second loop makes of it. */
  lemma Coerced(rec: Record, recNo: nat) returns (c: Record)
    requires Fixed(rec, recNo).result.Ok?
    ensures CoerceKeys(rec, SortedKeys(rec.Keys), None) == Ok(c)
    ensures c.Keys == rec.Keys
    ensures forall k :: k in rec ==> CoercedTo(k, rec[k], c[k])
    ensures Fixed(rec, recNo) == ConvertInts(c, IntFields, recNo)
    ensures var r := Fixed(rec, recNo).result.value;
            r.Keys == c.Keys
            && (forall k :: k in c && k !in IntFields ==> r[k] == c[k])
            && (forall k :: k in c && k in IntFields ==> r[k] == AsInt(c[k]) && r[k].Int?)
            && Fixed(rec, recNo).log == Failures(c, IntFields, recNo)
  {
    FixedSteps(rec, recNo);
    IntFieldNames();
    c := CoerceKeys(rec, SortedKeys(rec.Keys), None).value;
    if "tx_pwr" in c && c["tx_pwr"].Str? {
      TxPwrCoerced(rec["tx_pwr"], c["tx_pwr"]);
    }
    ConvertIntsEach(c, IntFields, recNo);
  }

  /** A fix-up that succeeds keeps the key set exactly. */
  lemma FixupKeepsKeys(rec: Record, recNo: nat)
    requires Fixed(rec, recNo).result.Ok?
    ensures Fixed(rec, recNo).result.value.Keys == rec.Keys
  {
    var c := Coerced(rec, recNo);
  }

  // ---------------------------------------------------------------- what CoerceOne allows, name by name

  /** A name the first loop does not handle keeps its value. */
  lemma PlainCoerced(k: string, v: Value, w: Value)
    requires !IsCoercedName(k) && CoercedTo(k, v, w)
    ensures w == v
  {
  }

  /** A `_date` value was text that parses as that calendar date. */
  lemma DateCoerced(k: string, v: Value, w: Value)
    requires EndsWith(k, "_date") && CoercedTo(k, v, w)
    ensures v.Str? && w.Date? && ParseDate(v.text) == Some(w.date)
  {
    var g :| CoerceOne(k, v, g).Ok? && CoerceOne(k, v, g).value.0 == w;
  }

  /** A `freq` value was text that reads as a float. */
  lemma FreqCoerced(v: Value, w: Value)
    requires CoercedTo("freq", v, w)
    ensures v.Str? && IsFloatLiteral(v.text) && w == Freq(v.text)
  {
    assert !EndsWith("freq", "_date");
    var g :| CoerceOne("freq", v, g).Ok? && CoerceOne("freq", v, g).value.0 == w;
  }

  /** A `time_` text of length 3 to 6 parses in the format its length selects, whatever format was carried in. */
  lemma TimeCoerced(k: string, s: string, w: Value)
    requires StartsWith(k, "time_") && !EndsWith(k, "_date") && 3 <= |s| <= 6
    requires CoercedTo(k, Str(s), w)
    ensures w.Time? && ParseTime(s, if |s| >= 5 then HourMinuteSecond else HourMinute) == Some(w.time)
  {
    assert k != "freq" by {
      assert k[..5] == "time_";
    }
    var g :| CoerceOne(k, Str(s), g).Ok? && CoerceOne(k, Str(s), g).value.0 == w;
  }

  /** A transmit power given as text becomes -1 when it is `unknown` in any case, and stays text otherwise. */
  lemma TxPwrCoercedText(s: string, w: Value)
    requires CoercedTo("tx_pwr", Str(s), w)
    ensures w == if Lower(s) == "unknown" then Int(-1) else Str(s)
  {
    TxPwrName();
    var g :| CoerceOne("tx_pwr", Str(s), g).Ok? && CoerceOne("tx_pwr", Str(s), g).value.0 == w;
  }

  // ---------------------------------------------------------------- the fix-up, field by field

  /** Fields the fix-up has no rule for keep their decoded text. */
  lemma FixupKeepsPlainFields(rec: Record, recNo: nat, k: string)
    requires Fixed(rec, recNo).result.Ok?
    requires k in rec && !IsCoercedName(k) && k !in IntFields
    ensures k in Fixed(rec, recNo).result.value && Fixed(rec, recNo).result.value[k] == rec[k]
  {
    var c := Coerced(rec, recNo);
    PlainCoerced(k, rec[k], c[k]);
  }

  /** `dxcc`, `cqz` and `ituz` become the integer their text denotes, or -1 when it denotes none. */
  lemma FixupIntFields(rec: Record, recNo: nat, k: string)
    requires Fixed(rec, recNo).result.Ok?
    requires k in rec && k in IntFields && k != "tx_pwr"
    ensures rec[k].Str? || rec[k].Int?
    ensures k in Fixed(rec, recNo).result.value && Fixed(rec, recNo).result.value[k] == AsInt(rec[k])
  {
    var c := Coerced(rec, recNo);
    IntFieldNames();
    PlainCoerced(k, rec[k], c[k]);
  }

  /** The transmit power becomes -1 when it is `unknown` in any case, and otherwise the integer its text denotes, or -1. */
  lemma FixupTxPwr(rec: Record, recNo: nat, s: string)
    requires Fixed(rec, recNo).result.Ok?
    requires "tx_pwr" in rec && rec["tx_pwr"] == Str(s)
    ensures "tx_pwr" in Fixed(rec, recNo).result.value
    ensures Fixed(rec, recNo).result.value["tx_pwr"]
            == Int(if Lower(s) == "unknown" then -1 else match ParseInt(s) case Some(n) => n case None => -1)
  {
    var c := Coerced(rec, recNo);
    TxPwrCoercedText(s, c["tx_pwr"]);
  }

  /** A `_date` field of a fix-up that succeeds was text in the form YYYYMMDD and is now that date. */
  lemma FixupDate(rec: Record, recNo: nat, k: string)
    requires Fixed(rec, recNo).result.Ok?
    requires k in rec && EndsWith(k, "_date")
    ensures var r := Fixed(rec, recNo).result.value;
            k in r && rec[k].Str? && r[k].Date? && ParseDate(rec[k].text) == Some(r[k].date)
  {
    var c := Coerced(rec, recNo);
    IntFieldNames();
    assert k != "tx_pwr";
    DateCoerced(k, rec[k], c[k]);
  }

  /** A `_date` field whose text is not a date makes the fix-up fail. */
  lemma FixupBadDate(rec: Record, recNo: nat, k: string)
    requires k in rec && EndsWith(k, "_date")
    requires !rec[k].Str? || ParseDate(rec[k].text).None?
    ensures Fixed(rec, recNo).result.Err?
  {
    FixedFails(rec, recNo, k);
  }

  /** The `freq` field of a fix-up that succeeds was text that reads as a float. */
  lemma FixupFreq(rec: Record, recNo: nat)
    requires Fixed(rec, recNo).result.Ok?
    requires "freq" in rec
    ensures rec["freq"].Str? && IsFloatLiteral(rec["freq"].text)
    ensures "freq" in Fixed(rec, recNo).result.value && Fixed(rec, recNo).result.value["freq"] == Freq(rec["freq"].text)
  {
    var c := Coerced(rec, recNo);
    IntFieldNames();
    FreqCoerced(rec["freq"], c["freq"]);
  }

  /** A `freq` field that does not read as a float makes the fix-up fail. */
  lemma FixupBadFreq(rec: Record, recNo: nat)
    requires "freq" in rec
    requires !rec["freq"].Str? || !IsFloatLiteral(rec["freq"].text)
    ensures Fixed(rec, recNo).result.Err?
  {
    assert !EndsWith("freq", "_date");
    FixedFails(rec, recNo, "freq");
  }

  /** A `time_` field of length 3 or 4 is read as HHMM, of length 5 or 6 as HHMMSS. */
  lemma FixupTime(rec: Record, recNo: nat, k: string, s: string)
    requires Fixed(rec, recNo).result.Ok?
    requires k in rec && StartsWith(k, "time_") && !EndsWith(k, "_date")
    requires rec[k] == Str(s) && 3 <= |s| <= 6
    ensures var r := Fixed(rec, recNo).result.value;
            k in r && r[k].Time? && ParseTime(s, if |s| >= 5 then HourMinuteSecond else HourMinute) == Some(r[k].time)
  {
    var c := Coerced(rec, recNo);
    IntFieldNames();
    assert k !in IntFields;
    TimeCoerced(k, s, c[k]);
  }

  /** A `time_` field of length 3 to 6 that is not a time in its format makes the fix-up fail. */
  lemma FixupBadTime(rec: Record, recNo: nat, k: string, s: string)
    requires k in rec && StartsWith(k, "time_") && !EndsWith(k, "_date")
    requires rec[k] == Str(s) && 3 <= |s| <= 6
    requires ParseTime(s, if |s| >= 5 then HourMinuteSecond else HourMinute).None?
    ensures Fixed(rec, recNo).result.Err?
  {
    assert k != "freq" by {
      assert k[..5] == "time_";
    }
    forall f
      ensures CoerceOne(k, rec[k], f).Err?
    {
      assert FormatFor(|s|, f) == Some(if |s| >= 5 then HourMinuteSecond else HourMinute);
    }
    FixedFails(rec, recNo, k);
  }

  // ---------------------------------------------------------------- the log

  lemma {:induction false} FailuresAgree(c: Record, rec: Record, fields: seq<string>, recNo: nat)
    requires forall f :: f in fields ==> Unconvertible(c, f) == Unconvertible(rec, f)
    requires forall f :: f in fields && Unconvertible(c, f) ==> f in rec && c[f] == rec[f]
    ensures Failures(c, fields, recNo) == Failures(rec, fields, recNo)
    decreases |fields|
  {
    if fields != [] {
      FailuresAgree(c, rec, fields[1..], recNo);
    }
  }

  /** Fields the record does not hold are never logged. */
  lemma {:induction false} AbsentNotLogged(rec: Record, fields: seq<string>, recNo: nat)
    requires forall f :: f in fields ==> f !in rec
    ensures Failures(rec, fields, recNo) == []
    decreases |fields|
  {
    if fields != [] {
      AbsentNotLogged(rec, fields[1..], recNo);
    }
  }

  /** A fix-up that succeeds logs, in order and with the record number, exactly the integer fields whose text does not convert. */
  lemma FixupLog(rec: Record, recNo: nat)
    requires Fixed(rec, recNo).result.Ok?
    ensures Fixed(rec, recNo).log == Failures(rec, IntFields, recNo)
  {
    var c := Coerced(rec, recNo);
    IntFieldNames();
    forall f | f in IntFields
      ensures Unconvertible(c, f) == Unconvertible(rec, f)
      ensures Unconvertible(c, f) ==> c[f] == rec[f]
    {
      if f in rec {
        if f == "tx_pwr" {
          if rec[f].Str? {
            TxPwrCoercedText(rec[f].text, c[f]);
          } else {
            TxPwrName();
          }
        } else {
          PlainCoerced(f, rec[f], c[f]);
        }
      }
    }
    FailuresAgree(c, rec, IntFields, recNo);
  }

  // ---------------------------------------------------------------- when the fix-up succeeds

  /**
   * A record of text with no date, frequency or time field always fixes up:
   * a value int() refuses is replaced, never raised.
   */
  lemma FixupTextSucceeds(rec: Record, recNo: nat)
    requires forall k :: k in rec ==> rec[k].Str?
    requires forall k :: k in rec ==> !EndsWith(k, "_date") && k != "freq" && !StartsWith(k, "time_")
    ensures Fixed(rec, recNo).result.Ok?
  {
    var ks := SortedKeys(rec.Keys);
    SortedKeysSorted(rec.Keys);
    CoerceKeysSucceeds(rec, ks, None);
    CoerceKeysEach(rec, ks, None);
    var c := CoerceKeys(rec, ks, None).value;
    forall f | f in IntFields && f in c
      ensures c[f].Str? || c[f].Int?
    {
      if f == "tx_pwr" {
        TxPwrCoercedText(rec[f].text, c[f]);
      } else {
        IntFieldNames();
        PlainCoerced(f, rec[f], c[f]);
      }
    }
    IntFieldNames();
    if "tx_pwr" in c && c["tx_pwr"].Str? {
      TxPwrCoerced(rec["tx_pwr"], c["tx_pwr"]);
    }
    ConvertIntsEach(c, IntFields, recNo);
  }
}
