/**
 * Concrete outcomes of the ADIF reader. The parsers and the integer fields
 * use the values of the sample QSO at adif.py:126-128 (K6SRZ on 20 m,
 * 27 May 2013 at 08:31:00, `dxcc` 291, `cqz` 3, `ituz` 6, `tx_pwr` 100).
 * The texts `Unknown` and `notanum` are not in that sample: they are chosen
 * here to reach the `unknown` transmit power case and the failure path of
 * the fix-up. The empty log is the sample of the null test.
 */
module Examples {
  import opened Wrappers
  import opened Text
  import opened Numbers
  import opened Strptime
  import opened Adif
  import opened ScanProperties
  import opened FixupProperties

  // ---------------------------------------------------------------- parsers

  /** The value of three ASCII digits, digit by digit, for the three-digit sample values. */
  lemma ThreeDigitValue(s: string)
    requires |s| == 3 && AllDigits(s)
    ensures DigitsValue(s) == 100 * DigitValue(s[0]) + 10 * DigitValue(s[1]) + DigitValue(s[2])
  {
    TwoDigits(s[..2]);
  }

  /** The value of four ASCII digits, digit by digit, for the year of the sample date. */
  lemma FourDigitValue(s: string)
    requires |s| == 4 && AllDigits(s)
    ensures DigitsValue(s) == 1000 * DigitValue(s[0]) + 100 * DigitValue(s[1]) + 10 * DigitValue(s[2]) + DigitValue(s[3])
  {
    ThreeDigitValue(s[..3]);
  }

  /** `qso_date` 20130527 is 27 May 2013. */
  lemma SampleDate()
    ensures ParseDate("20130527") == Some(CalendarDate(2013, 5, 27))
  {
    var s := "20130527";
    assert DigitsValue(s[..4]) == 2013 by {
      assert s[..4] == "2013";
      FourDigitValue(s[..4]);
    }
    assert DigitsValue(s[4..6]) == 5 by {
      assert s[4..6] == "05";
      TwoDigits(s[4..6]);
    }
    assert DigitsValue(s[6..]) == 27 by {
      assert s[6..] == "27";
      TwoDigits(s[6..]);
    }
    DateFixedWidth(s);
  }

  /** `time_on` 083100 is 08:31:00. */
  lemma SampleLongTime()
    ensures ParseTime("083100", HourMinuteSecond) == Some(TimeOfDay(8, 31, 0))
  {
    var s := "083100";
    assert DigitsValue(s[..2]) == 8 by {
      assert s[..2] == "08";
      TwoDigits(s[..2]);
    }
    assert DigitsValue(s[2..4]) == 31 by {
      assert s[2..4] == "31";
      TwoDigits(s[2..4]);
    }
    assert DigitsValue(s[4..]) == 0 by {
      assert s[4..] == "00";
      TwoDigits(s[4..]);
    }
    TimeSixDigits(s);
  }

  /** `time_on` 0831 is 08:31 with no seconds. */
  lemma SampleShortTime()
    ensures ParseTime("0831", HourMinute) == Some(TimeOfDay(8, 31, 0))
  {
    var s := "0831";
    assert DigitsValue(s[..2]) == 8 by {
      assert s[..2] == "08";
      TwoDigits(s[..2]);
    }
    assert DigitsValue(s[2..]) == 31 by {
      assert s[2..] == "31";
      TwoDigits(s[2..]);
    }
    TimeFourDigits(s);
  }

  /** `dxcc` 291 is an integer. */
  lemma SampleDxcc()
    ensures ParseInt("291") == Some(291)
  {
    var s := "291";
    assert AllDigits(s) && DigitsValue(s) == 291 by {
      ThreeDigitValue(s);
    }
    ParseDigits(s);
  }

  /** `tx_pwr` 100 is an integer. */
  lemma SamplePower()
    ensures ParseInt("100") == Some(100)
  {
    var s := "100";
    assert AllDigits(s) && DigitsValue(s) == 100 by {
      ThreeDigitValue(s);
    }
    ParseDigits(s);
  }

  /** The zones `cqz` 3 and `ituz` 6 are integers. */
  lemma SampleZones()
    ensures ParseInt("3") == Some(3) && ParseInt("6") == Some(6)
  {
    assert AllDigits("3") && DigitsValue("3") == 3 by {
      assert "3"[..0] == [];
    }
    ParseDigits("3");
    assert AllDigits("6") && DigitsValue("6") == 6 by {
      assert "6"[..0] == [];
    }
    ParseDigits("6");
  }

  // ---------------------------------------------------------------- fix-up

  /**
   * The integer fields of the sample QSO, as its test expects them: in any
   * record the fix-up accepts that holds these texts, `dxcc` becomes 291,
   * `cqz` 3, `ituz` 6 and `tx_pwr` 100.
   */
  lemma SampleTestIntegers(rec: Record, recNo: nat)
    requires Fixed(rec, recNo).result.Ok?
    requires "dxcc" in rec && rec["dxcc"] == Str("291")
    requires "cqz" in rec && rec["cqz"] == Str("3")
    requires "ituz" in rec && rec["ituz"] == Str("6")
    requires "tx_pwr" in rec && rec["tx_pwr"] == Str("100")
    ensures var r := Fixed(rec, recNo).result.value;
            "dxcc" in r && r["dxcc"] == Int(291) && "cqz" in r && r["cqz"] == Int(3)
            && "ituz" in r && r["ituz"] == Int(6) && "tx_pwr" in r && r["tx_pwr"] == Int(100)
  {
    var r := Fixed(rec, recNo).result.value;
    assert "dxcc" in r && r["dxcc"] == Int(291) by {
      SampleDxcc();
      FixupIntFields(rec, recNo, "dxcc");
    }
    assert "cqz" in r && r["cqz"] == Int(3) && "ituz" in r && r["ituz"] == Int(6) by {
      SampleZones();
      FixupIntFields(rec, recNo, "cqz");
      FixupIntFields(rec, recNo, "ituz");
    }
    assert "tx_pwr" in r && r["tx_pwr"] == Int(100) by {
      SamplePower();
      assert Lower("100") != "unknown";
      FixupTxPwr(rec, recNo, "100");
    }
  }

  /** `Unknown`, a transmit power outside the sample, lower-cases to `unknown`. */
  lemma UnknownAnyCase()
    ensures Lower("Unknown") == "unknown"
  {
    var l := Lower("Unknown");
    assert l[0] == LowerChar('U') == 'u';
    assert l[1..] == "nknown";
  }

  /**
   * With texts outside the sample: in any record the fix-up accepts,
   * `dxcc` 291 becomes the number 291, a `cqz` of `notanum` becomes -1 and
   * an `Unknown` transmit power becomes -1.
   */
  lemma SampleIntegerFields(rec: Record, recNo: nat)
    requires Fixed(rec, recNo).result.Ok?
    requires "dxcc" in rec && rec["dxcc"] == Str("291")
    requires "cqz" in rec && rec["cqz"] == Str("notanum")
    requires "tx_pwr" in rec && rec["tx_pwr"] == Str("Unknown")
    ensures var r := Fixed(rec, recNo).result.value;
            "dxcc" in r && r["dxcc"] == Int(291) && "cqz" in r && r["cqz"] == Int(-1)
            && "tx_pwr" in r && r["tx_pwr"] == Int(-1)
  {
    TxPwrName();
    SampleDxcc();
    NotIntegers();
    FixupIntFields(rec, recNo, "dxcc");
    FixupIntFields(rec, recNo, "cqz");
    UnknownAnyCase();
    FixupTxPwr(rec, recNo, "Unknown");
  }

  /** A record with the same keys as a one-key map is that map. */
  lemma OneKey(r: Record, k: string, u: Value)
    requires r.Keys == map[k := u].Keys
    ensures k in r && r == map[k := r[k]]
  {
  }

  /** A record whose only field is a `cqz` of `notanum`: the field becomes -1 ... */
  lemma SampleUnreadableValue()
    ensures Fixed(map["cqz" := Str("notanum")], 7).result == Ok(map["cqz" := Int(-1)])
  {
    var rec := map["cqz" := Str("notanum")];
    TxPwrName();
    assert !IsCoercedName("cqz");
    FixupTextSucceeds(rec, 7);
    FixupKeepsKeys(rec, 7);
    NotIntegers();
    FixupIntFields(rec, 7, "cqz");
    OneKey(Fixed(rec, 7).result.value, "cqz", Str("notanum"));
  }

  /** ... and is logged, once, with its text and the record number. */
  lemma SampleUnreadableLog()
    ensures Fixed(map["cqz" := Str("notanum")], 7).log == [Diagnostic("cqz", 7, "notanum")]
  {
    var rec := map["cqz" := Str("notanum")];
    SampleUnreadableValue();
    FixupLog(rec, 7);
    UnreadableFailures();
  }

  /** The lone `cqz` record logs nothing for `ituz` and `tx_pwr` ... */
  lemma UnreadableFailuresTail()
    ensures Failures(map["cqz" := Str("notanum")], IntFields[2..], 7) == []
  {
    var rec := map["cqz" := Str("notanum")];
    assert !Unconvertible(rec, "tx_pwr");
    assert Failures(rec, IntFields[3..], 7) == [];
    assert !Unconvertible(rec, "ituz");
  }

  /** ... so its failure list is the one `cqz` diagnostic. */
  lemma UnreadableFailures()
    ensures Failures(map["cqz" := Str("notanum")], IntFields, 7) == [Diagnostic("cqz", 7, "notanum")]
  {
    var rec := map["cqz" := Str("notanum")];
    NotIntegers();
    UnreadableFailuresTail();
    assert Unconvertible(rec, "cqz");
    assert Failures(rec, IntFields[1..], 7) == [Diagnostic("cqz", 7, "notanum")];
    assert !Unconvertible(rec, "dxcc");
  }

  // ---------------------------------------------------------------- loads

  /** An empty file holds no records. */
  lemma SampleEmptyLoad()
    ensures Scan("", 0, [], map[], 0, []) == LoadOutcome(Ok([]), 0, [])
  {
    LoadWithoutTags("", 0, []);
  }
}
