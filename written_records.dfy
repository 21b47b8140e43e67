/**
 * The reader against a writer: a record written as a run of field tags,
 * each `<name:n>` followed by its `&lt;`-encoded value, and closed by
 * `<eor>`, loads as the record those fields stage, fixed up; a header of
 * free text and fields closed by `<eoh>` in front of it changes nothing.
 */
module WrittenRecords {
  import opened Wrappers
  import opened Text
  import opened Numbers
  import opened Adif
  import opened ScanProperties
  import opened FixupProperties

  /** A field as a writer sees it: its name and its value. */
  type Field = (string, string)

  /**
   * A field a writer can emit so that it reads back: a name that is not a
   * marker and holds none of `:`, `<` and `>`, and a value that does not
   * itself spell the `&lt;` entity, which the reader would decode.
   */
  predicate Writable(f: Field) {
    ':' !in f.0 && '<' !in f.0 && '>' !in f.0
    && Lower(f.0) != "eor" && Lower(f.0) != "eoh"
    && NoEntity(f.1)
  }

  predicate AllWritable(fs: seq<Field>) {
    forall i :: 0 <= i < |fs| ==> Writable(fs[i])
  }

  /** The field `name` with value `v` as an ADIF writer emits it: `<name:n>` and the `n` characters of the encoded value. */
  function FieldText(name: string, v: string): string {
    ['<'] + (name + [':'] + ShowNat(|EncodeLt(v)|)) + (['>'] + EncodeLt(v))
  }

  /** The fields `fs`, written one after the other. */
  function Written(fs: seq<Field>): string
    decreases |fs|
  {
    if fs == [] then [] else FieldText(fs[0].0, fs[0].1) + Written(fs[1..])
  }

  /** The record `rec` after staging the fields `fs` in order: the last value under each lower-cased name wins. */
  function Staged(rec: Record, fs: seq<Field>): Record
    decreases |fs|
  {
    if fs == [] then rec else Staged(rec[Lower(fs[0].0) := Str(fs[0].1)], fs[1..])
  }

  /** What a load returns after reading the one record `rec` numbered `recNo`. */
  function OneRecord(rec: Record, recNo: nat, log: seq<Diagnostic>): LoadOutcome {
    var fixed := Fixed(rec, recNo);
    match fixed.result
    case Err(e) => LoadOutcome(Err(e), recNo, log + fixed.log)
    case Ok(r) => LoadOutcome(Ok([r]), recNo + 1, log + fixed.log)
  }

  // ---------------------------------------------------------------- staging

  /** The staged record holds the keys it started with and the lower-cased name of every field. */
  lemma {:induction false} StagedKeys(rec: Record, fs: seq<Field>, k: string)
    ensures k in Staged(rec, fs) <==> k in rec || exists i :: 0 <= i < |fs| && Lower(fs[i].0) == k
    decreases |fs|
  {
    if fs != [] {
      StagedKeys(rec[Lower(fs[0].0) := Str(fs[0].1)], fs[1..], k);
      if exists i :: 0 <= i < |fs| && Lower(fs[i].0) == k {
        var i :| 0 <= i < |fs| && Lower(fs[i].0) == k;
        if i > 0 {
          assert Lower(fs[1..][i - 1].0) == k;
        }
      }
      if exists i :: 0 <= i < |fs[1..]| && Lower(fs[1..][i].0) == k {
        var i :| 0 <= i < |fs[1..]| && Lower(fs[1..][i].0) == k;
        assert Lower(fs[i + 1].0) == k;
      }
    }
  }

  /** A field that no later field overwrites keeps its value in the staged record. */
  lemma {:induction false} StagedLast(rec: Record, fs: seq<Field>, i: nat)
    requires i < |fs|
    requires forall j :: i < j < |fs| ==> Lower(fs[j].0) != Lower(fs[i].0)
    ensures Lower(fs[i].0) in Staged(rec, fs) && Staged(rec, fs)[Lower(fs[i].0)] == Str(fs[i].1)
    decreases |fs|
  {
    var next := rec[Lower(fs[0].0) := Str(fs[0].1)];
    if i == 0 {
      StagedUntouched(next, fs[1..], Lower(fs[0].0));
    } else {
      assert fs[1..][i - 1] == fs[i];
      StagedLast(next, fs[1..], i - 1);
    }
  }

  /** A key no field names keeps the value it started with. */
  lemma {:induction false} StagedUntouched(rec: Record, fs: seq<Field>, k: string)
    requires k in rec
    requires forall j :: 0 <= j < |fs| ==> Lower(fs[j].0) != k
    ensures k in Staged(rec, fs) && Staged(rec, fs)[k] == rec[k]
    decreases |fs|
  {
    if fs != [] {
      assert Lower(fs[0].0) != k;
      StagedUntouched(rec[Lower(fs[0].0) := Str(fs[0].1)], fs[1..], k);
    }
  }

  /** Staging text onto text gives text. */
  lemma {:induction false} StagedText(rec: Record, fs: seq<Field>)
    requires forall k :: k in rec ==> rec[k].Str?
    ensures forall k :: k in Staged(rec, fs) ==> Staged(rec, fs)[k].Str?
    decreases |fs|
  {
    if fs != [] {
      StagedText(rec[Lower(fs[0].0) := Str(fs[0].1)], fs[1..]);
    }
  }

  // ---------------------------------------------------------------- the scan

  lemma FindAt(s: string, c: char, from: nat, i: nat)
    requires from <= i < |s| && s[i] == c
    requires forall j :: from <= j < i ==> s[j] != c
    ensures Find(s, c, from) == i
  {
  }

  /** The scan from `p` meets its first `<` at `q`, where a scan from `q` starts. */
  lemma SkipToTag(raw: string, p: nat, q: nat, recs: seq<Record>, rec: Record, recNo: nat, log: seq<Diagnostic>)
    requires Find(raw, '<', p) == q
    ensures Scan(raw, p, recs, rec, recNo, log) == Scan(raw, q, recs, rec, recNo, log)
  {
    FindAt(raw, '<', q, q);
  }

  /** A slice of a slice is a slice. */
  lemma SubSlice(s: string, a: nat, b: nat, c: nat, d: nat)
    requires a <= b <= |s| && c <= d <= b - a
    ensures s[a..b][c..d] == s[a + c..a + d]
  {
    forall i | 0 <= i < d - c
      ensures s[a..b][c..d][i] == s[a + c..a + d][i]
    {
    }
  }

  /** The middle part of `x + y + z`, laid out in `raw` from `p`, sits right after `x`. */
  lemma Piece(raw: string, p: nat, x: string, y: string, z: string)
    requires p + |x| + |y| + |z| <= |raw| && raw[p..p + |x| + |y| + |z|] == x + y + z
    ensures raw[p + |x|..p + |x| + |y|] == y
  {
    forall i | 0 <= i < |y|
      ensures raw[p + |x| + i] == y[i]
    {
      assert raw[p + |x| + i] == raw[p..p + |x| + |y| + |z|][|x| + i];
    }
  }

  /** A written field laid out from `p` opens with `<`. */
  lemma FieldOpens(raw: string, p: nat, name: string, v: string)
    requires p + |FieldText(name, v)| <= |raw| && raw[p..p + |FieldText(name, v)|] == FieldText(name, v)
    ensures raw[p] == '<'
  {
    assert raw[p] == raw[p..p + |FieldText(name, v)|][0];
  }

  /** The tag of a written field laid out from `p` holds its name, a colon and its length. */
  lemma FieldHead(raw: string, p: nat, name: string, v: string)
    requires p + |FieldText(name, v)| <= |raw| && raw[p..p + |FieldText(name, v)|] == FieldText(name, v)
    ensures raw[p + 1..p + 1 + |name| + 1 + |ShowNat(|EncodeLt(v)|)|] == name + [':'] + ShowNat(|EncodeLt(v)|) + []
  {
    var head := name + [':'] + ShowNat(|EncodeLt(v)|);
    Piece(raw, p, ['<'], head, ['>'] + EncodeLt(v));
    assert head + [] == head;
  }

  /** The tag of a written field laid out from `p` closes with `>` right after its length. */
  lemma FieldCloses(raw: string, p: nat, name: string, v: string)
    requires p + |FieldText(name, v)| <= |raw| && raw[p..p + |FieldText(name, v)|] == FieldText(name, v)
    ensures raw[p + |name| + |ShowNat(|EncodeLt(v)|)| + 2] == '>'
  {
    var k := |name| + |ShowNat(|EncodeLt(v)|)| + 2;
    assert raw[p + k] == raw[p..p + |FieldText(name, v)|][k];
  }

  /** The value of a written field laid out from `p` fills the rest of it, encoded. */
  lemma FieldBody(raw: string, p: nat, name: string, v: string)
    requires p + |FieldText(name, v)| <= |raw| && raw[p..p + |FieldText(name, v)|] == FieldText(name, v)
    ensures raw[p + |name| + |ShowNat(|EncodeLt(v)|)| + 3..p + |FieldText(name, v)|] == EncodeLt(v)
  {
    var k := |name| + |ShowNat(|EncodeLt(v)|)| + 3;
    forall i | 0 <= i < |EncodeLt(v)|
      ensures raw[p + k + i] == EncodeLt(v)[i]
    {
      assert raw[p + k + i] == raw[p..p + |FieldText(name, v)|][k + i];
    }
  }

  /** The tag of a written field opens at `p` and closes at `gt`; the next `<` after it is at `next`. */
  lemma FieldBounds(raw: string, p: nat, name: string, len: string, gt: nat, next: nat)
    requires p < gt < next < |raw| && raw[p] == '<' && raw[gt] == '>' && raw[next] == '<'
    requires raw[p + 1..gt] == name + [':'] + len + [] && '>' !in name && AllDigits(len)
    requires '<' !in raw[gt + 1..next]
    ensures NextTag(raw, p) == Some((p, gt))
    ensures Find(raw, '<', gt) == next
  {
    FindAt(raw, '<', p, p);
    forall j | p <= j < gt
      ensures raw[j] != '>'
    {
      if p < j {
        assert raw[j] == raw[p + 1..gt][j - p - 1];
        if j - p - 1 > |name| {
          assert raw[j] == len[j - p - 2 - |name|];
        }
      }
    }
    FindAt(raw, '>', p, gt);
    forall j | gt <= j < next
      ensures raw[j] != '<'
    {
      if gt < j {
        assert raw[j] == raw[gt + 1..next][j - gt - 1];
      }
    }
    FindAt(raw, '<', gt, next);
  }

  /** The tag of a written field laid out from `p` is the next tag, its name and length sit inside it, and its value follows it. */
  lemma FieldTagFound(raw: string, p: nat, name: string, v: string, gt: nat, next: nat)
    requires '>' !in name
    requires gt == p + |name| + |ShowNat(|EncodeLt(v)|)| + 2 && next == p + |FieldText(name, v)|
    requires next < |raw| && raw[p..next] == FieldText(name, v) && raw[next] == '<'
    ensures NextTag(raw, p) == Some((p, gt)) && Find(raw, '<', gt) == next
    ensures raw[p + 1..gt] == name + [':'] + ShowNat(|EncodeLt(v)|) + [] && StartsWith(raw[gt + 1..], EncodeLt(v))
  {
    FieldOpens(raw, p, name, v);
    FieldHead(raw, p, name, v);
    FieldCloses(raw, p, name, v);
    FieldBody(raw, p, name, v);
    assert raw[gt + 1..][..|EncodeLt(v)|] == raw[gt + 1..next];
    FieldBounds(raw, p, name, ShowNat(|EncodeLt(v)|), gt, next);
  }

  /** The tag of a writable field, with its value after it, stages that value under the lower-cased name. */
  lemma FieldTagStages(raw: string, p: nat, f: Field, gt: nat, recs: seq<Record>, rec: Record, recNo: nat, log: seq<Diagnostic>)
    requires Writable(f) && p < gt < |raw|
    requires raw[p + 1..gt] == f.0 + [':'] + ShowNat(|EncodeLt(f.1)|) + [] && StartsWith(raw[gt + 1..], EncodeLt(f.1))
    ensures Tag(raw, p, gt, recs, rec, recNo, log) == Go(recs, rec[Lower(f.0) := Str(f.1)], recNo, log)
  {
    ParseDigits(ShowNat(|EncodeLt(f.1)|));
    FieldTagStores(raw, p, gt, f.0, ShowNat(|EncodeLt(f.1)|), [], recs, rec, recNo, log);
    FieldValueRoundTrip(raw, gt, f.1);
  }

  /** A written field starting at `p`, followed by a tag, stages its value and hands over to that tag. */
  lemma FieldStep(raw: string, p: nat, f: Field, recs: seq<Record>, rec: Record, recNo: nat, log: seq<Diagnostic>)
    requires Writable(f)
    requires p + |FieldText(f.0, f.1)| < |raw|
    requires raw[p..p + |FieldText(f.0, f.1)|] == FieldText(f.0, f.1) && raw[p + |FieldText(f.0, f.1)|] == '<'
    ensures Scan(raw, p, recs, rec, recNo, log)
            == Scan(raw, p + |FieldText(f.0, f.1)|, recs, rec[Lower(f.0) := Str(f.1)], recNo, log)
  {
    var gt := p + |f.0| + |ShowNat(|EncodeLt(f.1)|)| + 2;
    FieldTagFound(raw, p, f.0, f.1, gt, p + |FieldText(f.0, f.1)|);
    FieldTagStages(raw, p, f, gt, recs, rec, recNo, log);
    ScanAtTag(raw, p, recs, rec, recNo, log, p, gt);
    SkipToTag(raw, gt, p + |FieldText(f.0, f.1)|, recs, rec[Lower(f.0) := Str(f.1)], recNo, log);
  }

  /**
   * The fields `fs` lie in `raw` from `p` on, each written out and opening
   * with `<`, and the tag after the last of them opens at `e`.
   */
  predicate LaidOut(raw: string, p: nat, fs: seq<Field>, e: nat)
    decreases |fs|
  {
    p < |raw| && raw[p] == '<'
    && if fs == [] then p == e else
      p + |FieldText(fs[0].0, fs[0].1)| < |raw|
      && raw[p..p + |FieldText(fs[0].0, fs[0].1)|] == FieldText(fs[0].0, fs[0].1)
      && LaidOut(raw, p + |FieldText(fs[0].0, fs[0].1)|, fs[1..], e)
  }

  /** The first of a run of laid-out fields is written out and followed by `<`. */
  lemma LaidOutFirst(raw: string, p: nat, fs: seq<Field>, e: nat)
    requires fs != [] && LaidOut(raw, p, fs, e)
    ensures p + |FieldText(fs[0].0, fs[0].1)| < |raw|
    ensures raw[p..p + |FieldText(fs[0].0, fs[0].1)|] == FieldText(fs[0].0, fs[0].1)
    ensures raw[p + |FieldText(fs[0].0, fs[0].1)|] == '<'
  {
  }

  /** The first of a run of laid-out fields stages its value and hands over to the field after it. */
  lemma FirstFieldStep(raw: string, p: nat, fs: seq<Field>, e: nat, recs: seq<Record>, rec: Record, recNo: nat, log: seq<Diagnostic>)
    requires fs != [] && Writable(fs[0]) && LaidOut(raw, p, fs, e)
    ensures Scan(raw, p, recs, rec, recNo, log)
            == Scan(raw, p + |FieldText(fs[0].0, fs[0].1)|, recs, rec[Lower(fs[0].0) := Str(fs[0].1)], recNo, log)
  {
    LaidOutFirst(raw, p, fs, e);
    FieldStep(raw, p, fs[0], recs, rec, recNo, log);
  }

  /** A run of fields laid out from `p` stages them all in order and hands over to the tag at `e`. */
  lemma {:induction false} FieldsStage(raw: string, p: nat, e: nat, fs: seq<Field>, recs: seq<Record>, rec: Record, recNo: nat, log: seq<Diagnostic>)
    requires AllWritable(fs) && LaidOut(raw, p, fs, e)
    ensures Scan(raw, p, recs, rec, recNo, log) == Scan(raw, e, recs, Staged(rec, fs), recNo, log)
    decreases |fs|
  {
    if fs != [] {
      WritableRest(fs);
      assert Scan(raw, p + |FieldText(fs[0].0, fs[0].1)|, recs, rec[Lower(fs[0].0) := Str(fs[0].1)], recNo, log)
             == Scan(raw, e, recs, Staged(rec[Lower(fs[0].0) := Str(fs[0].1)], fs[1..]), recNo, log) by {
        FieldsStage(raw, p + |FieldText(fs[0].0, fs[0].1)|, e, fs[1..], recs, rec[Lower(fs[0].0) := Str(fs[0].1)], recNo, log);
      }
      FirstFieldStep(raw, p, fs, e, recs, rec, recNo, log);
    }
  }

  /** A suffix of `raw` that reads `x + y + z` holds `x` and then `y + z`. */
  lemma SuffixParts(raw: string, p: nat, x: string, y: string, z: string)
    requires p <= |raw| && raw[p..] == x + y + z
    ensures raw[p..p + |x|] == x && raw[p + |x|..] == y + z
  {
    assert raw[p..] == x + (y + z);
    assert raw[p..p + |x|] == raw[p..][..|x|];
    assert raw[p + |x|..] == raw[p..][|x|..];
  }

  /** The first written field, and the text after it, as slices of `raw`. */
  lemma WrittenFirst(raw: string, p: nat, fs: seq<Field>, tail: string)
    requires fs != [] && p <= |raw| && raw[p..] == Written(fs) + tail
    ensures |Written(fs)| == |FieldText(fs[0].0, fs[0].1)| + |Written(fs[1..])|
    ensures raw[p..p + |FieldText(fs[0].0, fs[0].1)|] == FieldText(fs[0].0, fs[0].1)
    ensures raw[p + |FieldText(fs[0].0, fs[0].1)|..] == Written(fs[1..]) + tail
  {
    assert Written(fs) == FieldText(fs[0].0, fs[0].1) + Written(fs[1..]);
    SuffixParts(raw, p, FieldText(fs[0].0, fs[0].1), Written(fs[1..]), tail);
  }

  /** The fields after the first of an all-writable run are all writable. */
  lemma WritableRest(fs: seq<Field>)
    requires fs != [] && AllWritable(fs)
    ensures Writable(fs[0]) && AllWritable(fs[1..])
  {
    forall i | 0 <= i < |fs[1..]|
      ensures Writable(fs[1..][i])
    {
      assert fs[1..][i] == fs[i + 1];
    }
  }

  /** A written field opening at `p`, followed by a laid-out run, makes a longer laid-out run. */
  lemma LaidOutCons(raw: string, p: nat, fs: seq<Field>, e: nat)
    requires fs != [] && p < |raw| && raw[p] == '<'
    requires p + |FieldText(fs[0].0, fs[0].1)| <= |raw|
    requires raw[p..p + |FieldText(fs[0].0, fs[0].1)|] == FieldText(fs[0].0, fs[0].1)
    requires LaidOut(raw, p + |FieldText(fs[0].0, fs[0].1)|, fs[1..], e)
    ensures LaidOut(raw, p, fs, e)
  {
  }

  /** Written fields followed by text that opens a tag are laid out in `raw`. */
  lemma {:induction false} WrittenLaidOut(raw: string, p: nat, fs: seq<Field>, tail: string, e: nat)
    requires AllWritable(fs) && tail != [] && tail[0] == '<'
    requires p <= |raw| && raw[p..] == Written(fs) + tail && e == p + |Written(fs)|
    ensures LaidOut(raw, p, fs, e)
    decreases |fs|
  {
    if fs == [] {
      assert raw[p] == raw[p..][0];
    } else {
      WrittenFirst(raw, p, fs, tail);
      WritableRest(fs);
      WrittenLaidOut(raw, p + |FieldText(fs[0].0, fs[0].1)|, fs[1..], tail, e);
      FieldOpens(raw, p, fs[0].0, fs[0].1);
      LaidOutCons(raw, p, fs, e);
    }
  }

  /** The `<eor>` at `lt`, the last five characters of `raw`, emits the staged record and ends the load. */
  lemma FinalEor(raw: string, lt: nat, rec: Record, recNo: nat, log: seq<Diagnostic>)
    requires lt + 5 == |raw| && raw[lt..] == "<eor>"
    ensures Scan(raw, lt, [], rec, recNo, log) == OneRecord(rec, recNo, log)
  {
    assert raw[lt] == '<' && raw[lt + 4] == '>';
    assert raw[lt + 1..lt + 4] == "eor";
    FindAt(raw, '<', lt, lt);
    FindAt(raw, '>', lt, lt + 4);
    SplitWithoutSep("eor", ':');
    EorAnyCase("eor");
    assert FieldDef(raw, lt, lt + 4) == ["eor"];
    var fixed := Fixed(rec, recNo);
    if fixed.result.Ok? {
      var r := fixed.result.value;
      assert Tag(raw, lt, lt + 4, [], rec, recNo, log) == Go([] + [r], map[], recNo + 1, log + fixed.log);
      assert [] + [r] == [r];
      assert Find(raw, '<', lt + 4) == -1;
      assert Scan(raw, lt + 4, [r], map[], recNo + 1, log + fixed.log) == LoadOutcome(Ok([r]), recNo + 1, log + fixed.log);
    }
  }

  /** The `<eoh>` at `lt`, followed by a tag, discards the records and the staging record. */
  lemma HeaderEnd(raw: string, lt: nat, recs: seq<Record>, rec: Record, recNo: nat, log: seq<Diagnostic>)
    requires lt + 5 < |raw| && raw[lt..lt + 5] == "<eoh>" && raw[lt + 5] == '<'
    ensures Scan(raw, lt, recs, rec, recNo, log) == Scan(raw, lt + 5, [], map[], recNo, log)
  {
    assert raw[lt] == '<' && raw[lt + 4] == '>';
    SubSlice(raw, lt, lt + 5, 1, 4);
    assert raw[lt + 1..lt + 4] == "eoh";
    FindAt(raw, '<', lt, lt);
    FindAt(raw, '>', lt, lt + 4);
    SplitWithoutSep("eoh", ':');
    EohAnyCase("eoh");
    EorAnyCase("eoh");
    assert FieldDef(raw, lt, lt + 4) == ["eoh"];
    assert Tag(raw, lt, lt + 4, recs, rec, recNo, log) == Go([], map[], recNo, log);
    FindAt(raw, '<', lt + 4, lt + 5);
  }

  /** Fields laid out from `p` and closed by a final `<eor>` at `e` load as the one record they stage onto `rec`. */
  lemma FieldsThenEor(raw: string, p: nat, e: nat, fs: seq<Field>, rec: Record, recNo: nat, log: seq<Diagnostic>)
    requires AllWritable(fs) && LaidOut(raw, p, fs, e) && e + 5 == |raw| && raw[e..] == "<eor>"
    ensures Scan(raw, p, [], rec, recNo, log) == OneRecord(Staged(rec, fs), recNo, log)
  {
    FieldsStage(raw, p, e, fs, [], rec, recNo, log);
    FinalEor(raw, e, Staged(rec, fs), recNo, log);
  }

  /** A header of fields laid out from `a` and closed by `<eoh>` at `b` is dropped whole: the scan resumes after it with nothing staged. */
  lemma HeaderDropped(raw: string, a: nat, b: nat, hs: seq<Field>, recNo: nat, log: seq<Diagnostic>)
    requires AllWritable(hs) && LaidOut(raw, a, hs, b) && b + 5 < |raw| && raw[b..b + 5] == "<eoh>" && raw[b + 5] == '<'
    ensures Scan(raw, a, [], map[], recNo, log) == Scan(raw, b + 5, [], map[], recNo, log)
  {
    FieldsStage(raw, a, b, hs, [], map[], recNo, log);
    HeaderEnd(raw, b, [], Staged(map[], hs), recNo, log);
  }

  /** Written fields from `p` on, closed by `<eor>`, are laid out up to that `<eor>` at `e`, the end of `raw`. */
  lemma BodyLayout(raw: string, p: nat, fs: seq<Field>, e: nat)
    requires AllWritable(fs) && p <= |raw| && raw[p..] == Written(fs) + "<eor>" && e == p + |Written(fs)|
    ensures LaidOut(raw, p, fs, e) && e + 5 == |raw| && raw[e..] == "<eor>"
  {
    WrittenLaidOut(raw, p, fs, "<eor>", e);
    SuffixSplit(raw, p, Written(fs), "<eor>");
  }

  /**
   * A record written as fields and closed by `<eor>` loads as the record the
   * fields stage, last value winning under each lower-cased name, fixed up,
   * with the counter raised by one when the fix-up succeeds.
   */
  lemma RecordReadsBack(fs: seq<Field>, recNo: nat, log: seq<Diagnostic>)
    requires AllWritable(fs)
    ensures Scan(Written(fs) + "<eor>", 0, [], map[], recNo, log) == OneRecord(Staged(map[], fs), recNo, log)
  {
    var raw := Written(fs) + "<eor>";
    assert raw[0..] == raw;
    WrittenThenEor(raw, 0, fs, map[], recNo, log);
  }

  /** A suffix of `raw` that reads `x + y` holds `x` and then `y`. */
  lemma SuffixSplit(raw: string, p: nat, x: string, y: string)
    requires p <= |raw| && raw[p..] == x + y
    ensures raw[p..p + |x|] == x && raw[p + |x|..] == y
  {
    assert raw[p..p + |x|] == raw[p..][..|x|];
    assert raw[p + |x|..] == raw[p..][|x|..];
  }

  /** A log of free text, header text, `<eoh>`, record text and `<eor>`, grouped from the right. */
  lemma Regroup(raw: string, text: string, head: string, body: string)
    requires raw == text + head + "<eoh>" + body + "<eor>"
    ensures raw == text + (head + ("<eoh>" + (body + "<eor>")))
  {
    assert text + head + "<eoh>" + body + "<eor>" == text + (head + ("<eoh>" + (body + "<eor>")));
  }

  /** Free text without `<` in front of the rest of a log: no `<` before the rest, which sits after the text. */
  lemma TextFirst(raw: string, text: string, rest: string)
    requires '<' !in text && raw == text + rest
    ensures forall j | 0 <= j < |text| :: raw[j] != '<'
    ensures raw[|text|..] == rest
  {
    forall j | 0 <= j < |text|
      ensures raw[j] != '<'
    {
      assert raw[j] == text[j];
    }
  }

  /** Header text, `<eoh>`, record text and `<eor>` from `a` on: the record text follows the `<eoh>`. */
  lemma HeaderTail(raw: string, a: nat, b: nat, head: string, body: string)
    requires a <= |raw| && raw[a..] == head + ("<eoh>" + (body + "<eor>")) && b == a + |head|
    ensures b + 5 <= |raw| && raw[b + 5..] == body + "<eor>"
  {
    SuffixSplit(raw, a, head, "<eoh>" + (body + "<eor>"));
    SuffixSplit(raw, b, "<eoh>", body + "<eor>");
  }

  /** Written fields followed by text that opens a tag open with `<`. */
  lemma WrittenOpens(fs: seq<Field>, tail: string)
    requires tail != [] && tail[0] == '<'
    ensures Written(fs) + tail != [] && (Written(fs) + tail)[0] == '<'
  {
    if fs != [] {
      assert Written(fs) == FieldText(fs[0].0, fs[0].1) + Written(fs[1..]);
    }
  }

  /** Header fields written from `a` on and closed by `<eoh>`, followed by a tag: laid out up to the `<eoh>` at `b`. */
  lemma HeaderShape(raw: string, a: nat, b: nat, hs: seq<Field>, rest: string)
    requires AllWritable(hs) && rest != [] && rest[0] == '<'
    requires a <= |raw| && raw[a..] == Written(hs) + ("<eoh>" + rest) && b == a + |Written(hs)|
    ensures LaidOut(raw, a, hs, b) && b + 5 < |raw| && raw[b..b + 5] == "<eoh>" && raw[b + 5] == '<'
  {
    WrittenLaidOut(raw, a, hs, "<eoh>" + rest, b);
    SuffixSplit(raw, a, Written(hs), "<eoh>" + rest);
    SuffixSplit(raw, b, "<eoh>", rest);
    assert raw[b + 5] == rest[0];
  }

  /** Header fields written from `a` on and closed by `<eoh>` at `b`, followed by written fields, are dropped whole. */
  lemma WrittenHeaderDropped(raw: string, a: nat, b: nat, hs: seq<Field>, fs: seq<Field>, recNo: nat, log: seq<Diagnostic>)
    requires AllWritable(hs) && a <= |raw| && raw[a..] == Written(hs) + ("<eoh>" + (Written(fs) + "<eor>"))
    requires b == a + |Written(hs)|
    ensures Scan(raw, a, [], map[], recNo, log) == Scan(raw, b + 5, [], map[], recNo, log)
  {
    WrittenOpens(fs, "<eor>");
    HeaderShape(raw, a, b, hs, Written(fs) + "<eor>");
    HeaderDropped(raw, a, b, hs, recNo, log);
  }

  /** Fields written from `p` on and closed by a final `<eor>` load as the one record they stage onto `rec`. */
  lemma WrittenThenEor(raw: string, p: nat, fs: seq<Field>, rec: Record, recNo: nat, log: seq<Diagnostic>)
    requires AllWritable(fs) && p <= |raw| && raw[p..] == Written(fs) + "<eor>"
    ensures Scan(raw, p, [], rec, recNo, log) == OneRecord(Staged(rec, fs), recNo, log)
  {
    var e := p + |Written(fs)|;
    BodyLayout(raw, p, fs, e);
    FieldsThenEor(raw, p, e, fs, rec, recNo, log);
  }

  /** After the `<eoh>` that closes written header fields, the written record loads as the one record it stages. */
  lemma RecordAfterHeader(raw: string, a: nat, b: nat, hs: seq<Field>, fs: seq<Field>, recNo: nat, log: seq<Diagnostic>)
    requires AllWritable(fs) && a <= |raw| && raw[a..] == Written(hs) + ("<eoh>" + (Written(fs) + "<eor>"))
    requires b == a + |Written(hs)|
    ensures Scan(raw, b + 5, [], map[], recNo, log) == OneRecord(Staged(map[], fs), recNo, log)
  {
    assert b + 5 <= |raw| && raw[b + 5..] == Written(fs) + "<eor>" by {
      HeaderTail(raw, a, b, Written(hs), Written(fs));
    }
    WrittenThenEor(raw, b + 5, fs, map[], recNo, log);
  }

  /** Header fields written from `a` on, `<eoh>`, then record fields and a final `<eor>`: the load from `a` returns that record alone. */
  lemma HeaderThenBody(raw: string, a: nat, hs: seq<Field>, fs: seq<Field>, recNo: nat, log: seq<Diagnostic>)
    requires AllWritable(hs) && AllWritable(fs)
    requires a <= |raw| && raw[a..] == Written(hs) + ("<eoh>" + (Written(fs) + "<eor>"))
    ensures Scan(raw, a, [], map[], recNo, log) == OneRecord(Staged(map[], fs), recNo, log)
  {
    var b := a + |Written(hs)|;
    WrittenHeaderDropped(raw, a, b, hs, fs, recNo, log);
    RecordAfterHeader(raw, a, b, hs, fs, recNo, log);
  }

  /** A log with no `<` before `a` and a header and a record written from `a` on: the load returns that record alone. */
  lemma LogFromText(raw: string, a: nat, hs: seq<Field>, fs: seq<Field>, recNo: nat, log: seq<Diagnostic>)
    requires AllWritable(hs) && AllWritable(fs)
    requires a <= |raw| && raw[a..] == Written(hs) + ("<eoh>" + (Written(fs) + "<eor>"))
    requires forall j | 0 <= j < a :: raw[j] != '<'
    ensures Scan(raw, 0, [], map[], recNo, log) == OneRecord(Staged(map[], fs), recNo, log)
  {
    WrittenOpens(hs, "<eoh>" + (Written(fs) + "<eor>"));
    assert raw[a] == raw[a..][0];
    FindAt(raw, '<', 0, a);
    SkipToTag(raw, 0, a, [], map[], recNo, log);
    HeaderThenBody(raw, a, hs, fs, recNo, log);
  }

  /**
   * Free text without `<`, header fields and `<eoh>` in front of a written
   * record change nothing: the load returns that record alone, and no header
   * field reaches it.
   */
  lemma HeaderThenRecord(text: string, hs: seq<Field>, fs: seq<Field>, recNo: nat, log: seq<Diagnostic>)
    requires '<' !in text && AllWritable(hs) && AllWritable(fs)
    ensures Scan(text + Written(hs) + "<eoh>" + Written(fs) + "<eor>", 0, [], map[], recNo, log)
            == OneRecord(Staged(map[], fs), recNo, log)
  {
    var raw := text + Written(hs) + "<eoh>" + Written(fs) + "<eor>";
    Regroup(raw, text, Written(hs), Written(fs));
    TextFirst(raw, text, Written(hs) + ("<eoh>" + (Written(fs) + "<eor>")));
    LogFromText(raw, |text|, hs, fs, recNo, log);
  }

  // ---------------------------------------------------------------- plain records

  /** A name the fix-up leaves alone: no date, frequency, time, power or integer field. */
  predicate PlainName(name: string) {
    !IsCoercedName(Lower(name)) && Lower(name) !in IntFields
  }

  /** A record of text under plain names comes through the fix-up unchanged, with nothing logged. */
  lemma PlainFixup(rec: Record, recNo: nat)
    requires forall k :: k in rec ==> rec[k].Str? && !IsCoercedName(k) && k !in IntFields
    ensures Fixed(rec, recNo).result == Ok(rec) && Fixed(rec, recNo).log == []
  {
    FixupTextSucceeds(rec, recNo);
    FixupKeepsKeys(rec, recNo);
    var r := Fixed(rec, recNo).result.value;
    forall k | k in rec
      ensures r[k] == rec[k]
    {
      FixupKeepsPlainFields(rec, recNo, k);
    }
    assert r == rec;
    FixupLog(rec, recNo);
    AbsentNotLogged(rec, IntFields, recNo);
  }

  /**
   * A record written as fields under plain names reads back exactly: one
   * record holding the last value written under each lower-cased name, the
   * counter raised by one and nothing logged.
   */
  lemma PlainRecord(fs: seq<Field>, recNo: nat, log: seq<Diagnostic>)
    requires AllWritable(fs) && forall i | 0 <= i < |fs| :: PlainName(fs[i].0)
    ensures Scan(Written(fs) + "<eor>", 0, [], map[], recNo, log)
            == LoadOutcome(Ok([Staged(map[], fs)]), recNo + 1, log)
  {
    var rec := Staged(map[], fs);
    RecordReadsBack(fs, recNo, log);
    StagedText(map[], fs);
    forall k | k in rec
      ensures !IsCoercedName(k) && k !in IntFields
    {
      StagedKeys(map[], fs, k);
      var i :| 0 <= i < |fs| && Lower(fs[i].0) == k;
      assert PlainName(fs[i].0);
    }
    PlainFixup(rec, recNo);
    assert log + [] == log;
  }
}
