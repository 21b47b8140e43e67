/**
 * The Python string operations the ADIF reader relies on, stated over
 * `seq<char>`: `str.find`, `str.lower`, `str.split`, `str.replace('&lt;', '<')`,
 * slicing with Python's index rules, and the code-point order `sorted` uses.
 */
module Text {

  /** `s.find(c, from)`: the first index at or after `from` that holds `c`, or -1. */
  function Find(s: string, c: char, from: nat): (r: int)
    ensures r == -1 || (from <= r < |s| && s[r] == c)
    ensures r == -1 ==> forall j :: from <= j < |s| ==> s[j] != c
    ensures r != -1 ==> forall j :: from <= j < r ==> s[j] != c
    decreases |s| - from
  {
    if from >= |s| then -1
    else if s[from] == c then from
    else Find(s, c, from + 1)
  }

  // ---------------------------------------------------------------- case folding

  function LowerChar(c: char): char {
    if 'A' <= c <= 'Z' then (c as int + 32) as char else c
  }

  /** `s.lower()` on the ASCII letters. */
  function Lower(s: string): (r: string)
    ensures |r| == |s|
    ensures forall i :: 0 <= i < |s| ==> r[i] == LowerChar(s[i])
  {
    if s == [] then [] else [LowerChar(s[0])] + Lower(s[1..])
  }

  // ---------------------------------------------------------------- split / join

  /** `sep.join(parts)`: the partner of `Split`. */
  function Join(parts: seq<string>, sep: char): string
    requires |parts| >= 1
  {
    if |parts| == 1 then parts[0] else parts[0] + [sep] + Join(parts[1..], sep)
  }

  /** `s.split(sep)`: at least one part, no part holds `sep`, and joining the parts gives `s` back. */
  function Split(s: string, sep: char): (parts: seq<string>)
    ensures |parts| >= 1
    ensures forall i :: 0 <= i < |parts| ==> sep !in parts[i]
    ensures Join(parts, sep) == s
    decreases |s|
  {
    var i := Find(s, sep, 0);
    if i == -1 then [s]
    else
      var rest := Split(s[i + 1..], sep);
      assert ([s[..i]] + rest)[1..] == rest;
      assert s == s[..i] + [sep] + s[i + 1..];
      [s[..i]] + rest
  }

  // ---------------------------------------------------------------- the &lt; entity

  predicate StartsWithEntity(s: string) {
    |s| >= 4 && s[..4] == "&lt;"
  }

  /** No occurrence of `&lt;` anywhere in `s`. */
  predicate NoEntity(s: string) {
    s == [] || (!StartsWithEntity(s) && NoEntity(s[1..]))
  }

  /** `s.replace('&lt;', '<')`: occurrences are replaced left to right without overlap. */
  function DecodeLt(s: string): (r: string)
    ensures |r| <= |s|
  {
    if s == [] then []
    else if StartsWithEntity(s) then "<" + DecodeLt(s[4..])
    else [s[0]] + DecodeLt(s[1..])
  }

  /** The escaping a writer applies: every `<` becomes `&lt;`. */
  function EncodeLt(s: string): (r: string)
    ensures '<' !in r
  {
    if s == [] then []
    else (if s[0] == '<' then "&lt;" else [s[0]]) + EncodeLt(s[1..])
  }

  // ---------------------------------------------------------------- slicing

  /** How Python turns a slice bound into an index of a sequence of length `n`. */
  function SliceIndex(i: int, n: nat): (r: nat)
    ensures r <= n
  {
    if i < 0 then (if i + n < 0 then 0 else i + n)
    else if i > n then n
    else i
  }

  /** `s[start:stop]` with Python's rules: negative bounds count from the end, and bounds are clamped. */
  function PySlice(s: string, start: int, stop: int): (r: string)
    ensures |r| <= |s|
  {
    var a, b := SliceIndex(start, |s|), SliceIndex(stop, |s|);
    if a < b then s[a..b] else []
  }

  /** A slice whose start lies inside `s` is `s` from there up to `stop`, cut at the end of `s`. */
  lemma PySliceFrom(s: string, start: nat, stop: int)
    requires start <= |s| && start <= stop
    ensures PySlice(s, start, stop) == s[start..if stop < |s| then stop else |s|]
  {
  }

  predicate StartsWith(s: string, p: string) {
    |p| <= |s| && s[..|p|] == p
  }

  predicate EndsWith(s: string, p: string) {
    |p| <= |s| && s[|s| - |p|..] == p
  }

  // ---------------------------------------------------------------- code-point order

  /** Python's string comparison `a <= b`: lexicographic on code points. */
  predicate StrLe(a: string, b: string)
    decreases |a|
  {
    a == [] || (b != [] && (a[0] < b[0] || (a[0] == b[0] && StrLe(a[1..], b[1..]))))
  }

  predicate IsLeast(k: string, s: set<string>) {
    k in s && forall j :: j in s ==> StrLe(k, j)
  }

  predicate StrictlySorted(ks: seq<string>) {
    forall i, j :: 0 <= i < j < |ks| ==> StrLe(ks[i], ks[j]) && ks[i] != ks[j]
  }

  /** `sorted(keys)`: every key once, in ascending order. */
  function SortedKeys(s: set<string>): (r: seq<string>)
    ensures |r| == |s|
    ensures forall k :: k in r <==> k in s
    decreases |s|
  {
    if s == {} then []
    else
      LeastExists(s);
      StrLeAntisymmetricAll(s);
      var k :| k in s && IsLeast(k, s);
      var rest := SortedKeys(s - {k});
      assert forall i :: 0 <= i < |rest| ==> rest[i] in s - {k};
      [k] + rest
  }

  /** The keys come out in ascending order, each once. */
  lemma {:induction false} SortedKeysSorted(s: set<string>)
    ensures StrictlySorted(SortedKeys(s))
    decreases |s|
  {
    if s != {} {
      LeastExists(s);
      StrLeAntisymmetricAll(s);
      var r := SortedKeys(s);
      var k := r[0];
      var rest := r[1..];
      assert IsLeast(k, s) && rest == SortedKeys(s - {k});
      SortedKeysSorted(s - {k});
      forall i, j | 0 <= i < j < |r|
        ensures StrLe(r[i], r[j]) && r[i] != r[j]
      {
        if i == 0 {
          assert r[j] == rest[j - 1] && r[j] in s - {k};
        } else {
          assert r[i] == rest[i - 1] && r[j] == rest[j - 1];
        }
      }
    }
  }

  lemma {:induction false} StrLeTotal(a: string, b: string)
    ensures StrLe(a, b) || StrLe(b, a)
    decreases |a|
  {
    if a != [] && b != [] && a[0] == b[0] {
      StrLeTotal(a[1..], b[1..]);
    }
  }

  lemma {:induction false} StrLeAntisymmetric(a: string, b: string)
    requires StrLe(a, b) && StrLe(b, a)
    ensures a == b
    decreases |a|
  {
    if a != [] {
      StrLeAntisymmetric(a[1..], b[1..]);
      assert a == [a[0]] + a[1..] && b == [b[0]] + b[1..];
    }
  }

  lemma StrLeAntisymmetricAll(s: set<string>)
    ensures forall a, b :: a in s && b in s && StrLe(a, b) && StrLe(b, a) ==> a == b
  {
    forall a, b | a in s && b in s && StrLe(a, b) && StrLe(b, a) ensures a == b {
      StrLeAntisymmetric(a, b);
    }
  }

  lemma {:induction false} StrLeTransitive(a: string, b: string, c: string)
    requires StrLe(a, b) && StrLe(b, c)
    ensures StrLe(a, c)
    decreases |a|
  {
    if a != [] && b != [] && c != [] && a[0] == b[0] && b[0] == c[0] {
      StrLeTransitive(a[1..], b[1..], c[1..]);
    }
  }

  /** Every finite non-empty set of strings has a least element. */
  lemma {:induction false} LeastExists(s: set<string>)
    requires s != {}
    ensures exists k :: IsLeast(k, s)
    decreases |s|
  {
    var x :| x in s;
    if s == {x} {
      StrLeTotal(x, x);
      assert IsLeast(x, s);
    } else {
      LeastExists(s - {x});
      var m :| IsLeast(m, s - {x});
      StrLeTotal(x, m);
      if StrLe(x, m) {
        forall y | y in s ensures StrLe(x, y) {
          if y == x { StrLeTotal(x, x); } else { StrLeTransitive(x, m, y); }
        }
        assert IsLeast(x, s);
      } else {
        assert IsLeast(m, s);
      }
    }
  }

  // ---------------------------------------------------------------- lemmas

  /** Text without the separator splits into itself alone. */
  lemma SplitWithoutSep(s: string, sep: char)
    requires sep !in s
    ensures Split(s, sep) == [s]
  {
    assert Find(s, sep, 0) == -1;
  }

  /** The first part ends at the first separator. */
  lemma SplitAtFirst(a: string, b: string, sep: char)
    requires sep !in a
    ensures Split(a + [sep] + b, sep) == [a] + Split(b, sep)
  {
    var s := a + [sep] + b;
    assert s[|a|] == sep;
    assert Find(s, sep, 0) == |a|;
    assert s[..|a|] == a && s[|a| + 1..] == b;
  }

  /** Text up to a separator, or up to the end, is the first part. */
  lemma SplitHead(a: string, b: string, sep: char)
    requires sep !in a && (b == [] || b[0] == sep)
    ensures Split(a + b, sep)[0] == a
    ensures b != [] ==> Split(a + b, sep)[1..] == Split(b[1..], sep)
  {
    if b == [] {
      assert a + b == a;
      SplitWithoutSep(a, sep);
    } else {
      assert a + b == a + [sep] + b[1..];
      SplitAtFirst(a, b[1..], sep);
    }
  }

  /** `Split` undoes `Join` whenever no part holds the separator. */
  lemma {:induction false} SplitJoin(parts: seq<string>, sep: char)
    requires |parts| >= 1
    requires forall i :: 0 <= i < |parts| ==> sep !in parts[i]
    ensures Split(Join(parts, sep), sep) == parts
    decreases |parts|
  {
    var s := Join(parts, sep);
    if |parts| == 1 {
      assert Find(s, sep, 0) == -1;
    } else {
      var p := parts[0];
      var rest := Join(parts[1..], sep);
      assert s == p + [sep] + rest;
      assert s[|p|] == sep;
      assert forall j :: 0 <= j < |p| ==> s[j] == p[j] && s[j] != sep;
      assert Find(s, sep, 0) == |p|;
      assert s[..|p|] == p;
      assert s[|p| + 1..] == rest;
      SplitJoin(parts[1..], sep);
    }
  }

  lemma LowerCharIs(c: char, w: char)
    requires 'a' <= w <= 'z'
    ensures LowerChar(c) == w <==> c == w || c as int == w as int - 32
  {
  }

  /**
   * `Lower(s)` is a lower-case word `w` exactly when `s` spells `w` with each
   * letter in either case: how `eor` and `eoh` are recognised in any case.
   */
  lemma LowerIsWord(s: string, w: string)
    requires forall i :: 0 <= i < |w| ==> 'a' <= w[i] <= 'z'
    ensures Lower(s) == w <==> |s| == |w| && forall i :: 0 <= i < |s| ==> s[i] == w[i] || s[i] as int == w[i] as int - 32
  {
    if |s| == |w| {
      forall i | 0 <= i < |s| ensures Lower(s)[i] == w[i] <==> s[i] == w[i] || s[i] as int == w[i] as int - 32 {
        LowerCharIs(s[i], w[i]);
      }
      if forall i :: 0 <= i < |s| ==> Lower(s)[i] == w[i] {
        assert Lower(s) == w;
      }
    }
  }

  /** The reader's `eor` tag name, in any mix of cases. */
  lemma EorAnyCase(t: string)
    ensures Lower(t) == "eor" <==> |t| == 3 && (t[0] == 'e' || t[0] == 'E') && (t[1] == 'o' || t[1] == 'O') && (t[2] == 'r' || t[2] == 'R')
  {
    if |t| == 3 {
      var l := Lower(t);
      LowerCharIs(t[0], 'e');
      LowerCharIs(t[1], 'o');
      LowerCharIs(t[2], 'r');
      assert "eor" == ['e', 'o', 'r'];
      assert l == "eor" <==> l[0] == 'e' && l[1] == 'o' && l[2] == 'r';
    }
  }

  /** The reader's `eoh` tag name, in any mix of cases. */
  lemma EohAnyCase(t: string)
    ensures Lower(t) == "eoh" <==> |t| == 3 && (t[0] == 'e' || t[0] == 'E') && (t[1] == 'o' || t[1] == 'O') && (t[2] == 'h' || t[2] == 'H')
  {
    if |t| == 3 {
      var l := Lower(t);
      LowerCharIs(t[0], 'e');
      LowerCharIs(t[1], 'o');
      LowerCharIs(t[2], 'h');
      assert "eoh" == ['e', 'o', 'h'];
      assert l == "eoh" <==> l[0] == 'e' && l[1] == 'o' && l[2] == 'h';
    }
  }

  /** Folding twice is folding once. */
  lemma LowerIdempotent(s: string)
    ensures Lower(Lower(s)) == Lower(s)
  {
    assert forall i :: 0 <= i < |s| ==> LowerChar(LowerChar(s[i])) == LowerChar(s[i]);
  }

  /** Text without an ampersand cannot spell the entity. */
  lemma {:induction false} NoAmpersandNoEntity(s: string)
    requires '&' !in s
    ensures NoEntity(s)
    decreases |s|
  {
    if s != [] {
      assert s[0] != '&';
      assert !StartsWithEntity(s) by {
        if |s| >= 4 {
          assert s[..4][0] == s[0];
        }
      }
      NoAmpersandNoEntity(s[1..]);
    }
  }

  /** Text without `<` is left unchanged by encoding. */
  lemma {:induction false} EncodeWithoutLt(s: string)
    requires '<' !in s
    ensures EncodeLt(s) == s
    decreases |s|
  {
    if s != [] {
      EncodeWithoutLt(s[1..]);
      assert s == [s[0]] + s[1..];
    }
  }

  /** Text without the entity is left unchanged by decoding. */
  lemma {:induction false} DecodeWithoutEntity(s: string)
    requires NoEntity(s)
    ensures DecodeLt(s) == s
    decreases |s|
  {
    if s != [] {
      DecodeWithoutEntity(s[1..]);
      assert s == [s[0]] + s[1..];
    }
  }

  /** If an encoded text begins with a prefix free of `<`, the text itself begins with it. */
  lemma {:induction false} EncodedPrefix(t: string, p: string)
    requires '<' !in p && '&' !in p
    requires StartsWith(EncodeLt(t), p)
    ensures StartsWith(t, p)
    decreases |p|
  {
    if p != [] {
      assert t != [];
      var e := EncodeLt(t);
      assert p[0] == e[..|p|][0] == e[0];
      assert t[0] != '<';
      assert e == [t[0]] + EncodeLt(t[1..]);
      assert p[1..] == e[..|p|][1..] == EncodeLt(t[1..])[..|p| - 1];
      assert StartsWith(EncodeLt(t[1..]), p[1..]);
      EncodedPrefix(t[1..], p[1..]);
      assert t[..|p|] == [t[0]] + t[1..][..|p| - 1];
      assert p == [p[0]] + p[1..];
    }
  }

  /** Decoding undoes encoding for every text that does not itself spell `&lt;`. */
  lemma {:induction false} DecodeEncode(s: string)
    requires NoEntity(s)
    ensures DecodeLt(EncodeLt(s)) == s
    decreases |s|
  {
    if s != [] {
      var e := EncodeLt(s[1..]);
      DecodeEncode(s[1..]);
      if s[0] == '<' {
        assert EncodeLt(s) == "&lt;" + e;
        assert StartsWithEntity(EncodeLt(s));
        assert EncodeLt(s)[4..] == e;
      } else {
        var x := [s[0]] + e;
        assert EncodeLt(s) == x;
        if StartsWithEntity(x) {
          assert s[0] == x[0] == x[..4][0] == '&';
          assert StartsWith(e, "lt;") by { assert x[1..4] == e[..3]; }
          EncodedPrefix(s[1..], "lt;");
          assert false;
        }
        assert x[1..] == e;
      }
      assert s == [s[0]] + s[1..];
    }
  }
}
