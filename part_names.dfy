/** Part file names and the order `send_files` reads them in
    (multipart_upload.rs): `split_file` names part i "part_" +
    two_digit_index(i) + ".bin", and `send_files` sorts the directory entries
    by file name, which Rust compares lexicographically. */
module PartNames {
  import opened Common

  /** Rust's `usize::to_string`: decimal digits, no leading zeros. */
  function NatToString(x: nat): (s: string)
    ensures |s| > 0
    decreases x
  {
    if x < 10 then [DigitChar(x)] else NatToString(x / 10) + [DigitChar(x % 10)]
  }

  /** The text holds decimal digits only. */
  lemma {:induction false} NatToStringDigits(x: nat)
    ensures forall i :: 0 <= i < |NatToString(x)| ==> '0' <= NatToString(x)[i] <= '9'
    decreases x
  {
    if x >= 10 {
      NatToStringDigits(x / 10);
    }
  }

  function DigitChar(d: nat): (c: char)
    requires d < 10
    ensures '0' <= c <= '9'
  {
    ('0' as int + d) as char
  }

  function DigitValue(c: char): nat
  {
    if '0' <= c <= '9' then (c as int - '0' as int) else 0
  }

  lemma DigitRoundTrip(d: nat)
    requires d < 10
    ensures DigitValue(DigitChar(d)) == d
  {
  }

  /** Reading a string of decimal digits back as a number (leading zeros
      allowed). */
  function ParseDecimal(s: string): nat
  {
    if s == [] then 0 else 10 * ParseDecimal(s[..|s| - 1]) + DigitValue(s[|s| - 1])
  }

  lemma {:induction false} NatToStringRoundTrip(x: nat)
    ensures ParseDecimal(NatToString(x)) == x
    decreases x
  {
    DigitRoundTrip(x % 10);
    if x >= 10 {
      NatToStringRoundTrip(x / 10);
      var s := NatToString(x);
      assert s[..|s| - 1] == NatToString(x / 10);
    } else {
      assert NatToString(x)[..0] == [];
    }
  }

  /** two_digit_index (multipart_upload.rs:15-21): a zero in front of the
      indices below 10. */
  function TwoDigitIndex(x: nat): (s: string)
    ensures |s| >= 2
    ensures x < 10 ==> s[0] == '0'
  {
    if x < 10 then "0" + NatToString(x) else NatToString(x)
  }

  /** Below 100 the padded index is exactly two digits, tens then units;
      from 10 on it is the plain decimal text. */
  lemma TwoDigitIndexDigits(x: nat)
    ensures x < 100 ==> TwoDigitIndex(x) == [DigitChar(x / 10), DigitChar(x % 10)]
    ensures x >= 10 ==> TwoDigitIndex(x) == NatToString(x)
  {
  }

  /** The index can be read back from the padded text, so distinct indices
      give distinct names. */
  lemma TwoDigitIndexRoundTrip(x: nat)
    ensures ParseDecimal(TwoDigitIndex(x)) == x
  {
    NatToStringRoundTrip(x);
    if x < 10 {
      var s := TwoDigitIndex(x);
      assert s[..1] == "0";
      assert s[..1][..0] == [];
      DigitRoundTrip(x);
    }
  }

  /** The file name split_file gives part i (multipart_upload.rs:34). */
  function PartName(i: nat): string
  {
    PartPrefix + TwoDigitIndex(i) + PartSuffix
  }

  const PartPrefix: string := "part_"
  const PartSuffix: string := ".bin"

  /** The order Rust's `Ord` puts on strings: lexicographic by character. */
  predicate LexLess(a: string, b: string)
    decreases |a|
  {
    if |a| == 0 then |b| > 0
    else if |b| == 0 then false
    else if a[0] != b[0] then a[0] < b[0]
    else LexLess(a[1..], b[1..])
  }

  lemma LexLessIrreflexive(a: string)
    ensures !LexLess(a, a)
  {
  }

  lemma {:induction false} LexLessTransitive(a: string, b: string, c: string)
    requires LexLess(a, b) && LexLess(b, c)
    ensures LexLess(a, c)
    decreases |a|
  {
    if |a| > 0 && |b| > 0 && |c| > 0 && a[0] == b[0] && b[0] == c[0] {
      LexLessTransitive(a[1..], b[1..], c[1..]);
    }
  }

  lemma {:induction false} LexLessTotal(a: string, b: string)
    ensures a == b || LexLess(a, b) || LexLess(b, a)
    decreases |a|
  {
    if |a| > 0 && |b| > 0 && a[0] == b[0] {
      LexLessTotal(a[1..], b[1..]);
      if a[1..] == b[1..] {
        assert a == [a[0]] + a[1..] && b == [b[0]] + b[1..];
      }
    }
  }

  lemma {:induction false} LexLessAsymmetric(a: string, b: string)
    requires LexLess(a, b)
    ensures !LexLess(b, a)
    decreases |a|
  {
    if |a| > 0 && |b| > 0 && a[0] == b[0] {
      LexLessAsymmetric(a[1..], b[1..]);
    }
  }

  /** A common prefix does not change the comparison. */
  lemma {:induction false} LexLessCommonPrefix(p: string, a: string, b: string)
    ensures LexLess(p + a, p + b) == LexLess(a, b)
    decreases |p|
  {
    if |p| > 0 {
      assert (p + a)[1..] == p[1..] + a;
      assert (p + b)[1..] == p[1..] + b;
      LexLessCommonPrefix(p[1..], a, b);
    } else {
      assert p + a == a && p + b == b;
    }
  }

  /** For indices below 100 the zero padding makes the lexical order of part
      names the numeric order of their indices. */
  lemma PartNamesOrderedBelow100(i: nat, j: nat)
    requires i < j < 100
    ensures LexLess(PartName(i), PartName(j))
  {
    TwoDigitIndexDigits(i);
    TwoDigitIndexDigits(j);
    var a, b := TwoDigitIndex(i) + ".bin", TwoDigitIndex(j) + ".bin";
    assert PartName(i) == "part_" + a;
    assert PartName(j) == "part_" + b;
    LexLessCommonPrefix("part_", a, b);
    assert a[0] == DigitChar(i / 10) && b[0] == DigitChar(j / 10);
    if i / 10 == j / 10 {
      assert a[1..][0] == DigitChar(i % 10) && b[1..][0] == DigitChar(j % 10);
    }
  }

  /** From index 100 on the padding no longer helps: "part_100.bin" sorts
      before "part_11.bin". */
  lemma PartName100SortsBefore11()
    ensures LexLess(PartName(100), PartName(11))
  {
    assert NatToString(100) == "100";
    assert NatToString(11) == "11";
    assert PartName(100) == "part_" + "100.bin";
    assert PartName(11) == "part_" + "11.bin";
    LexLessCommonPrefix("part_", "100.bin", "11.bin");
    assert "100.bin"[1..] == "00.bin" && "11.bin"[1..] == "1.bin";
  }

  /** A directory entry: a file name and the file's bytes. */
  datatype DirEntry = DirEntry(name: string, contents: Bytes)

  /** No entry's name is lexically smaller than an earlier one's. */
  ghost predicate NameSorted(es: seq<DirEntry>)
  {
    forall i, j :: 0 <= i < j < |es| ==> !LexLess(es[j].name, es[i].name)
  }

  /** Insert one entry into a name-sorted list, after every entry whose name
      is not larger, so that equal names keep their order (`sort_by` is
      stable). */
  function InsertByName(e: DirEntry, es: seq<DirEntry>): (r: seq<DirEntry>)
    requires NameSorted(es)
    ensures |r| == |es| + 1
    ensures multiset(r) == multiset(es) + multiset{e}
    ensures NameSorted(r)
  {
    if es == [] then [e]
    else if LexLess(e.name, es[0].name) then
      InsertFrontKeepsOrder(e, es);
      [e] + es
    else
      var rest := InsertByName(e, es[1..]);
      assert multiset(es) == multiset{es[0]} + multiset(es[1..]) by {
        assert es == [es[0]] + es[1..];
      }
      InsertBehindKeepsOrder(e, es[0], es[1..], rest);
      [es[0]] + rest
  }

  lemma InsertFrontKeepsOrder(e: DirEntry, es: seq<DirEntry>)
    requires NameSorted(es) && es != [] && LexLess(e.name, es[0].name)
    ensures NameSorted([e] + es)
  {
    forall j | 0 < j < |es| + 1
      ensures !LexLess(([e] + es)[j].name, e.name)
    {
      var x := es[j - 1];
      assert ([e] + es)[j] == x;
      if LexLess(x.name, e.name) {
        LexLessTransitive(x.name, e.name, es[0].name);
        if j - 1 == 0 {
          LexLessIrreflexive(x.name);
        }
      }
    }
  }

  lemma InsertBehindKeepsOrder(e: DirEntry, first: DirEntry, tail: seq<DirEntry>, rest: seq<DirEntry>)
    requires NameSorted([first] + tail) && !LexLess(e.name, first.name)
    requires NameSorted(rest) && multiset(rest) == multiset(tail) + multiset{e}
    ensures NameSorted([first] + rest)
  {
    forall j | 0 < j < |rest| + 1
      ensures !LexLess(([first] + rest)[j].name, first.name)
    {
      var x := rest[j - 1];
      assert ([first] + rest)[j] == x;
      assert x in multiset(rest);
      if x != e {
        assert x in multiset(tail);
        var k :| 0 <= k < |tail| && tail[k] == x;
        assert ([first] + tail)[k + 1] == x;
        assert ([first] + tail)[0] == first;
      }
    }
  }

  /** `sorted.sort_by(|a, b| a.file_name().cmp(b.file_name()))`
      (multipart_upload.rs:76-77): the same entries, ordered by name. */
  function SortByName(es: seq<DirEntry>): (r: seq<DirEntry>)
    ensures |r| == |es|
    ensures multiset(r) == multiset(es)
    ensures NameSorted(r)
  {
    if es == [] then []
    else
      assert es == es[..|es| - 1] + [es[|es| - 1]];
      InsertByName(es[|es| - 1], SortByName(es[..|es| - 1]))
  }

  /** Names are pairwise distinct and strictly increasing. */
  ghost predicate StrictlyNameSorted(es: seq<DirEntry>)
  {
    forall i, j :: 0 <= i < j < |es| ==> LexLess(es[i].name, es[j].name)
  }

  lemma MultisetTail(s: seq<DirEntry>)
    requires s != []
    ensures multiset(s[1..]) == multiset(s) - multiset{s[0]}
  {
    assert s == [s[0]] + s[1..];
  }

  /** Only one arrangement of a collection of entries with distinct names is
      sorted by name. */
  lemma {:induction false} SortedIsUnique(a: seq<DirEntry>, b: seq<DirEntry>)
    requires NameSorted(a) && StrictlyNameSorted(b)
    requires multiset(a) == multiset(b)
    ensures a == b
    decreases |a|
  {
    assert |a| == |multiset(a)| == |b|;
    if a != [] {
      assert a[0] == b[0] by {
        assert b[0] in multiset(a);
        var j :| 0 <= j < |a| && a[j] == b[0];
        assert a[0] in multiset(b);
        var i :| 0 <= i < |b| && b[i] == a[0];
        if i != 0 {
          assert LexLess(b[0].name, a[0].name);
          if j == 0 {
            LexLessIrreflexive(a[0].name);
          }
          assert false;
        }
      }
      MultisetTail(a);
      MultisetTail(b);
      SortedIsUnique(a[1..], b[1..]);
    }
  }
}
