/** Canonical decimal strings, and the file names built from them. */
module Decimal {
  import opened Bytes
  import opened Types

  function Digit(d: nat): char
    requires d < 10
  {
    ('0' as int + d) as char
  }

  predicate IsDigit(c: char) {
    '0' <= c <= '9'
  }

  predicate AllDigits(s: string) {
    forall i :: 0 <= i < |s| ==> IsDigit(s[i])
  }

  function DigitValue(c: char): (d: nat)
    requires IsDigit(c)
    ensures d < 10
  {
    c as int - '0' as int
  }

  /** The shortest decimal form. */
  function Digits(n: nat): (s: string)
    ensures s != [] && AllDigits(s)
  {
    if n < 10 then [Digit(n)] else Digits(n / 10) + [Digit(n % 10)]
  }

  function Value(s: string): nat
    requires AllDigits(s)
  {
    if s == [] then 0 else 10 * Value(s[..|s| - 1]) + DigitValue(s[|s| - 1])
  }

  lemma {:induction false} ValueOfDigits(n: nat)
    ensures Value(Digits(n)) == n
  {
    if n >= 10 {
      ValueOfDigits(n / 10);
      var s := Digits(n);
      assert s[..|s| - 1] == Digits(n / 10) && s[|s| - 1] == Digit(n % 10);
    }
  }

  /** n without its i last decimal places. */
  function WithoutLast(n: nat, i: nat): nat
    decreases i
  {
    if i == 0 then n else WithoutLast(n / 10, i - 1)
  }

  /** Place i from the right is the decimal digit of that weight, and there are no places to spare. */
  lemma {:induction false} DigitsAre(n: nat, i: nat)
    requires i < |Digits(n)|
    ensures Digits(n)[|Digits(n)| - 1 - i] == ('0' as int + WithoutLast(n, i) % 10) as char
    ensures WithoutLast(n, |Digits(n)|) == 0 && (n > 0 ==> WithoutLast(n, |Digits(n)| - 1) > 0)
    ensures n == 0 ==> |Digits(n)| == 1
    decreases n
  {
    if n >= 10 {
      DigitsAre(n / 10, if i > 0 then i - 1 else 0);
    }
  }

  /** fmt's %d of a signed or unsigned integer. */
  function Print(n: int): (s: string)
    ensures s != []
  {
    if n < 0 then "-" + Digits(-n) else Digits(n)
  }

  /** strconv.ParseUint(s, 10, 64) */
  function ParseUint(s: string): Option<uint64> {
    if s == [] || !AllDigits(s) || Value(s) >= U64 then None else Some(Value(s))
  }

  /** strconv.ParseInt(s, 10, 64) */
  function ParseInt(s: string): Option<int64> {
    if s == [] then None
    else
      var neg := s[0] == '-';
      var body := if neg || s[0] == '+' then s[1..] else s;
      match ParseUint(body)
      case None => None
      case Some(u) =>
        if neg then if u > I63 then None else var v: int64 := -(u as int); Some(v)
        else if u >= I63 then None else Some(u)
  }

  /** Re-parsing a printed integer gives it back exactly when it is an int64. */
  lemma ParseAfterPrint(n: int)
    ensures ParseInt(Print(n)) == if -I63 <= n < I63 then Some(n) else None
  {
    hide Digits, Value, AllDigits;
    if n < 0 {
      ValueOfDigits(-n);
      assert Print(n)[1..] == Digits(-n);
    } else {
      ValueOfDigits(n);
      FirstDigit(n);
    }
  }

  lemma FirstDigit(n: nat)
    ensures Digits(n)[0] != '-' && Digits(n)[0] != '+'
  {
    assert IsDigit(Digits(n)[0]);
  }

  /** String equality of canonical forms is integer equality. */
  lemma PrintInjective(a: int, b: int)
    ensures Print(a) == Print(b) <==> a == b
  {
    hide Digits, Value, AllDigits;
    if Print(a) == Print(b) {
      if a < 0 && b < 0 {
        assert Print(a)[1..] == Digits(-a) && Print(b)[1..] == Digits(-b);
        ValueOfDigits(-a);
        ValueOfDigits(-b);
      } else if a >= 0 && b >= 0 {
        ValueOfDigits(a);
        ValueOfDigits(b);
      } else {
        FirstDigit(if a < 0 then b else a);
        assert false;
      }
    }
  }
}

/** Segment and SSTable file names (internal/wal/wal.go, internal/engine/engine.go). */
module Names {
  import opened Bytes
  import opened Types
  import opened Decimal

  const SEGMENT_PREFIX := "wal-"
  const SEGMENT_SUFFIX := ".log"
  const SSTABLE_PREFIX := "sst-"
  const SSTABLE_SUFFIX := ".sst"
  const SSTABLE_TMP_SUFFIX := ".sst.tmp"

  predicate HasPrefix(s: string, p: string) {
    |p| <= |s| && s[..|p|] == p
  }

  predicate HasSuffix(s: string, p: string) {
    |p| <= |s| && s[|s| - |p|..] == p
  }

  function Zeros(n: nat): (s: string)
    ensures |s| == n && AllDigits(s) && forall i :: 0 <= i < n ==> s[i] == '0'
  {
    seq(n, _ => '0')
  }

  /** fmt's %0*d of an unsigned integer. */
  function Padded(n: nat, width: nat): (s: string)
    ensures AllDigits(s) && s != []
  {
    var d := Digits(n);
    Zeros(if |d| < width then width - |d| else 0) + d
  }

  lemma {:induction false} ZerosAddNothing(z: nat, s: string)
    requires AllDigits(s)
    ensures AllDigits(Zeros(z) + s) && Value(Zeros(z) + s) == Value(s)
    decreases |s|, z
  {
    if s != [] {
      var k := |s| - 1;
      assert (Zeros(z) + s)[..z + k] == Zeros(z) + s[..k];
      ZerosAddNothing(z, s[..k]);
    } else if z > 0 {
      assert (Zeros(z) + [])[..z - 1] == Zeros(z - 1) + [];
      ZerosAddNothing(z - 1, []);
    }
  }

  lemma ParsePadded(n: uint64, width: nat)
    ensures ParseUint(Padded(n, width)) == Some(n)
  {
    var d := Digits(n);
    ZerosAddNothing(if |d| < width then width - |d| else 0, d);
    ValueOfDigits(n);
  }

  function SegmentName(id: uint64): string {
    SEGMENT_PREFIX + Padded(id, 6) + SEGMENT_SUFFIX
  }

  /** Prefix and suffix cannot overlap, so the middle is always well defined. */
  function ParseSegmentName(name: string): Option<uint64> {
    if !HasPrefix(name, SEGMENT_PREFIX) || !HasSuffix(name, SEGMENT_SUFFIX) then None
    else
      SegmentNameLength(name);
      ParseUint(name[|SEGMENT_PREFIX|..|name| - |SEGMENT_SUFFIX|])
  }

  lemma SegmentNameLength(name: string)
    requires HasPrefix(name, SEGMENT_PREFIX) && HasSuffix(name, SEGMENT_SUFFIX)
    ensures |name| >= |SEGMENT_PREFIX| + |SEGMENT_SUFFIX|
  {
    var head, tail := name[..4], name[|name| - 4..];
    assert forall i | 0 <= i < 4 :: head[i] == name[i] && tail[i] == name[|name| - 4 + i];
    assert head[3] == '-' && tail[0] == '.' && head[0] == 'w' && head[1] == 'a' && head[2] == 'l';
    assert tail[1] == 'l' && tail[2] == 'o' && tail[3] == 'g';
  }

  function SSTableFilename(seqNo: uint64): string {
    SSTABLE_PREFIX + Padded(seqNo, 16) + SSTABLE_SUFFIX
  }

  function ParseSSTableID(name: string): Option<uint64> {
    if !HasPrefix(name, SSTABLE_PREFIX) then None
    else
      var rest := name[|SSTABLE_PREFIX|..];
      if HasSuffix(rest, SSTABLE_TMP_SUFFIX) then ParseUint(rest[..|rest| - |SSTABLE_TMP_SUFFIX|])
      else if HasSuffix(rest, SSTABLE_SUFFIX) then ParseUint(rest[..|rest| - |SSTABLE_SUFFIX|])
      else None
  }

  /** wal-, the id in at least six places, .log */
  lemma SegmentNameIs(id: uint64)
    ensures var name, n := SegmentName(id), |Digits(id)|;
      && |name| == 8 + (if n < 6 then 6 else n)
      && name[..4] == "wal-" && name[|name| - 4..] == ".log" && name[|name| - 4 - n..|name| - 4] == Digits(id)
      && forall i :: 4 <= i < |name| - 4 - n ==> name[i] == '0'
  {
    PaddedIs(SEGMENT_PREFIX, id, 6, SEGMENT_SUFFIX);
  }

  /** sst-, the number in at least sixteen places, .sst */
  lemma SSTableNameIs(seqNo: uint64)
    ensures var name, n := SSTableFilename(seqNo), |Digits(seqNo)|;
      && |name| == 8 + (if n < 16 then 16 else n)
      && name[..4] == "sst-" && name[|name| - 4..] == ".sst" && name[|name| - 4 - n..|name| - 4] == Digits(seqNo)
      && forall i :: 4 <= i < |name| - 4 - n ==> name[i] == '0'
  {
    PaddedIs(SSTABLE_PREFIX, seqNo, 16, SSTABLE_SUFFIX);
  }

  lemma PaddedIs(prefix: string, id: nat, width: nat, suffix: string)
    ensures var name, n, k := prefix + Padded(id, width) + suffix, |Digits(id)|, |suffix|;
      && |name| == |prefix| + (if n < width then width else n) + k
      && name[..|prefix|] == prefix && name[|name| - k..] == suffix && name[|name| - k - n..|name| - k] == Digits(id)
      && forall i :: |prefix| <= i < |name| - k - n ==> name[i] == '0'
  {
    hide Digits;
  }

  /** Every segment is found again under the name it was given, and different segments have different names. */
  lemma SegmentNameRoundTrip(id: uint64)
    ensures ParseSegmentName(SegmentName(id)) == Some(id)
  {
    var p := Padded(id, 6);
    var name := SegmentName(id);
    assert name[..4] == SEGMENT_PREFIX && name[|name| - 4..] == SEGMENT_SUFFIX && name[4..|name| - 4] == p;
    ParsePadded(id, 6);
  }

  lemma SSTableNameRoundTrip(seqNo: uint64)
    ensures ParseSSTableID(SSTableFilename(seqNo)) == Some(seqNo)
    ensures ParseSSTableID(SSTableFilename(seqNo) + ".tmp") == Some(seqNo)
  {
    hide Padded, ParseUint;
    var p := Padded(seqNo, 16);
    ParsePadded(seqNo, 16);
    var rest := p + SSTABLE_SUFFIX;
    assert SSTableFilename(seqNo)[..4] == SSTABLE_PREFIX && SSTableFilename(seqNo)[4..] == rest;
    assert rest[|rest| - 4..] == SSTABLE_SUFFIX && rest[..|rest| - 4] == p;
    assert rest[|rest| - 1] == 't';
    assert SSTABLE_TMP_SUFFIX[|SSTABLE_TMP_SUFFIX| - 1] == 'p';
    assert !HasSuffix(rest, SSTABLE_TMP_SUFFIX) by {
      assert |rest| >= 8 ==> rest[|rest| - 8..][7] == rest[|rest| - 1];
    }
    var tmp := SSTableFilename(seqNo) + ".tmp";
    assert SSTABLE_TMP_SUFFIX == SSTABLE_SUFFIX + ".tmp";
    assert tmp[..4] == SSTABLE_PREFIX && tmp[4..] == p + SSTABLE_TMP_SUFFIX;
    assert tmp[4..][|p|..] == SSTABLE_TMP_SUFFIX && tmp[4..][..|p|] == p;
  }
}
