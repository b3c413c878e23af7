/** The write-ahead log: record codec, append, replay, and what a replay recovers from a log that
    was cut short or damaged. */
module Wal {
  import opened Bytes

  datatype WalRecord = WalRecord(lsn: nat, key: seq<byte>, value: seq<byte>)

  /** Checksum (4), LSN (8), key length (2) and value length (2). */
  const HEADER_SIZE := 16
  const LENGTH_LIMIT := 65536

  // ---------- checksum ----------

  function Xor(a: nat, b: nat): (x: nat)
    decreases a + b
  {
    if a == 0 && b == 0 then 0 else (a + b) % 2 + 2 * Xor(a / 2, b / 2)
  }

  /** The two 32-bit halves of an LSN, XORed together. */
  function Folded(lsn: nat): (x: nat) { Xor(lsn % TWO_32, lsn / TWO_32) }

  function SumBytes(s: seq<byte>): (n: nat) {
    if s == [] then 0 else SumBytes(s[..|s| - 1]) + s[|s| - 1]
  }

  /** The folded LSN, then every byte added, modulo 2^32. */
  function Checksum(lsn: nat, key: seq<byte>, value: seq<byte>): (c: nat)
    ensures c < TWO_32
  {
    (Folded(lsn) + SumBytes(key) + SumBytes(value)) % TWO_32
  }

  /** The accumulating form the log uses, with its wrap-around at every addition. */
  method CalculateChecksum(lsn: nat, key: seq<byte>, value: seq<byte>) returns (checksum: nat)
    requires lsn < TWO_64
    ensures checksum == Checksum(lsn, key, value)
  {
    checksum := 0;
    checksum := Xor(checksum, lsn % TWO_32);
    checksum := Xor(checksum, lsn / TWO_32);
    ghost var folded := checksum;
    assert folded == Folded(lsn) by { XorZero(lsn % TWO_32); }
    assert folded < TWO_32 by { FoldBelow(lsn); }
    hide Xor, SumBytes;
    checksum := AddBytes(checksum, key);
    checksum := AddBytes(checksum, value);
  }

  method AddBytes(start: nat, s: seq<byte>) returns (checksum: nat)
    requires start < TWO_32
    ensures checksum == (start + SumBytes(s)) % TWO_32
  {
    checksum := start;
    for i := 0 to |s|
      invariant checksum == (start + SumBytes(s[..i])) % TWO_32
    {
      checksum := (checksum + s[i]) % TWO_32;
      assert s[..i + 1][..i] == s[..i];
    }
    assert s[..|s|] == s;
  }

  lemma {:induction false} XorZero(b: nat)
    ensures Xor(0, b) == b
  {
    if b == 0 {
    } else {
      XorZero(b / 2);
    }
  }

  function Power2(n: nat): (p: nat)
    ensures p > 0
  {
    if n == 0 then 1 else 2 * Power2(n - 1)
  }

  lemma PowerOfTwo32()
    ensures Power2(32) == TWO_32
  {
    assert Power2(8) == 256 by {
      assert Power2(4) == 16;
    }
    assert Power2(12) == 16 * Power2(8);
    assert Power2(16) == 16 * Power2(12);
    assert Power2(20) == 16 * Power2(16);
    assert Power2(24) == 16 * Power2(20);
    assert Power2(28) == 16 * Power2(24);
    assert Power2(32) == 16 * Power2(28);
  }

  lemma {:induction false} XorBelow(a: nat, b: nat, n: nat)
    requires a < Power2(n) && b < Power2(n)
    ensures Xor(a, b) < Power2(n)
  {
    if n == 0 {
    } else {
      XorBelow(a / 2, b / 2, n - 1);
    }
  }

  lemma XorUnfolds(a: nat, b: nat)
    ensures Xor(a, b) == (a + b) % 2 + 2 * Xor(a / 2, b / 2)
  {
  }

  lemma XorBits(a: nat, b: nat)
    ensures Xor(a, b) % 2 == (a + b) % 2 && Xor(a, b) / 2 == Xor(a / 2, b / 2)
  {
    hide Xor;
    XorUnfolds(a, b);
    LowBit(Xor(a, b), (a + b) % 2, Xor(a / 2, b / 2));
  }

  lemma LowBit(x: nat, bit: nat, rest: nat)
    requires bit < 2 && x == bit + 2 * rest
    ensures x % 2 == bit && x / 2 == rest
  {
  }

  lemma SameHalves(a: nat, a': nat, b: nat)
    requires a / 2 == a' / 2 && (a + b) % 2 == (a' + b) % 2
    ensures a == a'
  {
  }

  /** XOR with a fixed operand loses nothing. */
  lemma {:induction false} XorInjective(a: nat, a': nat, b: nat)
    requires Xor(a, b) == Xor(a', b)
    ensures a == a'
    decreases a + a' + b
  {
    hide Xor;
    XorBits(a, b);
    XorBits(a', b);
    if a != 0 || a' != 0 {
      assert Xor(a / 2, b / 2) == Xor(a' / 2, b / 2);
      XorInjective(a / 2, a' / 2, b / 2);
      SameHalves(a, a', b);
    }
  }

  lemma {:induction false} XorCommutes(a: nat, b: nat)
    ensures Xor(a, b) == Xor(b, a)
    decreases a + b
  {
    if a == 0 && b == 0 {
    } else {
      XorCommutes(a / 2, b / 2);
    }
  }

  lemma {:induction false} SumOfUpdate(s: seq<byte>, i: nat, x: byte)
    requires i < |s|
    ensures SumBytes(s[i := x]) == SumBytes(s) - s[i] + x
  {
    var n := |s| - 1;
    if i == n {
      assert s[i := x][..n] == s[..n];
    } else {
      SumOfUpdate(s[..n], i, x);
      assert s[i := x][..n] == s[..n][i := x];
    }
  }

  // ---------- codec ----------

  /** The bytes one append writes. Lengths are narrowed to 16 bits and only that many bytes follow,
      while the checksum covers the whole key and value. */
  function Encode(r: WalRecord): (b: seq<byte>)
    ensures |b| == HEADER_SIZE + |r.key| % LENGTH_LIMIT + |r.value| % LENGTH_LIMIT
  {
    LittleEndian(Checksum(r.lsn, r.key, r.value), 4) + LittleEndian(r.lsn, 8)
    + LittleEndian(|r.key|, 2) + LittleEndian(|r.value|, 2)
    + r.key[..|r.key| % LENGTH_LIMIT] + r.value[..|r.value| % LENGTH_LIMIT]
  }

  predicate Encodable(r: WalRecord) {
    r.lsn < TWO_64 && |r.key| < LENGTH_LIMIT && |r.value| < LENGTH_LIMIT
  }

  function EncodeAll(rs: seq<WalRecord>): (b: seq<byte>) {
    if rs == [] then [] else Encode(rs[0]) + EncodeAll(rs[1..])
  }

  /** The record at the head of `b`, if it is wholly there and its checksum agrees. */
  function ParseOne(b: seq<byte>): (r: Option<WalRecord>)
    ensures r.Some? ==> HEADER_SIZE + |r.value.key| + |r.value.value| <= |b| && Encodable(r.value)
  {
    PowersUsed();
    if |b| < HEADER_SIZE then None
    else
      var keyLength := FromLittleEndian(b[12..14]);
      var valueLength := FromLittleEndian(b[14..16]);
      if |b| < HEADER_SIZE + keyLength + valueLength then None
      else
        var lsn := FromLittleEndian(b[4..12]);
        var key := b[16..16 + keyLength];
        var value := b[16 + keyLength..16 + keyLength + valueLength];
        if Checksum(lsn, key, value) != FromLittleEndian(b[..4]) then None
        else Some(WalRecord(lsn, key, value))
  }

  /** The records a replay visits: those before the first one that is short or damaged. */
  function Parse(b: seq<byte>): (rs: seq<WalRecord>)
    ensures forall r :: r in rs ==> Encodable(r)
    decreases |b|
  {
    match ParseOne(b)
    case None => []
    case Some(r) => [r] + Parse(b[HEADER_SIZE + |r.key| + |r.value|..])
  }

  lemma FieldSlices(sum: seq<byte>, lsn: seq<byte>, k: seq<byte>, v: seq<byte>,
                    key: seq<byte>, value: seq<byte>, rest: seq<byte>)
    requires |sum| == 4 && |lsn| == 8 && |k| == 2 && |v| == 2
    ensures var b := sum + lsn + k + v + key + value + rest;
            && |b| == 16 + |key| + |value| + |rest|
            && b[..4] == sum && b[4..12] == lsn && b[12..14] == k && b[14..16] == v
            && b[16..16 + |key|] == key && b[16 + |key|..16 + |key| + |value|] == value
            && b[16 + |key| + |value|..] == rest
  {
  }

  ghost predicate FieldsAre(b: seq<byte>, r: WalRecord, rest: seq<byte>) {
    var k, v := |r.key|, |r.value|;
    && |b| == HEADER_SIZE + k + v + |rest|
    && FromLittleEndian(b[..4]) == Checksum(r.lsn, r.key, r.value)
    && FromLittleEndian(b[4..12]) == r.lsn
    && FromLittleEndian(b[12..14]) == k && FromLittleEndian(b[14..16]) == v
    && b[16..16 + k] == r.key && b[16 + k..16 + k + v] == r.value
    && b[16 + k + v..] == rest
  }

  /** The fields of an encoded record sit where the reader looks for them, whatever follows. */
  lemma EncodedFields(r: WalRecord, rest: seq<byte>)
    requires Encodable(r)
    ensures FieldsAre(Encode(r) + rest, r, rest)
  {
    hide Checksum, LittleEndian, FromLittleEndian;
    var checksum := Checksum(r.lsn, r.key, r.value);
    assert r.key[..|r.key|] == r.key && r.value[..|r.value|] == r.value;
    FieldSlices(LittleEndian(checksum, 4), LittleEndian(r.lsn, 8), LittleEndian(|r.key|, 2),
                LittleEndian(|r.value|, 2), r.key, r.value, rest);
    PowersUsed();
    DecodeEncode(checksum, 4);
    DecodeEncode(r.lsn, 8);
    DecodeEncode(|r.key|, 2);
    DecodeEncode(|r.value|, 2);
  }

  lemma ParseEncoded(r: WalRecord, rest: seq<byte>)
    requires Encodable(r)
    ensures ParseOne(Encode(r) + rest) == Some(r)
    ensures Parse(Encode(r) + rest) == [r] + Parse(rest)
  {
    hide Encode, Checksum, LittleEndian, FromLittleEndian;
    EncodedFields(r, rest);
  }

  /** Replaying appended records, then whatever follows them. */
  lemma {:induction false} ParseAppended(rs: seq<WalRecord>, rest: seq<byte>)
    requires forall r :: r in rs ==> Encodable(r)
    ensures Parse(EncodeAll(rs) + rest) == rs + Parse(rest)
  {
    hide Encode, ParseOne;
    if rs == [] {
      assert EncodeAll(rs) + rest == rest;
    } else {
      assert EncodeAll(rs) + rest == Encode(rs[0]) + (EncodeAll(rs[1..]) + rest);
      ParseEncoded(rs[0], EncodeAll(rs[1..]) + rest);
      ParseAppended(rs[1..], rest);
      assert rs == [rs[0]] + rs[1..];
    }
  }

  /** Round trip: replay gives back exactly the records whose lengths fit their 16-bit fields. */
  lemma {:induction false} ReplayGivesBack(rs: seq<WalRecord>)
    requires forall r :: r in rs ==> Encodable(r)
    ensures Parse(EncodeAll(rs)) == rs
  {
    hide Encode, ParseOne, EncodeAll;
    ParseAppended(rs, []);
    assert EncodeAll(rs) + [] == EncodeAll(rs);
  }

  /** A put of one more record survives a replay exactly when both of its lengths fit 16 bits. */
  lemma {:induction false} AppendedRecordSurvivesIff(rs: seq<WalRecord>, r: WalRecord)
    requires (forall x :: x in rs ==> Encodable(x)) && r.lsn < TWO_64
    ensures Parse(EncodeAll(rs) + Encode(r)) == rs + [r] <==>
            |r.key| < LENGTH_LIMIT && |r.value| < LENGTH_LIMIT
  {
    hide Encode, ParseOne, EncodeAll;
    ParseAppended(rs, Encode(r));
    if Encodable(r) {
      ParseEncoded(r, []);
      assert Encode(r) + [] == Encode(r);
    } else {
      assert r in rs + [r];
    }
  }

  // ---------- records too long for their length fields ----------

  function EntryOf(r: WalRecord): Entry { Entry(r.key, r.value) }

  function EntriesOf(rs: seq<WalRecord>): (es: seq<Entry>)
    ensures |es| == |rs| && forall i :: 0 <= i < |rs| ==> es[i] == EntryOf(rs[i])
  {
    seq(|rs|, i requires 0 <= i < |rs| => EntryOf(rs[i]))
  }

  predicate Short(e: Entry) { |e.key| < LENGTH_LIMIT && |e.value| < LENGTH_LIMIT }

  /** What is written of a record: as much of its key and value as their 16-bit lengths say. */
  function Narrowed(e: Entry): Entry {
    Entry(e.key[..|e.key| % LENGTH_LIMIT], e.value[..|e.value| % LENGTH_LIMIT])
  }

  /** The sum of the bytes that the checksum covers and the log does not hold. */
  function DroppedSum(e: Entry): nat {
    SumBytes(e.key[|e.key| % LENGTH_LIMIT..]) + SumBytes(e.value[|e.value| % LENGTH_LIMIT..])
  }

  /** The checksum of what was written is still the stored one. */
  predicate Survives(e: Entry) { DroppedSum(e) % TWO_32 == 0 }

  /** What a replay gives back of a log of these records: each narrowed, up to the first whose
      checksum no longer agrees. */
  function Replayed(es: seq<Entry>): (rs: seq<Entry>)
    ensures |rs| <= |es|
  {
    if es == [] || !Survives(es[0]) then [] else [Narrowed(es[0])] + Replayed(es[1..])
  }

  lemma {:induction false} SumOfConcat(a: seq<byte>, b: seq<byte>)
    ensures SumBytes(a + b) == SumBytes(a) + SumBytes(b)
  {
    if b == [] {
      assert a + b == a;
    } else {
      SumOfConcat(a, b[..|b| - 1]);
      assert (a + b)[..|a + b| - 1] == a + b[..|b| - 1];
    }
  }

  lemma SameRemainderIff(a: nat, d: nat)
    ensures (a + d) % TWO_32 == a % TWO_32 <==> d % TWO_32 == 0
  {
  }

  /** Whether the checksum of the narrowed record is the one stored. */
  lemma ChecksumAgreesIff(lsn: nat, e: Entry)
    ensures Checksum(lsn, Narrowed(e).key, Narrowed(e).value) == Checksum(lsn, e.key, e.value) <==> Survives(e)
  {
    hide Folded, SumBytes;
    var k, v, n := |e.key| % LENGTH_LIMIT, |e.value| % LENGTH_LIMIT, Narrowed(e);
    SumOfConcat(e.key[..k], e.key[k..]);
    SumOfConcat(e.value[..v], e.value[v..]);
    assert e.key == e.key[..k] + e.key[k..] && e.value == e.value[..v] + e.value[v..];
    SameRemainderIff(Folded(lsn) + SumBytes(n.key) + SumBytes(n.value), DroppedSum(e));
  }

  /** Any appended record, whatever its lengths, is read back narrowed if it survives; otherwise the
      replay stops there and everything after it is lost. */
  lemma {:induction false} ReplayOfOne(r: WalRecord, rest: seq<byte>)
    requires r.lsn < TWO_64
    ensures var n := Narrowed(EntryOf(r));
            Parse(Encode(r) + rest)
            == if Survives(EntryOf(r)) then [WalRecord(r.lsn, n.key, n.value)] + Parse(rest) else []
  {
    hide Checksum, LittleEndian, FromLittleEndian, Survives;
    var e, n := EntryOf(r), Narrowed(EntryOf(r));
    var checksum := Checksum(r.lsn, r.key, r.value);
    FieldSlices(LittleEndian(checksum, 4), LittleEndian(r.lsn, 8), LittleEndian(|r.key|, 2),
                LittleEndian(|r.value|, 2), n.key, n.value, rest);
    PowersUsed();
    DecodeEncode(checksum, 4);
    DecodeEncode(r.lsn, 8);
    Field16(|r.key|);
    Field16(|r.value|);
    ChecksumAgreesIff(r.lsn, e);
  }

  /** So the bytes of a log replay to `Replayed` of the records put, whatever their lengths. */
  lemma {:induction false} ReplayOfAll(rs: seq<WalRecord>)
    requires forall r :: r in rs ==> r.lsn < TWO_64
    ensures EntriesOf(Parse(EncodeAll(rs))) == Replayed(EntriesOf(rs))
  {
    hide Encode, ParseOne, Survives, Narrowed;
    if rs == [] {
    } else {
      ReplayOfOne(rs[0], EncodeAll(rs[1..]));
      ReplayOfAll(rs[1..]);
      assert EntriesOf(rs)[1..] == EntriesOf(rs[1..]);
    }
  }

  lemma {:induction false} ShortSurvives(e: Entry)
    requires Short(e)
    ensures Survives(e) && Narrowed(e) == e
  {
    assert e.key[|e.key|..] == [] && e.value[|e.value|..] == [];
  }

  /** A log of short records replays to all of them, and to nothing else only if one is not short. */
  lemma {:induction false} ReplayedIff(es: seq<Entry>)
    ensures Replayed(es) == es <==> forall e :: e in es ==> Short(e)
  {
    hide Survives;
    if es == [] {
    } else {
      ReplayedIff(es[1..]);
      assert es == [es[0]] + es[1..];
      if Short(es[0]) {
        ShortSurvives(es[0]);
        if Replayed(es) == es {
          assert Replayed(es)[1..] == Replayed(es[1..]);
        }
      } else {
        assert Narrowed(es[0]) != es[0];
        assert es[0] in es;
      }
    }
  }

  /** Appending after a stopping record adds nothing to what a replay gives back. */
  lemma {:induction false} ReplayedConcat(a: seq<Entry>, b: seq<Entry>)
    ensures Replayed(a + b) == if |Replayed(a)| == |a| then Replayed(a) + Replayed(b) else Replayed(a)
  {
    hide Survives, Narrowed;
    if a == [] {
      assert a + b == b;
    } else {
      assert (a + b)[1..] == a[1..] + b;
      ReplayedConcat(a[1..], b);
    }
  }

  lemma {:induction false} SumOfRepeated(n: nat, x: byte)
    ensures SumBytes(seq(n, _ => x)) == n * x
  {
    if n > 0 {
      SumOfRepeated(n - 1, x);
      assert seq(n, _ => x)[..n - 1] == seq(n - 1, _ => x);
    }
  }

  function LongValue(x: byte): Entry { Entry([], seq(LENGTH_LIMIT, _ => x)) }

  /** A value of 65536 zero bytes comes back as an empty value; one of 65536 ones stops every later
      replay at its record. */
  lemma {:induction false} LongValuesReplayed(more: seq<Entry>)
    ensures Replayed([LongValue(0)] + more) == [Entry([], [])] + Replayed(more)
    ensures Replayed([LongValue(1)] + more) == []
  {
    hide SumBytes;
    SumOfRepeated(0, 0);
    SumOfRepeated(LENGTH_LIMIT, 0);
    SumOfRepeated(LENGTH_LIMIT, 1);
    var zeros: seq<byte>, ones: seq<byte> := seq(LENGTH_LIMIT, _ => 0), seq(LENGTH_LIMIT, _ => 1);
    assert zeros[..0] == [] && zeros[0..] == zeros && ones[0..] == ones;
    assert ([LongValue(0)] + more)[1..] == more && ([LongValue(1)] + more)[1..] == more;
    var none: seq<byte> := [];
    assert none[..0] == none && none[0..] == none && seq(0, _ => 0) == none;
  }

  // ---------- the bytes themselves ----------

  /** The bytes of a record: checksum, number and the two lengths modulo 2^16, each low byte first, then as
      much of key and value as those lengths say. The checksum is the two halves of the number XORed, plus
      every byte of the whole key and value, modulo 2^32. */
  lemma {:induction false} LogLayout(r: WalRecord)
    requires r.lsn < 0x1_0000_0000_0000_0000
    ensures var b, k, v := Encode(r), |r.key| % 0x1_0000, |r.value| % 0x1_0000;
            && |b| == 16 + k + v
            && FromLittleEndian(b[0..4])
               == (Xor(r.lsn % 0x1_0000_0000, r.lsn / 0x1_0000_0000) + SumBytes(r.key) + SumBytes(r.value))
                  % 0x1_0000_0000
            && FromLittleEndian(b[4..12]) == r.lsn
            && FromLittleEndian(b[12..14]) == k && FromLittleEndian(b[14..16]) == v
            && b[16..16 + k] == r.key[..k] && b[16 + k..16 + k + v] == r.value[..v]
  {
    hide Xor, SumBytes, FromLittleEndian, LittleEndian;
    var checksum, k, v := Checksum(r.lsn, r.key, r.value), |r.key| % LENGTH_LIMIT, |r.value| % LENGTH_LIMIT;
    FieldSlices(LittleEndian(checksum, 4), LittleEndian(r.lsn, 8), LittleEndian(|r.key|, 2),
                LittleEndian(|r.value|, 2), r.key[..k], r.value[..v], []);
    var b := Encode(r);
    assert b + [] == b && b[0..4] == b[..4];
    PowersUsed();
    DecodeEncode(checksum, 4);
    DecodeEncode(r.lsn, 8);
    Field16(|r.key|);
    Field16(|r.value|);
  }

  // ---------- prefix recovery ----------

  lemma TruncatedRecord(r: WalRecord, n: nat)
    requires Encodable(r) && n < |Encode(r)|
    ensures ParseOne(Encode(r)[..n]) == None
  {
    hide Encode, Checksum, LittleEndian, FromLittleEndian;
    EncodedFields(r, []);
    var b := Encode(r);
    assert b + [] == b;
    if n >= HEADER_SIZE {
      assert b[..n][12..14] == b[12..14] && b[..n][14..16] == b[14..16];
    }
  }

  /** Cutting a log at any byte, replay visits the records wholly before the cut and no others. */
  lemma {:induction false} PrefixRecovery(rs: seq<WalRecord>, n: nat, whole: nat)
    requires forall r :: r in rs ==> Encodable(r)
    requires n <= |EncodeAll(rs)| && whole <= |rs|
    requires |EncodeAll(rs[..whole])| <= n
    requires whole < |rs| ==> n < |EncodeAll(rs[..whole + 1])|
    ensures Parse(EncodeAll(rs)[..n]) == rs[..whole]
  {
    hide Encode, ParseOne;
    if rs == [] {
    } else if whole == 0 {
      assert rs[..1][1..] == [] && EncodeAll(rs[..1]) == Encode(rs[0]) + [];
      assert EncodeAll(rs)[..n] == Encode(rs[0])[..n];
      TruncatedRecord(rs[0], n);
    } else {
      var head, tail := Encode(rs[0]), rs[1..];
      assert rs[..whole][1..] == tail[..whole - 1];
      if whole < |rs| {
        assert rs[..whole + 1][1..] == tail[..whole];
      }
      assert EncodeAll(rs)[..n] == head + EncodeAll(tail)[..n - |head|];
      ParseEncoded(rs[0], EncodeAll(tail)[..n - |head|]);
      PrefixRecovery(tail, n - |head|, whole - 1);
    }
  }

  // ---------- corruption ----------

  lemma LowAndHighHalf(b: seq<byte>)
    requires |b| == 8
    ensures var lo, hi := FromLittleEndian(b[..4]), FromLittleEndian(b[4..]);
            lo < TWO_32 && FromLittleEndian(b) == lo + TWO_32 * hi
  {
    PowersUsed();
    assert b[1..][1..] == b[2..] && b[2..][1..] == b[3..] && b[3..][1..] == b[4..];
    assert FromLittleEndian(b[2..]) == b[2] + 256 * (b[3] + 256 * FromLittleEndian(b[4..]));
    assert FromLittleEndian(b) == b[0] + 256 * (b[1] + 256 * FromLittleEndian(b[2..]));
    var c := b[..4];
    assert c[1..][1..] == c[2..] && c[2..][1..] == c[3..] && c[3..][1..] == [];
    assert FromLittleEndian(c[2..]) == c[2] + 256 * (c[3] + 256 * FromLittleEndian([]));
    assert FromLittleEndian(c) == c[0] + 256 * (c[1] + 256 * FromLittleEndian(c[2..]));
  }

  /** Changing one byte changes the number a field holds. */
  lemma ChangedField(b: seq<byte>, pos: nat, x: byte)
    requires pos < |b| && b[pos] != x
    ensures FromLittleEndian(b[pos := x]) != FromLittleEndian(b)
  {
    if FromLittleEndian(b[pos := x]) == FromLittleEndian(b) {
      DecodeInjective(b[pos := x], b);
      assert false;
    }
  }

  /** Changing one byte of an eight-byte LSN changes what its two halves fold to. */
  lemma DamagedLsn(b: seq<byte>, pos: nat, x: byte)
    requires |b| == 8 && pos < 8 && b[pos] != x
    ensures Folded(FromLittleEndian(b)) != Folded(FromLittleEndian(b[pos := x]))
  {
    hide FromLittleEndian, Xor;
    var c := b[pos := x];
    LowAndHighHalf(b);
    LowAndHighHalf(c);
    var lo, hi, lo', hi' := FromLittleEndian(b[..4]), FromLittleEndian(b[4..]),
                            FromLittleEndian(c[..4]), FromLittleEndian(c[4..]);
    assert Folded(FromLittleEndian(b)) == Xor(lo, hi) && Folded(FromLittleEndian(c)) == Xor(lo', hi');
    if Xor(lo, hi) == Xor(lo', hi') {
      if pos < 4 {
        assert b[4..] == c[4..] && c[..4] == b[..4][pos := x];
        XorInjective(lo, lo', hi);
        ChangedField(b[..4], pos, x);
      } else {
        assert b[..4] == c[..4] && c[4..] == b[4..][pos - 4 := x];
        XorCommutes(lo, hi);
        XorCommutes(lo', hi');
        XorInjective(hi, hi', lo);
        ChangedField(b[4..], pos - 4, x);
      }
    }
  }

  /** The reader rejects bytes whose lengths are those of `r` but whose checksum disagrees. */
  lemma Rejected(c: seq<byte>, k: nat, v: nat)
    requires |c| >= HEADER_SIZE + k + v
    requires FromLittleEndian(c[12..14]) == k && FromLittleEndian(c[14..16]) == v
    requires Checksum(FromLittleEndian(c[4..12]), c[16..16 + k], c[16 + k..16 + k + v]) != FromLittleEndian(c[..4])
    ensures ParseOne(c) == None
  {
    hide Checksum, FromLittleEndian;
  }

  lemma {:induction false} DamagedRecord(r: WalRecord, rest: seq<byte>, pos: nat, x: byte)
    requires Encodable(r) && pos < |Encode(r)| && !(12 <= pos < 16)
    requires Encode(r)[pos] != x
    ensures ParseOne((Encode(r) + rest)[pos := x]) == None
  {
    hide Encode, ParseOne, FromLittleEndian, Xor, SumBytes;
    EncodedFields(r, rest);
    var b := Encode(r) + rest;
    var c := b[pos := x];
    var k, v := |r.key|, |r.value|;
    assert c[12..14] == b[12..14] && c[14..16] == b[14..16];
    if pos < 4 {
      assert c[4..12] == b[4..12] && c[16..16 + k] == r.key && c[16 + k..16 + k + v] == r.value;
      assert c[..4] == b[..4][pos := x];
      ChangedField(b[..4], pos, x);
    } else {
      assert c[..4] == b[..4];
      if pos < 12 {
        assert c[16..16 + k] == r.key && c[16 + k..16 + k + v] == r.value;
        assert c[4..12] == b[4..12][pos - 4 := x];
        DamagedLsn(b[4..12], pos - 4, x);
        PowersUsed();
        FoldBelow(r.lsn);
        FoldBelow(FromLittleEndian(c[4..12]));
      } else if pos < 16 + k {
        assert c[4..12] == b[4..12] && c[16 + k..16 + k + v] == r.value;
        assert c[16..16 + k] == r.key[pos - 16 := x];
        SumOfUpdate(r.key, pos - 16, x);
      } else {
        assert c[4..12] == b[4..12] && c[16..16 + k] == r.key;
        assert c[16 + k..16 + k + v] == r.value[pos - 16 - k := x];
        SumOfUpdate(r.value, pos - 16 - k, x);
      }
    }
    Rejected(c, k, v);
  }

  lemma FoldBelow(lsn: nat)
    requires lsn < TWO_64
    ensures Folded(lsn) < TWO_32
  {
    PowerOfTwo32();
    XorBelow(lsn % TWO_32, lsn / TWO_32, 32);
  }

  lemma {:induction false} EncodeAllSplit(rs: seq<WalRecord>, i: nat)
    requires i <= |rs|
    ensures EncodeAll(rs) == EncodeAll(rs[..i]) + EncodeAll(rs[i..])
  {
    hide Encode;
    if i == 0 {
      assert rs[..0] == [] && rs[0..] == rs;
    } else {
      EncodeAllSplit(rs[1..], i - 1);
      assert rs[..i][1..] == rs[1..][..i - 1] && rs[1..][i - 1..] == rs[i..];
    }
  }

  /** Changing one byte of record `i` outside its two length fields stops the replay exactly
      before record `i`. */
  lemma {:induction false} CorruptionStops(rs: seq<WalRecord>, i: nat, pos: nat, x: byte)
    requires forall r :: r in rs ==> Encodable(r)
    requires i < |rs| && pos < |Encode(rs[i])| && !(12 <= pos < 16)
    requires Encode(rs[i])[pos] != x
    ensures |EncodeAll(rs[..i])| + pos < |EncodeAll(rs)|
    ensures Parse(EncodeAll(rs)[|EncodeAll(rs[..i])| + pos := x]) == rs[..i]
  {
    hide Encode, ParseOne;
    EncodeAllSplit(rs, i);
    var before, rest := EncodeAll(rs[..i]), EncodeAll(rs[i + 1..]);
    assert rs[i..][1..] == rs[i + 1..];
    var damaged := (Encode(rs[i]) + rest)[pos := x];
    assert EncodeAll(rs)[|before| + pos := x] == before + damaged;
    DamagedRecord(rs[i], rest, pos, x);
    ParseAppended(rs[..i], damaged);
  }

  // ---------- log sequence numbers ----------

  function HighestLsn(rs: seq<WalRecord>, start: nat): (n: nat)
    ensures n >= start
  {
    if rs == [] then start
    else HighestLsn(rs[1..], if rs[0].lsn > start then rs[0].lsn else start)
  }

  /** It is the start or the number of some record, whichever is greatest, in whatever order they come. */
  lemma {:induction false} HighestIsMaximum(rs: seq<WalRecord>, start: nat)
    ensures forall r :: r in rs ==> r.lsn <= HighestLsn(rs, start)
    ensures HighestLsn(rs, start) == start || exists r :: r in rs && r.lsn == HighestLsn(rs, start)
  {
    if rs != [] {
      HighestIsMaximum(rs[1..], if rs[0].lsn > start then rs[0].lsn else start);
      assert rs == [rs[0]] + rs[1..];
    }
  }

  /** `es` as records numbered from 1. */
  function Numbered(es: seq<Entry>): (rs: seq<WalRecord>)
    ensures |rs| == |es|
    ensures forall i :: 0 <= i < |es| ==> rs[i] == WalRecord(i + 1, es[i].key, es[i].value)
  {
    seq(|es|, i requires 0 <= i < |es| => WalRecord(i + 1, es[i].key, es[i].value))
  }

  lemma {:induction false} HighestOfIncreasing(rs: seq<WalRecord>, start: nat)
    requires forall i :: 0 <= i < |rs| ==> rs[i].lsn == start + i + 1
    ensures HighestLsn(rs, start) == start + |rs|
  {
    if rs == [] {
    } else {
      HighestOfIncreasing(rs[1..], start + 1);
    }
  }

  lemma {:induction false} EncodeAllConcat(a: seq<WalRecord>, b: seq<WalRecord>)
    ensures EncodeAll(a + b) == EncodeAll(a) + EncodeAll(b)
  {
    hide Encode;
    EncodeAllSplit(a + b, |a|);
    assert (a + b)[..|a|] == a && (a + b)[|a|..] == b;
  }

  // ---------- the manager ----------

  /** The log file, which outlives the sessions that append to it. */
  class LogFile {
    var bytes: seq<byte>

    constructor ()
      ensures bytes == []
    {
      bytes := [];
    }
  }

  class WalManager {
    const file: LogFile
    var currentLsn: nat

    ghost predicate Valid()
      reads this
    {
      currentLsn < TWO_64
    }

    constructor (file: LogFile)
      ensures this.file == file && currentLsn == 0 && Valid()
    {
      this.file := file;
      currentLsn := 0;
    }

    /** Writes one record at the end of the log. */
    method Append(key: seq<byte>, value: seq<byte>) returns (lsn: nat)
      requires Valid()
      modifies this, file
      ensures Valid()
      ensures currentLsn == lsn == (old(currentLsn) + 1) % TWO_64
      ensures file.bytes == old(file.bytes) + Encode(WalRecord(lsn, key, value))
    {
      currentLsn := (currentLsn + 1) % TWO_64;
      lsn := currentLsn;
      hide Encode;
      WriteRecord(lsn, key, value);
    }

    method WriteRecord(lsn: nat, key: seq<byte>, value: seq<byte>)
      requires lsn < TWO_64
      modifies file
      ensures file.bytes == old(file.bytes) + Encode(WalRecord(lsn, key, value))
    {
      hide LittleEndian, Checksum;
      var checksum := CalculateChecksum(lsn, key, value);
      var keyLength, valueLength := |key| % LENGTH_LIMIT, |value| % LENGTH_LIMIT;
      ghost var before, w := file.bytes, [];
      w := Write(LittleEndian(checksum, 4), before, w);
      w := Write(LittleEndian(lsn, 8), before, w);
      w := Write(LittleEndian(|key|, 2), before, w);
      w := Write(LittleEndian(|value|, 2), before, w);
      if keyLength > 0 {
        w := Write(key[..keyLength], before, w);
      }
      if valueLength > 0 {
        w := Write(value[..valueLength], before, w);
      }
    }

    /** One `write` of the log stream; the append began with `before` in the file and has added `written` to
        it so far. */
    method Write(data: seq<byte>, ghost before: seq<byte>, ghost written: seq<byte>) returns (ghost w: seq<byte>)
      requires file.bytes == before + written
      modifies file
      ensures w == written + data && file.bytes == before + w
    {
      file.bytes := file.bytes + data;
      w := written + data;
    }

    /** Reads the log from its start; the visited records are returned in order. */
    method Replay() returns (visited: seq<WalRecord>, count: nat)
      requires Valid()
      modifies this
      ensures Valid()
      ensures visited == Parse(file.bytes) && count == |visited|
      ensures currentLsn == HighestLsn(visited, old(currentLsn))
    {
      hide ParseOne, Encode, Parse, HighestLsn;
      visited, count := [], 0;
      var pos := 0;
      ghost var all := Parse(file.bytes);
      assert file.bytes[0..] == file.bytes;
      while pos < |file.bytes|
        invariant pos <= |file.bytes| && count == |visited| && Valid()
        invariant all == visited + Parse(file.bytes[pos..])
        invariant HighestLsn(all, old(currentLsn)) == HighestLsn(Parse(file.bytes[pos..]), currentLsn)
      {
        var rest := file.bytes[pos..];
        var next := ReadRecord(rest);
        if next.None? {
          ParseNothing(rest);
          break;
        }
        var r := next.value;
        var size := HEADER_SIZE + |r.key| + |r.value|;
        ghost var later := Parse(rest[size..]);
        ParseHead(rest);
        HighestHead(r, later, currentLsn);
        assert visited + ([r] + later) == (visited + [r]) + later;
        visited := visited + [r];
        if r.lsn > currentLsn {
          currentLsn := r.lsn;
        }
        count := count + 1;
        pos := pos + size;
        assert rest[size..] == file.bytes[pos..];
      }
      if pos == |file.bytes| {
        assert file.bytes[pos..] == [];
        NothingToParse();
      }
      NoneHigher(currentLsn);
    }

    /** One turn of the reading loop: None is end of file in the middle of a record, or corruption. */
    method ReadRecord(rest: seq<byte>) returns (r: Option<WalRecord>)
      ensures r == ParseOne(rest)
    {
      PowersUsed();
      if |rest| < HEADER_SIZE {
        return None;
      }
      var storedChecksum, lsn := FromLittleEndian(rest[..4]), FromLittleEndian(rest[4..12]);
      var keyLength, valueLength := FromLittleEndian(rest[12..14]), FromLittleEndian(rest[14..16]);
      hide FromLittleEndian, Checksum;
      if |rest| < HEADER_SIZE + keyLength + valueLength {
        return None;
      }
      var key := rest[HEADER_SIZE..HEADER_SIZE + keyLength];
      var value := rest[HEADER_SIZE + keyLength..HEADER_SIZE + keyLength + valueLength];
      var calculated := CalculateChecksum(lsn, key, value);
      return if calculated != storedChecksum then None else Some(WalRecord(lsn, key, value));
    }

    /** Empties the log and restarts its numbering. */
    method Truncate()
      requires Valid()
      modifies this, file
      ensures Valid() && file.bytes == [] && currentLsn == 0
    {
      file.bytes := [];
      currentLsn := 0;
    }
  }

  lemma ParseHead(b: seq<byte>)
    requires ParseOne(b).Some?
    ensures var r := ParseOne(b).value; Parse(b) == [r] + Parse(b[HEADER_SIZE + |r.key| + |r.value|..])
  {
    hide ParseOne;
  }

  lemma ParseNothing(b: seq<byte>)
    requires ParseOne(b) == None
    ensures Parse(b) == []
  {
    hide ParseOne;
  }

  lemma HighestHead(r: WalRecord, later: seq<WalRecord>, start: nat)
    ensures HighestLsn([r] + later, start) == HighestLsn(later, if r.lsn > start then r.lsn else start)
  {
    assert ([r] + later)[1..] == later;
  }

  lemma NoneHigher(start: nat)
    ensures HighestLsn([], start) == start
  {
  }

  lemma NothingToParse()
    ensures Parse([]) == []
  {
  }

  /** LSNs stay 1..n over sessions: a manager that replays a log of numbered records and then
      appends one more leaves a log of numbered records, and every replay finds them all. */
  lemma {:induction false} NextRecordIsNumbered(es: seq<Entry>, e: Entry)
    requires |es| + 1 < TWO_64
    requires forall x :: x in es + [e] ==> |x.key| < LENGTH_LIMIT && |x.value| < LENGTH_LIMIT
    ensures Parse(EncodeAll(Numbered(es))) == Numbered(es)
    ensures HighestLsn(Numbered(es), 0) == |es|
    ensures EncodeAll(Numbered(es)) + Encode(WalRecord(|es| + 1, e.key, e.value))
            == EncodeAll(Numbered(es + [e]))
  {
    hide Encode, ParseOne;
    assert forall i :: 0 <= i < |es| ==> es[i] in es + [e];
    ReplayGivesBack(Numbered(es));
    HighestOfIncreasing(Numbered(es), 0);
    var last := [WalRecord(|es| + 1, e.key, e.value)];
    assert Numbered(es + [e]) == Numbered(es) + last;
    EncodeAllConcat(Numbered(es), last);
    assert last[1..] == [] && EncodeAll(last) == Encode(last[0]) + [];
  }
}
