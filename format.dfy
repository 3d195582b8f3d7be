/** The records of the checkpoint file (include/serializer.hpp): the kinds
    of index entry, the header's magic number and its comparison, and the
    index entry itself. */
module Format {
  import opened Common
  import opened Maps

  /** `mdata_type`: what an index entry describes. */
  datatype MdataType = Regs | FpRegs | MemoryMapEntry

  /** The enumerators take the values 0, 1 and 2, in declaration order. */
  function Code(t: MdataType): (c: nat)
    ensures c < 3
  {
    match t
    case Regs => 0
    case FpRegs => 1
    case MemoryMapEntry => 2
  }

  /** The enumerator an `mdata_type` value read back from a file names, if any. */
  function TypeOf(c: int): (t: Option<MdataType>)
    ensures t.Some? <==> 0 <= c < 3
    ensures t.Some? ==> Code(t.value) == c
  {
    if c == 0 then Some(Regs)
    else if c == 1 then Some(FpRegs)
    else if c == 2 then Some(MemoryMapEntry)
    else None
  }

  /** Each enumerator's value reads back as that enumerator, so no two
      enumerators share a value. */
  lemma TypeOfCode(t: MdataType, u: MdataType)
    ensures TypeOf(Code(t)) == Some(t)
    ensures Code(t) == Code(u) ==> t == u
  {
  }

  /** `sizeof(magic_num)`. */
  const HDR: nat := 4

  /** The four bytes 'R', 'E', 'C', 'K'. */
  const RECK: seq<byte> := [82, 69, 67, 75]

  type Magic = s: seq<byte> | |s| == HDR witness RECK

  /** `header`: a default-constructed header carries "RECK". */
  datatype Header = Header(magic: Magic)

  const DefaultHeader: Header := Header(RECK)

  /** `header::get_default_magic_num()`. */
  function DefaultMagicNum(): (m: Magic)
    ensures m == DefaultHeader.magic
  {
    [82, 69, 67, 75]
  }

  /** `memcmp(a, b, n)`: zero when the first `n` bytes agree, otherwise
      the sign of the first pair that differs, compared as unsigned bytes. */
  function Memcmp(a: seq<byte>, b: seq<byte>, n: nat): (r: int)
    requires n <= |a| && n <= |b|
    ensures -1 <= r <= 1
  {
    if n == 0 then 0
    else if a[0] < b[0] then -1
    else if a[0] > b[0] then 1
    else Memcmp(a[1..], b[1..], n - 1)
  }

  /** `memcmp` reports zero exactly when the compared prefixes are equal. */
  lemma {:induction false} MemcmpZero(a: seq<byte>, b: seq<byte>, n: nat)
    requires n <= |a| && n <= |b|
    ensures Memcmp(a, b, n) == 0 <==> a[..n] == b[..n]
    decreases n
  {
    if n > 0 {
      MemcmpZero(a[1..], b[1..], n - 1);
      assert a[..n] == [a[0]] + a[1..][..n - 1];
      assert b[..n] == [b[0]] + b[1..][..n - 1];
    }
  }

  /** Otherwise its sign is that of the first pair of bytes that differs. */
  lemma {:induction false} MemcmpSign(a: seq<byte>, b: seq<byte>, n: nat, i: nat)
    requires i < n <= |a| && n <= |b| && a[..i] == b[..i] && a[i] != b[i]
    ensures Memcmp(a, b, n) < 0 <==> a[i] < b[i]
    ensures Memcmp(a, b, n) != 0
    decreases n
  {
    if 0 < i {
      assert a[0] == a[..i][0] && b[0] == b[..i][0];
      assert a[1..][..i - 1] == a[..i][1..] && b[1..][..i - 1] == b[..i][1..];
      MemcmpSign(a[1..], b[1..], n - 1, i - 1);
    }
  }

  /** `magic_num::operator==`. */
  predicate MagicEq(a: Magic, b: Magic)
  {
    Memcmp(a, b, HDR) == 0
  }

  /** `magic_num::operator!=`. */
  predicate MagicNe(a: Magic, b: Magic)
  {
    Memcmp(a, b, HDR) != 0
  }

  /** Two magic numbers compare equal exactly when all four bytes agree,
      and `!=` is the negation of `==`. */
  lemma MagicComparison(a: Magic, b: Magic)
    ensures MagicEq(a, b) <==> a == b
    ensures MagicEq(a, b) <==> forall i :: 0 <= i < HDR ==> a[i] == b[i]
    ensures MagicNe(a, b) <==> !MagicEq(a, b)
  {
    MemcmpZero(a, b, HDR);
    assert a[..HDR] == a && b[..HDR] == b;
  }

  /** A default-constructed header passes the check against the default magic number. */
  lemma DefaultHeaderMatches()
    ensures MagicEq(DefaultHeader.magic, DefaultMagicNum())
    ensures !MagicNe(DefaultHeader.magic, DefaultMagicNum())
  {
    MagicComparison(DefaultHeader.magic, DefaultMagicNum());
  }

  /** `mdata`: one index entry, its type as stored (any value may be read
      back from a file), where its payload starts and how long it is. */
  datatype Mdata = Mdata(kind: int, offset: ulong, size: ulong)
}
