/** Bytes on the wire: big-endian integers, flag bits and 4-byte padding. */
module Bytes {

  type byte = b: int | 0 <= b < 256
  type bytes = seq<byte>
  type u24 = n: int | 0 <= n < U24_SPAN
  type u32 = n: int | 0 <= n < U32_SPAN

  const U24_SPAN := 0x100_0000
  const U32_SPAN := 0x1_0000_0000
  const U64_SPAN := 0x1_0000_0000_0000_0000

  /** The three low-order bytes of n, most significant first. */
  function Put24(n: nat): (b: bytes)
    ensures |b| == 3
  {
    [n / 0x1_0000 % 256, n / 0x100 % 256, n % 256]
  }

  function Get24(b: bytes): (n: u24)
    requires |b| == 3
  {
    b[0] as int * 0x1_0000 + b[1] as int * 0x100 + b[2]
  }

  /** The four low-order bytes of n, most significant first. */
  function Put32(n: nat): (b: bytes)
    ensures |b| == 4
  {
    [n / 0x100_0000 % 256] + Put24(n)
  }

  function Get32(b: bytes): (n: u32)
    requires |b| == 4
  {
    b[0] as int * 0x100_0000 + Get24(b[1..])
  }

  /** The eight low-order bytes of n, most significant first. */
  function Put64(n: nat): (b: bytes)
    ensures |b| == 8
  {
    Put32(n / 0x1_0000_0000) + Put32(n)
  }

  function Get64(b: bytes): (n: nat)
    requires |b| == 8
    ensures n < U64_SPAN
  {
    Get32(b[..4]) * U32_SPAN + Get32(b[4..])
  }

  /** The most significant byte comes first, in every width. */
  lemma BigEndian(n: nat)
    ensures Put24(n) == [n / 0x1_0000 % 256, n / 0x100 % 256, n % 256]
    ensures Put32(n) == [n / 0x100_0000 % 256, n / 0x1_0000 % 256, n / 0x100 % 256, n % 256]
    ensures Put64(n) == [n / 0x100_0000_0000_0000 % 256, n / 0x1_0000_0000_0000 % 256,
                         n / 0x100_0000_0000 % 256, n / 0x1_0000_0000 % 256,
                         n / 0x100_0000 % 256, n / 0x1_0000 % 256, n / 0x100 % 256, n % 256]
  {
    var high := n / 0x1_0000_0000;
    assert high / 0x100_0000 == n / 0x100_0000_0000_0000 && high / 0x1_0000 == n / 0x1_0000_0000_0000;
    assert high / 0x100 == n / 0x100_0000_0000;
  }

  lemma GetPut24(n: nat)
    ensures Get24(Put24(n)) == n % 0x100_0000
    ensures n < U24_SPAN ==> Get24(Put24(n)) == n
  {
    var q := n / 0x100;
    assert n / 0x1_0000 == q / 0x100;
    assert n == q * 0x100 + n % 0x100;
  }

  lemma LowByte(q: nat, r: byte)
    ensures (q * 256 + r) % 256 == r && (q * 256 + r) / 256 == q
  {
  }

  lemma PutGet24(b: bytes)
    requires |b| == 3
    ensures Put24(Get24(b)) == b
  {
    var q: nat := b[0] as int * 256 + b[1];
    LowByte(q, b[2]);
    LowByte(b[0], b[1]);
    assert Get24(b) / 0x100 == q && Get24(b) / 0x1_0000 == b[0];
  }

  lemma GetPut32(n: nat)
    ensures Get32(Put32(n)) == n % 0x1_0000_0000
    ensures n < U32_SPAN ==> Get32(Put32(n)) == n
  {
    GetPut24(n);
    assert Put32(n)[1..] == Put24(n);
    var high := n / 0x100_0000;
    assert n == high / 256 * 0x1_0000_0000 + (high % 256 * 0x100_0000 + n % 0x100_0000);
  }

  lemma PutGet32(b: bytes)
    requires |b| == 4
    ensures Put32(Get32(b)) == b
  {
    var q1: nat := b[0] as int * 256 + b[1];
    var q2: nat := q1 * 256 + b[2];
    var n := Get32(b);
    assert n == q2 * 256 + b[3];
    LowByte(q2, b[3]);
    LowByte(q1, b[2]);
    LowByte(b[0], b[1]);
    assert n / 0x100 == q2 && n / 0x1_0000 == q1 && n / 0x100_0000 == b[0];
  }

  /** Converting a length to uint32 first does not change its low 24 bits. */
  lemma WordLength(n: nat)
    ensures n % 0x1_0000_0000 % 0x100_0000 == n % 0x100_0000
  {
    var q, r := n / 0x1_0000_0000, n % 0x1_0000_0000;
    assert n == q * 0x100 * 0x100_0000 + r;
    var s, t := r / 0x100_0000, r % 0x100_0000;
    assert n == (q * 0x100 + s) * 0x100_0000 + t;
  }

  lemma GetPut64(n: nat)
    requires n < U64_SPAN
    ensures Get64(Put64(n)) == n
  {
    GetPut32(n / 0x1_0000_0000);
    GetPut32(n);
    assert Put64(n)[..4] == Put32(n / 0x1_0000_0000);
    assert Put64(n)[4..] == Put32(n);
  }

  /** Is the flag bit of weight w set in b?  The source writes b & w != 0. */
  predicate Bit(b: byte, w: byte)
    requires w in {0x80, 0x40, 0x20, 0x10}
  {
    if w == 0x80 then b >= 0x80
    else if w == 0x40 then b / 0x40 % 2 == 1
    else if w == 0x20 then b / 0x20 % 2 == 1
    else b / 0x10 % 2 == 1
  }

  function If(c: bool, w: byte): (b: byte) {
    if c then w else 0
  }

  /** n rounded up to the next multiple of four. */
  function Padded(n: nat): (p: nat)
    ensures p % 4 == 0 && n <= p < n + 4
  {
    if n % 4 != 0 then n + (4 - n % 4) else n
  }

  function Zeros(n: nat): (b: bytes)
    ensures |b| == n
  {
    seq(n, i => 0)
  }

  function Concat(parts: seq<bytes>): (b: bytes) {
    if parts == [] then [] else parts[0] + Concat(parts[1..])
  }

  lemma Assoc<T>(a: seq<T>, b: seq<T>, c: seq<T>)
    ensures a + b + c == a + (b + c)
  {
  }

  lemma SliceOfSlice<T>(s: seq<T>, i: nat, j: nat, k: nat, l: nat)
    requires i <= j <= |s| && k <= l <= j - i
    ensures s[i..j][k..l] == s[i + k..i + l]
  {
    var a, b := s[i..j][k..l], s[i + k..i + l];
    forall m | 0 <= m < l - k
      ensures a[m] == b[m]
    {
      assert a[m] == s[i..j][k + m];
    }
    assert a == b;
  }

  lemma {:induction false} ConcatAppend(a: seq<bytes>, b: seq<bytes>)
    ensures Concat(a + b) == Concat(a) + Concat(b)
  {
    if a == [] {
      assert a + b == b;
    } else {
      ConcatAppend(a[1..], b);
      assert (a + b)[0] == a[0] && (a + b)[1..] == a[1..] + b;
      Assoc(a[0], Concat(a[1..]), Concat(b));
    }
  }

  lemma ConcatOne(a: bytes)
    ensures Concat([a]) == a
  {
    assert [a][1..] == [];
  }
}
