/**
 * The 32-bit big-endian length prefix of the peer protocol's frames.
 * Node's Buffer.readInt32BE reads the four bytes as a SIGNED two's
 * complement integer, so a prefix whose top bit is set reads negative.
 */
module BigEndian {

  import opened Base

  predicate IsInt32(n: int)
  {
    -0x8000_0000 <= n < 0x8000_0000
  }

  /** The four leading bytes as an unsigned number, most significant first. */
  function UInt32BE(s: seq<byte>): (r: nat)
    requires |s| >= 4
    ensures r < 0x1_0000_0000
    ensures r >= 0x8000_0000 <==> s[0] >= 0x80
  {
    ((s[0] as int * 0x100 + s[1] as int) * 0x100 + s[2] as int) * 0x100 + s[3] as int
  }

  /** Buffer.readInt32BE at offset 0: the signed value of the four leading bytes. */
  function ReadInt32BE(s: seq<byte>): (r: int)
    requires |s| >= 4
    ensures IsInt32(r)
    ensures r < 0 <==> s[0] >= 0x80
    ensures r % 0x1_0000_0000 == UInt32BE(s)
  {
    var u := UInt32BE(s);
    if u >= 0x8000_0000 then u - 0x1_0000_0000 else u
  }

  /** The four bytes whose signed big-endian reading is n (Buffer.writeInt32BE). */
  function WriteInt32BE(n: int): (r: seq<byte>)
    requires IsInt32(n)
    ensures |r| == 4
  {
    var u := if n < 0 then n + 0x1_0000_0000 else n;
    var q1 := u / 0x100;
    var q2 := q1 / 0x100;
    var q3 := q2 / 0x100;
    [q3 as byte, (q2 % 0x100) as byte, (q1 % 0x100) as byte, (u % 0x100) as byte]
  }

  /** Base-256 digits: x is its quotient and remainder by 256, and only those. */
  lemma Digit(x: int, q: int, d: int)
    requires 0 <= d < 0x100
    ensures x == q * 0x100 + d <==> (x / 0x100 == q && x % 0x100 == d)
  {
  }

  /** Reading back what was written gives the same number. */
  lemma ReadWriteInt32BE(n: int)
    requires IsInt32(n)
    ensures ReadInt32BE(WriteInt32BE(n)) == n
  {
    var u := if n < 0 then n + 0x1_0000_0000 else n;
    var q1 := u / 0x100;
    var q2 := q1 / 0x100;
    var q3 := q2 / 0x100;
    Digit(u, q1, u % 0x100);
    Digit(q1, q2, q1 % 0x100);
    Digit(q2, q3, q2 % 0x100);
    var w := WriteInt32BE(n);
    assert w[0] as int == q3 && w[1] as int == q2 % 0x100;
    assert w[2] as int == q1 % 0x100 && w[3] as int == u % 0x100;
    assert UInt32BE(w) == u;
  }

  /** Writing what was read gives back the same four bytes. */
  lemma WriteReadInt32BE(s: seq<byte>)
    requires |s| >= 4
    ensures WriteInt32BE(ReadInt32BE(s)) == s[..4]
  {
    var b0, b1, b2, b3 := s[0] as int, s[1] as int, s[2] as int, s[3] as int;
    var u := UInt32BE(s);
    var b := b0 * 0x100 + b1;
    var a := b * 0x100 + b2;
    assert u == a * 0x100 + b3;
    Digit(u, a, b3);
    Digit(a, b, b2);
    Digit(b, b0, b1);
    var w := WriteInt32BE(ReadInt32BE(s));
    assert w[0] as int == b0 && w[1] as int == b1 && w[2] as int == b2 && w[3] as int == b3;
    assert w[0] == s[0] && w[1] == s[1] && w[2] == s[2] && w[3] == s[3];
  }

  /** readInt32BE looks at the four leading bytes only. */
  lemma ReadInt32BEPrefix(s: seq<byte>, t: seq<byte>)
    requires |s| >= 4 && |t| >= 4 && s[..4] == t[..4]
    ensures ReadInt32BE(s) == ReadInt32BE(t)
  {
    assert s[0] == s[..4][0] && s[1] == s[..4][1] && s[2] == s[..4][2] && s[3] == s[..4][3];
    assert t[0] == t[..4][0] && t[1] == t[..4][1] && t[2] == t[..4][2] && t[3] == t[..4][3];
  }
}
