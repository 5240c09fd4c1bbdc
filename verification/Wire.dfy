/** Bytes and big-endian fields. */
module Wire {
  type Byte = x: nat | x < 256
  type Bytes = seq<Byte>

  function Be16(n: nat): (b: Bytes)
    requires n < 0x1_0000
    ensures |b| == 2
  {
    [n / 256, n % 256]
  }

  function Read16(b: Bytes): (n: nat)
    requires |b| >= 2
    ensures n < 0x1_0000
  {
    var hi: nat := b[0];
    hi * 256 + b[1]
  }

  /** Addition on uint16: wraps. */
  function Add16(a: nat, b: nat): (r: nat)
    requires a < 0x1_0000 && b < 0x1_0000
    ensures r < 0x1_0000
  {
    if a + b < 0x1_0000 then a + b else a + b - 0x1_0000
  }

  function Be32(n: nat): (b: Bytes)
    requires n < 0x1_0000_0000
    ensures |b| == 4
  {
    Be16(n / 0x1_0000) + Be16(n % 0x1_0000)
  }

  function Read32(b: Bytes): (n: nat)
    requires |b| >= 4
    ensures n < 0x1_0000_0000
  {
    Read16(b) * 0x1_0000 + Read16(b[2..])
  }

  lemma Read16Be16(n: nat, rest: Bytes)
    requires n < 0x1_0000
    ensures Read16(Be16(n) + rest) == n
  {
  }

  lemma Read32Be32(n: nat, rest: Bytes)
    requires n < 0x1_0000_0000
    ensures Read32(Be32(n) + rest) == n
  {
    var b := Be32(n) + rest;
    assert b == Be16(n / 0x1_0000) + (Be16(n % 0x1_0000) + rest);
    assert b[2..] == Be16(n % 0x1_0000) + rest;
    Read16Be16(n / 0x1_0000, Be16(n % 0x1_0000) + rest);
    Read16Be16(n % 0x1_0000, rest);
  }

  lemma Be16Read16(b: Bytes)
    requires |b| >= 2
    ensures Be16(Read16(b)) == b[..2]
  {
  }

  /** The result of a parser.  `Fault` is a run-time panic of the source. */
  datatype Parsed<+T> = Ok(value: T) | Malformed | Fault

  function Zeros(n: nat): (b: Bytes)
    ensures |b| == n && forall i | 0 <= i < n :: b[i] == 0
  {
    seq(n, _ => 0)
  }
}
