/** Bytes and the values they make up. */
module Endian {
  import opened Words

  type Bytes = seq<Byte>

  /** The value of bytes, lowest first. */
  function Value(bytes: Bytes): nat {
    if bytes == [] then 0 else bytes[0] + 0x100 * Value(bytes[1..])
  }

  function Limit(n: nat): nat {
    if n == 0 then 1 else 0x100 * Limit(n - 1)
  }

  lemma {:induction false} ValueBelow(bytes: Bytes, n: nat)
    requires |bytes| == n
    ensures Value(bytes) < Limit(n)
  {
    if n > 0 {
      ValueBelow(bytes[1..], n - 1);
    }
  }

  lemma Limits()
    ensures Limit(2) == 0x1_0000 && Limit(4) == 0x1_0000_0000
  {
  }

  /** The `n` lowest bytes of a value, lowest first. */
  function Lowest(v: nat, n: nat): (bytes: Bytes)
    ensures |bytes| == n
  {
    if n == 0 then [] else [v % 0x100] + Lowest(v / 0x100, n - 1)
  }

  lemma {:induction false} LowestValue(v: nat, n: nat)
    requires v < Limit(n)
    ensures Value(Lowest(v, n)) == v
  {
    if n > 0 {
      LowestValue(v / 0x100, n - 1);
    }
  }

  /** Bytes are those of their value. */
  lemma {:induction false} ValueLowest(bytes: Bytes, n: nat)
    requires |bytes| == n
    ensures Lowest(Value(bytes), n) == bytes
  {
    if n > 0 {
      LastDigit(bytes[0], Value(bytes[1..]));
      ValueLowest(bytes[1..], n - 1);
    }
  }

  lemma LastDigit(b: Byte, v: nat)
    ensures (b + 0x100 * v) % 0x100 == b && (b + 0x100 * v) / 0x100 == v
  {
  }
}
