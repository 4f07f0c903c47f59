/** Sequence numbers kept as four big-endian bytes, and the carry code that adds to them. */
module Sequence {
  import opened Words

  /** The number that four bytes in network order stand for. */
  function Value(b: seq<u8>): (v: u32)
    requires |b| == 4
  {
    b[0] as int * 0x100_0000 + b[1] as int * 0x1_0000 + b[2] as int * 0x100 + b[3]
  }

  /** The weight of byte `i`. */
  function Weight(i: nat): int
    requires i < 4
  {
    if i == 0 then 0x100_0000 else if i == 1 then 0x1_0000 else if i == 2 then 0x100 else 1
  }

  /** The ++ chain: add one to byte `i` and carry into the bytes above it. */
  method CarryInto(b: array<u8>, i: nat)
    requires b.Length == 4 && i < 4
    modifies b
    ensures Value(b[..]) == (Value(old(b[..])) + Weight(i)) % MOD32
    ensures forall j | i < j < 4 :: b[j] == old(b[j])
    decreases i
  {
    ghost var before := b[..];
    b[i] := (b[i] as int + 1) % 256;
    if b[i] == 0 {
      assert Value(b[..]) == Value(before) - 255 * Weight(i);
      if i > 0 {
        CarryInto(b, i - 1);
      }
    } else {
      assert Value(b[..]) == Value(before) + Weight(i);
    }
  }

  /** An 8-bit sum has wrapped exactly when it is smaller than what was added. */
  lemma WrapTest(x: u8, y: u8)
    ensures (x + y) % 256 < y <==> x + y >= 256
  {
  }

  /** The byte sums together with the two carries they leave. */
  lemma BeforeCarries(op: seq<u8>, op16: u16, acc: seq<u8>)
    requires |op| == 4 && |acc| == 4 && acc[0] == op[0] && acc[1] == op[1]
    requires acc[2] == (op[2] + op16 / 256) % 256 && acc[3] == (op[3] + op16 % 256) % 256
    ensures Value(acc) + (if acc[3] < op16 % 256 then 256 else 0) + (if acc[2] < op16 / 256 then 0x1_0000 else 0)
         == Value(op) + op16
  {
    WrapTest(op[3], op16 % 256);
    WrapTest(op[2], op16 / 256);
  }

  lemma ModTwice(v: u32, a: nat, b: nat)
    ensures ((v + a) % MOD32 + b) % MOD32 == (v + a + b) % MOD32
    ensures v % MOD32 == v && (v + a) % MOD32 % MOD32 == (v + a) % MOD32
  {
  }

  /** uip_add32: the byte-wise addition with carries is addition modulo 2^32. */
  method Add32(op32: array<u8>, at: nat, op16: u16, acc: array<u8>)
    requires at + 4 <= op32.Length && acc.Length == 4 && op32 != acc
    modifies acc
    ensures Value(acc[..]) == (Value(op32[at..at + 4]) + op16) % MOD32
  {
    var low: u8, high: u8 := op16 % 256, op16 / 256;
    acc[3] := (op32[at + 3] + low) % 256;
    acc[2] := (op32[at + 2] + high) % 256;
    acc[1] := op32[at + 1];
    acc[0] := op32[at];
    BeforeCarries(op32[at..at + 4], op16, acc[..]);
    ghost var v := Value(acc[..]);
    ghost var carry3 := if acc[3] < low then 256 else 0;
    ghost var carry2 := if acc[2] < high then 0x1_0000 else 0;
    assert v + carry3 + carry2 == Value(op32[at..at + 4]) + op16;
    ModTwice(v, carry2, carry3);
    hide Value;

    if acc[2] < high {
      CarryInto(acc, 1);
    }
    assert Value(acc[..]) == (v + carry2) % MOD32;
    if acc[3] < low {
      CarryInto(acc, 2);
    }
  }

  /** The ++ chain used for iss and for the acknowledgement of a reset. */
  method Increment(b: array<u8>)
    requires b.Length == 4
    modifies b
    ensures Value(b[..]) == (Value(old(b[..])) + 1) % MOD32
  {
    CarryInto(b, 3);
  }

  /** uip_add_rcv_nxt: the sum goes through uip_acc32 and back into the connection. */
  method AddRcvNxt(rcvNxt: array<u8>, n: u16, acc: array<u8>)
    requires rcvNxt.Length == 4 && acc.Length == 4 && rcvNxt != acc
    modifies rcvNxt, acc
    ensures Value(rcvNxt[..]) == (Value(old(rcvNxt[..])) + n) % MOD32
  {
    assert rcvNxt[0..4] == rcvNxt[..];
    Add32(rcvNxt, 0, n, acc);
    rcvNxt[0], rcvNxt[1], rcvNxt[2], rcvNxt[3] := acc[0], acc[1], acc[2], acc[3];
    assert rcvNxt[..] == acc[..];
  }
}
