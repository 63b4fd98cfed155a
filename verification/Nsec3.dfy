/** Hashed owner names (section 5 of RFC 5155) and their base32hex text (section 7 of RFC 4648). */
module Nsec3 {
  import opened Bytes
  import opened Canonical
  import opened KeyEncoding
  import opened TypeBitmap

  const MAX_NSEC3_ITERATIONS: u16 := 500

  /** `nsec3_hash`: SHA-1 of the salted name, then `iterations` more rounds. */
  function Nsec3Hash(sha1: seq<byte> -> seq<byte>, name: Text, algorithm: byte, iterations: u16,
                     salt: seq<byte>): Option<seq<byte>> {
    if algorithm != 1 || iterations > MAX_NSEC3_ITERATIONS then None else
    var wire :- CanonicalName(name);
    Some(Rounds(sha1, sha1(wire + salt), salt, iterations))
  }

  function Rounds(sha1: seq<byte> -> seq<byte>, hash: seq<byte>, salt: seq<byte>, n: nat): seq<byte> {
    if n == 0 then hash else sha1(Rounds(sha1, hash, salt, n - 1) + salt)
  }

  /**
   * Section 5 of RFC 5155: the hash after no rounds is that of the salted canonical name, and each round hashes the salted
   * hash before it; only algorithm 1 with at most 500 rounds, on a name that has a canonical form, is hashed at all.
   */
  lemma HashIs(sha1: seq<byte> -> seq<byte>, name: Text, algorithm: byte, iterations: u16, salt: seq<byte>)
    ensures Nsec3Hash(sha1, name, algorithm, iterations, salt).Some?
            <==> algorithm == 1 && iterations <= 500 && CanonicalName(name).Some?
    ensures CanonicalName(name).Some? ==> Nsec3Hash(sha1, name, 1, 0, salt) == Some(sha1(CanonicalName(name).value + salt))
    ensures CanonicalName(name).Some? && 1 <= iterations <= 500 ==>
              Nsec3Hash(sha1, name, 1, iterations, salt)
              == Some(sha1(Nsec3Hash(sha1, name, 1, iterations - 1, salt).value + salt))
  {
    hide CanonicalName;
  }

  method ComputeNsec3Hash(sha1: seq<byte> -> seq<byte>, name: Text, algorithm: byte, iterations: u16, salt: seq<byte>)
    returns (r: Option<seq<byte>>)
    ensures r == Nsec3Hash(sha1, name, algorithm, iterations, salt)
  {
    if algorithm != 1 { return None; }
    if iterations > MAX_NSEC3_ITERATIONS { return None; }
    var wire := NameToWire(name);
    if wire.None? { return None; }
    var hash := sha1(wire.value + salt);
    for i := 0 to iterations
      invariant hash == Rounds(sha1, sha1(wire.value + salt), salt, i)
    {
      hash := sha1(hash + salt);
    }
    r := Some(hash);
  }

  /** The value of a base32hex digit; None for anything else. */
  function Base32Digit(c: byte): (r: Option<nat>)
    ensures r.Some? ==> r.value < 32
  {
    if 48 <= c <= 57 then Some(c - 48)
    else if 65 <= c <= 86 then Some(c - 65 + 10)
    else if 97 <= c <= 118 then Some(c - 97 + 10)
    else None
  }

  /** The digits of section 7 of RFC 4648 in either letter case, and no other. */
  lemma DigitsAre(c: byte, d: nat)
    ensures Base32Digit(c) == Some(d)
            <==> (d < 10 && c == DIGIT_ZERO + d) || (10 <= d < 32 && (c == 65 + d - 10 || c == 97 + d - 10))
  {
  }

  /** The digits before the first '='; None if one of them is invalid. */
  function Base32Digits(t: Text): Option<seq<nat>> {
    if t == [] || t[0] == 61 then Some([])
    else
      var d :- Base32Digit(t[0]);
      var rest :- Base32Digits(t[1..]);
      Some([d] + rest)
  }

  function Base32Value(ds: seq<nat>): nat {
    if ds == [] then 0 else Base32Value(ds[..|ds| - 1]) * 32 + ds[|ds| - 1]
  }

  function Quotient(n: nat, p: nat): nat
    requires p > 0
  {
    n / p
  }

  /** The low `n` bytes of a number, big-endian. */
  function BytesOf(v: nat, n: nat): seq<byte> {
    if n == 0 then [] else BytesOf(v / 256, n - 1) + [v % 256]
  }

  /** Of `n` digits: the whole bytes, and the bits left over. */
  function WholeBytes(n: nat): nat { 5 * n / 8 }

  function LeftOver(n: nat): nat { 5 * n % 8 }

  lemma OneMoreDigit(n: nat)
    ensures LeftOver(n) < 8 && LeftOver(0) == WholeBytes(0) == 0
    ensures LeftOver(n + 1) == if LeftOver(n) + 5 >= 8 then LeftOver(n) + 5 - 8 else LeftOver(n) + 5
    ensures WholeBytes(n + 1) == WholeBytes(n) + if LeftOver(n) + 5 >= 8 then 1 else 0
  {
  }

  /** The number the digits spell, cut down to whole bytes. */
  function Base32Decode(t: Text): Option<seq<byte>> {
    var ds :- Base32Digits(t);
    Some(BytesOf(Quotient(Base32Value(ds), Power2(LeftOver(|ds|))), WholeBytes(|ds|)))
  }

  lemma {:induction false} BytesOfValue(s: seq<byte>)
    ensures BytesOf(BigEndian(s), |s|) == s
  {
    if s != [] {
      var front, v := s[..|s| - 1], BigEndian(s);
      BytesOfValue(front);
      assert v / 256 == BigEndian(front) && v % 256 == s[|s| - 1];
      assert s == front + [s[|s| - 1]];
    }
  }

  lemma {:induction false} Base32Snoc(t: Text, i: nat)
    requires i < |t| && (forall k :: 0 <= k <= i ==> t[k] != 61) && Base32Digits(t[..i]).Some?
    ensures Base32Digits(t[..i + 1]) ==
              if Base32Digit(t[i]).None? then None else Some(Base32Digits(t[..i]).value + [Base32Digit(t[i]).value])
    ensures Base32Digit(t[i]).None? ==> Base32Digits(t).None?
    decreases i
  {
    hide Base32Digit;
    if i == 0 {
      assert t[..1][1..] == [];
      assert Base32Digits(t[..1][1..]) == Some([]) == Base32Digits(t[..0]);
      if Base32Digit(t[0]).Some? {
        var d: seq<nat> := [Base32Digit(t[0]).value];
        assert [] + d == d + [];
      }
    } else {
      assert t[..i][1..] == t[1..][..i - 1] && t[..i + 1][1..] == t[1..][..i];
      Base32Snoc(t[1..], i - 1);
      if Base32Digit(t[i]).Some? {
        Assoc([Base32Digit(t[0]).value], Base32Digits(t[1..][..i - 1]).value, [Base32Digit(t[i]).value]);
      }
    }
  }

  lemma Base32Stop(t: Text, i: nat)
    requires i <= |t| && (i < |t| ==> t[i] == 61) && (forall k :: 0 <= k < i ==> t[k] != 61)
    ensures Base32Digits(t) == Base32Digits(t[..i])
    decreases i
  {
    if i > 0 {
      assert t[..i][1..] == t[1..][..i - 1];
      Base32Stop(t[1..], i - 1);
    }
  }

  lemma PowerFive(n: nat)
    ensures Power2(n + 5) == 32 * Power2(n)
  {
    assert Power2(n + 4) == 2 * Power2(n + 3) && Power2(n + 2) == 2 * Power2(n + 1);
  }

  lemma PowerEight(n: nat)
    ensures Power2(n + 8) == 256 * Power2(n)
  {
    PowerFive(n + 3);
    assert Power2(n + 2) == 2 * Power2(n + 1);
  }

  /** What the loop has read is what it has written plus fewer than eight bits still held back. */
  ghost predicate Held(ds: seq<nat>, output: seq<byte>, bits: nat, bitCount: nat) {
    bits < Power2(bitCount) && Base32Value(ds) == BigEndian(output) * Power2(bitCount) + bits
  }

  lemma HoldDigit(ds: seq<nat>, output: seq<byte>, bits: nat, bitCount: nat, d: nat)
    requires Held(ds, output, bits, bitCount) && d < 32
    ensures Held(ds + [d], output, bits * 32 + d, bitCount + 5)
  {
    PowerFive(bitCount);
    assert (ds + [d])[..|ds|] == ds;
    hide Power2, BigEndian;
    var v, p := BigEndian(output), Power2(bitCount);
    assert (v * p + bits) * 32 + d == v * (32 * p) + (bits * 32 + d) by { Distribute(v, p, 32); }
  }

  lemma Distribute(v: nat, p: nat, k: nat)
    ensures v * p * k == v * (k * p) == v * k * p
  {
  }

  function ShiftRight(bits: nat, n: nat): nat { Quotient(bits, Power2(n)) }

  function LowBits(bits: nat, n: nat): nat { bits % Power2(n) }

  lemma EmitByte(ds: seq<nat>, output: seq<byte>, bits: nat, bitCount: nat)
    requires Held(ds, output, bits, bitCount + 8)
    ensures ShiftRight(bits, bitCount) < 256
    ensures Held(ds, output + [ShiftRight(bits, bitCount)], LowBits(bits, bitCount), bitCount)
  {
    PowerEight(bitCount);
    var p, q, rest := Power2(bitCount), ShiftRight(bits, bitCount), LowBits(bits, bitCount);
    DivideUnique(bits, p, q, rest);
    hide Power2, Base32Value, ShiftRight, LowBits;
    if q >= 256 { Scale(q - 256, p); }
    BigEndianSnoc(output, q);
    hide BigEndian;
    Regroup(BigEndian(output), p, q);
  }

  lemma BigEndianSnoc(output: seq<byte>, b: byte)
    ensures BigEndian(output + [b]) == BigEndian(output) * 256 + b as nat
  {
    assert (output + [b])[..|output|] == output;
  }

  lemma Regroup(v: nat, p: nat, q: nat)
    ensures (v * 256 + q) * p == v * (256 * p) + q * p
  {
    Distribute(v, p, 256);
  }

  lemma Scale(d: nat, p: nat)
    ensures (d + 256) * p >= 256 * p
  {
  }

  lemma DivideUnique(n: nat, p: nat, q: nat, rest: nat)
    requires p > 0
    ensures q == n / p && rest == n % p ==> n == q * p + rest && rest < p
    ensures n == q * p + rest && rest < p ==> q == n / p
  {
    if n == q * p + rest && rest < p {
      var d := q - n / p;
      assert d * p == n % p - rest;
      if d > 0 { Grows(d, p); }
      if d < 0 { Grows(-d, p); }
    }
  }

  lemma Grows(d: nat, p: nat)
    requires d > 0
    ensures d * p >= p
  {
    assert d * p == p + (d - 1) * p;
  }

  /** `base32hex_decode`: whole bytes are emitted as soon as eight bits have come together. */
  method Base32HexDecode(t: Text) returns (r: Option<seq<byte>>)
    ensures r == Base32Decode(t)
  {
    hide Base32Digits, Base32Digit, Power2, BigEndian, Held, ShiftRight, LowBits, BytesOf, Base32Value, Quotient,
         LeftOver, WholeBytes;
    var bits: nat, bitCount: nat := 0, 0;
    var output: seq<byte> := [];
    ghost var ds: seq<nat> := [];
    NothingHeld(t);
    OneMoreDigit(0);
    var i := 0;
    while i < |t| && t[i] != 61
      invariant i <= |t| && |ds| == i && forall k :: 0 <= k < i ==> t[k] != 61
      invariant Base32Digits(t[..i]) == Some(ds)
      invariant bitCount == LeftOver(i) && |output| == WholeBytes(i)
      invariant Held(ds, output, bits, bitCount)
    {
      Base32Snoc(t, i);
      OneMoreDigit(i);
      var val := Base32Digit(t[i]);
      if val.None? { return None; }
      HoldDigit(ds, output, bits, bitCount, val.value);
      ds := ds + [val.value];
      bits := bits * 32 + val.value;
      bitCount := bitCount + 5;
      if bitCount >= 8 {
        bitCount := bitCount - 8;
        EmitByte(ds, output, bits, bitCount);
        output := output + [ShiftRight(bits, bitCount)];
        bits := LowBits(bits, bitCount);
      }
      i := i + 1;
    }
    Base32Stop(t, i);
    HeldLeads(ds, output, bits, bitCount);
    r := Some(output);
  }

  lemma NothingHeld(t: Text)
    ensures Base32Digits(t[..0]) == Some([]) && Held([], [], 0, 0)
  {
  }

  lemma HeldLeads(ds: seq<nat>, output: seq<byte>, bits: nat, bitCount: nat)
    requires Held(ds, output, bits, bitCount) && bitCount == LeftOver(|ds|) && |output| == WholeBytes(|ds|)
    ensures BytesOf(Quotient(Base32Value(ds), Power2(bitCount)), |output|) == output
  {
    BytesOfValue(output);
    hide Power2, BigEndian, Base32Value, BytesOf;
    DivideUnique(Base32Value(ds), Power2(bitCount), BigEndian(output), bits);
  }
}
