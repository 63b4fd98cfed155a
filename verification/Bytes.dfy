/** Machine integers, big-endian fields and byte strings shared by every module. */
module Bytes {
  type byte = x: int | 0 <= x < 0x100
  type u16 = x: int | 0 <= x < 0x1_0000
  type u32 = x: int | 0 <= x < 0x1_0000_0000

  /** A Rust `String`, seen as its UTF-8 bytes. */
  type Text = seq<byte>

  const DOT: byte := 46
  const BACKSLASH: byte := 92
  const STAR: byte := 42
  const DIGIT_ZERO: byte := 48

  datatype Option<+T> = None | Some(value: T) {
    predicate IsFailure() { None? }
    function PropagateFailure<U>(): Option<U> requires None? { None }
    function Extract(): T requires Some? { value }
    function GetOr(fallback: T): T { if Some? then value else fallback }
  }

  function BE16(x: u16): (s: seq<byte>)
    ensures |s| == 2
  {
    [x / 0x100, x % 0x100]
  }

  function BE32(x: u32): (s: seq<byte>)
    ensures |s| == 4
  {
    BE16(x / 0x1_0000) + BE16(x % 0x1_0000)
  }

  /** `n as u16`. */
  function AsU16(n: nat): (r: u16)
    ensures n < 0x1_0000 ==> r == n
  {
    n % 0x1_0000
  }

  function U16(hi: byte, lo: byte): u16 { hi * 0x100 + lo }

  /** `x << 8 * n`. */
  function Shifted(n: nat, x: nat): nat
    decreases n, x
  {
    if n == 0 then x else 0x100 * Shifted(n - 1, x)
  }

  lemma Shifts(a: nat, b: nat, c: nat)
    ensures Shifted(3, a) == 0x100_0000 * a && Shifted(2, b) == 0x1_0000 * b && Shifted(1, c) == 0x100 * c
  {
    assert Shifted(0, a) == a && Shifted(0, b) == b && Shifted(0, c) == c;
    assert Shifted(1, a) == 0x100 * a && Shifted(1, b) == 0x100 * b;
    assert Shifted(2, a) == 0x1_0000 * a;
  }

  function U32(a: byte, b: byte, c: byte, d: byte): u32 {
    Shifts(a, b, c);
    Shifted(3, a) + Shifted(2, b) + Shifted(1, c) + d
  }

  lemma U32Words(a: byte, b: byte, c: byte, d: byte)
    ensures U32(a, b, c, d) == U16(a, b) * 0x1_0000 + U16(c, d)
  {
    Shifts(a, b, c);
  }

  /** `u8::to_ascii_lowercase`. */
  function Lower(b: byte): byte {
    if 65 <= b <= 90 then b + 32 else b
  }

  function LowerText(s: Text): (r: Text)
    ensures |r| == |s|
    ensures forall i :: 0 <= i < |s| ==> r[i] == Lower(s[i])
  {
    seq(|s|, i requires 0 <= i < |s| => Lower(s[i]))
  }

  /** `str::eq_ignore_ascii_case`. */
  predicate EqIgnoreCase(a: Text, b: Text) {
    LowerText(a) == LowerText(b)
  }

  /** `find('.')` from a position on; the length if there is none. */
  method FindDot(t: Text, from: nat) returns (i: nat)
    requires from <= |t|
    ensures from <= i <= |t| && (i < |t| ==> t[i] == DOT) && forall j :: from <= j < i ==> t[j] != DOT
  {
    i := from;
    while i < |t| && t[i] != DOT
      invariant from <= i <= |t| && forall j :: from <= j < i ==> t[j] != DOT
    {
      i := i + 1;
    }
  }

  lemma LowerTextConcat(a: Text, b: Text)
    ensures LowerText(a + b) == LowerText(a) + LowerText(b)
  {
  }

  lemma LowerTextIdempotent(a: Text)
    ensures LowerText(LowerText(a)) == LowerText(a)
  {
  }

  lemma LowerTextCons(a: Text)
    requires a != []
    ensures LowerText(a) == [Lower(a[0])] + LowerText(a[1..])
  {
  }

  lemma Assoc<T>(a: seq<T>, b: seq<T>, c: seq<T>)
    ensures a + b + c == a + (b + c)
  {
  }

  lemma Slices<T>(a: seq<T>, b: seq<T>, c: seq<T>)
    ensures (a + b + c)[..|a|] == a && (a + b + c)[|a|..|a| + |b|] == b && (a + b + c)[|a| + |b|..] == c
  {
  }

  /** The bytes `s` lie in `b` from position `p` on. */
  ghost predicate At(b: seq<byte>, p: nat, s: seq<byte>) {
    p + |s| <= |b| && b[p..p + |s|] == s
  }

  lemma AtConcat(b: seq<byte>, p: nat, x: seq<byte>, y: seq<byte>)
    ensures At(b, p, x + y) <==> At(b, p, x) && At(b, p + |x|, y)
  {
    var z := x + y;
    if At(b, p, z) {
      assert b[p..p + |x|] == b[p..p + |z|][..|x|] == z[..|x|] == x;
      assert b[p + |x|..p + |z|] == b[p..p + |z|][|x|..] == z[|x|..] == y;
    }
  }

  lemma AtBE16(b: seq<byte>, p: nat, x: u16)
    requires At(b, p, BE16(x))
    ensures p + 2 <= |b| && U16(b[p], b[p + 1]) == x
  {
    assert b[p] == b[p..p + 2][0] && b[p + 1] == b[p..p + 2][1];
  }

  lemma AtBE32(b: seq<byte>, p: nat, x: u32)
    requires At(b, p, BE32(x))
    ensures p + 4 <= |b| && U32(b[p], b[p + 1], b[p + 2], b[p + 3]) == x
  {
    AtConcat(b, p, BE16(x / 0x1_0000), BE16(x % 0x1_0000));
    AtBE16(b, p, x / 0x1_0000);
    AtBE16(b, p + 2, x % 0x1_0000);
    U32Words(b[p], b[p + 1], b[p + 2], b[p + 3]);
  }
}
