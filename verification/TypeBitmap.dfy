/** Type bitmaps of NSEC and NSEC3 records (section 4.1.2 of RFC 4034). */
module TypeBitmap {
  import opened Bytes

  /** Bit `t % 256` of one window's bitmap, most significant bit first. */
  predicate HasBit(block: seq<byte>, bit: byte) {
    bit / 8 < |block| && block[bit / 8] / Power2(7 - bit % 8) % 2 == 1
  }

  function Power2(n: nat): (r: nat)
    ensures r > 0
  {
    if n == 0 then 1 else 2 * Power2(n - 1)
  }

  /** `type_bitmap_contains`, from a window boundary on. */
  predicate BitmapContains(bitmap: seq<byte>, t: u16)
    decreases |bitmap|
  {
    if |bitmap| < 2 || 2 + bitmap[1] > |bitmap| then false
    else
      var block := bitmap[2..2 + bitmap[1]];
      if bitmap[0] == t / 0x100 && t % 0x100 / 8 < |block| then HasBit(block, t % 0x100)
      else BitmapContains(bitmap[2 + bitmap[1]..], t)
  }

  method TypeBitmapContains(bitmap: seq<byte>, t: u16) returns (r: bool)
    ensures r == BitmapContains(bitmap, t)
  {
    hide HasBit;
    var pos: nat := 0;
    assert bitmap[0..] == bitmap;
    while pos + 2 <= |bitmap|
      invariant pos <= |bitmap|
      invariant BitmapContains(bitmap, t) == BitmapContains(bitmap[pos..], t)
    {
      var window := bitmap[pos];
      var len := bitmap[pos + 1];
      if pos + 2 + len > |bitmap| { break; }
      assert bitmap[pos..][2..2 + len] == bitmap[pos + 2..pos + 2 + len];
      if window == t / 0x100 && t % 0x100 / 8 < len {
        return HasBit(bitmap[pos + 2..pos + 2 + len], t % 0x100);
      }
      assert bitmap[pos..][2 + len..] == bitmap[pos + 2 + len..];
      pos := pos + 2 + len;
    }
    r := false;
  }

  /** One window block of section 4.1.2 of RFC 4034. */
  datatype Window = Window(number: byte, block: seq<byte>)

  ghost predicate ValidWindows(ws: seq<Window>) {
    && (forall w <- ws :: 1 <= |w.block| <= 32)
    && (forall i, j :: 0 <= i < j < |ws| ==> ws[i].number < ws[j].number)
  }

  function BitmapOf(ws: seq<Window>): seq<byte>
    requires forall w <- ws :: |w.block| <= 32
  {
    if ws == [] then [] else [ws[0].number] + [|ws[0].block|] + ws[0].block + BitmapOf(ws[1..])
  }

  ghost predicate SomeWindowHas(ws: seq<Window>, t: u16) {
    exists w :: w in ws && w.number == t / 0x100 && HasBit(w.block, t % 0x100)
  }

  lemma WindowCases(ws: seq<Window>, t: u16)
    requires ValidWindows(ws)
    ensures ws == [] ==> !SomeWindowHas(ws, t)
    ensures ws != [] && ws[0].number != t / 0x100 ==> SomeWindowHas(ws, t) == SomeWindowHas(ws[1..], t)
    ensures ws != [] && ws[0].number == t / 0x100 ==>
              SomeWindowHas(ws, t) == HasBit(ws[0].block, t % 0x100) && !SomeWindowHas(ws[1..], t)
  {
    hide HasBit;
    if ws != [] {
      assert ws == [ws[0]] + ws[1..];
      assert forall v <- ws[1..] :: ws[0].number < v.number;
    }
  }

  /** The reader finds a type in a well-formed bitmap exactly when its window sets the bit. */
  lemma {:induction false} BitmapContainsIff(ws: seq<Window>, t: u16)
    requires ValidWindows(ws)
    ensures BitmapContains(BitmapOf(ws), t) <==> SomeWindowHas(ws, t)
  {
    hide HasBit, SomeWindowHas;
    WindowCases(ws, t);
    if ws != [] {
      var w, rest := ws[0], BitmapOf(ws[1..]);
      var b := BitmapOf(ws);
      BitmapContainsIff(ws[1..], t);
      Slices([w.number] + [|w.block|], w.block, rest);
      assert b[0] == w.number && b[1] == |w.block| && b[2..2 + b[1]] == w.block && b[2 + b[1]..] == rest;
      HasBitInRange(w.block, t % 0x100);
    }
  }

  lemma HasBitInRange(block: seq<byte>, bit: byte)
    ensures HasBit(block, bit) ==> bit / 8 < |block|
  {
  }
}
