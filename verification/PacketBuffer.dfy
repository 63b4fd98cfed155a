/** Cursor reads on a byte sequence: the value and the position after it, or None at the end. */
module Cursor {
  import opened Bytes

  function GetU8(b: seq<byte>, p: nat): Option<(byte, nat)> {
    if p < |b| then Some((b[p], p + 1)) else None
  }

  function GetU16(b: seq<byte>, p: nat): Option<(u16, nat)> {
    if p + 2 <= |b| then Some((U16(b[p], b[p + 1]), p + 2)) else None
  }

  function GetU32(b: seq<byte>, p: nat): Option<(u32, nat)> {
    if p + 4 <= |b| then Some((U32(b[p], b[p + 1], b[p + 2], b[p + 3]), p + 4)) else None
  }

  function GetBytes(b: seq<byte>, p: nat, n: nat): Option<(seq<byte>, nat)> {
    if p + n <= |b| then Some((b[p..p + n], p + n)) else None
  }

  lemma GetWritten8(b: seq<byte>, p: nat, x: byte)
    requires At(b, p, [x])
    ensures GetU8(b, p) == Some((x, p + 1))
  {
    assert b[p] == b[p..p + 1][0];
  }

  lemma GetWritten16(b: seq<byte>, p: nat, x: u16)
    requires At(b, p, BE16(x))
    ensures GetU16(b, p) == Some((x, p + 2))
  {
    AtBE16(b, p, x);
  }

  lemma GetWritten32(b: seq<byte>, p: nat, x: u32)
    requires At(b, p, BE32(x))
    ensures GetU32(b, p) == Some((x, p + 4))
  {
    AtBE32(b, p, x);
  }
}

/** `BytePacketBuffer`: a fixed 4096-byte array with a moving position. */
module PacketBuffer {
  import opened Bytes
  import opened Cursor
  import opened Names

  const BUF_SIZE := 4096

  class BytePacketBuffer {
    const buf: array<byte>
    var pos: nat
    var overflow: bool

    ghost predicate Valid() { buf.Length == BUF_SIZE }

    /** Everything before the position. */
    ghost function Filled(): seq<byte>
      requires Valid()
      reads this, buf
    {
      buf[..if pos <= BUF_SIZE then pos else BUF_SIZE]
    }

    /** A write of `bytes` moved the buffer here from position `start` with contents `before`. */
    ghost predicate Wrote(start: nat, before: seq<byte>, bytes: seq<byte>)
      requires Valid()
      reads this, buf
    {
      pos == start + |bytes| && (bytes != [] ==> pos <= BUF_SIZE) && Filled() == before + bytes
    }

    /** A read returned `r`, as the cursor function result `f` says. */
    ghost predicate DidRead<T>(f: Option<(T, nat)>, r: Option<T>)
      reads this
    {
      if f.None? then r.None? else r == Some(f.value.0) && pos == f.value.1
    }

    /** Two writes in a row are one write. */
    lemma WroteAfter(start: nat, before: seq<byte>, x: seq<byte>, mid: nat, between: seq<byte>, y: seq<byte>)
      requires Valid() && mid == start + |x| && between == before + x && (x != [] ==> mid <= BUF_SIZE)
      requires Wrote(mid, between, y)
      ensures Wrote(start, before, x + y)
    {
      Assoc(before, x, y);
    }

    constructor ()
      ensures Valid() && pos == 0 && !overflow && fresh(buf)
      ensures buf[..] == seq(BUF_SIZE, _ => 0)
    {
      buf := new byte[BUF_SIZE](_ => 0);
      pos := 0;
      overflow := false;
    }

    constructor FromBytes(data: seq<byte>)
      ensures Valid() && pos == 0 && !overflow && fresh(buf)
      ensures forall i :: 0 <= i < BUF_SIZE ==> buf[i] == if i < |data| then data[i] else 0
    {
      buf := new byte[BUF_SIZE](i => if 0 <= i < |data| then data[i] else 0);
      pos := 0;
      overflow := false;
    }

    method Step(steps: nat)
      modifies this`pos
      ensures pos == old(pos) + steps
    {
      pos := pos + steps;
    }

    method Seek(to: nat)
      modifies this`pos
      ensures pos == to
    {
      pos := to;
    }

    method Read() returns (r: Option<byte>)
      requires Valid()
      modifies this`pos
      ensures DidRead(GetU8(buf[..], old(pos)), r)
    {
      if pos >= BUF_SIZE { return None; }
      r := Some(buf[pos]);
      pos := pos + 1;
    }

    method Get(at: nat) returns (r: Option<byte>)
      requires Valid()
      ensures r == if at < BUF_SIZE then Some(buf[at]) else None
    {
      if at >= BUF_SIZE { return None; }
      r := Some(buf[at]);
    }

    method GetRange(start: nat, len: nat) returns (r: Option<seq<byte>>)
      requires Valid()
      ensures r == if start + len <= BUF_SIZE then Some(buf[start..start + len]) else None
    {
      if start + len > BUF_SIZE { return None; }
      r := Some(buf[start..start + len]);
    }

    /** `get_range` at the position followed by `step`, as every opaque field is read. */
    method Take(len: nat) returns (r: Option<seq<byte>>)
      requires Valid()
      modifies this`pos
      ensures DidRead(GetBytes(buf[..], old(pos), len), r)
    {
      r := GetRange(pos, len);
      if r.None? { return; }
      Step(len);
      assert buf[..][old(pos)..old(pos) + len] == buf[old(pos)..old(pos) + len];
    }

    method ReadU16() returns (r: Option<u16>)
      requires Valid()
      modifies this`pos
      ensures DidRead(GetU16(buf[..], old(pos)), r)
    {
      var hi := Read();
      if hi.None? { return None; }
      var lo := Read();
      if lo.None? { return None; }
      r := Some(U16(hi.value, lo.value));
    }

    method ReadU32() returns (r: Option<u32>)
      requires Valid()
      modifies this`pos
      ensures DidRead(GetU32(buf[..], old(pos)), r)
    {
      var a := Read();
      if a.None? { return None; }
      var b := Read();
      if b.None? { return None; }
      var c := Read();
      if c.None? { return None; }
      var d := Read();
      if d.None? { return None; }
      r := Some(U32(a.value, b.value, c.value, d.value));
    }

    method ReadQname() returns (r: Option<Text>)
      requires Valid()
      modifies this`pos
      ensures DidRead(ReadName(buf[..], old(pos)), r)
    {
      hide Expand, EndOfName, TextOf, EscapeLabel;
      var at: nat := pos;
      var jumped := false;
      var jumps := 0;
      var out: Text := [];
      var delim: Text := [];
      ghost var b, p0 := buf[..], pos;

      while true
        invariant jumps <= MAX_JUMPS + 1
        invariant jumped <==> jumps > 0
        invariant out == delim == [] || delim == [DOT]
        invariant !jumped ==> pos == p0 && EndOfName(b, p0) == EndOfName(b, at)
        invariant jumped ==> EndOfName(b, p0) == Some(pos)
        invariant Continued([], [], Expand(b, p0, 0)) == Continued(out, delim, Expand(b, at, jumps))
        decreases MAX_JUMPS + 1 - jumps, BUF_SIZE - at
      {
        ReadNameStep(b, at, jumps);
        if jumps > MAX_JUMPS { return None; }
        var byte0 := Get(at);
        if byte0.None? { return None; }
        var len := byte0.value;
        if IsPointer(len) {
          if !jumped { Seek(at + 2); }
          var b2 := Get(at + 1);
          if b2.None? { return None; }
          at := PointerTarget(len, b2.value);
          jumped := true;
          jumps := jumps + 1;
        } else if IsReserved(len) {
          return None;
        } else {
          at := at + 1;
          if len == 0 { break; }
          var body := GetRange(at, len);
          if body.None? { return None; }
          assert body.value == b[at..at + len];
          out := AppendEscaped(out + delim, body.value);
          delim := [DOT];
          at := at + len;
        }
      }
      if !jumped { Seek(at); }
      ContinuedAll(Expand(b, p0, 0));
      r := Some(out);
    }

    /** The per-byte loop of `read_qname`: push a label's escaped lower-case bytes. */
    static method AppendEscaped(start: Text, body: seq<byte>) returns (out: Text)
      ensures out == start + EscapeLabel(body)
    {
      hide EscapeLabel;
      out := start;
      EscapeLabelFrom(body, 0);
      for i := 0 to |body|
        invariant start + EscapeLabel(body) == out + EscapeLabel(body[i..])
      {
        EscapeLabelFrom(body, i);
        var c := Lower(body[i]);
        var chunk: Text;
        if c == DOT {
          chunk := [BACKSLASH, DOT];
        } else if c == BACKSLASH {
          chunk := [BACKSLASH, BACKSLASH];
        } else if 0x21 <= c <= 0x7E {
          chunk := [c];
        } else {
          chunk := [BACKSLASH, DIGIT_ZERO + c / 100, DIGIT_ZERO + c / 10 % 10, DIGIT_ZERO + c % 10];
        }
        ghost var was, rest := out, EscapeLabel(body[i + 1..]);
        out := out + chunk;
        assert was + (chunk + rest) == out + rest;
      }
      EscapeLabelFrom(body, |body|);
    }

    method Write(val: byte) returns (ok: bool)
      requires Valid()
      modifies this, buf
      ensures ok <==> old(pos) < BUF_SIZE
      ensures overflow <==> old(overflow) || !ok
      ensures ok ==> Wrote(old(pos), old(Filled()), [val])
      ensures !ok ==> pos == old(pos) && Filled() == old(Filled())
    {
      if pos >= BUF_SIZE {
        overflow := true;
        return false;
      }
      buf[pos] := val;
      pos := pos + 1;
      ok := true;
    }

    method WriteU16(val: u16) returns (ok: bool)
      requires Valid()
      modifies this, buf
      ensures ok <==> old(pos) + 2 <= BUF_SIZE
      ensures overflow <==> old(overflow) || !ok
      ensures ok ==> Wrote(old(pos), old(Filled()), BE16(val))
    {
      ok := Write(val / 0x100);
      if ok { ok := Write(val % 0x100); }
    }

    method WriteU32(val: u32) returns (ok: bool)
      requires Valid()
      modifies this, buf
      ensures ok <==> old(pos) + 4 <= BUF_SIZE
      ensures overflow <==> old(overflow) || !ok
      ensures ok ==> Wrote(old(pos), old(Filled()), BE32(val))
    {
      ok := Write(val / 0x1_0000 / 0x100);
      if ok { ok := Write(val / 0x1_0000 % 0x100); }
      if ok { ok := Write(val % 0x1_0000 / 0x100); }
      if ok { ok := Write(val % 0x1_0000 % 0x100); }
    }

    method WriteBytes(data: seq<byte>) returns (ok: bool)
      requires Valid()
      modifies this, buf
      ensures ok <==> old(pos) + |data| <= BUF_SIZE
      ensures overflow <==> old(overflow) || !ok
      ensures ok ==> Wrote(old(pos), old(Filled()), data)
    {
      var end := pos + |data|;
      if end > BUF_SIZE {
        overflow := true;
        return false;
      }
      forall i | pos <= i < end { buf[i] := data[i - pos]; }
      pos := end;
      ok := true;
    }

    method Set(at: nat, val: byte) returns (ok: bool)
      requires Valid()
      modifies buf
      ensures ok <==> at < BUF_SIZE
      ensures ok ==> buf[..] == old(buf[..])[at := val]
      ensures !ok ==> buf[..] == old(buf[..])
    {
      if at >= BUF_SIZE { return false; }
      buf[at] := val;
      ok := true;
    }

    /** Overwrites two bytes written earlier; nothing else moves. */
    method SetU16(at: nat, val: u16) returns (ok: bool)
      requires Valid()
      modifies buf
      ensures ok <==> at + 2 <= BUF_SIZE
      ensures ok ==> buf[..] == old(buf[..])[at := val / 0x100][at + 1 := val % 0x100]
    {
      ok := Set(at, val / 0x100);
      if ok { ok := Set(at + 1, val % 0x100); }
    }

    /** The escape branches of `write_qname`: one label byte and where its text ends. */
    static method UnescapeAt(bytes: Text, at: nat) returns (r: Option<(byte, nat)>)
      requires at < |bytes|
      ensures r == Unescape(bytes[at..])
    {
      var b := bytes[at];
      if b != BACKSLASH { return Some((b, 1)); }
      if at + 1 >= |bytes| { return None; }
      var c1 := bytes[at + 1];
      if !IsDigit(c1) { return Some((c1, 2)); }
      if at + 2 >= |bytes| || at + 3 >= |bytes| { return None; }
      var c2, c3 := bytes[at + 2], bytes[at + 3];
      if !IsDigit(c2) || !IsDigit(c3) { return None; }
      var val := (c1 - DIGIT_ZERO) * 100 + (c2 - DIGIT_ZERO) * 10 + (c3 - DIGIT_ZERO);
      if val > 255 { return None; }
      r := Some((val, 4));
    }

    /** The inner loop of `write_qname`: one label's bytes, up to its dot or the end. */
    method WriteLabelBody(qname: Text, at: nat) returns (ok: bool, i: nat, ghost body: Label)
      requires Valid() && pos <= BUF_SIZE && at < |qname|
      modifies this, buf
      ensures ok ==> at <= i <= |qname| && (i < |qname| ==> qname[i] == DOT)
      ensures |body| <= |qname| - at && (ok ==> |body| <= i - at && (body == [] <==> i == at))
      ensures ok ==> ParseLabel(qname[at..], []) == Some((body, AfterDot(qname, i))) && |body| <= MAX_LABEL
      ensures ok ==> Wrote(old(pos), old(Filled()), body) && overflow == old(overflow)
      ensures !ok && ParseLabel(qname[at..], []).Some? ==>
                overflow && old(pos) + |body| >= BUF_SIZE && |body| < |ParseLabel(qname[at..], []).value.0|
      ensures !ok && overflow != old(overflow) ==> old(pos) + |body| >= BUF_SIZE && |body| < |qname| - at
    {
      hide ParseLabel, Unescape;
      i := at;
      body := [];
      var bodyStart := pos;
      while i < |qname| && qname[i] != DOT
        invariant at <= i <= |qname|
        invariant |body| <= MAX_LABEL && |body| <= i - at && (body == [] <==> i == at)
        invariant Wrote(old(pos), old(Filled()), body)
        invariant ParseLabel(qname[at..], []) == ParseLabel(qname[i..], body)
        invariant overflow == old(overflow)
      {
        ParseLabelStep(qname, i, body);
        var unescaped := UnescapeAt(qname, i);
        if unescaped.None? { return false, i, body; }
        var (val, n) := unescaped.value;
        ok := Write(val);
        if !ok { return; }
        i := i + n;
        body := body + [val];
        if pos - bodyStart > MAX_LABEL { return false, i, body; }
      }
      ParseLabelEnd(qname, i, body);
      ok := true;
    }

    /** `set` on the placeholder byte written before `body`. */
    method PatchU8(at: nat, ghost before: seq<byte>, ghost body: seq<byte>, val: byte)
      requires Valid() && |before| == at && pos == at + 1 + |body| <= BUF_SIZE && Filled() == before + [0] + body
      modifies buf
      ensures Wrote(at, before, [val] + body)
    {
      ghost var filled: seq<byte> := Filled();
      var _ := Set(at, val);
      assert Filled() == filled[at := val];
      assert Filled() == before + ([val] + body);
    }

    /** One turn of the outer loop of `write_qname`: length byte, label, backpatch or roll-back. */
    method WriteLabel(qname: Text, at: nat) returns (ok: bool, i: nat, ghost body: Label, ghost need: nat)
      requires Valid() && at < |qname|
      modifies this, buf
      ensures ok ==> at <= i <= |qname| && (i < |qname| ==> qname[i] == DOT) && |body| <= i - at
      ensures ok ==> ParseLabel(qname[at..], []) == Some((body, AfterDot(qname, i))) && |body| <= MAX_LABEL
      ensures ok ==> Wrote(old(pos), old(Filled()), if body == [] then [] else [|body| as byte] + body)
      ensures ok ==> overflow == old(overflow)
      ensures !ok && ParseLabel(qname[at..], []).Some? ==>
                overflow && old(pos) + need >= BUF_SIZE && need <= |ParseLabel(qname[at..], []).value.0|
      ensures !ok && overflow != old(overflow) ==> old(pos) + need >= BUF_SIZE && need <= |qname| - at
    {
      hide ParseLabel;
      var lenPos := pos;
      i, body, need := at, [], 0;
      ok := Write(0);
      if !ok { return; }
      ok, i, body := WriteLabelBody(qname, i);
      need := 1 + |body|;
      if !ok { return; }
      var labelLen := pos - (lenPos + 1);
      if labelLen == 0 && i < |qname| {
        pos := lenPos;
      } else {
        PatchU8(lenPos, old(Filled()), body, labelLen);
      }
    }

    /** Writes a name in wire form; fails exactly on malformed text or lack of room. */
    method WriteQname(qname: Text) returns (ok: bool)
      requires Valid()
      modifies this, buf
      ensures ok <==> NameWire(qname).Some? && old(pos) + |NameWire(qname).value| <= BUF_SIZE
      ensures ok ==> Wrote(old(pos), old(Filled()), NameWire(qname).value) && overflow == old(overflow)
      ensures !ok && NameWire(qname).Some? ==> overflow
      ensures !ok && old(pos) + |qname| + 2 <= BUF_SIZE ==> overflow == old(overflow)
    {
      hide ParseLabel, ParseName, LabelsWire, WireOf, Filled;
      ghost var start, before := pos, Filled();
      if qname == [] || qname == [DOT] {
        RootText(qname);
        ok := Write(0);
        return;
      }
      var i := 0;
      ghost var done: seq<Label> := [];
      PrefixedNone(qname);
      while i < |qname|
        invariant i <= |qname| && ValidLabels(done)
        invariant Wrote(start, before, LabelsWire(done))
        invariant ParseName(qname) == Prefixed(done, ParseName(qname[i..]))
        invariant |LabelsWire(done)| <= i + 1 && (i < |qname| ==> |LabelsWire(done)| <= i)
        invariant overflow == old(overflow)
      {
        ghost var at, body, need := i, [], 0;
        NameStep(done, qname, at);
        ghost var mid, between := pos, Filled();
        ok, i, body, need := WriteLabel(qname, i);
        if !ok {
          NameTooLong(done, qname[at..], need);
          return;
        }
        if body != [] {
          WroteAfter(start, before, LabelsWire(done), mid, between, [|body| as byte] + body);
          LabelsWireSnoc(done, body);
          done := done + [body];
        }
        if i < |qname| && qname[i] == DOT { i := i + 1; }
        assert qname[i..] == AfterDot(qname, if i < |qname| then i - 1 else i);
      }
      PrefixedAll(done, qname[i..]);
      ghost var mid, between := pos, Filled();
      ok := Write(0);
      if ok { WroteAfter(start, before, LabelsWire(done), mid, between, [0]); }
    }

    // ---- Writes in a row: each adds its bytes to `done`, what was written since `start` ----

    method ThenU8(ghost start: nat, ghost before: seq<byte>, ghost done: seq<byte>, val: byte) returns (ok: bool)
      requires Valid() && Wrote(start, before, done)
      modifies this, buf
      ensures ok <==> start + |done| + 1 <= BUF_SIZE
      ensures overflow <==> old(overflow) || !ok
      ensures ok ==> Wrote(start, before, done + [val])
    {
      ghost var mid, between := pos, Filled();
      ok := Write(val);
      if ok { WroteAfter(start, before, done, mid, between, [val]); }
    }

    method ThenU16(ghost start: nat, ghost before: seq<byte>, ghost done: seq<byte>, val: u16) returns (ok: bool)
      requires Valid() && Wrote(start, before, done)
      modifies this, buf
      ensures ok <==> start + |done| + 2 <= BUF_SIZE
      ensures overflow <==> old(overflow) || !ok
      ensures ok ==> Wrote(start, before, done + BE16(val))
    {
      ghost var mid, between := pos, Filled();
      ok := WriteU16(val);
      if ok { WroteAfter(start, before, done, mid, between, BE16(val)); }
    }

    method ThenU32(ghost start: nat, ghost before: seq<byte>, ghost done: seq<byte>, val: u32) returns (ok: bool)
      requires Valid() && Wrote(start, before, done)
      modifies this, buf
      ensures ok <==> start + |done| + 4 <= BUF_SIZE
      ensures overflow <==> old(overflow) || !ok
      ensures ok ==> Wrote(start, before, done + BE32(val))
    {
      ghost var mid, between := pos, Filled();
      ok := WriteU32(val);
      if ok { WroteAfter(start, before, done, mid, between, BE32(val)); }
    }

    method ThenBytes(ghost start: nat, ghost before: seq<byte>, ghost done: seq<byte>,
                     data: seq<byte>) returns (ok: bool)
      requires Valid() && Wrote(start, before, done)
      modifies this, buf
      ensures ok <==> start + |done| + |data| <= BUF_SIZE
      ensures overflow <==> old(overflow) || !ok
      ensures ok ==> Wrote(start, before, done + data)
    {
      ghost var mid, between := pos, Filled();
      ok := WriteBytes(data);
      if ok { WroteAfter(start, before, done, mid, between, data); }
    }

    method ThenName(ghost start: nat, ghost before: seq<byte>, ghost done: seq<byte>, name: Text) returns (ok: bool)
      requires Valid() && Wrote(start, before, done)
      modifies this, buf
      ensures ok <==> NameWire(name).Some? && start + |done| + |NameWire(name).value| <= BUF_SIZE
      ensures !ok && NameWire(name).Some? ==> overflow
      ensures ok ==> Wrote(start, before, done + NameWire(name).value) && overflow == old(overflow)
    {
      ghost var mid, between := pos, Filled();
      ok := WriteQname(name);
      if ok { WroteAfter(start, before, done, mid, between, NameWire(name).value); }
    }

    /** `set_u16` on a length field written before the `body` it measures. */
    method PatchU16(ghost start: nat, ghost before: seq<byte>, ghost head: seq<byte>, ghost was: u16,
                    ghost body: seq<byte>,
                    at: nat, val: u16)
      requires Valid() && Wrote(start, before, head + BE16(was) + body) && at == start + |head|
      modifies buf
      ensures Wrote(start, before, head + BE16(val) + body)
    {
      assert |before| == start;
      ghost var filled: seq<byte> := Filled();
      var _ := SetU16(at, val);
      assert Filled() == filled[at := val / 0x100][at + 1 := val % 0x100];
      assert Filled() == before + (head + BE16(val) + body);
    }
  }

  lemma EscapeLabelFrom(l: Label, i: nat)
    requires i <= |l|
    ensures l[0..] == l && EscapeLabel(l[|l|..]) == []
    ensures i < |l| ==> EscapeLabel(l[i..]) == Escape(Lower(l[i])) + EscapeLabel(l[i + 1..])
  {
    if i < |l| { assert l[i..][1..] == l[i + 1..]; }
  }

  /** The text after the dot at `i`, or nothing at the end. */
  ghost function AfterDot(t: Text, i: nat): Text
    requires i <= |t|
  {
    if i < |t| then t[i + 1..] else []
  }

  lemma ParseLabelStep(t: Text, i: nat, body: Label)
    requires i < |t| && t[i] != DOT
    ensures Unescape(t[i..]).None? || |body| + 1 > MAX_LABEL ==> ParseLabel(t[i..], body).None?
    ensures Unescape(t[i..]).Some? ==> 1 <= Unescape(t[i..]).value.1 <= |t| - i
    ensures Unescape(t[i..]).Some? && |body| + 1 <= MAX_LABEL ==>
              var (b, n) := Unescape(t[i..]).value;
              ParseLabel(t[i..], body) == ParseLabel(t[i + n..], body + [b])
    ensures ParseLabel(t[i..], body).Some? ==> |body| < |ParseLabel(t[i..], body).value.0|
  {
    if Unescape(t[i..]).Some? {
      assert t[i..][Unescape(t[i..]).value.1..] == t[i + Unescape(t[i..]).value.1..];
    }
  }

  lemma ParseLabelEnd(t: Text, i: nat, body: Label)
    requires i <= |t| && (i < |t| ==> t[i] == DOT)
    ensures ParseLabel(t[i..], body) == Some((body, AfterDot(t, i)))
  {
    if i < |t| { assert t[i..][1..] == t[i + 1..]; }
  }

  /** `done` put before a parsed remainder. */
  ghost function Prefixed(done: seq<Label>, rest: Option<seq<Label>>): Option<seq<Label>> {
    if rest.None? then None else Some(done + rest.value)
  }

  lemma {:induction false} LabelsWireConcat(xs: seq<Label>, ys: seq<Label>)
    requires ValidLabels(xs) && ValidLabels(ys) && ValidLabels(xs + ys)
    ensures LabelsWire(xs + ys) == LabelsWire(xs) + LabelsWire(ys)
  {
    if xs == [] {
      assert xs + ys == ys;
    } else {
      assert (xs + ys)[1..] == xs[1..] + ys;
      LabelsWireConcat(xs[1..], ys);
    }
  }

  lemma PrefixedLength(done: seq<Label>, rest: Option<seq<Label>>)
    requires ValidLabels(done) && (rest.Some? ==> ValidLabels(rest.value))
    ensures rest.Some? ==> ValidLabels(done + rest.value)
    ensures rest.Some? ==> |WireOf(done + rest.value)| == |LabelsWire(done)| + |WireOf(rest.value)|
  {
    if rest.Some? { LabelsWireConcat(done, rest.value); }
  }

  lemma RootText(t: Text)
    ensures NameWire([]) == NameWire([DOT]) == Some([0])
  {
    assert [DOT][1..] == [];
    assert WireOf([]) == [0];
  }

  lemma PrefixedNone(t: Text)
    ensures t[0..] == t && LabelsWire([]) == [] && ParseName(t) == Prefixed([], ParseName(t))
  {
    if ParseName(t).Some? { assert [] + ParseName(t).value == ParseName(t).value; }
  }

  lemma PrefixedAll(done: seq<Label>, t: Text)
    requires t == [] && ValidLabels(done)
    ensures Prefixed(done, ParseName(t)) == Some(done) && WireOf(done) == LabelsWire(done) + [0]
  {
    assert done + [] == done;
  }

  /** One turn of the writing loop: the label at `at` joins `done` unless it is empty. */
  lemma NameStep(done: seq<Label>, t: Text, at: nat)
    requires ValidLabels(done) && at < |t|
    ensures var name := Prefixed(done, ParseName(t[at..]));
            && (name.Some? ==> ParseLabel(t[at..], []).Some?)
            && (name.Some? ==> ValidLabels(name.value) && |WireOf(name.value)| >= |LabelsWire(done)| + 1)
            && (ParseLabel(t[at..], []).Some? ==>
                  var (l, rest) := ParseLabel(t[at..], []).value;
                  name == Prefixed(if l == [] then done else done + [l], ParseName(rest)))
  {
    PrefixedLength(done, ParseName(t[at..]));
    if ParseLabel(t[at..], []).Some? {
      var (l, rest) := ParseLabel(t[at..], []).value;
      if l != [] && ParseName(rest).Some? {
        assert done + ([l] + ParseName(rest).value) == done + [l] + ParseName(rest).value;
      }
    }
  }

  /** A name that needs `need` bytes for its next label needs at least one more. */
  lemma NameTooLong(done: seq<Label>, t: Text, need: nat)
    requires ValidLabels(done) && t != []
    ensures var name := Prefixed(done, ParseName(t));
            name.Some? ==>
              && ParseLabel(t, []).Some? && ValidLabels(name.value)
              && (need <= |ParseLabel(t, []).value.0| ==> |WireOf(name.value)| >= |LabelsWire(done)| + need + 1)
  {
    PrefixedLength(done, ParseName(t));
  }

  /** The text collected so far, completed by the labels still to come. */
  ghost function Continued(out: Text, delim: Text, ls: Option<seq<Label>>): Option<Text> {
    if ls.None? then None
    else if ls.value == [] then Some(out)
    else Some(out + delim + TextOf(ls.value))
  }

  /** One turn of the reading loop, at every kind of length byte. */
  lemma ReadNameStep(b: seq<byte>, at: nat, jumps: nat)
    ensures jumps > MAX_JUMPS || at >= |b| ==> Expand(b, at, jumps).None?
    ensures jumps <= MAX_JUMPS && at < |b| ==>
              if IsPointer(b[at]) then
                && EndOfName(b, at) == Some(at + 2)
                && Expand(b, at, jumps) ==
                     if at + 1 < |b| then Expand(b, PointerTarget(b[at], b[at + 1]), jumps + 1) else None
              else if IsReserved(b[at]) then
                Expand(b, at, jumps).None?
              else if b[at] == 0 then
                Expand(b, at, jumps) == Some([]) && EndOfName(b, at) == Some(at + 1)
              else if at + 1 + b[at] > |b| then
                Expand(b, at, jumps).None?
              else
                && EndOfName(b, at) == EndOfName(b, at + 1 + b[at])
                && (forall out, delim :: Continued(out, delim, Expand(b, at, jumps))
                     == Continued(out + delim + EscapeLabel(b[at + 1..at + 1 + b[at]]), [DOT], Expand(b, at + 1 + b[at], jumps)))
  {
    if jumps <= MAX_JUMPS && at < |b| && 0 < b[at] <= MAX_LABEL && at + 1 + b[at] <= |b| {
      forall out, delim {
        ContinuedLabel(out, delim, b, at, jumps);
      }
    }
  }

  lemma ContinuedAll(ls: Option<seq<Label>>)
    ensures ls.Some? ==> Continued([], [], ls) == Some(TextOf(ls.value))
  {
    if ls.Some? { assert [] + [] + TextOf(ls.value) == TextOf(ls.value); }
  }

  lemma ContinuedLabel(out: Text, delim: Text, b: seq<byte>, at: nat, jumps: nat)
    requires at < |b| && 0 < b[at] <= MAX_LABEL && at + 1 + b[at] <= |b| && jumps <= MAX_JUMPS
    ensures Continued(out, delim, Expand(b, at, jumps))
         == Continued(out + delim + EscapeLabel(b[at + 1..at + 1 + b[at]]), [DOT], Expand(b, at + 1 + b[at], jumps))
  {
    ExpandCons(b, at, jumps);
    hide Expand, EscapeLabel;
    var l, rest := b[at + 1..at + 1 + b[at]], Expand(b, at + 1 + b[at], jumps);
    if rest.Some? {
      assert ([l] + rest.value)[1..] == rest.value;
      Assoc(EscapeLabel(l), [DOT], TextOf(rest.value));
      Assoc(out + delim, EscapeLabel(l), [DOT] + TextOf(rest.value));
      Assoc(out + delim + EscapeLabel(l), [DOT], TextOf(rest.value));
    }
  }
}
