/**
 Domain names as label lists: the escaped text form (section 5.1 of RFC 1035) and
 the wire form, compressed (section 4.1.4) and uncompressed (section 3.1).
 */
module Names {
  import opened Bytes

  type Label = seq<byte>

  const MAX_LABEL := 63
  const MAX_JUMPS := 5

  ghost predicate ValidLabels(ls: seq<Label>) {
    forall l <- ls :: 1 <= |l| <= 63
  }

  function LowerLabels(ls: seq<Label>): (r: seq<Label>)
    ensures |r| == |ls|
  {
    seq(|ls|, i requires 0 <= i < |ls| => LowerText(ls[i]))
  }

  // ---- Text form ----

  /** The text of one label byte that is already lower case. */
  function Escape(b: byte): Text {
    if b == DOT || b == BACKSLASH then [BACKSLASH, b]
    else if 0x21 <= b <= 0x7E then [b]
    else [BACKSLASH, DIGIT_ZERO + b / 100, DIGIT_ZERO + b / 10 % 10, DIGIT_ZERO + b % 10]
  }

  /** A printable byte but dot and backslash spells itself, those two follow a backslash, the rest are three decimal digits. */
  lemma EscapeIs(c: byte)
    ensures Escape(c) == [c] <==> 0x21 <= c <= 0x7E && c != DOT && c != BACKSLASH
    ensures |Escape(c)| == 2 <==> c == DOT || c == BACKSLASH
    ensures |Escape(c)| == 2 ==> Escape(c) == [BACKSLASH, c]
    ensures Escape(c) != [c] && |Escape(c)| != 2 ==>
              var e := Escape(c);
              && |e| == 4 && e[0] == BACKSLASH && IsDigit(e[1]) && IsDigit(e[2]) && IsDigit(e[3])
              && (e[1] - DIGIT_ZERO) * 100 + (e[2] - DIGIT_ZERO) * 10 + (e[3] - DIGIT_ZERO) == c
  {
  }

  function EscapeLabel(l: Label): Text {
    if l == [] then [] else Escape(Lower(l[0])) + EscapeLabel(l[1..])
  }

  /** The text of a name: escaped lower-case labels with a dot between any two. */
  function TextOf(ls: seq<Label>): Text {
    if ls == [] then []
    else if |ls| == 1 then EscapeLabel(ls[0])
    else EscapeLabel(ls[0]) + [DOT] + TextOf(ls[1..])
  }

  lemma TextParts(ls: seq<Label>)
    requires ls != []
    ensures TextOf(ls) == EscapeLabel(ls[0]) + if |ls| == 1 then [] else [DOT] + TextOf(ls[1..])
  {
    hide EscapeLabel;
    if |ls| == 1 {
      assert EscapeLabel(ls[0]) + [] == EscapeLabel(ls[0]);
    } else {
      Assoc(EscapeLabel(ls[0]), [DOT], TextOf(ls[1..]));
    }
  }

  predicate IsDigit(b: byte) { DIGIT_ZERO <= b <= DIGIT_ZERO + 9 }

  /** The label byte a text starts with, and how many text bytes spell it. */
  function Unescape(t: Text): (r: Option<(byte, nat)>)
    requires t != []
    ensures r.Some? ==> 1 <= r.value.1 <= |t|
  {
    if t[0] != BACKSLASH then Some((t[0], 1))
    else if |t| < 2 then None
    else if !IsDigit(t[1]) then Some((t[1], 2))
    else if |t| < 4 || !IsDigit(t[2]) || !IsDigit(t[3]) then None
    else
      var val := (t[1] - DIGIT_ZERO) * 100 + (t[2] - DIGIT_ZERO) * 10 + (t[3] - DIGIT_ZERO);
      if val > 255 then None else Some((val, 4))
  }

  /** Section 5.1 of RFC 1035: `\DDD` is a byte in decimal, `\X` any other byte X, and a backslash is never alone. */
  lemma UnescapeIs(t: Text)
    requires t != []
    ensures t[0] != 92 ==> Unescape(t) == Some((t[0], 1))
    ensures t[0] == 92 ==>
              Unescape(t) == if |t| < 2 then None
                             else if t[1] < 48 || 57 < t[1] then Some((t[1], 2))
                             else if |t| < 4 || t[2] < 48 || 57 < t[2] || t[3] < 48 || 57 < t[3] then None
                             else
                               var n := (t[1] as int - 48) * 100 + (t[2] as int - 48) * 10 + (t[3] as int - 48);
                               if n < 256 then Some((n, 4)) else None
  {
  }

  /** Continues a label whose first bytes are `body`; also gives the text after its dot. */
  function ParseLabel(t: Text, body: Label): (r: Option<(Label, Text)>)
    ensures r.Some? ==> |body| <= |r.value.0| && |r.value.1| <= |t|
    ensures r.Some? && t != [] ==> |r.value.1| < |t|
    ensures r.Some? && t != [] && t[0] != DOT ==> |body| < |r.value.0|
    ensures r.Some? && |body| <= MAX_LABEL ==> |r.value.0| <= MAX_LABEL
    decreases |t|
  {
    if t == [] then Some((body, []))
    else if t[0] == DOT then Some((body, t[1..]))
    else
      var (b, n) :- Unescape(t);
      if |body| + 1 > MAX_LABEL then None else ParseLabel(t[n..], body + [b])
  }

  /** The labels a text spells; empty labels are skipped. None: the text is malformed. */
  function ParseName(t: Text): (r: Option<seq<Label>>)
    ensures r.Some? ==> ValidLabels(r.value)
    decreases |t|
  {
    if t == [] then Some([])
    else
      var (l, rest) :- ParseLabel(t, []);
      var ls :- ParseName(rest);
      Some(if l == [] then ls else [l] + ls)
  }

  /** Text that the wire reader can produce. */
  predicate NormalForm(t: Text) {
    ParseName(t).Some? && TextOf(ParseName(t).value) == t
  }

  lemma UnescapeEscape(c: byte, tail: Text)
    ensures Escape(c) + tail != [] && (Escape(c) + tail)[0] != DOT
    ensures Unescape(Escape(c) + tail) == Some((c, |Escape(c)|))
  {
    var t := Escape(c) + tail;
    if c != DOT && c != BACKSLASH && !(0x21 <= c <= 0x7E) {
      assert t[..4] == Escape(c);
      assert c == c / 100 * 100 + c / 10 % 10 * 10 + c % 10;
    }
  }

  lemma ParseLabelCons(c: byte, rest: Text, body: Label)
    requires |body| < MAX_LABEL
    ensures ParseLabel(Escape(c) + rest, body) == ParseLabel(rest, body + [c])
  {
    UnescapeEscape(c, rest);
    assert (Escape(c) + rest)[|Escape(c)|..] == rest;
  }

  lemma {:induction false} ParseEscapedLabel(l: Label, body: Label, tail: Text)
    requires |body| + |l| <= MAX_LABEL
    requires tail == [] || tail[0] == DOT
    ensures ParseLabel(EscapeLabel(l) + tail, body)
         == Some((body + LowerText(l), if tail == [] then [] else tail[1..]))
    decreases |l|
  {
    if l == [] {
      assert EscapeLabel(l) + tail == tail;
      assert body + LowerText(l) == body;
    } else {
      hide ParseLabel, Escape, Unescape, LowerText;
      var c := Lower(l[0]);
      var rest := EscapeLabel(l[1..]) + tail;
      Assoc(Escape(c), EscapeLabel(l[1..]), tail);
      ParseLabelCons(c, rest, body);
      ParseEscapedLabel(l[1..], body + [c], tail);
      LowerTextCons(l);
      Assoc(body, [c], LowerText(l[1..]));
    }
  }

  /** Parsing the text of a name gives back its labels, lower-cased. */
  lemma {:induction false} ParseTextOf(ls: seq<Label>)
    requires ValidLabels(ls)
    ensures ParseName(TextOf(ls)) == Some(LowerLabels(ls))
  {
    if ls != [] {
      ParseTextOf(ls[1..]);
      TextParts(ls);
      LowerLabelsCons(ls);
      assert |ls| == 1 ==> TextOf(ls[1..]) == [];
      hide TextOf, ParseName, EscapeLabel, LowerLabels, LowerText;
      ParsePrepended(ls[0], TextOf(ls[1..]), |ls| == 1);
    }
  }

  lemma LowerLabelsCons(ls: seq<Label>)
    requires ls != []
    ensures LowerLabels(ls) == [LowerText(ls[0])] + LowerLabels(ls[1..])
  {
    hide LowerText;
  }

  /** A label before a text that parses. */
  lemma ParsePrepended(l: Label, rest: Text, last: bool)
    requires 1 <= |l| <= MAX_LABEL && ParseName(rest).Some? && (last ==> rest == [])
    ensures ParseName(EscapeLabel(l) + if last then [] else [DOT] + rest) == Some([LowerText(l)] + ParseName(rest).value)
  {
    hide EscapeLabel, ParseLabel, Escape, Unescape;
    var tail := if last then [] else [DOT] + rest;
    ParseEscapedLabel(l, [], tail);
    EscapeLabelNonEmpty(l);
    assert tail != [] ==> tail[1..] == rest;
    assert [] + LowerText(l) == LowerText(l);
    assert ParseLabel(EscapeLabel(l) + tail, []) == Some((LowerText(l), rest));
  }

  lemma EscapeLabelNonEmpty(l: Label)
    requires l != []
    ensures EscapeLabel(l) != []
  {
  }

  lemma EscapeLabelLower(l: Label)
    ensures EscapeLabel(LowerText(l)) == EscapeLabel(l)
  {
    if l != [] {
      assert LowerText(l)[1..] == LowerText(l[1..]);
      EscapeLabelLower(l[1..]);
    }
  }

  lemma {:induction false} TextOfLower(ls: seq<Label>)
    ensures TextOf(LowerLabels(ls)) == TextOf(ls)
  {
    if ls != [] {
      EscapeLabelLower(ls[0]);
      assert LowerLabels(ls)[1..] == LowerLabels(ls[1..]);
      TextOfLower(ls[1..]);
    }
  }

  /** Normal-form text is exactly the text of some valid label list. */
  lemma NormalFormIff(t: Text)
    ensures NormalForm(t) <==> exists ls :: ValidLabels(ls) && TextOf(ls) == t
  {
    forall ls | ValidLabels(ls) && TextOf(ls) == t
      ensures NormalForm(t)
    {
      ParseTextOf(ls);
      TextOfLower(ls);
    }
  }

  // ---- Wire form ----

  function LabelsWire(ls: seq<Label>): seq<byte>
    requires ValidLabels(ls)
  {
    if ls == [] then [] else [|ls[0]| as byte] + ls[0] + LabelsWire(ls[1..])
  }

  /** The uncompressed wire form: length-prefixed labels and the root's zero. */
  function WireOf(ls: seq<Label>): seq<byte>
    requires ValidLabels(ls)
  {
    LabelsWire(ls) + [0]
  }

  /** The wire form that writing a text produces. */
  function NameWire(t: Text): (r: Option<seq<byte>>)
    ensures r.Some? ==> |r.value| >= 1
  {
    var ls :- ParseName(t);
    Some(WireOf(ls))
  }

  lemma LowerLabelsValid(ls: seq<Label>)
    requires ValidLabels(ls)
    ensures ValidLabels(LowerLabels(ls))
  {
  }

  lemma {:induction false} LowerLabelsWire(ls: seq<Label>)
    requires ValidLabels(ls)
    ensures ValidLabels(LowerLabels(ls)) && |LabelsWire(LowerLabels(ls))| == |LabelsWire(ls)|
  {
    LowerLabelsValid(ls);
    if ls != [] {
      assert LowerLabels(ls)[1..] == LowerLabels(ls[1..]);
      LowerLabelsWire(ls[1..]);
    }
  }

  lemma LabelsWireSnoc(ls: seq<Label>, l: Label)
    requires ValidLabels(ls + [l]) && ValidLabels(ls) && 1 <= |l| <= MAX_LABEL
    ensures LabelsWire(ls + [l]) == LabelsWire(ls) + ([|l| as byte] + l)
  {
    if ls != [] {
      assert (ls + [l])[1..] == ls[1..] + [l];
      LabelsWireSnoc(ls[1..], l);
    } else {
      assert ls + [l] == [l];
      assert LabelsWire([l][1..]) == [];
    }
  }

  predicate IsPointer(b: byte) { b >= 0xC0 }
  predicate IsReserved(b: byte) { 0x40 <= b < 0xC0 }
  function PointerTarget(hi: byte, lo: byte): nat
    requires IsPointer(hi)
  {
    (hi - 0xC0) * 0x100 + lo
  }

  /** The labels of the name at `p` when `jumps` pointers have been followed already. */
  function Expand(b: seq<byte>, p: nat, jumps: nat): (r: Option<seq<Label>>)
    ensures r.Some? ==> ValidLabels(r.value)
    decreases if jumps <= MAX_JUMPS then MAX_JUMPS + 1 - jumps else 0, if p < |b| then |b| - p else 0
  {
    if jumps > MAX_JUMPS || p >= |b| then None
    else if IsPointer(b[p]) then
      if p + 1 >= |b| then None else Expand(b, PointerTarget(b[p], b[p + 1]), jumps + 1)
    else if IsReserved(b[p]) then None
    else if b[p] == 0 then Some([])
    else
      var next := p + 1 + b[p];
      if next > |b| then None else
      var rest :- Expand(b, next, jumps);
      Some([b[p + 1..next]] + rest)
  }

  /** Where the name at `p` ends in place: after its terminator or its first pointer. */
  function EndOfName(b: seq<byte>, p: nat): Option<nat>
    decreases if p < |b| then |b| - p else 0
  {
    if p >= |b| then None
    else if IsPointer(b[p]) then Some(p + 2)
    else if IsReserved(b[p]) then None
    else if b[p] == 0 then Some(p + 1)
    else EndOfName(b, p + 1 + b[p])
  }

  function ReadName(b: seq<byte>, p: nat): (r: Option<(Text, nat)>)
    ensures r.Some? ==> NormalForm(r.value.0)
  {
    var ls :- Expand(b, p, 0);
    var end :- EndOfName(b, p);
    NormalFormIff(TextOf(ls));
    Some((TextOf(ls), end))
  }

  /** The name at `p` spells `ls` through exactly `jumps` pointers, with no limit on them. */
  ghost predicate Spells(b: seq<byte>, p: nat, ls: seq<Label>, jumps: nat)
    decreases jumps, |ls|
  {
    p < |b| &&
    if IsPointer(b[p]) then
      p + 1 < |b| && jumps > 0 && Spells(b, PointerTarget(b[p], b[p + 1]), ls, jumps - 1)
    else if b[p] == 0 then
      ls == [] && jumps == 0
    else
      && !IsReserved(b[p])
      && ls != []
      && p + 1 + b[p] <= |b|
      && ls[0] == b[p + 1..p + 1 + b[p]]
      && Spells(b, p + 1 + b[p], ls[1..], jumps)
  }

  lemma {:induction false} ExpandSpells(b: seq<byte>, p: nat, jumps: nat) returns (more: nat)
    requires Expand(b, p, jumps).Some?
    ensures jumps + more <= MAX_JUMPS && Spells(b, p, Expand(b, p, jumps).value, more)
    decreases MAX_JUMPS + 1 - jumps, |b| - p
  {
    if IsPointer(b[p]) {
      more := ExpandSpells(b, PointerTarget(b[p], b[p + 1]), jumps + 1);
      more := more + 1;
    } else if b[p] == 0 {
      more := 0;
    } else {
      more := ExpandSpells(b, p + 1 + b[p], jumps);
      assert Expand(b, p, jumps).value[1..] == Expand(b, p + 1 + b[p], jumps).value;
    }
  }

  lemma {:induction false} SpellsExpand(b: seq<byte>, p: nat, ls: seq<Label>, more: nat, jumps: nat)
    requires Spells(b, p, ls, more) && jumps + more <= MAX_JUMPS
    ensures Expand(b, p, jumps) == Some(ls)
    decreases more, |ls|
  {
    if IsPointer(b[p]) {
      SpellsExpand(b, PointerTarget(b[p], b[p + 1]), ls, more - 1, jumps + 1);
    } else if b[p] != 0 {
      SpellsExpand(b, p + 1 + b[p], ls[1..], more, jumps);
      assert ls == [ls[0]] + ls[1..];
    }
  }

  /** A successfully expanded name also has an end in place. */
  lemma {:induction false} ExpandHasEnd(b: seq<byte>, p: nat, jumps: nat)
    requires Expand(b, p, jumps).Some?
    ensures EndOfName(b, p).Some? && p < EndOfName(b, p).value <= |b|
    decreases |b| - p
  {
    if !IsPointer(b[p]) && b[p] != 0 {
      ExpandHasEnd(b, p + 1 + b[p], jumps);
    }
  }

  lemma NameAdvances(b: seq<byte>, p: nat)
    requires ReadName(b, p).Some?
    ensures p < ReadName(b, p).value.1 <= |b|
  {
    ExpandHasEnd(b, p, 0);
  }

  /** Some labels stand at `p`, and after them the root's zero or the two bytes of a pointer, up to `end`. */
  ghost predicate InPlace(b: seq<byte>, p: nat, front: seq<Label>, end: nat)
    requires ValidLabels(front)
  {
    var q := p + |LabelsWire(front)|;
    At(b, p, LabelsWire(front)) && q < |b| && ((b[q] == 0 && end == q + 1) || (b[q] >= 0xC0 && end == q + 2))
  }

  /** A name ends in place behind its own labels, however far its pointers lead. */
  lemma {:induction false} NameEnds(b: seq<byte>, p: nat, jumps: nat) returns (front: seq<Label>)
    requires Expand(b, p, jumps).Some? && EndOfName(b, p).Some?
    ensures ValidLabels(front) && InPlace(b, p, front, EndOfName(b, p).value) && front <= Expand(b, p, jumps).value
    decreases |b| - p
  {
    front := [];
    if IsPointer(b[p]) || b[p] == 0 {
      assert At(b, p, []);
    } else {
      NextLabel(b, p, jumps);
      hide Expand, EndOfName, InPlace, IsPointer;
      var next := p + 1 + b[p];
      var l := b[p + 1..next];
      var rest := NameEnds(b, next, jumps);
      front := [l] + rest;
      InPlaceCons(b, p, l, rest, EndOfName(b, p).value);
      assert [l] + rest <= [l] + Expand(b, next, jumps).value;
    }
  }

  lemma NextLabel(b: seq<byte>, p: nat, jumps: nat)
    requires Expand(b, p, jumps).Some? && !IsPointer(b[p]) && b[p] != 0
    ensures var next := p + 1 + b[p];
            && b[p] <= MAX_LABEL && next <= |b| && Expand(b, next, jumps).Some?
            && Expand(b, p, jumps).value == [b[p + 1..next]] + Expand(b, next, jumps).value
            && EndOfName(b, p) == EndOfName(b, next)
  {
  }

  lemma InPlaceCons(b: seq<byte>, p: nat, l: Label, rest: seq<Label>, end: nat)
    requires 1 <= |l| <= MAX_LABEL && p + 1 + |l| <= |b| && b[p] == |l| && b[p + 1..p + 1 + |l|] == l
    requires ValidLabels(rest) && InPlace(b, p + 1 + |l|, rest, end)
    ensures ValidLabels([l] + rest) && InPlace(b, p, [l] + rest, end)
  {
    assert ([l] + rest)[1..] == rest;
    assert b[p..p + 1 + |l|] == [b[p]] + l;
    AtConcat(b, p, [|l| as byte] + l, LabelsWire(rest));
    hide At;
    assert LabelsWire([l] + rest) == [|l| as byte] + l + LabelsWire(rest);
  }

  /** Section 4.1.4 of RFC 1035: two set bits and then an offset of fourteen bits. */
  lemma PointerIs(hi: byte, lo: byte)
    ensures IsPointer(hi) <==> U16(hi, lo) >= 0xC000
    ensures IsPointer(hi) ==> PointerTarget(hi, lo) == U16(hi, lo) - 0xC000
    ensures IsReserved(hi) <==> 0x4000 <= U16(hi, lo) < 0xC000
  {
  }

  /** The name at `p` reaches `ls` within the jump limit. */
  ghost predicate Reaches(b: seq<byte>, p: nat, ls: seq<Label>) {
    exists jumps: nat :: jumps <= 5 && Spells(b, p, ls, jumps)
  }

  /** A name is accepted exactly when it spells a label list through at most five pointers. */
  lemma ReadNameIff(b: seq<byte>, p: nat)
    ensures ReadName(b, p).Some? <==> exists ls :: Reaches(b, p, ls)
    ensures forall ls :: Reaches(b, p, ls) ==> ReadName(b, p).Some? && ReadName(b, p).value.0 == TextOf(ls)
  {
    if Expand(b, p, 0).Some? {
      var jumps := ExpandSpells(b, p, 0);
      ExpandHasEnd(b, p, 0);
      assert Reaches(b, p, Expand(b, p, 0).value);
    }
    forall ls | Reaches(b, p, ls)
      ensures ReadName(b, p).Some? && ReadName(b, p).value.0 == TextOf(ls)
    {
      var jumps: nat :| jumps <= MAX_JUMPS && Spells(b, p, ls, jumps);
      SpellsExpand(b, p, ls, jumps, 0);
      ExpandHasEnd(b, p, 0);
    }
  }

  lemma FirstLabelAt(b: seq<byte>, p: nat, l: Label, tail: seq<byte>)
    requires 1 <= |l| <= MAX_LABEL && At(b, p, [|l| as byte] + l + tail)
    ensures p + 1 + |l| <= |b| && b[p] == |l| && b[p + 1..p + 1 + |l|] == l
    ensures At(b, p + 1 + |l|, tail)
  {
    AtConcat(b, p, [|l| as byte] + l, tail);
    AtConcat(b, p, [|l| as byte], l);
    assert b[p] == b[p..p + 1][0];
  }

  lemma WireCons(l: Label, rest: seq<Label>)
    requires 1 <= |l| <= MAX_LABEL && ValidLabels(rest)
    ensures WireOf([l] + rest) == [|l| as byte] + l + WireOf(rest)
  {
    assert ([l] + rest)[1..] == rest;
    assert [|l| as byte] + l + LabelsWire(rest) + [0] == [|l| as byte] + l + (LabelsWire(rest) + [0]);
  }

  lemma ExpandCons(b: seq<byte>, p: nat, jumps: nat)
    requires p < |b| && 0 < b[p] <= MAX_LABEL && p + 1 + b[p] <= |b| && jumps <= MAX_JUMPS
    ensures Expand(b, p, jumps) == var rest := Expand(b, p + 1 + b[p], jumps);
                                   if rest.None? then None else Some([b[p + 1..p + 1 + b[p]]] + rest.value)
    ensures EndOfName(b, p) == EndOfName(b, p + 1 + b[p])
  {
  }

  lemma {:induction false} ExpandUncompressed(b: seq<byte>, p: nat, ls: seq<Label>)
    requires ValidLabels(ls) && At(b, p, WireOf(ls))
    ensures Expand(b, p, 0) == Some(ls) && EndOfName(b, p) == Some(p + |WireOf(ls)|)
    decreases |ls|
  {
    hide Expand, EndOfName, LabelsWire, WireOf, At;
    if ls == [] {
      ExpandRoot(b, p);
    } else {
      var l, rest := ls[0], ls[1..];
      assert ls == [l] + rest;
      WireCons(l, rest);
      FirstLabelAt(b, p, l, WireOf(rest));
      ExpandUncompressed(b, p + 1 + |l|, rest);
      ExpandCons(b, p, 0);
    }
  }

  lemma ExpandRoot(b: seq<byte>, p: nat)
    requires At(b, p, WireOf([]))
    ensures Expand(b, p, 0) == Some([]) && EndOfName(b, p) == Some(p + |WireOf([])|)
  {
    assert b[p] == b[p..p + 1][0];
  }

  /** Reading back the written form of normal-form text is the identity. */
  lemma ReadWritten(b: seq<byte>, p: nat, t: Text)
    requires NormalForm(t) && NameWire(t).Some? && At(b, p, NameWire(t).value)
    ensures ReadName(b, p) == Some((t, p + |NameWire(t).value|))
  {
    ExpandUncompressed(b, p, ParseName(t).value);
  }

  lemma NormalFormWrites(t: Text)
    requires NormalForm(t)
    ensures NameWire(t).Some?
  {
  }

  /** Writing what was read gives the lower-cased expanded labels, uncompressed. */
  lemma WriteRead(b: seq<byte>, p: nat)
    requires ReadName(b, p).Some?
    ensures ValidLabels(LowerLabels(Expand(b, p, 0).value))
    ensures NameWire(ReadName(b, p).value.0) == Some(WireOf(LowerLabels(Expand(b, p, 0).value)))
  {
    ParseTextOf(Expand(b, p, 0).value);
  }

  /** The room for the pointers still to come, one buffer each. */
  function Room(n: nat, jumps: nat): nat
    decreases MAX_JUMPS - jumps
  {
    if jumps >= MAX_JUMPS then 0 else n + Room(n, jumps + 1)
  }

  lemma RoomIsFive(n: nat)
    ensures Room(n, 0) == 5 * n
  {
    assert Room(n, 5) == 0 && Room(n, 4) == n && Room(n, 3) == 2 * n && Room(n, 2) == 3 * n;
  }

  lemma LabelsWireCons(l: Label, rest: seq<Label>)
    requires 1 <= |l| <= MAX_LABEL && ValidLabels(rest)
    ensures ValidLabels([l] + rest) && |LabelsWire([l] + rest)| == 1 + |l| + |LabelsWire(rest)|
  {
    assert ([l] + rest)[1..] == rest;
  }

  /** However its pointers overlap, a name takes in at most one buffer for each of its up to six stretches. */
  lemma {:induction false} ExpandIsBounded(b: seq<byte>, p: nat, jumps: nat)
    requires Expand(b, p, jumps).Some?
    ensures p < |b| && |LabelsWire(Expand(b, p, jumps).value)| <= |b| - p + Room(|b|, jumps)
    decreases MAX_JUMPS + 1 - jumps, |b| - p
  {
    hide LabelsWire;
    if IsPointer(b[p]) {
      ExpandIsBounded(b, PointerTarget(b[p], b[p + 1]), jumps + 1);
    } else if b[p] == 0 {
      assert LabelsWire([]) == [] by { NoLabelsWire(); }
    } else {
      var next := p + 1 + b[p];
      ExpandIsBounded(b, next, jumps);
      ExpandCons(b, p, jumps);
      hide Expand, Room;
      LabelsWireCons(b[p + 1..next], Expand(b, next, jumps).value);
    }
  }

  lemma NoLabelsWire()
    ensures LabelsWire([]) == []
  {
  }

  /** So what is read can be written, but may take six times the room. */
  lemma ReadNameSize(b: seq<byte>, p: nat)
    requires ReadName(b, p).Some?
    ensures NameWire(ReadName(b, p).value.0).Some? && |NameWire(ReadName(b, p).value.0).value| <= 6 * |b| + 1
  {
    hide Expand, LabelsWire, LowerLabels, TextOf, Room, EndOfName, NameWire, NormalForm;
    WriteRead(b, p);
    ExpandIsBounded(b, p, 0);
    RoomIsFive(|b|);
    LowerLabelsWire(Expand(b, p, 0).value);
  }

  /** The labels of normal-form text are lower case already. */
  lemma NormalFormLabelsLower(t: Text)
    requires NormalForm(t)
    ensures LowerLabels(ParseName(t).value) == ParseName(t).value
  {
    ParseTextOf(ParseName(t).value);
  }
}
