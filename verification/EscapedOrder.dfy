/** When the order of escaped texts is the order of the labels they stand for. */
module EscapedOrder {
  import opened Bytes
  import opened Names
  import opened Rings
  import opened NameOrder

  /** No label holds a dot, so that the dots of the text are exactly the label boundaries. */
  predicate NoDots(ls: seq<Label>) { forall l <- ls :: DOT !in l }

  function EscapeAll(ls: seq<Label>): (r: seq<Text>)
    ensures |r| == |ls| && forall i :: 0 <= i < |ls| ==> r[i] == EscapeLabel(ls[i])
  {
    seq(|ls|, i requires 0 <= i < |ls| => EscapeLabel(ls[i]))
  }

  lemma {:induction false} EscapedLabel(l: Label)
    requires DOT !in l
    ensures DOT !in EscapeLabel(l) && LowerText(EscapeLabel(l)) == EscapeLabel(l)
    ensures l != [] ==> EscapeLabel(l) != []
  {
    if l != [] {
      EscapedLabel(l[1..]);
      EscapedByte(Lower(l[0]));
      LowerTextConcat(Escape(Lower(l[0])), EscapeLabel(l[1..]));
    }
  }

  lemma EscapedByte(c: byte)
    requires c != DOT && Lower(c) == c
    ensures DOT !in Escape(c) && LowerText(Escape(c)) == Escape(c)
  {
  }

  /** The pieces of the text of a name without inner dots are its labels, each escaped. */
  lemma {:induction false} EscapedPieces(ls: seq<Label>)
    requires ValidLabels(ls) && NoDots(ls)
    ensures Labels(TextOf(ls)) == EscapeAll(ls)
  {
    hide Labels, EscapeLabel, TextOf, EscapeAll;
    NoPieces();
    if ls != [] {
      TextParts(ls);
      EscapedLabel(ls[0]);
      EscapeCons(ls);
      if |ls| == 1 {
        OnePiece(EscapeLabel(ls[0]), []);
      } else {
        EscapedPieces(ls[1..]);
        OnePiece(EscapeLabel(ls[0]), [DOT] + TextOf(ls[1..]));
        DotThen(TextOf(ls[1..]));
      }
    }
  }

  lemma EscapeCons(ls: seq<Label>)
    requires ls != []
    ensures EscapeAll(ls) == [EscapeLabel(ls[0])] + EscapeAll(ls[1..])
  {
    hide EscapeLabel;
  }

  lemma NoPieces()
    ensures Labels([]) == [] && TextOf([]) == [] && EscapeAll([]) == []
  {
  }

  /** So the key the code compares by is the RFC's key, every label escaped. */
  lemma KeyOfText(ls: seq<Label>)
    requires ValidLabels(ls) && NoDots(ls)
    ensures KeyOf(TextOf(ls)) == EscapeAll(RfcKey(ls))
  {
    hide Labels, TextOf, EscapeLabel;
    EscapedPieces(ls);
    var k, r := KeyOf(TextOf(ls)), RfcKey(ls);
    forall i | 0 <= i < |ls| ensures k[i] == EscapeLabel(r[i]) {
      EscapedLabel(ls[|ls| - 1 - i]);
      EscapeLabelLower(ls[|ls| - 1 - i]);
    }
  }

  // ---- One byte ----

  /** Of two bytes `p < q`, the pairs whose escapes sort the other way. */
  predicate Swapped(p: byte, q: byte) {
    (p < 0x21 && 0x21 <= q < BACKSLASH) || (BACKSLASH <= p <= 0x7E && q > 0x7E)
  }

  predicate ByteFaithful(p: byte, q: byte) { if p < q then !Swapped(p, q) else !Swapped(q, p) }

  predicate Decimal(c: byte) { c < 0x21 || c > 0x7E }

  lemma EscapeShape(c: byte, s: Text)
    requires c != DOT
    ensures var x := Escape(c) + s;
            if Decimal(c) then |x| >= 4 && x[0] == BACKSLASH && x[1] == DIGIT_ZERO + c / 100
                                && x[2] == DIGIT_ZERO + c / 10 % 10 && x[3] == DIGIT_ZERO + c % 10
            else |x| >= 1 && x[0] == c && (c == BACKSLASH ==> |x| >= 2 && x[1] == BACKSLASH)
  {
  }

  lemma Digits(p: byte, q: byte)
    requires p < q
    ensures p / 100 <= q / 100 && (p / 100 == q / 100 ==> p / 10 % 10 <= q / 10 % 10)
    ensures p / 100 == q / 100 && p / 10 % 10 == q / 10 % 10 ==> p % 10 < q % 10
    ensures p / 100 <= 2
  {
  }

  /** Escapes are a prefix code: two different ones are told apart before either ends. */
  lemma EscapeOrder(p: byte, q: byte, s: Text, t: Text)
    requires p != q && p != DOT && q != DOT
    ensures LexLess(ByteLess(), Escape(p) + s, Escape(q) + t) <==> (p < q <==> ByteFaithful(p, q))
  {
    var x, y := Escape(p) + s, Escape(q) + t;
    EscapeShape(p, s);
    EscapeShape(q, t);
    hide LexLess, ByteLess, Escape;
    if x[0] != y[0] {
      FirstDiffers(x, y);
    } else {
      SecondByte(x, y);
      if Decimal(p) && Decimal(q) {
        if p < q { Digits(p, q); } else { Digits(q, p); }
        if x[1] == y[1] { ThirdByte(x, y); }
      }
    }
  }

  lemma FirstDiffers(x: Text, y: Text)
    requires x != [] && y != [] && x[0] != y[0]
    ensures LexLess(ByteLess(), x, y) <==> x[0] < y[0]
  {
  }

  lemma SecondByte(x: Text, y: Text)
    requires |x| >= 2 && |y| >= 2 && x[0] == y[0]
    ensures LexLess(ByteLess(), x, y) <==> LexLess(ByteLess(), x[1..], y[1..])
    ensures x[1] != y[1] ==> (LexLess(ByteLess(), x, y) <==> x[1] < y[1])
  {
    assert x[1..][0] == x[1] && y[1..][0] == y[1];
  }

  lemma ThirdByte(x: Text, y: Text)
    requires |x| >= 4 && |y| >= 4 && x[0] == y[0] && x[1] == y[1]
    ensures x[2] != y[2] ==> (LexLess(ByteLess(), x, y) <==> x[2] < y[2])
    ensures x[2] == y[2] && x[3] != y[3] ==> (LexLess(ByteLess(), x, y) <==> x[3] < y[3])
  {
    SecondByte(x, y);
    assert x[1..][1..] == x[2..] && y[1..][1..] == y[2..];
    SecondByte(x[1..], y[1..]);
    if x[2] == y[2] { SecondByte(x[2..], y[2..]); }
  }

  // ---- One label, and whole keys ----

  /** The first bytes in which two labels differ, if they both have one there, are not swapped by escaping. */
  ghost predicate LabelFaithful(l: Label, m: Label) {
    if l == [] || m == [] then true
    else if l[0] == m[0] then LabelFaithful(l[1..], m[1..])
    else ByteFaithful(l[0], m[0])
  }

  /** The same of the first labels, from the root down, in which two names differ. */
  ghost predicate Faithful(x: Key, y: Key) {
    if x == [] || y == [] then true
    else if x[0] == y[0] then Faithful(x[1..], y[1..])
    else LabelFaithful(x[0], y[0])
  }

  ghost predicate Folded(l: Label) { DOT !in l && LowerText(l) == l }

  lemma FoldedTail(l: Label)
    requires Folded(l) && l != []
    ensures Folded(l[1..]) && l[0] != DOT && Lower(l[0]) == l[0]
    ensures EscapeLabel(l) == Escape(l[0]) + EscapeLabel(l[1..])
  {
    LowerTextCons(l);
  }

  lemma {:induction false} LabelOrder(l: Label, m: Label)
    requires l != m && Folded(l) && Folded(m)
    ensures LexLess(ByteLess(), EscapeLabel(l), EscapeLabel(m)) <==> (LexLess(ByteLess(), l, m) <==> LabelFaithful(l, m))
    decreases |l|
  {
    if l == [] || m == [] {
      EscapedLabel(l);
      EscapedLabel(m);
    } else {
      FoldedTail(l);
      FoldedTail(m);
      hide EscapeLabel, Escape, Folded, ByteFaithful;
      if l[0] == m[0] {
        assert l == [l[0]] + l[1..] && m == [m[0]] + m[1..];
        LexCommon(ByteLess(), Escape(l[0]), EscapeLabel(l[1..]), EscapeLabel(m[1..]));
        LabelOrder(l[1..], m[1..]);
      } else {
        EscapeOrder(l[0], m[0], EscapeLabel(l[1..]), EscapeLabel(m[1..]));
      }
    }
  }

  lemma {:induction false} LabelFaithfulSymmetric(l: Label, m: Label)
    ensures LabelFaithful(l, m) == LabelFaithful(m, l)
    decreases |l|
  {
    if l != [] && m != [] && l[0] == m[0] { LabelFaithfulSymmetric(l[1..], m[1..]); }
  }

  /** Escaping tells labels apart. */
  lemma EscapeInjective(l: Label, m: Label)
    requires l != m && Folded(l) && Folded(m)
    ensures EscapeLabel(l) != EscapeLabel(m)
  {
    hide EscapeLabel, Folded, LabelFaithful;
    LabelOrder(l, m);
    LabelOrder(m, l);
    LabelFaithfulSymmetric(l, m);
    LexConnected(ByteLess(), l, m);
    LexIrreflexive(ByteLess(), EscapeLabel(l));
    if LexLess(ByteLess(), l, m) && LexLess(ByteLess(), m, l) {
      LexTransitive(ByteLess(), l, m, l);
      LexIrreflexive(ByteLess(), l);
    }
  }

  lemma {:induction false} KeyOrder(x: Key, y: Key)
    requires x != y && (forall l <- x :: Folded(l)) && (forall l <- y :: Folded(l))
    ensures LexLess(LabelLess(), EscapeAll(x), EscapeAll(y)) <==> (LexLess(LabelLess(), x, y) <==> Faithful(x, y))
    decreases |x|
  {
    hide EscapeLabel, Folded, LabelFaithful;
    assert forall u, v :: LabelLess()(u, v) == LexLess(ByteLess(), u, v);
    hide LabelLess;
    if x != [] && y != [] {
      var ex, ey := EscapeAll(x), EscapeAll(y);
      assert ex[1..] == EscapeAll(x[1..]) && ey[1..] == EscapeAll(y[1..]);
      if x[0] == y[0] {
        assert x == [x[0]] + x[1..] && y == [y[0]] + y[1..];
        KeyOrder(x[1..], y[1..]);
      } else {
        LabelOrder(x[0], y[0]);
        EscapeInjective(x[0], y[0]);
      }
    }
  }

  lemma {:induction false} FaithfulSame(x: Key)
    ensures Faithful(x, x)
  {
    if x != [] { FaithfulSame(x[1..]); }
  }

  lemma FoldedKey(ls: seq<Label>)
    requires NoDots(ls)
    ensures forall l <- RfcKey(ls) :: Folded(l)
  {
    forall l | l in RfcKey(ls) ensures Folded(l) {
      var i :| 0 <= i < |ls| && l == RfcKey(ls)[i];
      var m := ls[|ls| - 1 - i];
      LowerTextIdempotent(m);
      assert m in ls;
      forall j | 0 <= j < |l| ensures l[j] != DOT { assert m[j] in m; }
    }
  }

  /**
   * On names without dots in their labels the code's comparison is that of section 6.1 of RFC 4034 exactly when, at the first
   * difference, escaping does not swap the two bytes; otherwise it is the reverse.
   */
  lemma OrderIsRfcIff(ls: seq<Label>, ms: seq<Label>)
    requires ValidLabels(ls) && ValidLabels(ms) && NoDots(ls) && NoDots(ms)
    ensures Reflects(CanonicalOrder(TextOf(ls), TextOf(ms)), KeyLess(), RfcKey(ls), RfcKey(ms))
       <==> Faithful(RfcKey(ls), RfcKey(ms))
    ensures !Faithful(RfcKey(ls), RfcKey(ms)) ==>
              Reflects(CanonicalOrder(TextOf(ls), TextOf(ms)), KeyLess(), RfcKey(ms), RfcKey(ls))
  {
    hide CanonicalOrder, KeyLess, LabelLess, TextOf, RfcKey, KeyOf, Folded, EscapeLabel, EscapeAll, Faithful;
    OrderIff(TextOf(ls), TextOf(ms));
    KeyOfText(ls);
    KeyOfText(ms);
    FoldedKey(ls);
    FoldedKey(ms);
    EscapedKeys(RfcKey(ls), RfcKey(ms));
  }

  lemma EscapedKeys(x: Key, y: Key)
    requires (forall l <- x :: Folded(l)) && (forall l <- y :: Folded(l))
    ensures Faithful(x, x)
    ensures x != y ==> (KeyLess()(EscapeAll(x), EscapeAll(y)) <==> (KeyLess()(x, y) <==> Faithful(x, y)))
    ensures x != y ==> (KeyLess()(EscapeAll(y), EscapeAll(x)) <==> (KeyLess()(y, x) <==> Faithful(x, y)))
    ensures x != y ==> (KeyLess()(x, y) <==> !KeyLess()(y, x))
  {
    assert forall u, v :: KeyLess()(u, v) == LexLess(LabelLess(), u, v);
    hide KeyLess, LabelLess, Folded, EscapeAll, Faithful, LexLess;
    FaithfulSame(x);
    if x != y {
      KeyOrder(x, y);
      KeyOrder(y, x);
      FaithfulSymmetric(x, y);
      LexConnected(LabelLess(), x, y);
      assert KeyLess()(x, y) && KeyLess()(y, x) ==> KeyLess()(x, x);
    }
  }

  lemma {:induction false} FaithfulSymmetric(x: Key, y: Key)
    ensures Faithful(x, y) == Faithful(y, x)
    decreases |x|
  {
    hide LabelFaithful;
    if x != [] && y != [] {
      if x[0] == y[0] { FaithfulSymmetric(x[1..], y[1..]); } else { LabelFaithfulSymmetric(x[0], y[0]); }
    }
  }

  /** Section 6.1 of RFC 4034 compares label bytes; the code compares their escaped text. */
  lemma EscapesChangeTheOrder()
    ensures var ls: seq<Label>, ms: seq<Label> := [[0]], [[33]];
            CanonicalOrder(TextOf(ls), TextOf(ms)) == Greater && KeyLess()(RfcKey(ls), RfcKey(ms))
  {
    var ls: seq<Label>, ms: seq<Label> := [[0]], [[33]];
    var x: Label, y: Label := [0], [33];
    OrderIsRfcIff(ls, ms);
    assert LowerText(x) == x && LowerText(y) == y;
    assert RfcKey(ls) == ls && RfcKey(ms) == ms;
    assert !LabelFaithful(x, y);
    assert LexLess(ByteLess(), x, y) && LexLess(LabelLess(), ls, ms);
  }

  /** A lone backslash, its dots, and whatever follows: one piece. */
  lemma BackslashPiece(rest: Text)
    ensures Labels([BACKSLASH, DOT] + rest) == [[BACKSLASH]] + Labels(rest)
  {
    var bs: Text := [BACKSLASH];
    Assoc(bs, [DOT], rest);
    assert bs + [DOT] == [BACKSLASH, DOT];
    hide Labels;
    OnePiece(bs, [DOT] + rest);
    DotThen(rest);
  }

  /** With dots inside labels even different names compare as equal: two labels of one dot, and one label of two. */
  lemma DotsMakeNamesEqual()
    ensures var ls: seq<Label>, ms: seq<Label> := [[DOT], [DOT]], [[DOT, DOT]];
            ValidLabels(ls) && ValidLabels(ms) && CanonicalOrder(TextOf(ls), TextOf(ms)) == Equal && RfcKey(ls) != RfcKey(ms)
  {
    var ls: seq<Label>, ms: seq<Label>, d: Label, none: Text := [[DOT], [DOT]], [[DOT, DOT]], [DOT], [];
    var e: Text := [BACKSLASH, DOT];
    assert d[1..] == [] && [DOT, DOT][1..] == d && ls[1..] == [d];
    assert EscapeLabel(d) == e + none == e && EscapeLabel([DOT, DOT]) == e + e;
    TextParts(ls);
    TextParts(ls[1..]);
    TextParts(ms);
    assert TextOf(ls) == e + ([DOT] + e) && TextOf(ms) == e + e;
    hide TextOf, EscapeLabel, Labels, CanonicalOrder;
    BackslashPiece([DOT] + e);
    DotThen(e);
    BackslashPiece(e);
    OrderIff(TextOf(ls), TextOf(ms));
    assert |RfcKey(ls)| == 2 && |RfcKey(ms)| == 1;
  }
}
