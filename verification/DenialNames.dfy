/** Which names the NSEC3 denial path can hash without a panic. */
module DenialNames {
  import opened Bytes
  import opened Names
  import opened PacketBuffer
  import LongNames
  import opened Canonical
  import opened NameOrder
  import opened Pieces
  import opened Denial

  function WireSize(t: Text): nat
    requires ParseName(t).Some?
  {
    |LabelsWire(ParseName(t).value)|
  }

  /** A label read on with less before it is shorter and ends in the same place. */
  lemma {:induction false} ShorterLabel(t: Text, body: Label, less: Label)
    requires ParseLabel(t, body).Some? && |less| <= |body|
    ensures ParseLabel(t, less).Some? && ParseLabel(t, less).value.1 == ParseLabel(t, body).value.1
    ensures |ParseLabel(t, less).value.0| + |body| == |ParseLabel(t, body).value.0| + |less|
    decreases |t|
  {
    if t != [] && t[0] != DOT {
      var (b, n) := Unescape(t).value;
      ShorterLabel(t[n..], body + [b], less + [b]);
    }
  }

  /** One unfolding of the name parser. */
  lemma NameSplits(t: Text)
    requires t != []
    ensures ParseName(t).Some? <==> ParseLabel(t, []).Some? && ParseName(ParseLabel(t, []).value.1).Some?
    ensures ParseName(t).Some? ==>
              var (l, rest) := ParseLabel(t, []).value;
              WireSize(t) == WireSize(rest) + if l == [] then 0 else |l| + 1
  {
    if ParseName(t).Some? {
      var (l, rest) := ParseLabel(t, []).value;
      assert ([l] + ParseName(rest).value)[1..] == ParseName(rest).value;
    }
  }

  /** What follows a dot inside or after a label is still a name, and no longer on the wire. */
  lemma {:induction false} CutAtDot(p: Text, rest: Text, body: Label)
    requires DOT !in p && ParseLabel(p + [DOT] + rest, body).Some?
    requires ParseName(ParseLabel(p + [DOT] + rest, body).value.1).Some?
    ensures ParseName(rest).Some?
    ensures var (l, after) := ParseLabel(p + [DOT] + rest, body).value;
            WireSize(rest) + |body| <= WireSize(after) + |l|
    ensures rest != [] && rest[0] != DOT ==>
              var (l, after) := ParseLabel(p + [DOT] + rest, body).value;
              p == [BACKSLASH] ==> WireSize(rest) + |body| == WireSize(after) + |l|
    decreases |p|
  {
    var t := p + [DOT] + rest;
    hide ParseName, ParseLabel, Unescape;
    LabelStep(t, body);
    if p == [] {
      assert t[1..] == rest;
    } else {
      var (b, n) := Unescape(t).value;
      assert t[0] == p[0] && p[0] in p;
      EscapedDot(p, rest);
      if n <= |p| {
        assert t[n..] == p[n..] + [DOT] + rest;
        CutAtDot(p[n..], rest, body + [b]);
      } else {
        assert t[n..] == rest;
        RestIsName(rest, body + [b]);
      }
    }
  }

  /** One unfolding of the label parser. */
  lemma LabelStep(t: Text, body: Label)
    requires t != [] && ParseLabel(t, body).Some?
    ensures t[0] == DOT ==> ParseLabel(t, body) == Some((body, t[1..]))
    ensures t[0] != DOT ==> Unescape(t).Some?
                            && var (b, n) := Unescape(t).value; ParseLabel(t, body) == ParseLabel(t[n..], body + [b])
  {
    hide Unescape;
  }

  /** An escape that reaches past the piece is a backslash at its end. */
  lemma EscapedDot(p: Text, rest: Text)
    requires p != [] && DOT !in p && Unescape(p + [DOT] + rest).Some?
    ensures Unescape(p + [DOT] + rest).value.1 <= |p| + 1
    ensures p == [BACKSLASH] ==> Unescape(p + [DOT] + rest).value.1 == 2
  {
    var t := p + [DOT] + rest;
    assert t[|p|] == DOT && forall i :: 0 <= i < |p| ==> t[i] == p[i];
  }

  lemma RestIsName(rest: Text, body: Label)
    requires ParseLabel(rest, body).Some? && ParseName(ParseLabel(rest, body).value.1).Some?
    ensures ParseName(rest).Some?
    ensures WireSize(rest) + |body| <= WireSize(ParseLabel(rest, body).value.1) + |ParseLabel(rest, body).value.0| + 1
    ensures rest != [] && rest[0] != DOT ==>
              WireSize(rest) + |body| == WireSize(ParseLabel(rest, body).value.1) + |ParseLabel(rest, body).value.0| + 1
  {
    ShorterLabel(rest, body, []);
    hide ParseLabel, ParseName;
    if rest != [] { NameSplits(rest); } else { EmptyName(); }
  }

  lemma EmptyName()
    ensures ParseName([]) == Some([])
  {
  }

  /**
   * Dropping a piece of a name leaves a shorter name: by one byte if the piece is a lone backslash, which took the dot
   * into its label, and by two at least otherwise.
   */
  lemma CutName(p: Text, rest: Text)
    requires p != [] && DOT !in p && ParseName(p + [DOT] + rest).Some?
    ensures ParseName(rest).Some?
    ensures WireSize(rest) + (if p == [BACKSLASH] then 1 else 2) <= WireSize(p + [DOT] + rest)
    ensures p == [BACKSLASH] && rest != [] && rest[0] != DOT ==> WireSize(rest) + 1 == WireSize(p + [DOT] + rest)
  {
    hide ParseLabel, ParseName, Unescape;
    var t := p + [DOT] + rest;
    NameSplits(t);
    assert t[0] == p[0] && p[0] in p;
    CutAtDot(p, rest, []);
    if p != [BACKSLASH] {
      LabelStep(t, []);
      var (b, n) := Unescape(t).value;
      FirstByteInside(p, rest);
      assert t[n..] == p[n..] + [DOT] + rest;
      assert [] + [b] == [b];
      CutAtDot(p[n..], rest, [b]);
    }
  }

  /** Only a lone backslash reaches over the dot after its piece. */
  lemma FirstByteInside(p: Text, rest: Text)
    requires p != [] && p != [BACKSLASH] && DOT !in p && Unescape(p + [DOT] + rest).Some?
    ensures Unescape(p + [DOT] + rest).value.1 <= |p|
  {
    var t := p + [DOT] + rest;
    assert t[|p|] == DOT && forall i :: 0 <= i < |p| ==> t[i] == p[i];
  }

  lemma {:induction false} SuffixIsName(labels: seq<Text>, i: nat)
    requires ArePieces(labels) && i < |labels| && ParseName(Join(labels)).Some?
    ensures ParseName(Join(labels[i..])).Some? && WireSize(Join(labels[i..])) <= WireSize(Join(labels))
    decreases |labels|
  {
    hide ParseName, Join, WireSize;
    if i == 0 {
      assert labels[0..] == labels;
    } else {
      JoinParts(labels);
      assert labels[0] in labels && forall l <- labels[1..] :: l in labels;
      Assoc(labels[0], [DOT], Join(labels[1..]));
      assert labels[0] != [];
      CutName(labels[0], Join(labels[1..]));
      SuffixIsName(labels[1..], i - 1);
      assert labels[1..][i - 1..] == labels[i..];
    }
  }

  /** A name under a label of one byte, such as the wildcard. */
  lemma PrefixedName(c: byte, t: Text)
    requires c != DOT && c != BACKSLASH && ParseName(t).Some?
    ensures var w := [c, DOT] + t;
            ParseName(w).Some? && WireSize(w) == WireSize(t) + 2
  {
    var w := [c, DOT] + t;
    assert w[1..] == [DOT] + t && w[1..][1..] == t && [] + [c] == [c];
    assert ParseLabel([DOT] + t, [c]) == Some(([c], t));
    assert ParseLabel(w, []) == Some(([c], t));
    hide ParseLabel;
    NameSplits(w);
  }

  lemma OneByteName(c: byte)
    requires c != DOT && c != BACKSLASH
    ensures ParseName([c]).Some? && WireSize([c]) == 2
  {
    assert [c][1..] == [] && [] + [c] == [c];
    assert ParseLabel([], [c]) == Some(([c], []));
    assert ParseLabel([c], []) == Some(([c], []));
    hide ParseLabel;
    NameSplits([c]);
    EmptyName();
  }

  lemma CanonicalIff(t: Text)
    ensures CanonicalName(t).Some? <==> ParseName(t).Some? && WireSize(t) + 1 <= BUF_SIZE
  {
    hide ParseName, LabelsWire;
  }

  /** All names hashed for an NXDOMAIN proof can be put in wire form: the ancestors, and their wildcards. */
  ghost predicate HashesAll(labels: seq<Text>) {
    && (forall i :: 0 <= i < |labels| ==> CanonicalName(Join(labels[i..])).Some?)
    && (forall i :: 1 <= i < |labels| ==> CanonicalName(Wildcard(Join(labels[i..]))).Some?)
  }

  /** The two longest of them decide: the name itself, and the wildcard below its first ancestor. */
  lemma NeverPanicsIff(labels: seq<Text>)
    requires ArePieces(labels) && labels != []
    ensures HashesAll(labels)
       <==> CanonicalName(Join(labels)).Some? && (|labels| > 1 ==> CanonicalName(Wildcard(Join(labels[1..]))).Some?)
  {
    hide ParseName, Join, WireSize, CanonicalName;
    assert labels[0..] == labels;
    CanonicalIff(Join(labels));
    if CanonicalName(Join(labels)).Some? && (|labels| > 1 ==> CanonicalName(Wildcard(Join(labels[1..]))).Some?) {
      forall i | 1 <= i < |labels|
        ensures CanonicalName(Join(labels[i..])).Some? && CanonicalName(Wildcard(Join(labels[i..]))).Some?
      {
        AncestorHashes(labels, i);
      }
    }
  }

  lemma AncestorHashes(labels: seq<Text>, i: nat)
    requires ArePieces(labels) && 1 <= i < |labels| && ParseName(Join(labels)).Some?
    requires CanonicalName(Wildcard(Join(labels[1..]))).Some?
    ensures CanonicalName(Join(labels[i..])).Some? && CanonicalName(Wildcard(Join(labels[i..]))).Some?
  {
    hide ParseName, Join, WireSize, CanonicalName;
    SuffixIsName(labels, 1);
    assert forall l <- labels[1..] :: l in labels;
    SuffixIsName(labels[1..], i - 1);
    assert labels[1..][i - 1..] == labels[i..];
    PrefixedName(STAR, Join(labels[1..]));
    PrefixedName(STAR, Join(labels[i..]));
    CanonicalIff(Wildcard(Join(labels[1..])));
    CanonicalIff(Wildcard(Join(labels[i..])));
    CanonicalIff(Join(labels[i..]));
  }

  // ---- In terms of the name's labels ----

  function Last(ls: seq<Label>): Label
    requires ls != []
  {
    ls[|ls| - 1]
  }

  /** What the pieces joined again spell: a label that ends in a dot takes the next one in. */
  function Merged(ls: seq<Label>): (ms: seq<Label>)
    ensures ls != [] ==> ms != []
  {
    if |ls| <= 1 then ls
    else
      var ms := Merged(ls[1..]);
      if EndsInDot(ls[0]) then [ls[0] + ms[0]] + ms[1..] else [ls[0]] + ms
  }

  function Trimmed(t: Text, cut: bool): Text {
    if cut && t != [] then t[..|t| - 1] else t
  }

  lemma TrimmedConcat(x: Text, y: Text, cut: bool)
    requires y != []
    ensures Trimmed(x + y, cut) == x + Trimmed(y, cut)
  {
  }

  lemma EscapeCons(c: byte, rest: Label)
    ensures EscapeLabel([c] + rest) == Escape(Lower(c)) + EscapeLabel(rest)
  {
    hide Escape;
    assert ([c] + rest)[1..] == rest;
  }

  lemma {:induction false} EscapeConcat(a: Label, b: Label)
    ensures EscapeLabel(a + b) == EscapeLabel(a) + EscapeLabel(b)
  {
    if a == [] {
      assert a + b == b && EscapeLabel(a) + EscapeLabel(b) == EscapeLabel(b);
    } else {
      hide Escape, EscapeLabel;
      var c, rest := a[0], a[1..];
      assert a == [c] + rest;
      Assoc([c], rest, b);
      EscapeCons(c, rest + b);
      EscapeCons(c, rest);
      EscapeConcat(rest, b);
      Assoc(Escape(Lower(c)), EscapeLabel(rest), EscapeLabel(b));
    }
  }

  lemma {:induction false} LabelsConcat(a: Text, b: Text)
    ensures Labels(a + ([DOT] + b)) == Labels(a) + Labels(b)
    decreases |a|
  {
    var t := a + ([DOT] + b);
    if a == [] {
      assert t == [DOT] + b && Labels(a) + Labels(b) == Labels(b);
      DotThen(b);
    } else if a[0] == DOT {
      assert t[1..] == a[1..] + ([DOT] + b);
      LabelsConcat(a[1..], b);
    } else {
      var l := UpToDot(a);
      var rest := a[|l|..];
      hide UpToDot;
      LabelsConcat(rest, b);
      assert Labels(a) == [l] + Labels(rest);
      hide Labels;
      assert a == l + rest;
      Assoc(l, rest, [DOT] + b);
      OnePiece(l, rest + ([DOT] + b));
      Assoc([l], Labels(rest), Labels(b));
    }
  }

  lemma {:induction false} JoinConcat(xs: seq<Text>, ys: seq<Text>)
    requires xs != [] && ys != []
    ensures Join(xs + ys) == Join(xs) + ([DOT] + Join(ys))
  {
    hide Join;
    JoinParts(xs);
    JoinParts(xs + ys);
    if |xs| == 1 {
      assert (xs + ys)[1..] == ys && xs[0] + [] == xs[0];
    } else {
      assert (xs + ys)[1..] == xs[1..] + ys;
      JoinConcat(xs[1..], ys);
      Assoc([DOT], Join(xs[1..]), [DOT] + Join(ys));
      Assoc(xs[0], [DOT] + Join(xs[1..]), [DOT] + Join(ys));
    }
  }

  /** A label loses its final dot, and leaves the backslash that escaped it. */
  lemma RejoinedLabel(l: Label)
    requires l != []
    ensures var e := EscapeLabel(l);
            Labels(e) != [] && Join(Labels(e)) == Trimmed(e, EndsInDot(l))
  {
    hide Labels, Join, EscapeLabel, EndsInDot, Clean, NoTouch;
    var e := EscapeLabel(l);
    DotsOfLabel(l);
    if EndsInDot(l) {
      var cut := e[..|e| - 1];
      CutIsClean(e);
      assert cut + ([DOT] + []) == e;
      LabelsConcat(cut, []);
      NoPiece();
      assert Labels(cut) + [] == Labels(cut);
      CleanIsTidy(cut);
      SomePiece(cut);
    } else {
      LastOfLabel(e, l);
      CleanIsTidy(e);
      SomePiece(e);
    }
  }

  lemma CutIsClean(e: Text)
    requires e != [] && e[0] != DOT && e[|e| - 1] == DOT && NoTouch(e)
    ensures var cut := e[..|e| - 1];
            cut != [] && cut[0] != DOT && Clean(cut)
  {
  }

  lemma {:induction false} Rejoined(ls: seq<Label>)
    requires ValidLabels(ls) && ls != []
    ensures Labels(TextOf(ls)) != [] && TextOf(Merged(ls)) != []
    ensures Join(Labels(TextOf(ls))) == Trimmed(TextOf(Merged(ls)), EndsInDot(Last(ls)))
  {
    hide Labels, Join, TextOf, EscapeLabel, EndsInDot, Trimmed;
    assert ls[0] in ls;
    TextParts(ls);
    RejoinedLabel(ls[0]);
    EscapeLabelNonEmpty(ls[0]);
    if |ls| == 1 {
      assert EscapeLabel(ls[0]) + [] == EscapeLabel(ls[0]);
    } else {
      assert forall l <- ls[1..] :: l in ls;
      Rejoined(ls[1..]);
      LabelsConcat(EscapeLabel(ls[0]), TextOf(ls[1..]));
      JoinConcat(Labels(EscapeLabel(ls[0])), Labels(TextOf(ls[1..])));
      MergedText(ls);
      TrimmedConcat(Trimmed(EscapeLabel(ls[0]), EndsInDot(ls[0])) + [DOT], TextOf(Merged(ls[1..])), EndsInDot(Last(ls)));
      Assoc(Trimmed(EscapeLabel(ls[0]), EndsInDot(ls[0])), [DOT], Join(Labels(TextOf(ls[1..]))));
    }
  }

  lemma MergedText(ls: seq<Label>)
    requires |ls| > 1 && ls[0] != []
    ensures TextOf(Merged(ls)) == Trimmed(EscapeLabel(ls[0]), EndsInDot(ls[0])) + [DOT] + TextOf(Merged(ls[1..]))
  {
    hide TextOf, EscapeLabel, NoTouch, EndsInDot, Trimmed, Merged;
    var ms, e := Merged(ls[1..]), EscapeLabel(ls[0]);
    DotsOfLabel(ls[0]);
    MergedParts(ls);
    if EndsInDot(ls[0]) {
      MergedHead(ls[0], ms);
      CutLast(e);
    } else {
      TextParts([ls[0]] + ms);
      Assoc(e, [DOT], TextOf(ms));
      assert Trimmed(e, false) == e by { Uncut(e); }
    }
  }

  lemma CutLast(e: Text)
    requires e != [] && e[|e| - 1] == DOT
    ensures Trimmed(e, true) + [DOT] == e
  {
  }

  lemma Uncut(e: Text)
    ensures Trimmed(e, false) == e
  {
  }

  lemma MergedParts(ls: seq<Label>)
    requires |ls| > 1
    ensures var ms := Merged(ls[1..]);
            Merged(ls) == if EndsInDot(ls[0]) then [ls[0] + ms[0]] + ms[1..] else [ls[0]] + ms
    ensures ([ls[0]] + Merged(ls[1..]))[1..] == Merged(ls[1..])
  {
  }

  lemma MergedHead(l: Label, ms: seq<Label>)
    requires ms != []
    ensures TextOf([l + ms[0]] + ms[1..]) == EscapeLabel(l) + TextOf(ms)
  {
    var joined := [l + ms[0]] + ms[1..];
    hide TextOf, EscapeLabel;
    TextParts(ms);
    TextParts(joined);
    EscapeConcat(l, ms[0]);
    assert joined[1..] == ms[1..];
    Assoc(EscapeLabel(l), EscapeLabel(ms[0]), if |ms| == 1 then [] else [DOT] + TextOf(ms[1..]));
  }

  lemma EndsAlike(l: Label, ms: seq<Label>)
    requires ms != [] && forall m <- ms :: m != []
    ensures var joined := [l + ms[0]] + ms[1..];
            EndsInDot(Last(joined)) == EndsInDot(Last(ms)) && forall m <- joined :: m != []
  {
    assert ms[0] in ms && forall m <- ms[1..] :: m in ms;
    if |ms| == 1 {
      assert (l + ms[0])[|l + ms[0]| - 1] == ms[0][|ms[0]| - 1];
    } else {
      hide EndsInDot;
    }
  }

  lemma NothingToMerge(ls: seq<Label>)
    requires |ls| <= 1
    ensures Merged(ls) == ls
  {
  }

  lemma {:induction false} MergedEnds(ls: seq<Label>)
    requires ValidLabels(ls) && ls != []
    ensures forall m <- Merged(ls) :: m != []
    ensures EndsInDot(Last(Merged(ls))) == EndsInDot(Last(ls))
  {
    hide Merged, EndsInDot;
    if |ls| > 1 {
      assert ls[0] in ls && forall l <- ls[1..] :: l in ls;
      MergedEnds(ls[1..]);
      MergedParts(ls);
      if EndsInDot(ls[0]) { EndsAlike(ls[0], Merged(ls[1..])); }
    } else {
      assert Merged(ls) == ls by { NothingToMerge(ls); }
    }
  }

  lemma {:induction false} MergedIsShorter(ls: seq<Label>)
    requires ValidLabels(ls) && ValidLabels(Merged(ls))
    ensures |LabelsWire(Merged(ls))| <= |LabelsWire(ls)|
  {
    if |ls| > 1 {
      var ms := Merged(ls[1..]);
      assert forall l <- ls[1..] :: l in ls;
      MergedEnds(ls[1..]);
      if EndsInDot(ls[0]) {
        assert Merged(ls)[0] in Merged(ls) && ms == [ms[0]] + ms[1..];
        assert forall m <- ms[1..] :: m in Merged(ls);
        assert ValidLabels(ms);
        MergedIsShorter(ls[1..]);
        assert Merged(ls)[1..] == ms[1..];
      } else {
        assert forall m <- ms :: m in Merged(ls);
        MergedIsShorter(ls[1..]);
        assert Merged(ls)[1..] == ms;
      }
    }
  }

  lemma LongByte(c: byte, rest: Text, body: Label)
    requires |body| >= MAX_LABEL
    ensures ParseLabel(Escape(c) + rest, body) == None
  {
    UnescapeEscape(c, rest);
    hide Escape, Unescape;
  }

  lemma {:induction false} LongLabel(l: Label, body: Label, tail: Text)
    requires |body| <= MAX_LABEL < |body| + |l|
    ensures ParseLabel(EscapeLabel(l) + tail, body) == None
    decreases |l|
  {
    hide ParseLabel, Escape;
    var c, rest := Lower(l[0]), EscapeLabel(l[1..]) + tail;
    Assoc(Escape(c), EscapeLabel(l[1..]), tail);
    if |body| == MAX_LABEL {
      LongByte(c, rest, body);
    } else {
      ParseLabelCons(c, rest, body);
      LongLabel(l[1..], body + [c], tail);
    }
  }

  /** The escape of a final dot without the dot is no escape. */
  lemma {:induction false} LoneBackslash(l: Label, body: Label)
    requires EndsInDot(l) && |body| <= MAX_LABEL
    ensures ParseLabel(Trimmed(EscapeLabel(l), true), body) == None
    decreases |l|
  {
    var c := Lower(l[0]);
    if |l| == 1 {
      assert EscapeLabel(l) == [BACKSLASH, DOT] + [] == [BACKSLASH, DOT];
      assert Trimmed(EscapeLabel(l), true) == [BACKSLASH];
    } else {
      EscapeLabelNonEmpty(l[1..]);
      TrimmedConcat(Escape(c), EscapeLabel(l[1..]), true);
      hide ParseLabel, Escape, EscapeLabel, Trimmed;
      var rest := Trimmed(EscapeLabel(l[1..]), true);
      if |body| == MAX_LABEL {
        LongByte(c, rest, body);
      } else {
        ParseLabelCons(c, rest, body);
        LoneBackslash(l[1..], body + [c]);
      }
    }
  }

  lemma {:induction false} Unparsable(ms: seq<Label>)
    requires ms != [] && (forall m <- ms :: m != []) && (EndsInDot(Last(ms)) || !ValidLabels(ms))
    ensures ParseName(Trimmed(TextOf(ms), EndsInDot(Last(ms)))) == None
    decreases |ms|
  {
    hide ParseName, ParseLabel, TextOf, EscapeLabel, EndsInDot, Trimmed;
    var l, cut := ms[0], EndsInDot(Last(ms));
    assert l in ms && ms == [l] + ms[1..];
    TextParts(ms);
    EscapeLabelNonEmpty(l);
    if |ms| == 1 {
      assert EscapeLabel(l) + [] == EscapeLabel(l);
      LastUnparsable(l);
    } else {
      var u := TextOf(ms[1..]);
      var tail := [DOT] + Trimmed(u, cut);
      assert forall m <- ms[1..] :: m in ms;
      TextParts(ms[1..]);
      assert ms[1] in ms;
      EscapeLabelNonEmpty(ms[1]);
      Assoc(EscapeLabel(l), [DOT], u);
      TrimmedConcat(EscapeLabel(l) + [DOT], u, cut);
      Assoc(EscapeLabel(l), [DOT], Trimmed(u, cut));
      NameSplits(EscapeLabel(l) + tail);
      if |l| > MAX_LABEL {
        LongLabel(l, [], tail);
      } else {
        ParseEscapedLabel(l, [], tail);
        assert tail[1..] == Trimmed(u, cut);
        Unparsable(ms[1..]);
      }
    }
  }

  lemma LastUnparsable(l: Label)
    requires l != [] && (EndsInDot(l) || |l| > MAX_LABEL)
    ensures ParseName(Trimmed(EscapeLabel(l), EndsInDot(l))) == None
  {
    var t := Trimmed(EscapeLabel(l), EndsInDot(l));
    DotsOfLabel(l);
    hide EscapeLabel, ParseLabel;
    if EndsInDot(l) {
      LoneBackslash(l, []);
      NameSplits(t);
    } else {
      LongLabel(l, [], []);
      assert EscapeLabel(l) + [] == t;
      NameSplits(t);
    }
  }

  /** The first piece is a lone backslash exactly if the first label begins with a dot. */
  lemma FirstPiece(ls: seq<Label>)
    requires ValidLabels(ls) && ls != []
    ensures Labels(TextOf(ls)) != [] && (Labels(TextOf(ls))[0] == [BACKSLASH] <==> ls[0][0] == DOT)
    ensures ls[0][0] == DOT ==> |TextOf(ls)| > 1 && TextOf(ls)[1] == DOT
  {
    assert ls[0] in ls;
    var t, c, l := TextOf(ls), Lower(ls[0][0]), ls[0];
    TextParts(ls);
    assert EscapeLabel(l) == Escape(c) + EscapeLabel(l[1..]);
    hide TextOf, EscapeLabel;
    Assoc(Escape(c), EscapeLabel(l[1..]), if |ls| == 1 then [] else [DOT] + TextOf(ls[1..]));
    FirstPieceOf(c, t[|Escape(c)|..], t);
  }

  lemma EscapeHead(c: byte)
    ensures var e := Escape(c);
            && e != [] && e[0] != DOT && (c == DOT ==> e == [BACKSLASH, DOT])
            && (c != DOT && e[0] == BACKSLASH ==> |e| > 1 && e[1] != DOT)
  {
  }

  lemma FirstPieceOf(c: byte, tail: Text, t: Text)
    requires t == Escape(c) + tail
    ensures Labels(t) != [] && (Labels(t)[0] == [BACKSLASH] <==> c == DOT)
    ensures c == DOT ==> |t| > 1 && t[1] == DOT
  {
    hide Escape;
    EscapeHead(c);
    assert t[0] == Escape(c)[0] && (|Escape(c)| > 1 ==> t[1] == Escape(c)[1]);
    if c == DOT {
      hide Labels;
      assert t == [BACKSLASH] + ([DOT] + tail);
      OnePiece([BACKSLASH], [DOT] + tail);
    } else {
      var piece := UpToDot(t);
      assert Labels(t)[0] == piece;
      hide UpToDot, Labels;
      assert t[0] == BACKSLASH ==> t[1] != DOT;
      assert |piece| >= 1 && piece[0] == t[0];
    }
  }

  /** The wildcard under the first ancestor takes at most the room of the name, unless the first piece is a lone backslash. */
  lemma FirstWildcardFits(labels: seq<Text>)
    requires ArePieces(labels) && |labels| > 1 && ParseName(Join(labels)).Some?
    ensures var wire := WireSize(Join(labels)) + (if labels[0] == [BACKSLASH] then 2 else 1);
            wire <= BUF_SIZE ==> CanonicalName(Wildcard(Join(labels[1..]))).Some?
    ensures labels[0] == [BACKSLASH] && CanonicalName(Wildcard(Join(labels[1..]))).Some? ==>
              WireSize(Join(labels)) + 2 <= BUF_SIZE
  {
    hide Join, ParseName, CanonicalName, WireSize;
    JoinParts(labels);
    JoinParts(labels[1..]);
    assert labels[0] in labels && labels[1] in labels && labels[1][0] in labels[1];
    var rest := Join(labels[1..]);
    Assoc(labels[0], [DOT], rest);
    CutName(labels[0], rest);
    PrefixedName(STAR, rest);
    CanonicalIff(Wildcard(rest));
  }

  /**
   * Over all names of the reader's form. The name itself has a wire form exactly if it fits. Hashing its joined pieces
   * and their wildcards panics exactly when the last label ends in a dot, whose backslash is then left over, when a dot
   * at the end of a label makes it grow over 63 bytes by the next, or when the result does not fit; a dot at the
   * beginning needs one byte more for a wildcard. Without dots at the end of a label nothing is merged.
   */
  lemma NeverPanicsOnLabels(ls: seq<Label>)
    requires ValidLabels(ls) && ls != []
    ensures CanonicalName(TextOf(ls)).Some? <==> |WireOf(ls)| <= BUF_SIZE
    ensures HashesAll(Labels(TextOf(ls)))
       <==> !EndsInDot(Last(ls)) && ValidLabels(Merged(ls))
            && |WireOf(Merged(ls))| + (if ls[0][0] == DOT then 1 else 0) <= BUF_SIZE
    ensures (forall l <- ls :: !EndsInDot(l)) ==> Merged(ls) == ls
  {
    hide Labels, Join, TextOf, EndsInDot, ParseName, LabelsWire, HashesAll, CanonicalName, Merged, Wildcard, Trimmed;
    var labels, ms := Labels(TextOf(ls)), Merged(ls);
    NameFits(ls);
    Rejoined(ls);
    MergedEnds(ls);
    NeverPanicsIff(labels);
    CanonicalIff(Join(labels));
    NothingMerged(ls);
    FirstPiece(ls);
    if !EndsInDot(Last(ls)) && ValidLabels(ms) {
      Uncut(TextOf(ms));
      NameFits(ms);
      if |labels| > 1 { FirstWildcardFits(labels); } else { OneDotlessPiece(ls, ms, labels); }
    } else {
      Unparsable(ms);
    }
  }

  lemma NameFits(ls: seq<Label>)
    requires ValidLabels(ls)
    ensures ParseName(TextOf(ls)).Some? && WireSize(TextOf(ls)) + 1 == |WireOf(ls)|
    ensures CanonicalName(TextOf(ls)).Some? <==> |WireOf(ls)| <= BUF_SIZE
  {
    hide ParseName, TextOf, LabelsWire, CanonicalName, LowerLabels;
    ParseTextOf(ls);
    LowerLabelsWire(ls);
    CanonicalIff(TextOf(ls));
  }

  /** The reader returns names that do not fit. */
  lemma LongNamePanics() returns (name: Text)
    ensures |LongNames.Looped()| == BUF_SIZE && ReadName(LongNames.Looped(), 12) == Some((name, 4033))
    ensures CanonicalName(name) == None
  {
    hide ParseName, LabelsWire, ReadName, LongNames.Looped;
    name := LongNames.LoopedName();
    CanonicalIff(name);
  }

  /** A name of one piece does not begin with a dot, which its escape would show. */
  lemma OneDotlessPiece(ls: seq<Label>, ms: seq<Label>, labels: seq<Text>)
    requires ls != [] && ls[0] != [] && ms == Merged(ls) && ms != [] && (forall m <- ms :: m != [])
    requires |labels| == 1 && DOT !in labels[0] && Join(labels) == TextOf(ms)
    ensures ls[0][0] != DOT
  {
    assert ms[0] in ms && ms[0][0] == ls[0][0] by { hide EndsInDot; }
    TextParts(ms);
    assert Join(labels) == labels[0];
    hide TextOf;
    DotShows(ms[0]);
  }

  lemma DotShows(l: Label)
    requires l != []
    ensures l[0] == DOT ==> DOT in EscapeLabel(l)
  {
    assert l[0] == DOT ==> EscapeLabel(l)[1] == DOT;
  }

  lemma {:induction false} NothingMerged(ls: seq<Label>)
    ensures (forall l <- ls :: !EndsInDot(l)) ==> Merged(ls) == ls
  {
    if |ls| > 1 {
      NothingMerged(ls[1..]);
      assert ls[0] in ls && ls == [ls[0]] + ls[1..];
    }
  }
}
