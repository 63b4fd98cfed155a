/** Names taken apart at their dots and put together again, as the denial code does. */
module Pieces {
  import opened Bytes
  import opened Names
  import opened Rings
  import opened NameOrder

  /** `labels[i..].join(".")`. */
  function Join(labels: seq<Text>): Text {
    if labels == [] then []
    else if |labels| == 1 then labels[0]
    else labels[0] + [DOT] + Join(labels[1..])
  }

  predicate ArePieces(ls: seq<Text>) { forall l <- ls :: l != [] && DOT !in l }

  lemma JoinParts(ls: seq<Text>)
    requires ls != []
    ensures Join(ls) == ls[0] + if |ls| == 1 then [] else [DOT] + Join(ls[1..])
  {
    if |ls| == 1 { assert ls[0] + [] == ls[0]; } else { Assoc(ls[0], [DOT], Join(ls[1..])); }
  }

  /** Joined pieces come apart as they were. */
  lemma {:induction false} LabelsOfJoin(ls: seq<Text>)
    requires ArePieces(ls)
    ensures Labels(Join(ls)) == ls
  {
    if ls == [] {
      assert Labels([]) == [];
    } else {
      hide Labels, Join;
      JoinParts(ls);
      assert ls == [ls[0]] + ls[1..] && ls[0] in ls;
      if |ls| == 1 {
        OnePiece(ls[0], []);
        NoPiece();
      } else {
        assert forall m <- ls[1..] :: m in ls;
        LabelsOfJoin(ls[1..]);
        OnePiece(ls[0], [DOT] + Join(ls[1..]));
        DotThen(Join(ls[1..]));
      }
    }
  }

  lemma NoPiece()
    ensures Labels([]) == []
  {
  }

  // ---- Tidy names ----

  /** Names spelled without empty pieces, so that text and pieces determine each other. */
  ghost predicate Tidy(t: Text) { t == Join(Labels(t)) }

  lemma JoinIsTidy(ls: seq<Text>)
    requires ArePieces(ls)
    ensures Tidy(Join(ls))
  {
    LabelsOfJoin(ls);
  }

  lemma {:induction false} JoinFolds(ls: seq<Text>)
    ensures LowerText(Join(ls)) == Join(LowerAll(ls))
  {
    if |ls| > 1 {
      JoinFolds(ls[1..]);
      LowerTextConcat(ls[0] + [DOT], Join(ls[1..]));
      LowerTextConcat(ls[0], [DOT]);
      assert LowerAll(ls)[1..] == LowerAll(ls[1..]);
    }
  }

  lemma SameKeySameText(a: Text, b: Text)
    requires Tidy(a) && Tidy(b)
    ensures KeyOf(a) == KeyOf(b) <==> EqIgnoreCase(a, b)
  {
    if EqIgnoreCase(a, b) {
      KeyOfFolds(a, b);
    } else if KeyOf(a) == KeyOf(b) {
      var x, y := Labels(a), Labels(b);
      KeyLabels(x, y);
      JoinFolds(x);
      JoinFolds(y);
    }
  }

  lemma KeyLabels(x: seq<Text>, y: seq<Text>)
    requires LowerAll(Reverse(x)) == LowerAll(Reverse(y))
    ensures LowerAll(x) == LowerAll(y)
  {
    assert |x| == |LowerAll(Reverse(x))| == |y|;
    forall i | 0 <= i < |x| ensures LowerText(x[i]) == LowerText(y[i]) {
      assert LowerAll(Reverse(x))[|x| - 1 - i] == LowerText(x[i]);
      assert LowerAll(Reverse(y))[|x| - 1 - i] == LowerText(y[i]);
    }
  }

  /** No dot at either end and no two in a row. */
  ghost predicate Clean(t: Text) {
    forall i :: 0 <= i < |t| && t[i] == DOT ==> 0 < i && i + 1 < |t| && t[i + 1] != DOT
  }

  lemma {:induction false} CleanIsTidy(t: Text)
    requires Clean(t)
    ensures Tidy(t)
    decreases |t|
  {
    if t != [] {
      var l := UpToDot(t);
      if |l| == |t| {
        assert t[|l|..] == [];
      } else {
        var u := t[|l| + 1..];
        assert t[|l|..] == [DOT] + u;
        DotThen(u);
        assert Clean(u) by { assert forall i :: 0 <= i < |u| ==> u[i] == t[|l| + 1 + i]; }
        CleanIsTidy(u);
        SomePiece(u);
        assert t == l + [DOT] + u;
        assert ([l] + Labels(u))[1..] == Labels(u);
      }
    }
  }

  lemma SomePiece(u: Text)
    requires u != [] && u[0] != DOT
    ensures Labels(u) != []
  {
  }

  lemma {:induction false} JoinIsClean(ls: seq<Text>)
    requires ArePieces(ls)
    ensures Clean(Join(ls)) && (ls != [] ==> Join(ls) != [] && Join(ls)[0] != DOT)
  {
    if ls != [] {
      hide Join;
      JoinParts(ls);
      assert ls[0] in ls;
      var l := ls[0];
      assert l[0] in l && l[|l| - 1] in l;
      if |ls| == 1 {
        assert Join(ls) == l;
        assert Clean(l);
      } else {
        assert forall m <- ls[1..] :: m in ls;
        JoinIsClean(ls[1..]);
        assert NoTouch(l);
        Separated(l, Join(ls[1..]), Join(ls), false);
        assert Join(ls)[0] == l[0];
      }
    } else {
      assert Join(ls) == [];
    }
  }

  lemma TidyIsClean(t: Text)
    ensures Tidy(t) <==> Clean(t)
  {
    if Tidy(t) { JoinIsClean(Labels(t)); }
    if Clean(t) { CleanIsTidy(t); }
  }

  predicate EndsInDot(l: Label) { l != [] && l[|l| - 1] == DOT }

  /** No two dots in a row. */
  ghost predicate NoTouch(t: Text) { forall i :: 0 <= i < |t| - 1 && t[i] == DOT ==> t[i + 1] != DOT }

  lemma NoTouchConcat(x: Text, y: Text)
    requires NoTouch(x) && NoTouch(y) && y != [] && y[0] != DOT
    ensures NoTouch(x + y)
  {
    var e := x + y;
    forall i | 0 <= i < |e| - 1 && e[i] == DOT ensures e[i + 1] != DOT {
      if i >= |x| { assert e[i] == y[i - |x|] && e[i + 1] == y[i - |x| + 1]; }
    }
  }

  /** The dots of an escaped label never begin it and never touch; the last byte is one only if the label's is. */
  lemma {:induction false} DotsOfLabel(l: Label)
    requires l != []
    ensures var e := EscapeLabel(l);
            e != [] && e[0] != DOT && (e[|e| - 1] == DOT <==> EndsInDot(l)) && NoTouch(e)
  {
    hide Escape, NoTouch;
    var x := Escape(Lower(l[0]));
    DotsOfByte(Lower(l[0]));
    if |l| == 1 {
      assert EscapeLabel(l) == x + [] == x;
    } else {
      DotsOfLabel(l[1..]);
      NoTouchConcat(x, EscapeLabel(l[1..]));
    }
  }

  lemma DotsOfByte(c: byte)
    ensures var x := Escape(c);
            x != [] && x[0] != DOT && (x[|x| - 1] == DOT <==> c == DOT) && NoTouch(x)
  {
  }

  /** Names in the reader's form are tidy exactly when no label ends in a dot. */
  lemma {:induction false} CleanIff(ls: seq<Label>)
    requires ValidLabels(ls)
    ensures Clean(TextOf(ls)) <==> forall l <- ls :: !EndsInDot(l)
    ensures ls != [] ==> TextOf(ls) != [] && TextOf(ls)[0] != DOT
  {
    if ls != [] {
      hide TextOf, EscapeLabel, EndsInDot, NoTouch;
      TextParts(ls);
      DotsOfLabel(ls[0]);
      assert ls == [ls[0]] + ls[1..];
      var e, t := EscapeLabel(ls[0]), TextOf(ls);
      assert forall i :: 0 <= i < |e| ==> t[i] == e[i];
      if |ls| == 1 {
        assert t == e;
        LastOfLabel(e, ls[0]);
      } else {
        CleanIff(ls[1..]);
        Separated(e, TextOf(ls[1..]), t, EndsInDot(ls[0]));
      }
    }
  }

  lemma LastOfLabel(e: Text, l: Label)
    requires e != [] && e[0] != DOT && (e[|e| - 1] == DOT <==> EndsInDot(l))
    requires NoTouch(e)
    ensures Clean(e) <==> !EndsInDot(l)
  {
    hide EndsInDot;
  }

  lemma Separated(e: Text, u: Text, t: Text, dotted: bool)
    requires e != [] && e[0] != DOT && (e[|e| - 1] == DOT <==> dotted)
    requires NoTouch(e)
    requires u != [] && u[0] != DOT && t == e + ([DOT] + u)
    ensures Clean(t) <==> !dotted && Clean(u)
  {
    assert t[|e|] == DOT && t[|e| - 1] == e[|e| - 1] && t[|e| + 1] == u[0];
    assert forall i :: 0 <= i < |e| ==> t[i] == e[i];
    assert forall i :: 0 <= i < |u| ==> t[|e| + 1 + i] == u[i];
    if Clean(t) {
      forall i | 0 <= i < |u| && u[i] == DOT ensures 0 < i && i + 1 < |u| && u[i + 1] != DOT {
        assert t[|e| + 1 + i] == DOT;
      }
    }
    if !dotted && Clean(u) {
      forall i | 0 <= i < |t| && t[i] == DOT ensures 0 < i && i + 1 < |t| && t[i + 1] != DOT {
        if i < |e| - 1 { assert t[i + 1] == e[i + 1]; }
        if i > |e| { assert u[i - |e| - 1] == DOT; }
      }
    }
  }

  lemma TidyIff(ls: seq<Label>)
    requires ValidLabels(ls)
    ensures Tidy(TextOf(ls)) <==> forall l <- ls :: !EndsInDot(l)
  {
    TidyIsClean(TextOf(ls));
    CleanIff(ls);
  }
}
