/** Strict total orders, their lexicographic lifting, and rings of successive owners. */
module Rings {
  ghost predicate StrictTotal<T(!new)>(less: (T, T) -> bool) {
    && (forall x :: !less(x, x))
    && (forall x, y :: x != y ==> less(x, y) || less(y, x))
    && (forall x, y, z :: less(x, y) && less(y, z) ==> less(x, z))
  }

  /** Dictionary order: the first difference decides, and a proper prefix comes first. */
  ghost predicate LexLess<T(!new)>(less: (T, T) -> bool, x: seq<T>, y: seq<T>) {
    if y == [] then false
    else if x == [] then true
    else less(x[0], y[0]) || (x[0] == y[0] && LexLess(less, x[1..], y[1..]))
  }

  lemma {:induction false} LexConnected<T(!new)>(less: (T, T) -> bool, x: seq<T>, y: seq<T>)
    requires StrictTotal(less) && x != y
    ensures LexLess(less, x, y) || LexLess(less, y, x)
    decreases |x|
  {
    if x != [] && y != [] && x[0] == y[0] {
      assert x == [x[0]] + x[1..] && y == [y[0]] + y[1..];
      LexConnected(less, x[1..], y[1..]);
    }
  }

  lemma {:induction false} LexIrreflexive<T(!new)>(less: (T, T) -> bool, x: seq<T>)
    requires StrictTotal(less)
    ensures !LexLess(less, x, x)
    decreases |x|
  {
    if x != [] { LexIrreflexive(less, x[1..]); }
  }

  lemma {:induction false} LexTransitive<T(!new)>(less: (T, T) -> bool, x: seq<T>, y: seq<T>, z: seq<T>)
    requires StrictTotal(less) && LexLess(less, x, y) && LexLess(less, y, z)
    ensures LexLess(less, x, z)
    decreases |x|
  {
    if x != [] && x[0] == y[0] && y[0] == z[0] { LexTransitive(less, x[1..], y[1..], z[1..]); }
  }

  lemma {:induction false} LexCommon<T(!new)>(less: (T, T) -> bool, prefix: seq<T>, s: seq<T>, t: seq<T>)
    requires StrictTotal(less)
    ensures LexLess(less, prefix + s, prefix + t) == LexLess(less, s, t)
  {
    if prefix == [] {
      assert prefix + s == s && prefix + t == t;
    } else {
      assert (prefix + s)[1..] == prefix[1..] + s && (prefix + t)[1..] == prefix[1..] + t;
      LexCommon(less, prefix[1..], s, t);
    }
  }

  /** The lifted order as a function value. */
  ghost function Lex<T(!new)>(less: (T, T) -> bool): (r: (seq<T>, seq<T>) -> bool)
    ensures StrictTotal(less) ==> StrictTotal(r)
    ensures forall x, y :: r(x, y) == LexLess(less, x, y)
  {
    var r := (x: seq<T>, y: seq<T>) => LexLess(less, x, y);
    assert StrictTotal(less) ==> StrictTotal(r) by {
      if StrictTotal(less) {
        forall x ensures !r(x, x) { LexIrreflexive(less, x); }
        forall x, y | x != y ensures r(x, y) || r(y, x) { LexConnected(less, x, y); }
        forall x, y, z | r(x, y) && r(y, z) ensures r(x, z) { LexTransitive(less, x, y, z); }
      }
    }
    r
  }

  /** `q` lies strictly between an owner and its successor; from the last owner on, the gap wraps. */
  ghost predicate InGap<T(!new)>(less: (T, T) -> bool, owner: T, next: T, q: T) {
    if less(owner, next) then less(owner, q) && less(q, next) else less(owner, q) || less(q, next)
  }

  ghost predicate Ascending<T(!new)>(less: (T, T) -> bool, owners: seq<T>) {
    forall i, j :: 0 <= i < j < |owners| ==> less(owners[i], owners[j])
  }

  function Next<T>(owners: seq<T>, i: nat): T
    requires i < |owners|
  {
    if i + 1 < |owners| then owners[i + 1] else owners[0]
  }

  /** No owner lies in any gap of its own ring. */
  lemma OwnersAreUncovered<T(!new)>(less: (T, T) -> bool, owners: seq<T>, i: nat, k: nat)
    requires StrictTotal(less) && Ascending(less, owners) && i < |owners| && k < |owners|
    ensures !InGap(less, owners[i], Next(owners, i), owners[k])
  {
    var q := owners[k];
    assert k <= i ==> !less(owners[i], q);
    if i + 1 < |owners| {
      assert k >= i + 1 ==> !less(q, owners[i + 1]);
    } else {
      assert !less(q, owners[0]);
    }
  }

  /** `x` put in at `pos`. */
  ghost predicate Inserted<T>(small: seq<T>, big: seq<T>, pos: nat, x: T) {
    pos <= |small| && big == small[..pos] + [x] + small[pos..]
  }

  /** Where an element goes. */
  lemma InsertAscending<T(!new)>(less: (T, T) -> bool, owners: seq<T>, x: T) returns (pos: nat)
    requires StrictTotal(less) && Ascending(less, owners) && x !in owners
    ensures pos <= |owners| && Ascending(less, owners[..pos] + [x] + owners[pos..])
  {
    pos := 0;
    while pos < |owners| && less(owners[pos], x)
      invariant pos <= |owners| && forall j :: 0 <= j < pos ==> less(owners[j], x)
    {
      pos := pos + 1;
    }
    assert forall j :: pos <= j < |owners| ==> less(x, owners[j]) by {
      if pos < |owners| {
        assert less(x, owners[pos]);
        assert forall j :: pos < j < |owners| ==> less(owners[pos], owners[j]);
      }
    }
  }

  lemma RemoveAscending<T(!new)>(less: (T, T) -> bool, small: seq<T>, big: seq<T>, pos: nat, x: T)
    requires Ascending(less, big) && Inserted(small, big, pos, x)
    ensures Ascending(less, small)
  {
    forall i, j | 0 <= i < j < |small| ensures less(small[i], small[j]) {
      var i', j' := if i < pos then i else i + 1, if j < pos then j else j + 1;
      assert big[i'] == small[i] && big[j'] == small[j];
    }
  }

  /** An insertion changes one successor only: that of the owner whose gap `x` is in. */
  lemma NextInserted<T(!new)>(less: (T, T) -> bool, small: seq<T>, big: seq<T>, pos: nat, x: T, i: nat)
    requires StrictTotal(less) && Ascending(less, big) && Inserted(small, big, pos, x) && i < |small|
    ensures var j := if i < pos then i else i + 1;
            && big[j] == small[i]
            && (if Next(big, j) == x then InGap(less, small[i], Next(small, i), x) else Next(big, j) == Next(small, i))
  {
    var j := if i < pos then i else i + 1;
    var n := |small|;
    assert big[pos] == x && forall k :: pos < k < |big| ==> big[k] == small[k - 1];
    assert forall k :: 0 <= k < pos ==> big[k] == small[k];
    if i + 1 == pos {
      assert less(big[i], big[pos]);
      if i + 1 < n { assert less(big[pos], big[pos + 1]); } else { assert small[0] == big[0]; }
    } else if pos == 0 && i == n - 1 {
      assert Next(big, j) == x && less(big[0], big[1]) && Next(small, i) == small[0] == big[1];
    } else {
      assert Next(big, j) != x by { if Next(big, j) == x { NextIsLater(less, big, j, pos); } }
    }
  }

  lemma NextIsLater<T(!new)>(less: (T, T) -> bool, owners: seq<T>, j: nat, pos: nat)
    requires StrictTotal(less) && Ascending(less, owners) && j < |owners| && pos < |owners| && Next(owners, j) == owners[pos]
    ensures pos == if j + 1 < |owners| then j + 1 else 0
  {
  }

  /** Every other element lies in exactly one gap; a ring of one owner has one gap around everything else. */
  lemma GapOf<T(!new)>(less: (T, T) -> bool, owners: seq<T>, q: T) returns (i: nat)
    requires StrictTotal(less) && Ascending(less, owners) && owners != [] && q !in owners
    ensures i < |owners| && InGap(less, owners[i], Next(owners, i), q)
    ensures forall j :: 0 <= j < |owners| && InGap(less, owners[j], Next(owners, j), q) ==> j == i
  {
    var n := |owners|;
    var k := 0;
    while k < n && less(owners[k], q)
      invariant k <= n && forall j :: 0 <= j < k ==> less(owners[j], q)
    {
      k := k + 1;
    }
    assert forall j :: k <= j < n ==> less(q, owners[j]) by {
      if k < n {
        assert less(q, owners[k]);
        assert forall j :: k < j < n ==> less(owners[k], owners[j]);
      }
    }
    i := if k == 0 then n - 1 else k - 1;
    forall j | 0 <= j < n && InGap(less, owners[j], Next(owners, j), q)
      ensures j == i
    {
      if j + 1 < n { assert less(owners[j], owners[j + 1]); }
    }
  }
}

/** The canonical order of names (section 6.1 of RFC 4034) as the code computes it. */
module NameOrder {
  import opened Bytes
  import Names
  import opened Rings

  datatype Ordering = Less | Equal | Greater

  /** `split('.')` without the empty pieces; escapes are not looked at. */
  function Labels(t: Text): (ls: seq<Text>)
    ensures forall l <- ls :: l != [] && DOT !in l
    decreases |t|
  {
    if t == [] then []
    else if t[0] == DOT then Labels(t[1..])
    else
      var l := UpToDot(t);
      [l] + Labels(t[|l|..])
  }

  function UpToDot(t: Text): (l: Text)
    ensures DOT !in l
    ensures |l| <= |t| && (t != [] && t[0] != DOT ==> l != [])
    ensures l == t[..|l|] && (|l| < |t| ==> t[|l|] == DOT)
  {
    if t == [] || t[0] == DOT then [] else [t[0]] + UpToDot(t[1..])
  }

  lemma {:induction false} DotFree(l: Text, rest: Text)
    requires DOT !in l && (rest == [] || rest[0] == DOT)
    ensures UpToDot(l + rest) == l
  {
    if l == [] {
      assert l + rest == rest;
    } else {
      assert l == [l[0]] + l[1..] && (l + rest)[1..] == l[1..] + rest;
      DotFree(l[1..], rest);
    }
  }

  /** The first piece of a text that begins with one. */
  lemma OnePiece(l: Text, rest: Text)
    requires l != [] && DOT !in l && (rest == [] || rest[0] == DOT)
    ensures Labels(l + rest) == [l] + Labels(rest)
  {
    DotFree(l, rest);
    hide UpToDot;
    assert (l + rest)[|l|..] == rest;
  }

  lemma DotThen(rest: Text)
    ensures Labels([DOT] + rest) == Labels(rest)
  {
    assert ([DOT] + rest)[1..] == rest;
  }

  function Reverse<T>(xs: seq<T>): (r: seq<T>)
    ensures |r| == |xs| && forall i :: 0 <= i < |xs| ==> r[i] == xs[|xs| - 1 - i]
  {
    seq(|xs|, i requires 0 <= i < |xs| => xs[|xs| - 1 - i])
  }

  /** Byte-wise comparison of two labels ignoring ASCII case. */
  function CompareLabels(a: Text, b: Text): Ordering {
    if a == [] then (if b == [] then Equal else Less)
    else if b == [] then Greater
    else if Lower(a[0]) < Lower(b[0]) then Less
    else if Lower(a[0]) > Lower(b[0]) then Greater
    else CompareLabels(a[1..], b[1..])
  }

  /** The loop over the zipped labels. */
  function CompareZipped(xs: seq<Text>, ys: seq<Text>): Ordering {
    if xs == [] || ys == [] then Equal
    else
      var o := CompareLabels(xs[0], ys[0]);
      if o != Equal then o else CompareZipped(xs[1..], ys[1..])
  }

  function CompareCounts(m: nat, n: nat): Ordering {
    if m < n then Less else if m > n then Greater else Equal
  }

  /** `canonical_dns_name_order`. */
  function CanonicalOrder(a: Text, b: Text): Ordering {
    var o := CompareZipped(Reverse(Labels(a)), Reverse(Labels(b)));
    if o != Equal then o else CompareCounts(|Labels(a)|, |Labels(b)|)
  }

  /** `nsec_covers_name`. */
  predicate NsecCovers(owner: Text, next: Text, qname: Text) {
    var qo, qn := CanonicalOrder(qname, owner), CanonicalOrder(qname, next);
    if CanonicalOrder(owner, next) != Less then qo == Greater || qn == Less else qo == Greater && qn == Less
  }

  // ---- The order it stands for ----

  type Key = seq<seq<byte>>

  function LowerAll(ls: seq<Text>): (r: seq<Text>)
    ensures |r| == |ls| && forall i :: 0 <= i < |ls| ==> r[i] == LowerText(ls[i])
  {
    seq(|ls|, i requires 0 <= i < |ls| => LowerText(ls[i]))
  }

  /** The lower-cased labels of a name, from the root down. */
  function KeyOf(t: Text): Key { LowerAll(Reverse(Labels(t))) }

  ghost function ByteLess(): (r: (byte, byte) -> bool)
    ensures StrictTotal(r)
  {
    (x: byte, y: byte) => x < y
  }

  ghost function LabelLess(): (r: (seq<byte>, seq<byte>) -> bool)
    ensures StrictTotal(r)
  {
    Lex(ByteLess())
  }

  /** Dictionary order on labels, in dictionary order on bytes. */
  ghost function KeyLess(): (r: (Key, Key) -> bool)
    ensures StrictTotal(r)
  {
    Lex(LabelLess())
  }

  /** What an ordering says about two elements of a strict order. */
  ghost predicate Reflects<T(!new)>(o: Ordering, less: (T, T) -> bool, x: T, y: T) {
    match o
    case Less => less(x, y)
    case Equal => x == y
    case Greater => less(y, x)
  }

  lemma {:induction false} CompareLabelsReflects(a: Text, b: Text)
    ensures Reflects(CompareLabels(a, b), LabelLess(), LowerText(a), LowerText(b))
  {
    var x, y := LowerText(a), LowerText(b);
    assert forall u, v :: LabelLess()(u, v) == LexLess(ByteLess(), u, v);
    if a != [] && b != [] {
      assert x[1..] == LowerText(a[1..]) && y[1..] == LowerText(b[1..]);
      CompareLabelsReflects(a[1..], b[1..]);
      assert x == [x[0]] + x[1..] && y == [y[0]] + y[1..];
    }
  }

  lemma {:induction false} CompareZippedReflects(xs: seq<Text>, ys: seq<Text>)
    ensures var o := CompareZipped(xs, ys);
            Reflects(if o != Equal then o else CompareCounts(|xs|, |ys|), KeyLess(), LowerAll(xs), LowerAll(ys))
  {
    var x, y := LowerAll(xs), LowerAll(ys);
    assert forall u, v :: KeyLess()(u, v) == LexLess(LabelLess(), u, v);
    hide CompareLabels, LabelLess, KeyLess, LowerText;
    if xs != [] && ys != [] {
      CompareLabelsReflects(xs[0], ys[0]);
      assert x[1..] == LowerAll(xs[1..]) && y[1..] == LowerAll(ys[1..]);
      CompareZippedReflects(xs[1..], ys[1..]);
      assert x == [x[0]] + x[1..] && y == [y[0]] + y[1..];
    }
  }

  /** The code's comparison is a total order on names up to letter case and empty labels. */
  lemma OrderReflects(a: Text, b: Text)
    ensures Reflects(CanonicalOrder(a, b), KeyLess(), KeyOf(a), KeyOf(b))
  {
    CompareZippedReflects(Reverse(Labels(a)), Reverse(Labels(b)));
  }

  lemma OrderIff(a: Text, b: Text)
    ensures CanonicalOrder(a, b) == Less <==> KeyLess()(KeyOf(a), KeyOf(b))
    ensures CanonicalOrder(a, b) == Greater <==> KeyLess()(KeyOf(b), KeyOf(a))
    ensures CanonicalOrder(a, b) == Equal <==> KeyOf(a) == KeyOf(b)
  {
    OrderReflects(a, b);
    hide CanonicalOrder, KeyLess, KeyOf;
    var less := KeyLess();
    assert !less(KeyOf(a), KeyOf(a)) && !less(KeyOf(b), KeyOf(b));
    assert less(KeyOf(a), KeyOf(b)) && less(KeyOf(b), KeyOf(a)) ==> less(KeyOf(a), KeyOf(a));
  }

  /** An NSEC covers exactly the names in its gap. */
  lemma NsecCoversIsGap(owner: Text, next: Text, qname: Text)
    ensures NsecCovers(owner, next, qname) <==> InGap(KeyLess(), KeyOf(owner), KeyOf(next), KeyOf(qname))
  {
    OrderIff(owner, next);
    OrderIff(qname, owner);
    OrderIff(qname, next);
    hide CanonicalOrder, KeyLess, KeyOf;
  }

  /** Case folding and stray dots do not change a name's place in the order. */
  lemma {:induction false} LabelsFold(t: Text)
    ensures LowerAll(Labels(t)) == Labels(LowerText(t))
    decreases |t|
  {
    var u := LowerText(t);
    if t != [] {
      if t[0] == DOT {
        assert u[1..] == LowerText(t[1..]);
        LabelsFold(t[1..]);
      } else {
        UpToDotFolds(t);
        var l := UpToDot(t);
        assert u[|l|..] == LowerText(t[|l|..]);
        LabelsFold(t[|l|..]);
        assert LowerAll([l] + Labels(t[|l|..])) == [LowerText(l)] + LowerAll(Labels(t[|l|..]));
      }
    }
  }

  lemma {:induction false} UpToDotFolds(t: Text)
    ensures UpToDot(LowerText(t)) == LowerText(UpToDot(t))
  {
    if t != [] && t[0] != DOT {
      assert LowerText(t)[1..] == LowerText(t[1..]);
      UpToDotFolds(t[1..]);
    }
  }

  lemma KeyOfFolds(a: Text, b: Text)
    requires EqIgnoreCase(a, b)
    ensures KeyOf(a) == KeyOf(b)
  {
    LabelsFold(a);
    LabelsFold(b);
    assert KeyOf(a) == Reverse(LowerAll(Labels(a)));
    assert KeyOf(b) == Reverse(LowerAll(Labels(b)));
  }

  // ---- Against the real labels ----

  /** No escapes: the text's dots are exactly the label boundaries. */
  predicate Plain(t: Text) { BACKSLASH !in t }

  lemma {:induction false} PlainLabel(t: Text, body: Names.Label)
    requires Plain(t) && Names.ParseLabel(t, body).Some?
    ensures var (l, rest) := Names.ParseLabel(t, body).value;
            && l == body + UpToDot(t)
            && rest == if |UpToDot(t)| < |t| then t[|UpToDot(t)| + 1..] else []
    decreases |t|
  {
    if t != [] && t[0] != DOT {
      assert Names.Unescape(t) == Some((t[0], 1));
      assert Plain(t[1..]);
      PlainLabel(t[1..], body + [t[0]]);
      var rest := UpToDot(t[1..]);
      Assoc(body, [t[0]], rest);
      assert UpToDot(t) == [t[0]] + rest;
      assert |rest| < |t[1..]| ==> t[1..][|rest| + 1..] == t[|rest| + 2..];
    } else {
      assert body + [] == body;
    }
  }

  /** On names without escapes the pieces compared are the name's real labels. */
  lemma {:induction false} PlainLabels(t: Text)
    requires Plain(t) && Names.ParseName(t).Some?
    ensures Labels(t) == Names.ParseName(t).value
    decreases |t|
  {
    if t != [] {
      PlainLabel(t, []);
      var l := UpToDot(t);
      var (_, rest) := Names.ParseLabel(t, []).value;
      assert [] + l == l;
      assert Plain(rest);
      PlainLabels(rest);
      if t[0] == DOT {
        assert l == [];
      } else if |l| < |t| {
        assert t[|l|..][1..] == rest;
      } else {
        assert t[|l|..] == [];
      }
    }
  }

  /** The key that section 6.1 of RFC 4034 sorts by: the real labels, lower-cased, from the root down. */
  function RfcKey(ls: seq<Names.Label>): Key { LowerAll(Reverse(ls)) }

  /** So there the code's comparison is the order of the RFC. */
  lemma PlainOrder(a: Text, b: Text)
    requires Plain(a) && Plain(b) && Names.ParseName(a).Some? && Names.ParseName(b).Some?
    ensures Reflects(CanonicalOrder(a, b), KeyLess(), RfcKey(Names.ParseName(a).value), RfcKey(Names.ParseName(b).value))
  {
    hide CanonicalOrder, KeyLess, Labels, Names.ParseName;
    PlainLabels(a);
    PlainLabels(b);
    OrderReflects(a, b);
  }
}
