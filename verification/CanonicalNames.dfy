/**
  Canonical name order, section 6.1 of RFC 4034: names compare label by label
  from the root down.  Three routines of the server compare names so, each on its
  own representation of the labels.
 */
module CanonicalNames {
  import opened Wrappers
  import opened ByteOrder
  import opened Sequences

  /** A name as its labels, most specific first; the root has none. */
  type Labels = seq<Octets>

  predicate IsSubDomain(zone: Labels, name: Labels) {
    |zone| <= |name| && name[|name| - |zone|..] == zone
  }

  // ---------- the order ----------

  /** Lexicographic order of label lists, a proper prefix coming first. */
  predicate ListLess(a: Labels, b: Labels) {
    b != [] && (a == [] || Less(a[0], b[0]) || (a[0] == b[0] && ListLess(a[1..], b[1..])))
  }

  lemma {:induction false} ListLessIrreflexive(a: Labels)
    ensures !ListLess(a, a)
  {
    if a != [] {
      LessIrreflexive(a[0]);
      ListLessIrreflexive(a[1..]);
    }
  }

  lemma {:induction false} ListLessTransitive(a: Labels, b: Labels, c: Labels)
    requires ListLess(a, b) && ListLess(b, c)
    ensures ListLess(a, c)
  {
    if a != [] {
      if Less(a[0], b[0]) && Less(b[0], c[0]) {
        LessTransitive(a[0], b[0], c[0]);
      } else if a[0] == b[0] == c[0] && ListLess(a[1..], b[1..]) && ListLess(b[1..], c[1..]) {
        ListLessTransitive(a[1..], b[1..], c[1..]);
      }
    }
  }

  lemma {:induction false} ListLessTotal(a: Labels, b: Labels)
    ensures ListLess(a, b) || a == b || ListLess(b, a)
  {
    if a != [] && b != [] {
      LessTotal(a[0], b[0]);
      ListLessTotal(a[1..], b[1..]);
      if a[0] == b[0] && a[1..] == b[1..] {
        assert a == [a[0]] + a[1..] == b;
      }
    }
  }

  function Reversed(a: Labels): (r: Labels)
    ensures |r| == |a|
    ensures forall i | 0 <= i < |a| :: r[i] == a[|a| - 1 - i]
  {
    seq(|a|, i requires 0 <= i < |a| => a[|a| - 1 - i])
  }

  lemma ReversedTwice(a: Labels)
    ensures Reversed(Reversed(a)) == a
  {
  }

  predicate NameLess(a: Labels, b: Labels) {
    ListLess(Reversed(a), Reversed(b))
  }

  /** The canonical order is a strict total order on names. */
  lemma NameLessIsStrictTotalOrder(a: Labels, b: Labels, c: Labels)
    ensures !NameLess(a, a)
    ensures NameLess(a, b) && NameLess(b, c) ==> NameLess(a, c)
    ensures NameLess(a, b) || a == b || NameLess(b, a)
    ensures NameLess(a, b) ==> !NameLess(b, a) && a != b
  {
    ListLessIrreflexive(Reversed(a));
    if NameLess(a, b) && NameLess(b, c) {
      ListLessTransitive(Reversed(a), Reversed(b), Reversed(c));
    }
    if NameLess(a, b) && NameLess(b, a) {
      ListLessTransitive(Reversed(a), Reversed(b), Reversed(a));
    }
    ListLessTotal(Reversed(a), Reversed(b));
    ReversedTwice(a);
    ReversedTwice(b);
  }

  /** Every name comes after the names it is below. */
  lemma AncestorFirst(zone: Labels, name: Labels)
    requires |zone| < |name| && IsSubDomain(zone, name)
    ensures NameLess(zone, name)
  {
    PrefixFirst(Reversed(zone), Reversed(name));
  }

  lemma {:induction false} PrefixFirst(a: Labels, b: Labels)
    requires |a| < |b| && b[..|a|] == a
    ensures ListLess(a, b)
  {
    if a != [] {
      assert a[0] == b[..|a|][0];
      assert b[1..][..|a| - 1] == b[..|a|][1..];
      PrefixFirst(a[1..], b[1..]);
    }
  }

  /** Equal beginnings do not affect the comparison. */
  lemma {:induction false} SkipEqual(a: Labels, b: Labels, k: nat)
    requires k <= |a| && k <= |b| && a[..k] == b[..k]
    ensures ListLess(a, b) == ListLess(a[k..], b[k..])
  {
    if k > 0 {
      assert a[0] == a[..k][0] == b[..k][0] == b[0];
      assert a[1..][..k - 1] == a[..k][1..] == b[..k][1..] == b[1..][..k - 1];
      SkipEqual(a[1..], b[1..], k - 1);
      assert a[1..][k - 1..] == a[k..] && b[1..][k - 1..] == b[k..];
      LessIrreflexive(a[0]);
    }
  }

  // ---------- comparing label lists from the root ----------

  /** What bytes.Compare returns. */
  function CompareOctets(a: Octets, b: Octets): (c: int)
    ensures c < 0 <==> Less(a, b)
    ensures c > 0 <==> Less(b, a)
    ensures c == 0 <==> a == b
  {
    LessTotal(a, b);
    LessIrreflexive(a);
    if Less(a, b) then LessAsymmetric(a, b); -1
    else if a == b then 0
    else LessAsymmetric(b, a); 1
  }

  lemma DecidedAt(a: Labels, b: Labels, k: nat)
    requires k < |a| && k < |b| && Reversed(a)[..k] == Reversed(b)[..k]
    requires a[|a| - 1 - k] != b[|b| - 1 - k]
    ensures NameLess(a, b) == Less(a[|a| - 1 - k], b[|b| - 1 - k])
  {
    SkipEqual(Reversed(a), Reversed(b), k);
  }

  lemma DecidedByLength(a: Labels, b: Labels)
    requires var k := if |a| < |b| then |a| else |b|; Reversed(a)[..k] == Reversed(b)[..k]
    ensures NameLess(a, b) == (|a| < |b|)
    ensures a == b <==> |a| == |b|
  {
    var k := if |a| < |b| then |a| else |b|;
    SkipEqual(Reversed(a), Reversed(b), k);
    if |a| == |b| {
      assert Reversed(a)[..k] == Reversed(a) && Reversed(b)[..k] == Reversed(b);
      ReversedTwice(a);
      ReversedTwice(b);
    }
  }

  /** Three-way comparison of label lists. */
  method CompareLabels(la: Labels, lb: Labels) returns (c: int)
    ensures c < 0 <==> NameLess(la, lb)
    ensures c > 0 <==> NameLess(lb, la)
    ensures c == 0 <==> la == lb
  {
    var ia, ib := |la| - 1, |lb| - 1;
    ghost var k: nat := 0;
    NameLessIsStrictTotalOrder(la, lb, la);
    while ia >= 0 && ib >= 0
      invariant k <= |la| && k <= |lb| && ia == |la| - 1 - k && ib == |lb| - 1 - k
      invariant Reversed(la)[..k] == Reversed(lb)[..k]
    {
      c := CompareOctets(la[ia], lb[ib]);
      if c != 0 {
        DecidedAt(la, lb, k);
        DecidedAt(lb, la, k);
        return;
      }
      ia, ib, k := ia - 1, ib - 1, k + 1;
    }
    DecidedByLength(la, lb);
    DecidedByLength(lb, la);
    if |la| < |lb| {
      return -1;
    }
    if |la| > |lb| {
      return 1;
    }
    return 0;
  }

  /** The policy engine's comparison, on labels in presentation format. */
  method RpzCanonicalNameLess(left: Labels, right: Labels) returns (less: bool)
    ensures less == NameLess(left, right)
  {
    var li, ri := |left| - 1, |right| - 1;
    ghost var k: nat := 0;
    while li >= 0 && ri >= 0
      invariant k <= |left| && k <= |right| && li == |left| - 1 - k && ri == |right| - 1 - k
      invariant Reversed(left)[..k] == Reversed(right)[..k]
    {
      var comparison := CompareOctets(left[li], right[ri]);
      if comparison != 0 {
        DecidedAt(left, right, k);
        return comparison < 0;
      }
      li, ri, k := li - 1, ri - 1, k + 1;
    }
    DecidedByLength(left, right);
    return |left| < |right|;
  }

  // ---------- comparisons on text ----------

  function LowerChar(c: char): char {
    if 'A' <= c <= 'Z' then c + ' ' else c
  }

  function Lower(s: Octets): (r: Octets)
    ensures |r| == |s| && forall i | 0 <= i < |s| :: r[i] == LowerChar(s[i])
  {
    if s == [] then [] else [LowerChar(s[0])] + Lower(s[1..])
  }

  /** The validator's comparison; a name that cannot be packed has no labels, and text decides. */
  method CanonicalNameCompare(a: Octets, b: Octets, la: Option<Labels>, lb: Option<Labels>) returns (c: int)
    ensures la.Some? && lb.Some? ==>
              && (c < 0 <==> NameLess(la.value, lb.value))
              && (c > 0 <==> NameLess(lb.value, la.value))
              && (c == 0 <==> la == lb)
    ensures la.None? || lb.None? ==>
              && (c < 0 <==> Less(Lower(a), Lower(b)))
              && (c > 0 <==> Less(Lower(b), Lower(a)))
              && (c == 0 <==> Lower(a) == Lower(b))
  {
    if la.None? || lb.None? {
      return CompareOctets(Lower(a), Lower(b));
    }
    c := CompareLabels(la.value, lb.value);
  }

  function TrimDot(s: Octets): Octets {
    if s != [] && s[|s| - 1] == '.' then s[..|s| - 1] else s
  }

  /** strings.Split at each dot: never empty. */
  function SplitDots(s: Octets): (r: Labels)
    ensures r != []
  {
    if s == [] then [[]]
    else
      var rest := SplitDots(s[1..]);
      if s[0] == '.' then [[]] + rest else [[s[0]] + rest[0]] + rest[1..]
  }

  function TextLabels(s: Octets): Labels {
    SplitDots(Lower(TrimDot(s)))
  }

  /** Swaps from both ends towards the middle. */
  method ReverseLabels(a: array<Octets>)
    modifies a
    ensures a[..] == Reversed(old(a[..]))
  {
    var i, j := 0, a.Length - 1;
    while i < j
      invariant 0 <= i <= j + 1 && j == a.Length - 1 - i
      invariant forall k | 0 <= k < i || j < k < a.Length :: a[k] == old(a[a.Length - 1 - k])
      invariant forall k | i <= k <= j :: a[k] == old(a[k])
    {
      a[i], a[j] := a[j], a[i];
      i, j := i + 1, j - 1;
    }
  }

  method CanonicalLess(a: Octets, b: Octets) returns (less: bool)
    ensures less == NameLess(TextLabels(a), TextLabels(b))
  {
    var x, y := TextLabels(a), TextLabels(b);
    var aLabels := new Octets[|x|](i requires 0 <= i < |x| => x[i]);
    var bLabels := new Octets[|y|](i requires 0 <= i < |y| => y[i]);
    assert aLabels[..] == x && bLabels[..] == y;
    ReverseLabels(aLabels);
    ReverseLabels(bLabels);
    less := FirstDifference(aLabels, bLabels, x, y);
  }

  method FirstDifference(aLabels: array<Octets>, bLabels: array<Octets>, ghost x: Labels, ghost y: Labels)
    returns (less: bool)
    requires aLabels[..] == Reversed(x) && bLabels[..] == Reversed(y)
    ensures less == NameLess(x, y)
  {
    var i := 0;
    while i < aLabels.Length && i < bLabels.Length
      invariant 0 <= i <= aLabels.Length && i <= bLabels.Length
      invariant Reversed(x)[..i] == Reversed(y)[..i]
    {
      ghost var p, q := Reversed(x)[i], Reversed(y)[i];
      assert aLabels[i] == aLabels[..][i] == p && bLabels[i] == bLabels[..][i] == q;
      if Less(aLabels[i], bLabels[i]) {
        DecidedBefore(x, y, i);
        return true;
      }
      if Less(bLabels[i], aLabels[i]) {
        DecidedBefore(y, x, i);
        return false;
      }
      LessTotal(p, q);
      i := i + 1;
    }
    DecidedByLength(x, y);
    return aLabels.Length < bLabels.Length;
  }

  lemma DecidedBefore(x: Labels, y: Labels, k: nat)
    requires k < |x| && k < |y| && Reversed(x)[..k] == Reversed(y)[..k]
    requires Less(Reversed(x)[k], Reversed(y)[k])
    ensures NameLess(x, y) && !NameLess(y, x)
  {
    LessIrreflexive(Reversed(x)[k]);
    DecidedAt(x, y, k);
    NameLessIsStrictTotalOrder(x, y, x);
  }

  // ---------- labels against wire format ----------

  /** Labels whose lengths fit an octet; the root's empty label is not one of them. */
  predicate Wirable(n: Labels) {
    forall i | 0 <= i < |n| :: 0 < |n[i]| < 256
  }

  /** Uncompressed wire format: each label behind its length, then a zero. */
  function Wire(n: Labels): Octets
    requires Wirable(n)
  {
    if n == [] then [0 as char] else [|n[0]| as char] + n[0] + Wire(n[1..])
  }

  function Behind(labels: Labels, rest: Option<Labels>): Option<Labels> {
    if rest.None? then None else Some(labels + rest.value)
  }

  lemma BehindBoth(labels: Labels, x: Octets, rest: Option<Labels>)
    ensures Behind(labels, Behind([x], rest)) == Behind(labels + [x], rest)
  {
    if rest.Some? {
      Associate(labels, [x], rest.value);
    }
  }

  /** The labels at the start of some octets, up to the first zero length. */
  function LabelsOf(wire: Octets): Option<Labels> {
    if wire == [] then None
    else
      var next := 1 + wire[0] as int;
      if next == 1 then Some([])
      else if next > |wire| then None
      else
        Behind([wire[1..next]], LabelsOf(wire[next..]))
  }

  lemma LabelsAt(wire: Octets, pos: nat)
    requires pos < |wire|
    ensures var next := pos + 1 + wire[pos] as int;
            LabelsOf(wire[pos..]) ==
            if next == pos + 1 then Some([])
            else if next > |wire| then None
            else Behind([wire[pos + 1..next]], LabelsOf(wire[next..]))
  {
    var rest, next := wire[pos..], pos + 1 + wire[pos] as int;
    assert rest[0] == wire[pos];
    if next <= |wire| {
      assert rest[1..next - pos] == wire[pos + 1..next] && rest[next - pos..] == wire[next..];
    }
  }

  lemma BehindNothing(wire: Octets)
    ensures Behind([], LabelsOf(wire[0..])) == LabelsOf(wire)
  {
    assert wire[0..] == wire;
    if LabelsOf(wire).Some? {
      assert [] + LabelsOf(wire).value == LabelsOf(wire).value;
    }
  }

  /** Reads labels back from wire format, or fails on a name cut short. */
  method CanonicalLabels(wire: Octets) returns (r: Option<Labels>)
    ensures r == LabelsOf(wire)
  {
    var labels: Labels := [];
    var pos := 0;
    BehindNothing(wire);
    while pos < |wire|
      invariant 0 <= pos <= |wire|
      invariant LabelsOf(wire) == Behind(labels, LabelsOf(wire[pos..]))
    {
      var length := wire[pos] as int;
      LabelsAt(wire, pos);
      pos := pos + 1;
      if length == 0 {
        assert labels + [] == labels;
        return Some(labels);
      }
      if pos + length > |wire| {
        return None;
      }
      BehindBoth(labels, wire[pos..pos + length], LabelsOf(wire[pos + length..]));
      labels := labels + [wire[pos..pos + length]];
      pos := pos + length;
    }
    return None;
  }

  /** Exactly the names whose wire format the octets start with are read. */
  lemma LabelsOfIff(wire: Octets, n: Labels)
    requires forall i | 0 <= i < |wire| :: wire[i] as int < 256
    ensures LabelsOf(wire) == Some(n) <==> Wirable(n) && Wire(n) <= wire
  {
    if LabelsOf(wire) == Some(n) {
      ReadIsWritten(wire, n);
    }
    if Wirable(n) && Wire(n) <= wire {
      WrittenIsRead(wire, n);
    }
  }

  lemma FirstLabelRead(wire: Octets, n: Labels)
    requires n != [] && LabelsOf(wire) == Some(n)
    ensures var next := 1 + wire[0] as int;
            1 < next <= |wire| && n[0] == wire[1..next] && LabelsOf(wire[next..]) == Some(n[1..])
  {
    var next := 1 + wire[0] as int;
    var rest := LabelsOf(wire[next..]);
    assert n == [wire[1..next]] + rest.value;
    assert n[1..] == rest.value;
  }

  lemma WireGrows(wire: Octets, n: Labels)
    requires n != [] && Wirable(n) && wire != [] && |n[0]| == wire[0] as int && |n[0]| < |wire|
    requires n[0] == wire[1..|n[0]| + 1] && Wire(n[1..]) <= wire[|n[0]| + 1..]
    ensures Wire(n) <= wire
  {
    var next, tail := |n[0]| + 1, Wire(n[1..]);
    var head := [wire[0]] + n[0];
    assert wire[..next] == head && wire == head + wire[next..];
    assert wire[next..] == tail + wire[next..][|tail|..];
    assert Wire(n) == head + tail;
  }

  lemma {:induction false} ReadIsWritten(wire: Octets, n: Labels)
    requires (forall i | 0 <= i < |wire| :: wire[i] as int < 256) && LabelsOf(wire) == Some(n)
    ensures Wirable(n) && Wire(n) <= wire
    decreases |wire|
  {
    if n != [] {
      FirstLabelRead(wire, n);
      var next := 1 + wire[0] as int;
      ReadIsWritten(wire[next..], n[1..]);
      assert n == [n[0]] + n[1..];
      WireGrows(wire, n);
    }
  }

  lemma {:induction false} WrittenIsRead(wire: Octets, n: Labels)
    requires Wirable(n) && Wire(n) <= wire
    ensures LabelsOf(wire) == Some(n)
    decreases |wire|
  {
    if n != [] {
      WireStarts(wire, n);
      WrittenIsRead(wire[|n[0]| + 1..], n[1..]);
      assert n == [n[0]] + n[1..];
    }
  }

  lemma WireStarts(wire: Octets, n: Labels)
    requires n != [] && Wirable(n) && Wire(n) <= wire
    ensures |wire| > |n[0]| && wire[0] as int == |n[0]| && wire[1..|n[0]| + 1] == n[0]
    ensures Wirable(n[1..]) && Wire(n[1..]) <= wire[|n[0]| + 1..]
  {
    var w, next := Wire(n), |n[0]| + 1;
    assert w == [|n[0]| as char] + n[0] + Wire(n[1..]);
    assert wire[..|w|] == w;
    assert wire[1..next] == w[1..next] == n[0];
    assert w[next..] == Wire(n[1..]);
    assert wire[next..][..|w| - next] == w[next..];
  }
}
