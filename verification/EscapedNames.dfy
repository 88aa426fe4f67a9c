/**
  Names in presentation format (section 5.1 of RFC 1035), and what comparing that
  format instead of the octets does to the order of names.  Special octets stand
  behind a backslash, unprintable ones as a backslash and three digits.
 */
module EscapedNames {
  import opened Wrappers
  import opened ByteOrder
  import opened CanonicalNames
  import opened Sequences

  predicate Special(c: char) {
    c in {'.', ' ', '\'', '@', ';', '(', ')', '"', '\\'}
  }

  predicate Printable(c: char) {
    ' ' <= c <= '~'
  }

  function Digit(n: nat): char {
    '0' + (n % 10) as char
  }

  function Digits(n: nat): Octets {
    [Digit(n / 100), Digit(n / 10), Digit(n)]
  }

  /** The presentation of one octet. */
  function Escaped1(c: char): (r: Octets)
    ensures r != [] && r[0] != '.'
  {
    if Special(c) then ['\\', c]
    else if Printable(c) then [c]
    else ['\\'] + Digits(c as int)
  }

  function Escaped(s: Octets): Octets {
    if s == [] then [] else Escaped1(s[0]) + Escaped(s[1..])
  }

  function EscapedLabels(n: Labels): (r: Labels)
    ensures |r| == |n| && forall i | 0 <= i < |n| :: r[i] == Escaped(n[i])
  {
    seq(|n|, i requires 0 <= i < |n| => Escaped(n[i]))
  }

  /** Labels of a normalised name: not empty, in lower case. */
  predicate PlainLabel(s: Octets) {
    s != [] && forall i | 0 <= i < |s| :: LowerChar(s[i]) == s[i] && s[i] as int < 256
  }

  predicate PlainName(n: Labels) {
    forall i | 0 <= i < |n| :: PlainLabel(n[i])
  }

  type Name = n: Labels | PlainName(n) witness []

  function Dotted(n: Labels): Octets {
    if n == [] then [] else Escaped(n[0]) + "." + Dotted(n[1..])
  }

  /** The fully qualified text of a name. */
  function Text(n: Labels): Octets {
    if n == [] then "." else Dotted(n)
  }

  // ---------- the presentation of octets is a prefix code ----------

  /** Neither string continues the other. */
  predicate Apart(x: Octets, y: Octets) {
    x != [] && y != [] && (x[0] != y[0] || Apart(x[1..], y[1..]))
  }

  lemma {:induction false} ApartDecides(x: Octets, y: Octets, s: Octets, t: Octets)
    requires Apart(x, y)
    ensures x + s != y + t && Less(x + s, y + t) == Less(x, y)
  {
    assert (x + s)[0] == x[0] && (y + t)[0] == y[0];
    assert (x + s)[1..] == x[1..] + s && (y + t)[1..] == y[1..] + t;
    if x[0] == y[0] {
      ApartDecides(x[1..], y[1..], s, t);
    }
  }

  lemma {:induction false} SamePrefix(x: Octets, s: Octets, t: Octets)
    ensures Less(x + s, x + t) == Less(s, t) && (x + s == x + t ==> s == t)
  {
    if x == [] {
      assert x + s == s && x + t == t;
    } else {
      SamePrefix(x[1..], s, t);
      assert (x + s)[1..] == x[1..] + s && (x + t)[1..] == x[1..] + t;
    }
  }

  lemma DigitsAddUp(m: nat)
    requires m < 256
    ensures m == 100 * (m / 100) + 10 * (m / 10 % 10) + m % 10 && m / 100 < 10
    ensures Digits(m) == ['0' + (m / 100) as char, '0' + (m / 10 % 10) as char, '0' + (m % 10) as char]
  {
  }

  lemma DigitsTell(m: nat, n: nat)
    requires m < 256 && n < 256 && Digits(m) == Digits(n)
    ensures m == n
  {
    DigitsAddUp(m);
    DigitsAddUp(n);
    assert Digits(m)[0] == Digits(n)[0] && Digits(m)[1] == Digits(n)[1] && Digits(m)[2] == Digits(n)[2];
  }

  lemma CodesApart(c: char, d: char)
    requires c != d && c as int < 256 && d as int < 256
    ensures Apart(Escaped1(c), Escaped1(d))
  {
    var x, y := Escaped1(c), Escaped1(d);
    if !Special(c) && !Printable(c) && !Special(d) && !Printable(d) {
      if x[1..] == y[1..] {
        DigitsTell(c as int, d as int);
      }
      assert x[1..] == [x[1], x[2], x[3]] && y[1..] == [y[1], y[2], y[3]];
      assert Apart(x[3..], y[3..]) || Apart(x[2..], y[2..]) || Apart(x[1..], y[1..]);
    } else if x[0] == y[0] {
      assert x[1] != y[1];
      assert Apart(x[1..], y[1..]);
    }
  }

  // ---------- the order of labels ----------

  /** At the first octet in which the labels differ, the presentations are ordered as the octets are. */
  predicate LabelKept(x: Octets, y: Octets) {
    x == [] || y == [] ||
    if x[0] == y[0] then LabelKept(x[1..], y[1..]) else OctetsKept(x[0], y[0])
  }

  predicate OctetsKept(c: char, d: char) {
    Less(Escaped1(c), Escaped1(d)) == (c < d)
  }

  predicate Bytes(s: Octets) {
    forall i | 0 <= i < |s| :: s[i] as int < 256
  }

  /** Which octets keep their order: an escape is the backslash, then the special octet or a digit. */
  lemma OctetsKeptIff(c: char, d: char)
    requires c < d && d as int < 256
    ensures OctetsKept(c, d) <==>
              var escapedC, escapedD := Special(c) || !Printable(c), Special(d) || !Printable(d);
              if !escapedC && !escapedD then true
              else if !escapedC then c < '\\'
              else if !escapedD then '\\' < d
              else if Special(c) == Special(d) then true
              else if Special(d) then '0' < d else c < '1'
  {
    CodesApart(c, d);
    var x, y := Escaped1(c), Escaped1(d);
    assert Less(x, y) == (x[0] < y[0] || (x[0] == y[0] && Less(x[1..], y[1..])));
    if |x| > 1 && |y| > 1 {
      assert Less(x[1..], y[1..]) == (x[1] < y[1] || (x[1] == y[1] && Less(x[2..], y[2..])));
      if |x| == 4 && |y| == 4 {
        DigitsKept(c as int, d as int);
      }
    }
  }

  lemma ThreeLess(x: Octets, y: Octets)
    requires |x| == 3 && |y| == 3
    ensures Less(x, y) <==> x[0] < y[0] || (x[0] == y[0] && (x[1] < y[1] || (x[1] == y[1] && x[2] < y[2])))
  {
    assert Less(x, y) == (x[0] < y[0] || (x[0] == y[0] && Less(x[1..], y[1..])));
    assert Less(x[1..], y[1..]) == (x[1] < y[1] || (x[1] == y[1] && Less(x[1..][1..], y[1..][1..])));
    var u, v := [x[2]], [y[2]];
    assert x[1..][1..] == u && y[1..][1..] == v && v[1..] == [];
    assert Less(u, v) == (x[2] < y[2]);
  }

  lemma DigitsKept(m: nat, n: nat)
    requires m < n < 256
    ensures Less(Digits(m), Digits(n))
  {
    DigitsAddUp(m);
    DigitsAddUp(n);
    ThreeLess(Digits(m), Digits(n));
  }

  lemma {:induction false} EscapedLabelOrderIff(x: Octets, y: Octets)
    requires Bytes(x) && Bytes(y)
    ensures Less(Escaped(x), Escaped(y)) == Less(x, y) <==> LabelKept(x, y)
    ensures Escaped(x) == Escaped(y) <==> x == y
  {
    if x != [] && y != [] {
      if x[0] == y[0] {
        EscapedLabelOrderIff(x[1..], y[1..]);
        SamePrefix(Escaped1(x[0]), Escaped(x[1..]), Escaped(y[1..]));
        assert x == [x[0]] + x[1..] && y == [y[0]] + y[1..];
      } else {
        CodesApart(x[0], y[0]);
        ApartDecides(Escaped1(x[0]), Escaped1(y[0]), Escaped(x[1..]), Escaped(y[1..]));
      }
    }
  }

  // ---------- the order of names, label by label ----------

  /** The same of the first labels that differ. */
  predicate ListKept(a: Labels, b: Labels) {
    a == [] || b == [] ||
    if a[0] == b[0] then ListKept(a[1..], b[1..]) else LabelKept(a[0], b[0])
  }

  predicate NameKept(a: Labels, b: Labels) {
    ListKept(Reversed(a), Reversed(b))
  }

  lemma {:induction false} EscapedListOrderIff(a: Labels, b: Labels)
    requires forall x | x in a + b :: Bytes(x)
    ensures ListLess(EscapedLabels(a), EscapedLabels(b)) == ListLess(a, b) <==> ListKept(a, b)
  {
    if a != [] && b != [] {
      assert a[0] in a + b && b[0] in a + b;
      EscapedLabelOrderIff(a[0], b[0]);
      EscapedLabelOrderIff(a[0], a[0]);
      LessIrreflexive(a[0]);
      LessIrreflexive(Escaped(a[0]));
      if a[0] == b[0] {
        assert forall x | x in a[1..] + b[1..] :: x in a + b;
        EscapedListOrderIff(a[1..], b[1..]);
        assert EscapedLabels(a)[1..] == EscapedLabels(a[1..]) && EscapedLabels(b)[1..] == EscapedLabels(b[1..]);
      }
    }
  }

  lemma ReversedEscaped(a: Labels)
    ensures Reversed(EscapedLabels(a)) == EscapedLabels(Reversed(a))
  {
  }

  lemma PlainBytes(n: Name)
    ensures forall x | x in Reversed(n) :: Bytes(x)
  {
    forall x | x in Reversed(n) ensures Bytes(x) {
      var i :| 0 <= i < |n| && n[i] == x;
      assert PlainLabel(n[i]);
    }
  }

  /**
    Comparing labels in presentation format gives the canonical order of two names exactly
    when the octets that decide it are presented in their own order.
   */
  lemma EscapedOrderIff(a: Name, b: Name)
    ensures NameLess(EscapedLabels(a), EscapedLabels(b)) == NameLess(a, b) <==> NameKept(a, b)
  {
    PlainBytes(a);
    PlainBytes(b);
    ReversedEscaped(a);
    ReversedEscaped(b);
    EscapedListOrderIff(Reversed(a), Reversed(b));
  }

  // ---------- the order of names, as text split at its dots ----------

  /** What the cache compares: the text of the name, split at every dot, an escaped one included. */
  function Pieces(n: Labels): (r: Labels)
    ensures r != []
  {
    TextLabels(Text(n))
  }

  predicate TextLess(a: Labels, b: Labels) {
    NameLess(Pieces(a), Pieces(b))
  }

  /** The pieces of a text with one more octet in front. */
  function InFront(c: char, pieces: Labels): Labels
    requires pieces != []
  {
    if c == '.' then [[]] + pieces else [[c] + pieces[0]] + pieces[1..]
  }

  lemma InFrontOfBoth(c: char, head: Labels, tail: Labels)
    requires head != []
    ensures InFront(c, head + tail) == InFront(c, head) + tail
  {
    assert (head + tail)[0] == head[0] && (head + tail)[1..] == head[1..] + tail;
  }

  lemma {:induction false} SplitConcat(s: Octets, t: Octets)
    ensures SplitDots(s + "." + t) == SplitDots(s) + SplitDots(t)
  {
    var whole := s + "." + t;
    if s == [] {
      assert whole[1..] == t;
    } else {
      SplitConcat(s[1..], t);
      assert whole[0] == s[0] && whole[1..] == s[1..] + "." + t;
      assert SplitDots(whole) == InFront(s[0], SplitDots(whole[1..]));
      InFrontOfBoth(s[0], SplitDots(s[1..]), SplitDots(t));
    }
  }

  lemma {:induction false} SplitWhole(s: Octets)
    requires '.' !in s
    ensures SplitDots(s) == [s]
  {
    if s != [] {
      SplitWhole(s[1..]);
      assert [s[0]] + s[1..] == s;
    }
  }

  function JoinDots(l: Labels): Octets
    requires l != []
  {
    if |l| == 1 then l[0] else l[0] + "." + JoinDots(l[1..])
  }

  lemma JoinPrepended(l: Labels)
    requires l != []
    ensures JoinDots([[]] + l) == "." + JoinDots(l)
  {
    assert ([[]] + l)[1..] == l;
    assert [] + "." == ".";
  }

  lemma JoinGrown(c: char, l: Labels)
    requires l != []
    ensures JoinDots([[c] + l[0]] + l[1..]) == [c] + JoinDots(l)
  {
    var m := [[c] + l[0]] + l[1..];
    assert m[1..] == l[1..] && m[0] == [c] + l[0];
    if |l| > 1 {
      Associate([c], l[0], ".");
      Associate([c], l[0] + ".", JoinDots(l[1..]));
    }
  }

  lemma {:induction false} JoinSplit(s: Octets)
    ensures JoinDots(SplitDots(s)) == s
  {
    if s != [] {
      JoinSplit(s[1..]);
      assert s == [s[0]] + s[1..];
      if s[0] == '.' {
        JoinPrepended(SplitDots(s[1..]));
      } else {
        JoinGrown(s[0], SplitDots(s[1..]));
      }
    }
  }

  /** The text without its final dot. */
  function Body(n: Labels): Octets {
    TrimDot(Text(n))
  }

  lemma {:induction false} DottedEnds(n: Labels)
    requires n != []
    ensures Dotted(n) != [] && Dotted(n)[|Dotted(n)| - 1] == '.'
  {
    if |n| > 1 {
      DottedEnds(n[1..]);
    } else {
      assert n[1..] == [];
    }
  }

  lemma TextIsBody(n: Labels)
    ensures Text(n) == Body(n) + "."
  {
    if n != [] {
      DottedEnds(n);
      WithDot(Dotted(n));
    }
  }

  lemma WithDot(s: Octets)
    requires s != [] && s[|s| - 1] == '.'
    ensures s == TrimDot(s) + "."
  {
  }

  predicate AllLower(s: Octets) {
    forall i | 0 <= i < |s| :: LowerChar(s[i]) == s[i]
  }

  lemma LowerOf(s: Octets)
    requires AllLower(s)
    ensures Lower(s) == s
  {
  }

  lemma {:induction false} EscapedIsLower(s: Octets)
    requires AllLower(s)
    ensures AllLower(Escaped(s))
  {
    if s != [] {
      EscapedIsLower(s[1..]);
      assert AllLower(Escaped1(s[0]));
    }
  }

  lemma {:induction false} DottedIsLower(n: Labels)
    requires forall i | 0 <= i < |n| :: AllLower(n[i])
    ensures AllLower(Dotted(n))
  {
    if n != [] {
      DottedIsLower(n[1..]);
      EscapedIsLower(n[0]);
      LowerConcat(Escaped(n[0]), ".");
      LowerConcat(Escaped(n[0]) + ".", Dotted(n[1..]));
    }
  }

  lemma LowerConcat(s: Octets, t: Octets)
    requires AllLower(s) && AllLower(t)
    ensures AllLower(s + t)
  {
  }

  lemma PiecesOfBody(n: Name)
    ensures Pieces(n) == SplitDots(Body(n))
  {
    forall i | 0 <= i < |n| ensures AllLower(n[i]) {
      assert PlainLabel(n[i]);
    }
    DottedIsLower(n);
    LowerOf(Body(n));
  }

  // ---------- the text tells the name ----------

  predicate AllBytes(n: Labels) {
    forall i | 0 <= i < |n| :: Bytes(n[i])
  }

  /** The name without its first octet. */
  function Shorter(a: Labels): Labels
    requires a != [] && a[0] != []
  {
    [a[0][1..]] + a[1..]
  }

  lemma {:induction false} DottedTells(a: Labels, b: Labels)
    requires AllBytes(a) && AllBytes(b) && Dotted(a) == Dotted(b)
    ensures a == b
    decreases |Dotted(a)|
  {
    if a == [] || b == [] {
      assert a != [] ==> Dotted(a) != [];
      assert b != [] ==> Dotted(b) != [];
    } else {
      StartsWithDot(a);
      StartsWithDot(b);
      if a[0] == [] {
        assert Dotted(a)[1..] == Dotted(a[1..]) && Dotted(b)[1..] == Dotted(b[1..]);
        DottedTells(a[1..], b[1..]);
        assert a == [a[0]] + a[1..] && b == [b[0]] + b[1..];
      } else {
        FirstOctetTold(a, b);
        DottedTells(Shorter(a), Shorter(b));
        FromShorter(a, b);
      }
    }
  }

  lemma FirstOctetTold(a: Labels, b: Labels)
    requires a != [] && a[0] != [] && b != [] && b[0] != [] && AllBytes(a) && AllBytes(b) && Dotted(a) == Dotted(b)
    ensures a[0][0] == b[0][0] && Dotted(Shorter(a)) == Dotted(Shorter(b)) && |Dotted(Shorter(a))| < |Dotted(a)|
    ensures AllBytes(Shorter(a)) && AllBytes(Shorter(b))
  {
    OctetFirst(a);
    OctetFirst(b);
    var c, d := a[0][0], b[0][0];
    assert Bytes(a[0]) && Bytes(b[0]);
    if c == d {
      SamePrefix(Escaped1(c), Dotted(Shorter(a)), Dotted(Shorter(b)));
    } else {
      CodesApart(c, d);
      ApartDecides(Escaped1(c), Escaped1(d), Dotted(Shorter(a)), Dotted(Shorter(b)));
    }
  }

  lemma FromShorter(a: Labels, b: Labels)
    requires a != [] && a[0] != [] && b != [] && b[0] != [] && a[0][0] == b[0][0] && Shorter(a) == Shorter(b)
    ensures a == b
  {
    assert a[0][1..] == Shorter(a)[0] == b[0][1..] && a[1..] == Shorter(a)[1..] == b[1..];
    assert a[0] == [a[0][0]] + a[0][1..] && b[0] == [b[0][0]] + b[0][1..];
    assert a == [a[0]] + a[1..] && b == [b[0]] + b[1..];
  }

  lemma OctetFirst(a: Labels)
    requires a != [] && a[0] != []
    ensures Dotted(a) == Escaped1(a[0][0]) + Dotted(Shorter(a))
  {
    var p := Shorter(a);
    assert p[0] == a[0][1..] && p[1..] == a[1..];
    var first, rest := Escaped1(a[0][0]), Escaped(a[0][1..]);
    Associate(first, rest, ".");
    Associate(first, rest + ".", Dotted(a[1..]));
  }

  lemma StartsWithDot(a: Labels)
    requires a != []
    ensures Dotted(a) != [] && (Dotted(a)[0] == '.' <==> a[0] == [])
  {
    if a[0] != [] {
      OctetFirst(a);
    }
  }

  lemma DottedIsNotRoot(n: Name)
    requires n != []
    ensures Dotted(n) != "."
  {
    assert PlainLabel(n[0]);
    StartsWithDot(n);
  }

  lemma PiecesTell(a: Name, b: Name)
    requires Pieces(a) == Pieces(b)
    ensures a == b
  {
    PiecesOfBody(a);
    PiecesOfBody(b);
    JoinSplit(Body(a));
    JoinSplit(Body(b));
    TextIsBody(a);
    TextIsBody(b);
    forall n: Name, i | 0 <= i < |n| ensures Bytes(n[i]) {
      assert PlainLabel(n[i]);
    }
    if a != [] && b != [] {
      DottedTells(a, b);
    } else if a != [] {
      DottedIsNotRoot(a);
    } else if b != [] {
      DottedIsNotRoot(b);
    }
  }

  /** The cache's comparison is a strict total order on names, if not the canonical one. */
  lemma TextLessIsStrictTotalOrder(a: Name, b: Name, c: Name)
    ensures !TextLess(a, a)
    ensures TextLess(a, b) && TextLess(b, c) ==> TextLess(a, c)
    ensures TextLess(a, b) || a == b || TextLess(b, a)
    ensures TextLess(a, b) ==> !TextLess(b, a) && a != b
  {
    NameLessIsStrictTotalOrder(Pieces(a), Pieces(b), Pieces(c));
    if Pieces(a) == Pieces(b) {
      PiecesTell(a, b);
    }
  }

  // ---------- where text order is canonical ----------

  lemma {:induction false} DottedConcat(front: Labels, zone: Labels)
    ensures Dotted(front + zone) == Dotted(front) + Dotted(zone)
  {
    if front == [] {
      assert front + zone == zone;
    } else {
      assert (front + zone)[0] == front[0] && (front + zone)[1..] == front[1..] + zone;
      DottedConcat(front[1..], zone);
      Associate(Escaped(front[0]) + ".", Dotted(front[1..]), Dotted(zone));
    }
  }

  lemma BodyConcat(front: Labels, zone: Labels)
    requires front != [] && zone != []
    ensures Body(front + zone) == Body(front) + "." + Body(zone)
  {
    DottedConcat(front, zone);
    TextIsBody(front);
    TextIsBody(zone);
    Associate(Text(front), Body(zone), ".");
    TrimmedDot(Text(front) + Body(zone));
  }

  lemma TrimmedDot(s: Octets)
    ensures TrimDot(s + ".") == s
  {
  }

  /** The pieces of a name end with those of a name it is below. */
  lemma PiecesBelow(front: Name, zone: Name) returns (head: Labels)
    requires front != [] && zone != [] && PlainName(front + zone)
    ensures head != [] && Pieces(front + zone) == head + Pieces(zone)
  {
    PiecesOfBody(zone);
    PiecesOfBody(front + zone);
    BodyConcat(front, zone);
    SplitConcat(Body(front), Body(zone));
    head := SplitDots(Body(front));
  }

  lemma ListBelow(head: Labels, last: Labels)
    requires head != []
    ensures NameLess(last, head + last)
  {
    var all := head + last;
    assert all[|all| - |last|..] == last;
    AncestorFirst(last, all);
  }

  /** A name below another comes after it, in text as in canonical order. */
  lemma TextAncestorFirst(zone: Name, name: Name)
    requires |zone| < |name| && IsSubDomain(zone, name)
    ensures TextLess(zone, name)
  {
    if zone == [] {
      PiecesOfBody(zone);
      if Pieces(name) == [[]] {
        PiecesTell(zone, name);
      }
      RootFirst(Pieces(name));
    } else {
      var front: Name := name[..|name| - |zone|];
      assert name == front + zone;
      var head := PiecesBelow(front, zone);
      ListBelow(head, Pieces(zone));
    }
  }

  lemma RootFirst(pieces: Labels)
    requires pieces != [] && pieces != [[]]
    ensures NameLess([[]], pieces)
  {
    assert Reversed([[]]) == [[]];
    if |pieces| == 1 {
      assert pieces == [pieces[0]];
    }
  }

  /** The first elements in which two lists differ. */
  function FirstApart(a: Labels, b: Labels): Option<(Octets, Octets)> {
    if a == [] || b == [] then None
    else if a[0] != b[0] then Some((a[0], b[0]))
    else FirstApart(a[1..], b[1..])
  }

  lemma {:induction false} FirstApartDecides(a: Labels, b: Labels)
    ensures ListLess(a, b) == match FirstApart(a, b)
                              case None => |a| < |b|
                              case Some(pair) => Less(pair.0, pair.1)
    ensures FirstApart(a, b).Some? ==> FirstApart(a, b).value.0 != FirstApart(a, b).value.1
    ensures FirstApart(a, b).None? ==> if |a| <= |b| then b[..|a|] == a else a[..|b|] == b
  {
    if a != [] && b != [] {
      LessIrreflexive(a[0]);
      if a[0] == b[0] {
        FirstApartDecides(a[1..], b[1..]);
      }
    }
  }

  // ---------- the pieces of a label ----------

  predicate Escapes(c: char) {
    Special(c) || !Printable(c)
  }

  /** An escaped dot leaves its backslash behind. */
  function DotMark(inner: bool): Octets {
    if inner then "\\" else []
  }

  /** The order of two pieces of text, by the octets between the dots; inner pieces end in a backslash. */
  predicate PieceLess(u: Octets, innerU: bool, v: Octets, innerV: bool) {
    if u == [] && v == [] then !innerU && innerV
    else if u == [] then !innerU || Escapes(v[0]) || '\\' < v[0]
    else if v == [] then innerV && !Escapes(u[0]) && u[0] < '\\'
    else if u[0] == v[0] then PieceLess(u[1..], innerU, v[1..], innerV)
    else Less(Escaped1(u[0]), Escaped1(v[0]))
  }

  lemma EmptyPieceFirst(inner: bool, c: char, t: Octets)
    ensures Less(DotMark(inner), Escaped1(c) + t) <==> !inner || Escapes(c) || '\\' < c
    ensures DotMark(inner) != Escaped1(c) + t
    ensures Less(Escaped1(c) + t, DotMark(inner)) <==> inner && !Escapes(c) && c < '\\'
  {
  }

  lemma {:induction false} PieceLessIs(u: Octets, innerU: bool, v: Octets, innerV: bool)
    requires Bytes(u) && Bytes(v)
    ensures Less(Escaped(u) + DotMark(innerU), Escaped(v) + DotMark(innerV)) == PieceLess(u, innerU, v, innerV)
    ensures Escaped(u) + DotMark(innerU) == Escaped(v) + DotMark(innerV) ==> u == v && innerU == innerV
  {
    if u != [] && v != [] {
      var x, y := Escaped(u[1..]) + DotMark(innerU), Escaped(v[1..]) + DotMark(innerV);
      Associate(Escaped1(u[0]), Escaped(u[1..]), DotMark(innerU));
      Associate(Escaped1(v[0]), Escaped(v[1..]), DotMark(innerV));
      if u[0] == v[0] {
        PieceLessIs(u[1..], innerU, v[1..], innerV);
        SamePrefix(Escaped1(u[0]), x, y);
        assert u == [u[0]] + u[1..] && v == [v[0]] + v[1..];
      } else {
        CodesApart(u[0], v[0]);
        ApartDecides(Escaped1(u[0]), Escaped1(v[0]), x, y);
      }
    } else if u != [] {
      Associate(Escaped1(u[0]), Escaped(u[1..]), DotMark(innerU));
      EmptyPieceFirst(innerV, u[0], Escaped(u[1..]) + DotMark(innerU));
    } else if v != [] {
      Associate(Escaped1(v[0]), Escaped(v[1..]), DotMark(innerV));
      EmptyPieceFirst(innerU, v[0], Escaped(v[1..]) + DotMark(innerV));
    }
  }

  /** The parts of a label between its dots, from the last. */
  function Parts(x: Octets): (r: Labels)
    ensures r != []
  {
    Reversed(SplitDots(x))
  }

  /** Parts in presentation format; all but the last of the label end in the backslash of a dot. */
  function PartPieces(parts: Labels, inner: bool): (r: Labels)
    ensures |r| == |parts|
  {
    if parts == [] then [] else [Escaped(parts[0]) + DotMark(inner)] + PartPieces(parts[1..], true)
  }

  lemma {:induction false} PartPiecesAppend(parts: Labels, first: Octets, inner: bool)
    ensures PartPieces(parts + [first], inner) ==
            PartPieces(parts, inner) + [Escaped(first) + DotMark(inner || parts != [])]
  {
    if parts == [] {
      assert [] + [first] == [first] && [first][1..] == [];
    } else {
      assert (parts + [first])[0] == parts[0] && (parts + [first])[1..] == parts[1..] + [first];
      PartPiecesAppend(parts[1..], first, true);
    }
  }

  /** The same, from the first part on. */
  function Presented(parts: Labels): (r: Labels)
    requires parts != []
    ensures |r| == |parts|
  {
    if |parts| == 1 then [Escaped(parts[0])] else [Escaped(parts[0]) + DotMark(true)] + Presented(parts[1..])
  }

  lemma ReversedConcat(a: Labels, b: Labels)
    ensures Reversed(a + b) == Reversed(b) + Reversed(a)
  {
  }

  lemma {:induction false} PresentedFromEnd(parts: Labels)
    requires parts != []
    ensures Reversed(Presented(parts)) == PartPieces(Reversed(parts), false)
  {
    var first := parts[0];
    if |parts| == 1 {
      assert Reversed(parts) == [first] && [first][1..] == [] && Reversed([Escaped(first)]) == [Escaped(first)];
      assert Escaped(first) + DotMark(false) == Escaped(first);
    } else {
      PresentedFromEnd(parts[1..]);
      ReversedConcat([first], parts[1..]);
      assert parts == [first] + parts[1..] && Reversed([first]) == [first];
      ReversedConcat([Escaped(first) + DotMark(true)], Presented(parts[1..]));
      assert Reversed([Escaped(first) + DotMark(true)]) == [Escaped(first) + DotMark(true)];
      PartPiecesAppend(Reversed(parts[1..]), first, false);
    }
  }

  lemma {:induction false} SplitPrefixed(p: Octets, t: Octets)
    requires '.' !in p
    ensures SplitDots(p + t) == [p + SplitDots(t)[0]] + SplitDots(t)[1..]
  {
    var pieces := SplitDots(t);
    if p == [] {
      assert p + t == t && p + pieces[0] == pieces[0] && pieces == [pieces[0]] + pieces[1..];
    } else {
      SplitPrefixed(p[1..], t);
      assert (p + t)[0] == p[0] && (p + t)[1..] == p[1..] + t;
      assert [p[0]] + (p[1..] + pieces[0]) == p + pieces[0];
    }
  }

  lemma PresentedPrefixed(c: char, parts: Labels)
    requires parts != [] && c != '.'
    ensures var more, pieces := [[c] + parts[0]] + parts[1..], Presented(parts);
            Presented(more) == [Escaped1(c) + pieces[0]] + pieces[1..]
  {
    var more := [[c] + parts[0]] + parts[1..];
    assert more[0][0] == c && more[0][1..] == parts[0] && more[1..] == parts[1..];
    Associate(Escaped1(c), Escaped(parts[0]), DotMark(true));
  }

  lemma PresentedDot(parts: Labels)
    requires parts != []
    ensures Presented([[]] + parts) == [DotMark(true)] + Presented(parts)
  {
    assert ([[]] + parts)[1..] == parts && Escaped([]) + DotMark(true) == DotMark(true);
  }

  /** Splitting the presentation of a label gives the presentation of its parts. */
  lemma {:induction false} SplitEscaped(x: Octets)
    ensures SplitDots(Escaped(x)) == Presented(SplitDots(x))
  {
    if x != [] {
      var rest := x[1..];
      SplitEscaped(rest);
      if x[0] == '.' {
        assert Escaped(x) == DotMark(true) + "." + Escaped(rest);
        SplitConcat(DotMark(true), Escaped(rest));
        SplitWhole(DotMark(true));
        PresentedDot(SplitDots(rest));
      } else {
        SplitPrefixed(Escaped1(x[0]), Escaped(rest));
        PresentedPrefixed(x[0], SplitDots(rest));
      }
    }
  }

  lemma LabelPieces(x: Octets)
    ensures Reversed(SplitDots(Escaped(x))) == PartPieces(Parts(x), false)
  {
    SplitEscaped(x);
    PresentedFromEnd(SplitDots(x));
  }

  // ---------- the pieces of a name, from the root ----------

  function RootPieces(n: Labels): Labels {
    if n == [] then [] else PartPieces(Parts(n[0]), false) + RootPieces(n[1..])
  }

  lemma {:induction false} RootPiecesAppend(n: Labels, l: Octets)
    ensures RootPieces(n + [l]) == RootPieces(n) + PartPieces(Parts(l), false)
  {
    if n == [] {
      assert [] + [l] == [l] && [l][1..] == [];
    } else {
      assert (n + [l])[0] == n[0] && (n + [l])[1..] == n[1..] + [l];
      RootPiecesAppend(n[1..], l);
      AssociateLists(PartPieces(Parts(n[0]), false), RootPieces(n[1..]), PartPieces(Parts(l), false));
    }
  }

  lemma AssociateLists(a: Labels, b: Labels, c: Labels)
    ensures (a + b) + c == a + (b + c)
  {
  }

  lemma BodyOfLabel(l: Octets)
    ensures Body([l]) == Escaped(l)
  {
    assert [l][1..] == [];
    assert Dotted([l]) == Escaped(l) + "." + [] == Escaped(l) + ".";
    TrimmedDot(Escaped(l));
  }

  lemma {:induction false} PiecesFromRoot(n: Labels)
    requires n != []
    ensures Reversed(SplitDots(Body(n))) == RootPieces(Reversed(n))
  {
    var l, rest := n[0], n[1..];
    assert n == [l] + rest && Reversed([l]) == [l];
    BodyOfLabel(l);
    LabelPieces(l);
    ReversedConcat([l], rest);
    RootPiecesAppend(Reversed(rest), l);
    if rest == [] {
      assert n == [l];
    } else {
      PiecesFromRoot(rest);
      SplitTwo([l], rest);
      ReversedConcat(SplitDots(Body([l])), SplitDots(Body(rest)));
    }
  }

  // ---------- the first labels that differ ----------

  /**
    Which of two labels the text puts first: the last parts that differ decide.  Where one
    label is a dot and the other at its end, the label after the other one is compared with
    the part before that dot, and a name that has no such label comes first.
   */
  predicate PartsLess(p: Labels, moreP: Labels, q: Labels, moreQ: Labels, inner: bool) {
    if p == [] && q == [] then false
    else if p == [] then moreP == [] || PieceLess(Parts(moreP[0])[0], false, q[0], inner)
    else if q == [] then moreQ != [] && PieceLess(p[0], inner, Parts(moreQ[0])[0], false)
    else if p[0] == q[0] then PartsLess(p[1..], moreP, q[1..], moreQ, true)
    else PieceLess(p[0], inner, q[0], inner)
  }

  /** From the root down: text orders the first labels that differ as they are ordered themselves. */
  predicate TextKept(a: Labels, b: Labels) {
    a == [] || b == [] ||
    if a[0] == b[0] then TextKept(a[1..], b[1..])
    else Less(a[0], b[0]) == PartsLess(Parts(a[0]), a[1..], Parts(b[0]), b[1..], false)
  }

  predicate KeepsOrder(a: Labels, b: Labels) {
    TextKept(Reversed(a), Reversed(b))
  }

  lemma ListSamePrefix(c: Octets, s: Labels, t: Labels)
    ensures ListLess([c] + s, [c] + t) == ListLess(s, t)
  {
    LessIrreflexive(c);
    assert ([c] + s)[1..] == s && ([c] + t)[1..] == t;
  }

  lemma {:induction false} ListSameStart(x: Labels, s: Labels, t: Labels)
    ensures ListLess(x + s, x + t) == ListLess(s, t)
  {
    if x == [] {
      assert x + s == s && x + t == t;
    } else {
      assert x + s == [x[0]] + (x[1..] + s) && x + t == [x[0]] + (x[1..] + t);
      ListSamePrefix(x[0], x[1..] + s, x[1..] + t);
      ListSameStart(x[1..], s, t);
    }
  }

  lemma FirstDecides(c: Octets, s: Labels, d: Octets, t: Labels)
    requires c != d
    ensures ListLess([c] + s, [d] + t) == Less(c, d)
  {
  }

  lemma PartPiecesStart(p: Labels, inner: bool, s: Labels)
    requires p != []
    ensures PartPieces(p, inner) + s == [Escaped(p[0]) + DotMark(inner)] + (PartPieces(p[1..], true) + s)
  {
  }

  lemma RootPiecesStart(n: Labels) returns (s: Labels)
    requires n != []
    ensures RootPieces(n) == [Escaped(Parts(n[0])[0])] + s
  {
    var p := Parts(n[0]);
    s := PartPieces(p[1..], true) + RootPieces(n[1..]);
    PartPiecesStart(p, false, RootPieces(n[1..]));
    assert Escaped(p[0]) + DotMark(false) == Escaped(p[0]);
  }

  lemma {:induction false} SplitBytes(x: Octets)
    requires Bytes(x)
    ensures AllBytes(SplitDots(x))
  {
    if x != [] {
      SplitBytes(x[1..]);
    }
  }

  lemma PartsBytes(x: Octets)
    requires Bytes(x)
    ensures AllBytes(Parts(x))
  {
    SplitBytes(x);
  }

  /** The labels run out of parts on one side: the next label decides, and is never the same piece. */
  lemma NextLabelDecides(q: Labels, moreP: Labels, t: Labels)
    requires q != [] && AllBytes(q) && AllBytes(moreP)
    ensures ListLess(RootPieces(moreP), PartPieces(q, true) + t) ==
            (moreP == [] || PieceLess(Parts(moreP[0])[0], false, q[0], true))
    ensures ListLess(PartPieces(q, true) + t, RootPieces(moreP)) ==
            (moreP != [] && PieceLess(q[0], true, Parts(moreP[0])[0], false))
  {
    PartPiecesStart(q, true, t);
    if moreP != [] {
      var s := RootPiecesStart(moreP);
      var u, v := Parts(moreP[0])[0], q[0];
      assert Bytes(moreP[0]) && Bytes(q[0]);
      PartsBytes(moreP[0]);
      PieceLessIs(u, false, v, true);
      PieceLessIs(v, true, u, false);
      assert Escaped(u) + DotMark(false) == Escaped(u);
      FirstDecides(Escaped(u), s, Escaped(v) + DotMark(true), PartPieces(q[1..], true) + t);
      FirstDecides(Escaped(v) + DotMark(true), PartPieces(q[1..], true) + t, Escaped(u), s);
    }
  }

  lemma SamePartFirst(p: Labels, q: Labels, inner: bool, s: Labels, t: Labels)
    requires p != [] && q != [] && p[0] == q[0]
    ensures ListLess(PartPieces(p, inner) + s, PartPieces(q, inner) + t) ==
            ListLess(PartPieces(p[1..], true) + s, PartPieces(q[1..], true) + t)
  {
    PartPiecesStart(p, inner, s);
    PartPiecesStart(q, inner, t);
    ListSamePrefix(Escaped(p[0]) + DotMark(inner), PartPieces(p[1..], true) + s, PartPieces(q[1..], true) + t);
  }

  lemma OtherPartFirst(p: Labels, q: Labels, inner: bool, s: Labels, t: Labels)
    requires p != [] && q != [] && p[0] != q[0] && Bytes(p[0]) && Bytes(q[0])
    ensures ListLess(PartPieces(p, inner) + s, PartPieces(q, inner) + t) == PieceLess(p[0], inner, q[0], inner)
  {
    PartPiecesStart(p, inner, s);
    PartPiecesStart(q, inner, t);
    PieceLessIs(p[0], inner, q[0], inner);
    FirstDecides(Escaped(p[0]) + DotMark(inner), PartPieces(p[1..], true) + s,
                 Escaped(q[0]) + DotMark(inner), PartPieces(q[1..], true) + t);
  }

  lemma {:induction false} PartsDecide(p: Labels, moreP: Labels, q: Labels, moreQ: Labels, inner: bool)
    requires AllBytes(p) && AllBytes(q) && AllBytes(moreP) && AllBytes(moreQ)
    requires p != q && (inner || (p != [] && q != []))
    ensures ListLess(PartPieces(p, inner) + RootPieces(moreP), PartPieces(q, inner) + RootPieces(moreQ)) ==
            PartsLess(p, moreP, q, moreQ, inner)
  {
    var s, t := RootPieces(moreP), RootPieces(moreQ);
    if p == [] {
      assert PartPieces(p, inner) + s == s;
      NextLabelDecides(q, moreP, t);
    } else if q == [] {
      assert PartPieces(q, inner) + t == t;
      NextLabelDecides(p, moreQ, s);
    } else if p[0] == q[0] {
      assert p == [p[0]] + p[1..] && q == [q[0]] + q[1..];
      SamePartFirst(p, q, inner, s, t);
      PartsDecide(p[1..], moreP, q[1..], moreQ, true);
    } else {
      assert Bytes(p[0]) && Bytes(q[0]);
      OtherPartFirst(p, q, inner, s, t);
    }
  }

  lemma PartsTell(x: Octets, y: Octets)
    requires Parts(x) == Parts(y)
    ensures x == y
  {
    ReversedTwice(SplitDots(x));
    ReversedTwice(SplitDots(y));
    JoinSplit(x);
    JoinSplit(y);
  }

  lemma {:induction false} RootOrderIff(a: Labels, b: Labels)
    requires AllBytes(a) && AllBytes(b) && FirstApart(a, b).Some?
    ensures ListLess(RootPieces(a), RootPieces(b)) == ListLess(a, b) <==> TextKept(a, b)
  {
    var x, y := a[0], b[0];
    assert Bytes(x) && Bytes(y);
    if x == y {
      RootOrderIff(a[1..], b[1..]);
      ListSameStart(PartPieces(Parts(x), false), RootPieces(a[1..]), RootPieces(b[1..]));
      assert a == [x] + a[1..] && b == [x] + b[1..];
      ListSamePrefix(x, a[1..], b[1..]);
    } else {
      PartsBytes(x);
      PartsBytes(y);
      if Parts(x) == Parts(y) {
        PartsTell(x, y);
      }
      PartsDecide(Parts(x), a[1..], Parts(y), b[1..], false);
    }
  }

  lemma EqualOrBelow(a: Name, b: Name)
    requires FirstApart(Reversed(a), Reversed(b)).None?
    ensures TextLess(a, b) == NameLess(a, b)
  {
    FirstApartDecides(Reversed(a), Reversed(b));
    TextLessIsStrictTotalOrder(a, b, a);
    ReversedTwice(a);
    ReversedTwice(b);
    if |a| < |b| {
      TailOfReversed(a, b);
      TextAncestorFirst(a, b);
    } else if |b| < |a| {
      TailOfReversed(b, a);
      TextAncestorFirst(b, a);
      TextLessIsStrictTotalOrder(b, a, b);
    }
  }

  lemma TailOfReversed(zone: Labels, name: Labels)
    requires |zone| <= |name| && Reversed(name)[..|zone|] == Reversed(zone)
    ensures IsSubDomain(zone, name)
  {
    var k := |name| - |zone|;
    forall i | 0 <= i < |zone| ensures name[k + i] == zone[i] {
      assert Reversed(name)[..|zone|][|zone| - 1 - i] == Reversed(zone)[|zone| - 1 - i];
    }
  }

  lemma {:induction false} NeverApartIsKept(a: Labels, b: Labels)
    requires FirstApart(a, b).None?
    ensures TextKept(a, b)
  {
    if a != [] && b != [] {
      NeverApartIsKept(a[1..], b[1..]);
    }
  }

  /** The cache orders two names canonically exactly when it orders the first labels that differ so. */
  lemma TextOrderIff(a: Name, b: Name)
    ensures TextLess(a, b) == NameLess(a, b) <==> KeepsOrder(a, b)
  {
    if FirstApart(Reversed(a), Reversed(b)).None? {
      EqualOrBelow(a, b);
      NeverApartIsKept(Reversed(a), Reversed(b));
    } else {
      PlainBytes(a);
      PlainBytes(b);
      PiecesOfBody(a);
      PiecesOfBody(b);
      PiecesFromRoot(a);
      PiecesFromRoot(b);
      RootOrderIff(Reversed(a), Reversed(b));
    }
  }

  // ---------- labels without dots, and labels without escapes ----------

  predicate DotFree(n: Labels) {
    forall i | 0 <= i < |n| :: '.' !in n[i]
  }

  lemma {:induction false} EscapedDotFree(s: Octets)
    requires '.' !in s
    ensures '.' !in Escaped(s)
  {
    if s != [] {
      EscapedDotFree(s[1..]);
      assert s[0] != '.';
    }
  }

  lemma SplitOneLabel(l: Octets)
    requires '.' !in l
    ensures SplitDots(Body([l])) == [Escaped(l)]
  {
    EscapedDotFree(l);
    BodyOfLabel(l);
    SplitWhole(Escaped(l));
  }

  lemma SplitTwo(front: Labels, rest: Labels)
    requires front != [] && rest != []
    ensures SplitDots(Body(front + rest)) == SplitDots(Body(front)) + SplitDots(Body(rest))
  {
    BodyConcat(front, rest);
    SplitConcat(Body(front), Body(rest));
  }

  lemma EscapedFirst(l: Octets, rest: Labels)
    ensures EscapedLabels([l] + rest) == [Escaped(l)] + EscapedLabels(rest)
  {
  }

  lemma SplitBodyStep(l: Octets, rest: Labels)
    requires '.' !in l && rest != [] && SplitDots(Body(rest)) == EscapedLabels(rest)
    ensures SplitDots(Body([l] + rest)) == EscapedLabels([l] + rest)
  {
    SplitOneLabel(l);
    SplitTwo([l], rest);
    EscapedFirst(l, rest);
  }

  lemma {:induction false} SplitBody(n: Labels)
    requires n != [] && DotFree(n)
    ensures SplitDots(Body(n)) == EscapedLabels(n)
  {
    var l, rest := n[0], n[1..];
    assert n == [l] + rest;
    if rest == [] {
      assert n == [l];
      SplitOneLabel(l);
    } else {
      SplitBody(rest);
      SplitBodyStep(l, rest);
    }
  }

  /** Without dots in labels, the pieces are the labels in presentation format. */
  lemma PiecesOfDotFree(n: Name)
    requires n != [] && DotFree(n)
    ensures Pieces(n) == EscapedLabels(n)
  {
    PiecesOfBody(n);
    SplitBody(n);
  }

  /** For such names only the first octets that differ matter, to the cache as to the policy engine. */
  lemma DotFreeKeepsOrderIff(a: Name, b: Name)
    requires DotFree(a) && DotFree(b)
    ensures KeepsOrder(a, b) <==> NameKept(a, b)
  {
    if a != [] && b != [] {
      PiecesOfDotFree(a);
      PiecesOfDotFree(b);
      EscapedOrderIff(a, b);
      TextOrderIff(a, b);
    }
  }

  /** No octet of the name is escaped. */
  predicate Ordinary(n: Labels) {
    forall i | 0 <= i < |n| :: OrdinaryLabel(n[i])
  }

  predicate OrdinaryLabel(s: Octets) {
    forall j | 0 <= j < |s| :: Printable(s[j]) && !Special(s[j])
  }

  lemma {:induction false} OrdinaryLabelsKept(x: Octets, y: Octets)
    requires OrdinaryLabel(x) && OrdinaryLabel(y)
    ensures LabelKept(x, y)
  {
    if x != [] && y != [] && x[0] == y[0] {
      OrdinaryLabelsKept(x[1..], y[1..]);
    }
  }

  lemma {:induction false} OrdinaryListsKept(a: Labels, b: Labels)
    requires Ordinary(a) && Ordinary(b)
    ensures ListKept(a, b)
  {
    if a != [] && b != [] {
      OrdinaryLabelsKept(a[0], b[0]);
      OrdinaryListsKept(a[1..], b[1..]);
    }
  }

  /** Names without escaped octets are ordered canonically by all three routines. */
  lemma OrdinaryNamesKeepOrder(a: Name, b: Name)
    requires Ordinary(a) && Ordinary(b)
    ensures NameKept(a, b) && KeepsOrder(a, b)
    ensures TextLess(a, b) == NameLess(EscapedLabels(a), EscapedLabels(b)) == NameLess(a, b)
  {
    OrdinaryListsKept(Reversed(a), Reversed(b));
    forall n: Name, i | Ordinary(n) && 0 <= i < |n| ensures '.' !in n[i] {
      assert OrdinaryLabel(n[i]);
    }
    DotFreeKeepsOrderIff(a, b);
    EscapedOrderIff(a, b);
    TextOrderIff(a, b);
  }
}
