/**
  Names as section 4.1.4 of RFC 1035 lays them out, octet by octet: what is written so is
  what both decoders read, and the text they give splits into the labels again.
 */
module NameWriting {
  import opened Wrappers
  import opened Sequences
  import opened NameDecoding
  import CanonicalNames
  import EscapedNames

  predicate Fits(labels: seq<Label>) {
    forall i | 0 <= i < |labels| :: 0 < |labels[i]| <= 63
  }

  /** Each label after an octet with its length. */
  function Written(labels: seq<Label>): seq<Octet>
    requires Fits(labels)
  {
    if labels == [] then [] else [|labels[0]| as char] + labels[0] + Written(labels[1..])
  }

  ghost predicate StandsIn(msg: Message, pos: nat, octets: seq<Octet>) {
    pos + |octets| <= |msg| && msg[pos..pos + |octets|] == octets
  }

  lemma FirstLabelStands(msg: Message, pos: nat, x: Label, rest: seq<Octet>)
    requires 0 < |x| <= 63 && StandsIn(msg, pos, [|x| as char] + x + rest)
    ensures pos < |msg| && !IsPointer(msg, pos) && IsLabel(msg, pos) && LabelAt(msg, pos) == x
    ensures After(msg, pos) == pos + 1 + |x| && StandsIn(msg, After(msg, pos), rest)
  {
    var all := [|x| as char] + x + rest;
    assert all[0] == |x| as char && all[1..1 + |x|] == x && all[1 + |x|..] == rest;
    assert msg[pos] == msg[pos..pos + |all|][0];
    SliceOfSlice(msg, pos, pos + |all|, 1, 1 + |x|);
    SliceOfSlice(msg, pos, pos + |all|, 1 + |x|, |all|);
  }

  /** r is what rest is, behind more labels that take up so many octets. */
  ghost predicate GoesOnAs(r: Option<Reading>, labels: seq<Label>, octets: nat, rest: Option<Reading>) {
    && (r.Some? <==> rest.Some?)
    && (r.Some? ==>
          && r.value.labels == labels + rest.value.labels && r.value.wire == octets + rest.value.wire
          && r.value.terminated == rest.value.terminated)
  }

  lemma GoesFurther(r: Option<Reading>, x: Label, m: Option<Reading>, labels: seq<Label>, octets: nat,
                         rest: Option<Reading>)
    requires GoesOnAs(r, [x], 1 + |x|, m) && GoesOnAs(m, labels, octets, rest)
    ensures GoesOnAs(r, [x] + labels, 1 + |x| + octets, rest)
  {
    if r.Some? {
      Associate([x], labels, rest.value.labels);
    }
  }

  lemma LabelIsRead(msg: Message, pos: nat, x: Label, next: nat, hops: nat, limit: Option<nat>)
    requires pos < |msg| && !IsPointer(msg, pos) && IsLabel(msg, pos) && LabelAt(msg, pos) == x
    requires next == After(msg, pos)
    ensures GoesOnAs(Read(msg, pos, hops), [x], 1 + |x|, Read(msg, next, hops))
    ensures PointersOk(msg, pos, hops, limit) <==> PointersOk(msg, next, hops, limit)
  {
  }

  /** Labels are read in order, and reading goes on behind them. */
  lemma {:induction false} LabelsAreRead(msg: Message, pos: nat, labels: seq<Label>, hops: nat, limit: Option<nat>)
    requires Fits(labels) && StandsIn(msg, pos, Written(labels))
    ensures var end := pos + |Written(labels)|;
            && GoesOnAs(Read(msg, pos, hops), labels, |Written(labels)|, Read(msg, end, hops))
            && (PointersOk(msg, pos, hops, limit) <==> PointersOk(msg, end, hops, limit))
    decreases |labels|
  {
    if labels != [] {
      var x, rest := labels[0], labels[1..];
      FirstLabelStands(msg, pos, x, Written(rest));
      var next, end := After(msg, pos), pos + |Written(labels)|;
      LabelIsRead(msg, pos, x, next, hops, limit);
      LabelsAreRead(msg, next, rest, hops, limit);
      assert next + |Written(rest)| == end && labels == [x] + rest;
      GoesFurther(Read(msg, pos, hops), x, Read(msg, next, hops), rest, |Written(rest)|, Read(msg, end, hops));
    }
  }

  /** A name ends with a zero octet. */
  lemma ZeroEndsName(msg: Message, pos: nat, labels: seq<Label>, hops: nat)
    requires Fits(labels) && StandsIn(msg, pos, Written(labels))
    requires pos + |Written(labels)| < |msg| && msg[pos + |Written(labels)|] as int == 0
    ensures var r := Read(msg, pos, hops);
            r.Some? && r.value.labels == labels && r.value.wire == |Written(labels)| + 1 && r.value.terminated
  {
    LabelsAreRead(msg, pos, labels, hops, None);
    assert labels + [] == labels;
  }

  /**
    Or with two octets that start with two one bits: the name goes on as that at the offset
    in the other fourteen.  Every pointer counts as a hop, and must lead below its bound.
   */
  lemma PointerGoesOn(msg: Message, pos: nat, labels: seq<Label>, target: nat, hops: nat, limit: Option<nat>)
    requires Fits(labels) && StandsIn(msg, pos, Written(labels)) && target < 0x4000
    requires var p := pos + |Written(labels)|;
             p + 1 < |msg| && msg[p] as int == 0xC0 + target / 256 && msg[p + 1] as int == target % 256
    ensures hops == 0 ==> Read(msg, pos, hops).None?
    ensures hops > 0 ==>
              var r, rest := Read(msg, pos, hops), Read(msg, target, hops - 1);
              && (r.Some? <==> rest.Some?)
              && (r.Some? ==> r.value.labels == labels + rest.value.labels && r.value.wire == |Written(labels)| + 2
                              && r.value.terminated == rest.value.terminated)
    ensures hops > 0 ==>
              (PointersOk(msg, pos, hops, limit) <==>
                 && target < (if limit.Some? then limit.value else pos + |Written(labels)|)
                 && PointersOk(msg, target, hops - 1, limit))
  {
    LabelsAreRead(msg, pos, labels, hops, limit);
  }

  /** Lengths from 64 to 191 are reserved, and a label must be whole. */
  lemma BrokenLabelFails(msg: Message, pos: nat, labels: seq<Label>, hops: nat)
    requires Fits(labels) && StandsIn(msg, pos, Written(labels)) && pos + |Written(labels)| < |msg|
    requires var p := pos + |Written(labels)|;
             63 < msg[p] as int < 192 || (0 < msg[p] as int <= 63 && p + 1 + msg[p] as int > |msg|)
             || (192 <= msg[p] as int && p + 1 == |msg|)
    ensures Read(msg, pos, hops).None?
  {
    LabelsAreRead(msg, pos, labels, hops, None);
  }

  // ---------- the text ----------

  /** The labels of a text stand in order, each before a dot. */
  lemma {:induction false} DottedInOrder(x: Label, rest: seq<Label>)
    ensures Dotted([x] + rest) == x + ['.'] + Dotted(rest)
    decreases |rest|
  {
    var all := [x] + rest;
    if rest == [] {
      assert all == [x] && all[..0] == [];
      assert Dotted(all) == [] + x + ['.'] == x + ['.'] + [];
    } else {
      var front, last := rest[..|rest| - 1], rest[|rest| - 1];
      assert all[..|all| - 1] == [x] + front && all[|all| - 1] == last;
      DottedInOrder(x, front);
      assert x + ['.'] + Dotted(front) + last + ['.'] == x + ['.'] + (Dotted(front) + last + ['.']);
    }
  }

  /** Without its final dot, the text of dot-free labels splits into just those labels. */
  lemma {:induction false} TextSplits(labels: seq<Label>)
    requires labels != [] && forall i | 0 <= i < |labels| :: '.' !in labels[i]
    ensures var text := Text(labels);
            && text != [] && text[|text| - 1] == '.'
            && CanonicalNames.SplitDots(text[..|text| - 1]) == labels
  {
    var x, rest := labels[0], labels[1..];
    assert labels == [x] + rest;
    DottedInOrder(x, rest);
    EscapedNames.SplitWhole(x);
    if rest == [] {
      assert Text(labels) == x + ['.'] && Text(labels)[..|x|] == x;
    } else {
      TextSplits(rest);
      var tail := Text(rest);
      assert Text(labels)[..|Text(labels)| - 1] == x + "." + tail[..|tail| - 1];
      EscapedNames.SplitConcat(x, tail[..|tail| - 1]);
    }
  }
}
