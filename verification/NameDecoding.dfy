/**
  Reading a possibly compressed domain name out of a message, three ways: by recursion
  on section 4.1.4 of RFC 1035, by the parser's loop, and by the C decompressor's loop.
 */
module NameDecoding {
  import opened Wrappers
  import opened Sequences

  /** One char to an octet; nothing here depends on the upper bound. */
  type Octet = char

  type Message = seq<Octet>

  type Label = seq<Octet>

  // ---------- the recursive reading ----------

  /**
    What a name reads as: its labels, its uncompressed octets up to the final zero, the
    octets it takes up where it starts, and whether a zero octet ended it.
   */
  datatype Reading = Reading(labels: seq<Label>, octets: seq<Octet>, wire: nat, terminated: bool)

  predicate IsPointer(msg: Message, pos: nat)
    requires pos < |msg|
  {
    msg[pos] as int >= 0xC0
  }

  /** The 14 bits of a pointer. */
  function Target(msg: Message, pos: nat): nat
    requires pos + 1 < |msg| && IsPointer(msg, pos)
  {
    (msg[pos] as int - 0xC0) * 256 + msg[pos + 1] as int
  }

  /** A whole label of 1 to 63 octets. */
  predicate IsLabel(msg: Message, pos: nat)
    requires pos < |msg|
  {
    0 < msg[pos] as int <= 63 && pos + 1 + msg[pos] as int <= |msg|
  }

  function LabelAt(msg: Message, pos: nat): Label
    requires pos < |msg| && IsLabel(msg, pos)
  {
    msg[pos + 1..pos + 1 + msg[pos] as int]
  }

  function After(msg: Message, pos: nat): nat
    requires pos < |msg|
  {
    pos + 1 + msg[pos] as int
  }

  /** A text's length and the label, as they stand in the message. */
  function OctetsAt(msg: Message, pos: nat): seq<Octet>
    requires pos < |msg| && IsLabel(msg, pos)
  {
    msg[pos..After(msg, pos)]
  }

  /** The name at pos, following at most hops pointers.  The end of the message ends a name too. */
  function Read(msg: Message, pos: nat, hops: nat): Option<Reading>
    decreases hops, |msg| - pos
  {
    if pos >= |msg| then Some(Reading([], [], 0, false))
    else if IsPointer(msg, pos) then
      if pos + 1 >= |msg| || hops == 0 then None
      else
        var rest := Read(msg, Target(msg, pos), hops - 1);
        if rest.None? then None else Some(rest.value.(wire := 2))
    else if msg[pos] as int == 0 then Some(Reading([], [], 1, true))
    else if !IsLabel(msg, pos) then None
    else
      var rest := Read(msg, After(msg, pos), hops);
      if rest.None? then None
      else Some(Reading([LabelAt(msg, pos)] + rest.value.labels, OctetsAt(msg, pos) + rest.value.octets,
                        1 + msg[pos] as int + rest.value.wire, rest.value.terminated))
  }

  /** A complete name, as the standard has it. */
  predicate Named(r: Option<Reading>) {
    r.Some? && r.value.terminated
  }

  /** Allowing more hops never changes what is read. */
  lemma {:induction false} MoreHops(msg: Message, pos: nat, hops: nat, more: nat)
    requires Read(msg, pos, hops).Some? && hops <= more
    ensures Read(msg, pos, more) == Read(msg, pos, hops)
    decreases hops, |msg| - pos
  {
    if pos < |msg| {
      if IsPointer(msg, pos) {
        MoreHops(msg, Target(msg, pos), hops - 1, more - 1);
      } else if msg[pos] as int != 0 {
        MoreHops(msg, After(msg, pos), hops, more);
      }
    }
  }

  /** Where a pointer at pos may lead: below a fixed limit, or back from where it stands. */
  function Bound(pos: nat, limit: Option<nat>): nat {
    if limit.Some? then limit.value else pos
  }

  /** Every pointer followed from pos leads below its bound. */
  predicate PointersOk(msg: Message, pos: nat, hops: nat, limit: Option<nat>)
    decreases hops, |msg| - pos
  {
    pos >= |msg| ||
    if IsPointer(msg, pos) then
      pos + 1 < |msg| && hops > 0 ==>
        Target(msg, pos) < Bound(pos, limit) && PointersOk(msg, Target(msg, pos), hops - 1, limit)
    else IsLabel(msg, pos) ==> PointersOk(msg, After(msg, pos), hops, limit)
  }

  // ---------- names as text and as octets ----------

  /** Each label and a dot. */
  function Dotted(labels: seq<Label>): seq<Octet> {
    if labels == [] then [] else Dotted(labels[..|labels| - 1]) + labels[|labels| - 1] + ['.']
  }

  function Text(labels: seq<Label>): seq<Octet> {
    if labels == [] then ['.'] else Dotted(labels)
  }

  /** Each label after its length, which fits an octet. */
  ghost predicate Counted(labels: seq<Label>, octets: seq<Octet>)
    decreases |labels|
  {
    if labels == [] then octets == []
    else
      var n := |labels[0]|;
      0 < n <= 63 && n < |octets| && octets[0] as int == n && octets[1..n + 1] == labels[0]
      && Counted(labels[1..], octets[n + 1..])
  }

  lemma {:induction false} DottedCons(x: Label, rest: seq<Label>)
    ensures |Dotted([x] + rest)| == |x| + 1 + |Dotted(rest)|
    decreases |rest|
  {
    var all := [x] + rest;
    if rest == [] {
      assert all[..0] == [];
    } else {
      assert all[..|all| - 1] == [x] + rest[..|rest| - 1];
      DottedCons(x, rest[..|rest| - 1]);
    }
  }

  /** Dots take the place of lengths, so both forms are equally long. */
  lemma {:induction false} EquallyLong(labels: seq<Label>, octets: seq<Octet>)
    requires Counted(labels, octets)
    ensures |Dotted(labels)| == |octets|
    decreases |labels|
  {
    if labels != [] {
      EquallyLong(labels[1..], octets[|labels[0]| + 1..]);
      DottedCons(labels[0], labels[1..]);
      assert labels == [labels[0]] + labels[1..];
    }
  }

  /** The octets of a reading spell its labels. */
  lemma {:induction false} OctetsSpellLabels(msg: Message, pos: nat, hops: nat)
    ensures var r := Read(msg, pos, hops); r.Some? ==> Counted(r.value.labels, r.value.octets)
    decreases hops, |msg| - pos
  {
    if pos < |msg| {
      if IsPointer(msg, pos) {
        if pos + 1 < |msg| && hops > 0 {
          OctetsSpellLabels(msg, Target(msg, pos), hops - 1);
        }
      } else if IsLabel(msg, pos) && Read(msg, pos, hops).Some? {
        var rest := Read(msg, After(msg, pos), hops).value;
        OctetsSpellLabels(msg, After(msg, pos), hops);
        CountedMore(LabelAt(msg, pos), OctetsAt(msg, pos), rest.labels, rest.octets);
      }
    }
  }

  lemma CountedMore(x: Label, head: seq<Octet>, labels: seq<Label>, octets: seq<Octet>)
    requires 0 < |x| <= 63 && |head| == |x| + 1 && head[0] as int == |x| && head[1..] == x
    requires Counted(labels, octets)
    ensures Counted([x] + labels, head + octets)
  {
    assert ([x] + labels)[1..] == labels;
    assert (head + octets)[1..|x| + 1] == head[1..];
    assert (head + octets)[|x| + 1..] == octets;
  }

  // ---------- a reading under way ----------

  /** What is read so far, the octets used (final once jumped), and where and how far to go on. */
  datatype Partial = Partial(labels: seq<Label>, octets: seq<Octet>, used: nat, jumped: bool, pos: nat, hops: nat)

  function Joined(p: Partial, rest: Option<Reading>): Option<Reading> {
    if rest.None? then None
    else Some(Reading(p.labels + rest.value.labels, p.octets + rest.value.octets,
                      if p.jumped then p.used else p.used + rest.value.wire, rest.value.terminated))
  }

  /** What reading a name gives, and whether its pointers are in order. */
  ghost function Whole(msg: Message, start: nat, hops: nat, limit: Option<nat>): (Option<Reading>, bool) {
    (Read(msg, start, hops), PointersOk(msg, start, hops, limit))
  }

  ghost function Completed(msg: Message, limit: Option<nat>, p: Partial): (Option<Reading>, bool) {
    (Joined(p, Read(msg, p.pos, p.hops)), PointersOk(msg, p.pos, p.hops, limit))
  }

  /** Going on from p completes the reading of the name at start. */
  ghost predicate Continues(msg: Message, start: nat, hops: nat, limit: Option<nat>, p: Partial) {
    Completed(msg, limit, p) == Whole(msg, start, hops, limit)
  }

  function PastLabel(msg: Message, p: Partial): Partial
    requires p.pos < |msg| && !IsPointer(msg, p.pos) && IsLabel(msg, p.pos)
  {
    Partial(p.labels + [LabelAt(msg, p.pos)], p.octets + OctetsAt(msg, p.pos),
            if p.jumped then p.used else p.used + 1 + msg[p.pos] as int, p.jumped, After(msg, p.pos), p.hops)
  }

  function PastPointer(msg: Message, p: Partial): Partial
    requires p.pos + 1 < |msg| && IsPointer(msg, p.pos) && p.hops > 0
  {
    Partial(p.labels, p.octets, if p.jumped then p.used else p.used + 2, true, Target(msg, p.pos), p.hops - 1)
  }

  lemma StartContinues(msg: Message, start: nat, hops: nat, limit: Option<nat>)
    ensures Continues(msg, start, hops, limit, Partial([], [], 0, false, start, hops))
  {
    var rest := Read(msg, start, hops);
    if rest.Some? {
      assert [] + rest.value.labels == rest.value.labels && [] + rest.value.octets == rest.value.octets;
    }
  }

  lemma LabelContinues(msg: Message, start: nat, hops: nat, limit: Option<nat>, p: Partial)
    requires Continues(msg, start, hops, limit, p)
    requires p.pos < |msg| && !IsPointer(msg, p.pos) && IsLabel(msg, p.pos)
    ensures Continues(msg, start, hops, limit, PastLabel(msg, p))
  {
    var rest := Read(msg, After(msg, p.pos), p.hops);
    if rest.Some? {
      Associate(p.labels, [LabelAt(msg, p.pos)], rest.value.labels);
      Associate(p.octets, OctetsAt(msg, p.pos), rest.value.octets);
    }
  }

  lemma PointerContinues(msg: Message, start: nat, hops: nat, limit: Option<nat>, p: Partial)
    requires Continues(msg, start, hops, limit, p)
    requires p.pos + 1 < |msg| && IsPointer(msg, p.pos)
    ensures p.hops == 0 ==> Read(msg, start, hops).None?
    ensures p.hops > 0 && Target(msg, p.pos) < Bound(p.pos, limit) ==>
              Continues(msg, start, hops, limit, PastPointer(msg, p))
    ensures p.hops > 0 && Target(msg, p.pos) >= Bound(p.pos, limit) ==> !PointersOk(msg, start, hops, limit)
  {
  }

  /** Where the reading stops. */
  lemma EndReached(msg: Message, start: nat, hops: nat, limit: Option<nat>, p: Partial)
    requires Continues(msg, start, hops, limit, p)
    ensures p.pos >= |msg| ==>
              Read(msg, start, hops) == Some(Reading(p.labels, p.octets, p.used, false))
              && PointersOk(msg, start, hops, limit)
    ensures p.pos < |msg| && msg[p.pos] as int == 0 ==>
              Read(msg, start, hops)
              == Some(Reading(p.labels, p.octets, if p.jumped then p.used else p.used + 1, true))
              && PointersOk(msg, start, hops, limit)
    ensures p.pos < |msg| && (if IsPointer(msg, p.pos) then p.pos + 1 >= |msg|
                              else msg[p.pos] as int != 0 && !IsLabel(msg, p.pos)) ==>
              Read(msg, start, hops).None?
  {
    assert p.labels + [] == p.labels && p.octets + [] == p.octets;
  }

  // ---------- going round in circles ----------

  /** Whatever can be read from v can be read from pos. */
  ghost predicate Reaches(msg: Message, v: nat, pos: nat) {
    forall n: nat :: Named(Read(msg, v, n)) ==> Named(Read(msg, pos, n))
  }

  ghost function Reaching(msg: Message, pos: nat): iset<nat> {
    iset v: nat | Reaches(msg, v, pos)
  }

  lemma ReachesNext(msg: Message, v: nat, pos: nat)
    requires Reaches(msg, v, pos) && pos < |msg|
    ensures !IsPointer(msg, pos) && IsLabel(msg, pos) ==> Reaches(msg, v, After(msg, pos))
    ensures IsPointer(msg, pos) && pos + 1 < |msg| ==> Reaches(msg, v, Target(msg, pos))
  {
    if IsPointer(msg, pos) && pos + 1 < |msg| {
      forall n: nat | Named(Read(msg, v, n)) ensures Named(Read(msg, Target(msg, pos), n)) {
        assert Named(Read(msg, pos, n));
        MoreHops(msg, Target(msg, pos), n - 1, n);
      }
    } else if !IsPointer(msg, pos) && IsLabel(msg, pos) {
      forall n: nat | Named(Read(msg, v, n)) ensures Named(Read(msg, After(msg, pos), n)) {
        assert Named(Read(msg, pos, n));
      }
    }
  }

  lemma AllReachNext(msg: Message, visited: set<nat>, pos: nat, next: nat)
    requires pos < |msg| && forall v | v in visited :: v in Reaching(msg, pos)
    requires if IsPointer(msg, pos) then pos + 1 < |msg| && next == Target(msg, pos)
             else IsLabel(msg, pos) && next == After(msg, pos)
    ensures forall v | v in visited :: v in Reaching(msg, next)
  {
    forall v | v in visited ensures v in Reaching(msg, next) {
      ReachesNext(msg, v, pos);
    }
  }

  /** A pointer back to where its own path came from leads to no name, however many hops are allowed. */
  lemma {:induction false} CircleHasNoName(msg: Message, pos: nat, hops: nat)
    requires pos + 1 < |msg| && IsPointer(msg, pos) && Reaches(msg, Target(msg, pos), pos)
    ensures !Named(Read(msg, pos, hops))
    decreases hops
  {
    if hops > 0 && Named(Read(msg, pos, hops)) {
      assert Named(Read(msg, Target(msg, pos), hops - 1));
      CircleHasNoName(msg, pos, hops - 1);
    }
  }

  lemma CircleFails(msg: Message, start: nat, hops: nat, limit: Option<nat>, p: Partial)
    requires Continues(msg, start, hops, limit, p)
    requires p.pos + 1 < |msg| && IsPointer(msg, p.pos) && Reaches(msg, Target(msg, p.pos), p.pos)
    ensures !Named(Read(msg, start, hops))
  {
    CircleHasNoName(msg, p.pos, p.hops);
  }

  /** A pointer past the end of the message, or not below its bound, leads to nothing acceptable. */
  lemma TargetOutside(msg: Message, start: nat, hops: nat, limit: Option<nat>, p: Partial)
    requires Continues(msg, start, hops, limit, p)
    requires p.pos + 1 < |msg| && IsPointer(msg, p.pos)
    requires Target(msg, p.pos) >= |msg| || Target(msg, p.pos) >= Bound(p.pos, limit)
    ensures !(Named(Read(msg, start, hops)) && PointersOk(msg, start, hops, limit))
  {
    PointerContinues(msg, start, hops, limit, p);
  }

  // ---------- the parser ----------

  const MAX_DEPTH: nat := 20
  const MAX_POINTERS: nat := 127
  const MAX_NAME: nat := 255

  /** What the parser accepts: a complete name of at most 20 hops, all leading before it, and 255 characters. */
  predicate ParserAccepts(msg: Message, start: nat) {
    var r := Read(msg, start, MAX_DEPTH);
    Named(r) && PointersOk(msg, start, MAX_DEPTH, Some(start)) && |Text(r.value.labels)| <= MAX_NAME
  }

  class Parser {
    const msg: Message
    var offset: nat
    var decompressionOps: nat

    constructor (msg: Message)
      ensures this.msg == msg && offset == 0 && decompressionOps == 0
    {
      this.msg, offset, decompressionOps := msg, 0, 0;
    }

    /** The name at the parser's offset, in text; on success the offset moves past it. */
    method ParseName() returns (name: Option<seq<Octet>>)
      modifies this
      ensures name.Some? <==> ParserAccepts(msg, old(offset))
      ensures name.Some? ==>
                var r := Read(msg, old(offset), MAX_DEPTH).value;
                name.value == Text(r.labels) && offset == old(offset) + r.wire
      ensures old(decompressionOps) <= decompressionOps <= old(decompressionOps) + MAX_DEPTH + 1
    {
      var labels := ReadLabels();
      if labels.None? {
        return None;
      }
      var text := TextOf(labels.value);
      if |text| > MAX_NAME {
        return None;
      }
      return Some(text);
    }

    method ReadLabels() returns (name: Option<seq<Label>>)
      modifies this
      ensures name.None? ==> !ParserAccepts(msg, old(offset))
      ensures name.Some? ==>
                var r := Read(msg, old(offset), MAX_DEPTH);
                Named(r) && r.value.labels == name.value && offset == old(offset) + r.value.wire
                && PointersOk(msg, old(offset), MAX_DEPTH, Some(old(offset)))
      ensures old(decompressionOps) <= decompressionOps <= old(decompressionOps) + MAX_DEPTH + 1
    {
      var labels: seq<Label> := [];
      var visited: set<nat> := {};
      var depth := 0;
      var pos: nat := offset;
      var jumped := false;
      var origOffset := offset;
      ghost var p := Partial([], [], 0, false, pos, MAX_DEPTH);
      StartContinues(msg, pos, MAX_DEPTH, Some(origOffset));
      while true
        invariant 0 <= depth <= MAX_DEPTH + 1 && decompressionOps == old(decompressionOps) + depth
        invariant !jumped ==> offset == origOffset <= pos
        invariant jumped ==> offset >= origOffset
        invariant forall v | v in visited :: v in Reaching(msg, pos)
        invariant depth > MAX_DEPTH ==> !ParserAccepts(msg, origOffset)
        invariant depth <= MAX_DEPTH ==>
                    && p.labels == labels && p.jumped == jumped && p.pos == pos && p.hops == MAX_DEPTH - depth
                    && p.used == (if jumped then offset else pos) - origOffset
                    && Continues(msg, origOffset, MAX_DEPTH, Some(origOffset), p)
        decreases MAX_DEPTH + 1 - depth, |msg| - pos
      {
        if depth > MAX_DEPTH {
          return None;
        }
        EndReached(msg, origOffset, MAX_DEPTH, Some(origOffset), p);
        if pos >= |msg| {
          return None;
        }
        if msg[pos] as int >= 0xC0 {
          if pos + 1 >= |msg| {
            return None;
          }
          var ptr := Target(msg, pos);
          var ok := CheckPointer(ptr, visited, origOffset, p);
          if !ok {
            return None;
          }
          visited := visited + {ptr};
          if !jumped {
            offset := pos + 2;
            jumped := true;
          }
          if depth < MAX_DEPTH {
            p := PastPointer(msg, p);
          }
          pos := ptr;
          depth := depth + 1;
          decompressionOps := decompressionOps + 1;
          continue;
        }
        if msg[pos] as int == 0 {
          if !jumped {
            offset := pos + 1;
          }
          return Some(labels);
        }
        var taken := CopyLabel(pos, visited, origOffset, p);
        if taken.None? {
          return None;
        }
        p := PastLabel(msg, p);
        labels := labels + [taken.value];
        pos := pos + 1 + |taken.value|;
      }
    }

    /** A target must be new, inside the message, and before the name. */
    method CheckPointer(ptr: nat, visited: set<nat>, origOffset: nat, ghost p: Partial) returns (ok: bool)
      requires p.pos + 1 < |msg| && IsPointer(msg, p.pos) && ptr == Target(msg, p.pos)
      requires Continues(msg, origOffset, MAX_DEPTH, Some(origOffset), p)
      requires forall v | v in visited :: v in Reaching(msg, p.pos)
      ensures !ok ==> !ParserAccepts(msg, origOffset)
      ensures ok ==> ptr < origOffset && forall v | v in visited + {ptr} :: v in Reaching(msg, ptr)
      ensures ok && p.hops > 0 ==> Continues(msg, origOffset, MAX_DEPTH, Some(origOffset), PastPointer(msg, p))
      ensures ok && p.hops == 0 ==> !ParserAccepts(msg, origOffset)
    {
      if ptr in visited {
        CircleFails(msg, origOffset, MAX_DEPTH, Some(origOffset), p);
        return false;
      }
      PointerContinues(msg, origOffset, MAX_DEPTH, Some(origOffset), p);
      if ptr >= |msg| || ptr >= origOffset {
        TargetOutside(msg, origOffset, MAX_DEPTH, Some(origOffset), p);
        return false;
      }
      AllReachNext(msg, visited, p.pos, ptr);
      return true;
    }

    /** A label must be at most 63 octets and inside the message. */
    method CopyLabel(pos: nat, ghost visited: set<nat>, ghost origOffset: nat, ghost p: Partial)
      returns (name: Option<Label>)
      requires pos < |msg| && !IsPointer(msg, pos) && msg[pos] as int != 0 && p.pos == pos
      requires Continues(msg, origOffset, MAX_DEPTH, Some(origOffset), p)
      requires forall v | v in visited :: v in Reaching(msg, pos)
      ensures name.None? ==> !ParserAccepts(msg, origOffset)
      ensures name.Some? ==>
                && IsLabel(msg, pos) && name.value == LabelAt(msg, pos) && pos + 1 + |name.value| == After(msg, pos)
                && Continues(msg, origOffset, MAX_DEPTH, Some(origOffset), PastLabel(msg, p))
                && forall v | v in visited :: v in Reaching(msg, After(msg, pos))
    {
      EndReached(msg, origOffset, MAX_DEPTH, Some(origOffset), p);
      var length := msg[pos] as int;
      if length > 63 {
        return None;
      }
      if pos + 1 + length > |msg| {
        return None;
      }
      LabelContinues(msg, origOffset, MAX_DEPTH, Some(origOffset), p);
      AllReachNext(msg, visited, pos, After(msg, pos));
      return Some(msg[pos + 1..pos + 1 + length]);
    }

    static method TextOf(labels: seq<Label>) returns (name: seq<Octet>)
      ensures name == Text(labels)
    {
      if |labels| == 0 {
        return ['.'];
      }
      name := [];
      for i := 0 to |labels|
        invariant name == Dotted(labels[..i])
      {
        assert labels[..i + 1][..i] == labels[..i];
        name := name + labels[i] + ['.'];
      }
      assert labels[..|labels|] == labels;
    }
  }

  // ---------- the C decompressor ----------

  /**
    What the decompressor accepts: at most 127 hops, each leading back, and at most 255
    octets of labels.  The name need not be terminated.
   */
  predicate DecompressorAccepts(packet: Message, start: nat) {
    var r := Read(packet, start, MAX_POINTERS);
    r.Some? && PointersOk(packet, start, MAX_POINTERS, None) && |r.value.octets| <= MAX_NAME
  }

  /** The buffer starts with these octets. */
  ghost predicate Holds(buffer: seq<Octet>, outLen: nat, octets: seq<Octet>) {
    outLen == |octets| && outLen <= |buffer| && buffer[..outLen] == octets
  }

  /** The octets of a reading with their final zero, if it has one. */
  function Image(r: Reading): seq<Octet> {
    if r.terminated then r.octets + [0 as char] else r.octets
  }

  /** Writes the name into a buffer of 256 octets; outLen of them are used. */
  method DecompressName(packet: Message, offset: nat, out: array<Octet>) returns (ok: bool, wireLen: nat, outLen: nat)
    requires out.Length >= MAX_NAME + 1
    modifies out
    ensures ok <==> DecompressorAccepts(packet, offset)
    ensures ok ==>
              var r := Read(packet, offset, MAX_POINTERS).value;
              wireLen == r.wire && Holds(out[..], outLen, Image(r))
    ensures forall i | MAX_NAME < i < out.Length :: out[i] == old(out[i])
  {
    wireLen, outLen := 0, 0;
    var counting := true;
    var ptrCount := 0;
    var pos: nat := offset;
    ghost var p := Partial([], [], 0, false, pos, MAX_POINTERS);
    StartContinues(packet, pos, MAX_POINTERS, None);
    while pos < |packet|
      invariant 0 <= ptrCount <= MAX_POINTERS
      invariant p == Partial(p.labels, p.octets, wireLen, !counting, pos, MAX_POINTERS - ptrCount)
      invariant Continues(packet, offset, MAX_POINTERS, None, p)
      invariant outLen <= MAX_NAME && Holds(out[..], outLen, p.octets)
      invariant forall i | MAX_NAME < i < out.Length :: out[i] == old(out[i])
      decreases MAX_POINTERS - ptrCount, |packet| - pos
    {
      var labelLen := packet[pos] as int;
      if labelLen >= 0xC0 {
        var advanced, next := FollowPointer(packet, pos, ptrCount, offset, p);
        if !advanced {
          return false, 0, 0;
        }
        p := PastPointer(packet, p);
        if counting {
          wireLen := wireLen + 2;
          counting := false;
        }
        ptrCount := ptrCount + 1;
        pos := next;
        continue;
      }
      if labelLen == 0 {
        EndReached(packet, offset, MAX_POINTERS, None, p);
        Terminate(out, outLen, p.octets);
        return true, if counting then wireLen + 1 else wireLen, outLen + 1;
      }
      var copied := CopyLabel(packet, pos, out, outLen, offset, p);
      if !copied {
        return false, 0, 0;
      }
      p := PastLabel(packet, p);
      outLen := outLen + 1 + labelLen;
      if counting {
        wireLen := wireLen + 1 + labelLen;
      }
      pos := pos + 1 + labelLen;
    }
    EndReached(packet, offset, MAX_POINTERS, None, p);
    return true, wireLen, outLen;
  }

  /** The checks on a pointer: whole, not one too many, and leading back. */
  method FollowPointer(packet: Message, pos: nat, ptrCount: nat, ghost start: nat, ghost p: Partial)
    returns (ok: bool, next: nat)
    requires pos < |packet| && IsPointer(packet, pos) && ptrCount <= MAX_POINTERS
    requires p.pos == pos && p.hops == MAX_POINTERS - ptrCount && Continues(packet, start, MAX_POINTERS, None, p)
    ensures if !ok then !DecompressorAccepts(packet, start)
            else pos + 1 < |packet| && ptrCount < MAX_POINTERS && next == Target(packet, pos) < pos
                 && Continues(packet, start, MAX_POINTERS, None, PastPointer(packet, p))
  {
    EndReached(packet, start, MAX_POINTERS, None, p);
    if pos + 1 >= |packet| {
      return false, 0;
    }
    next := Target(packet, pos);
    PointerContinues(packet, start, MAX_POINTERS, None, p);
    ok := ptrCount + 1 <= MAX_POINTERS && next < pos;
  }

  lemma StillHolds(before: seq<Octet>, after: seq<Octet>, outLen: nat, octets: seq<Octet>)
    requires Holds(before, outLen, octets) && |before| == |after|
    requires forall i | 0 <= i < outLen :: before[i] == after[i]
    ensures Holds(after, outLen, octets)
  {
    assert before[..outLen] == after[..outLen];
  }

  lemma HoldsMore(buffer: seq<Octet>, outLen: nat, octets: seq<Octet>, more: seq<Octet>)
    requires Holds(buffer, outLen, octets) && outLen + |more| <= |buffer|
    requires buffer[outLen..outLen + |more|] == more
    ensures Holds(buffer, outLen + |more|, octets + more)
  {
    assert buffer[..outLen + |more|] == buffer[..outLen] + buffer[outLen..outLen + |more|];
  }

  method Terminate(out: array<Octet>, outLen: nat, ghost octets: seq<Octet>)
    requires outLen <= MAX_NAME < out.Length && Holds(out[..], outLen, octets)
    modifies out
    ensures Holds(out[..], outLen + 1, octets + [0 as char])
    ensures forall i | MAX_NAME < i < out.Length :: out[i] == old(out[i])
  {
    out[outLen] := 0 as char;
    StillHolds(old(out[..]), out[..], outLen, octets);
    HoldsMore(out[..], outLen, octets, [0 as char]);
  }

  /** Octets that are already too many stay too many whatever follows. */
  lemma TooLong(packet: Message, start: nat, p: Partial)
    requires Continues(packet, start, MAX_POINTERS, None, p) && |p.octets| > MAX_NAME
    ensures !DecompressorAccepts(packet, start)
  {
  }

  /** The checks on a label, and the label with its length after what the buffer already holds. */
  method CopyLabel(packet: Message, pos: nat, out: array<Octet>, outLen: nat, ghost start: nat, ghost p: Partial)
    returns (ok: bool)
    requires pos < |packet| && !IsPointer(packet, pos) && packet[pos] as int != 0
    requires p.pos == pos && Continues(packet, start, MAX_POINTERS, None, p)
    requires outLen <= MAX_NAME < out.Length && Holds(out[..], outLen, p.octets)
    modifies out
    ensures !ok ==> !DecompressorAccepts(packet, start)
    ensures ok ==> IsLabel(packet, pos)
                   && Continues(packet, start, MAX_POINTERS, None, PastLabel(packet, p))
                   && outLen + 1 + packet[pos] as int <= MAX_NAME
                   && Holds(out[..], outLen + 1 + packet[pos] as int, PastLabel(packet, p).octets)
    ensures forall i | MAX_NAME < i < out.Length :: out[i] == old(out[i])
  {
    EndReached(packet, start, MAX_POINTERS, None, p);
    var n := packet[pos] as int;
    if n > 63 {
      return false;
    }
    if pos + 1 + n > |packet| {
      return false;
    }
    LabelContinues(packet, start, MAX_POINTERS, None, p);
    if outLen + 1 + n > MAX_NAME {
      TooLong(packet, start, PastLabel(packet, p));
      return false;
    }
    CopyOctets(packet, pos, out, outLen, n + 1);
    StillHolds(old(out[..]), out[..], outLen, p.octets);
    HoldsMore(out[..], outLen, p.octets, OctetsAt(packet, pos));
    return true;
  }

  /** memcpy: the length octet and the label stand together in the packet. */
  method CopyOctets(packet: Message, pos: nat, out: array<Octet>, at: nat, n: nat)
    requires pos + n <= |packet| && at + n <= out.Length
    modifies out
    ensures out[at..at + n] == packet[pos..pos + n]
    ensures forall i | 0 <= i < at || at + n <= i < out.Length :: out[i] == old(out[i])
  {
    for i := 0 to n
      invariant out[at..at + i] == packet[pos..pos + i]
      invariant forall j | 0 <= j < at || at + n <= j < out.Length :: out[j] == old(out[j])
    {
      out[at + i] := packet[pos + i];
    }
  }

  // ---------- the two against each other ----------

  /**
    A name of the parser is read the same by the decompressor, which accepts it exactly
    when its pointers lead back.
   */
  lemma DecodersAgree(msg: Message, start: nat)
    requires ParserAccepts(msg, start)
    ensures Read(msg, start, MAX_POINTERS) == Read(msg, start, MAX_DEPTH)
    ensures DecompressorAccepts(msg, start) <==> PointersOk(msg, start, MAX_POINTERS, None)
  {
    MoreHops(msg, start, MAX_DEPTH, MAX_POINTERS);
    OctetsSpellLabels(msg, start, MAX_DEPTH);
    var r := Read(msg, start, MAX_DEPTH).value;
    EquallyLong(r.labels, r.octets);
  }

  /**
    A name of the decompressor is accepted by the parser exactly when it is complete, short
    on hops and points before itself.
   */
  lemma ParserAcceptsIff(msg: Message, start: nat)
    requires DecompressorAccepts(msg, start)
    ensures ParserAccepts(msg, start) <==>
            && Read(msg, start, MAX_POINTERS).value.terminated
            && Read(msg, start, MAX_DEPTH).Some?
            && PointersOk(msg, start, MAX_DEPTH, Some(start))
  {
    if Read(msg, start, MAX_DEPTH).Some? {
      MoreHops(msg, start, MAX_DEPTH, MAX_POINTERS);
      OctetsSpellLabels(msg, start, MAX_DEPTH);
      var r := Read(msg, start, MAX_DEPTH).value;
      EquallyLong(r.labels, r.octets);
    }
  }

  /** The two decoders on one name: whenever both accept it, they agree on its labels and on the octets it takes up. */
  method DecodeBoth(parser: Parser, out: array<Octet>)
    returns (name: Option<seq<Octet>>, ok: bool, wireLen: nat, outLen: nat)
    requires out.Length >= MAX_NAME + 1
    modifies parser, out
    ensures name.Some? && ok ==>
              && parser.offset == old(parser.offset) + wireLen
              && exists labels, octets ::
                   Counted(labels, octets) && name.value == Text(labels) && Holds(out[..], outLen, octets + [0 as char])
    ensures name.Some? ==> (ok <==> PointersOk(parser.msg, old(parser.offset), MAX_POINTERS, None))
  {
    var start := parser.offset;
    name := parser.ParseName();
    ok, wireLen, outLen := DecompressName(parser.msg, start, out);
    if name.Some? {
      DecodersAgree(parser.msg, start);
      OctetsSpellLabels(parser.msg, start, MAX_DEPTH);
    }
  }

  // ---------- writing and reading back ----------

  /** Labels after their lengths, from pos on, and a zero octet. */
  ghost predicate WrittenAt(msg: Message, pos: nat, labels: seq<Label>)
    decreases |labels|
  {
    pos < |msg| &&
    if labels == [] then msg[pos] as int == 0
    else
      !IsPointer(msg, pos) && IsLabel(msg, pos) && LabelAt(msg, pos) == labels[0]
      && WrittenAt(msg, After(msg, pos), labels[1..])
  }

  function WireLength(labels: seq<Label>): nat {
    if labels == [] then 1 else 1 + |labels[0]| + WireLength(labels[1..])
  }

  /** A name written without compression is read back as it was, wherever it stands. */
  lemma {:induction false} ReadWritten(msg: Message, pos: nat, labels: seq<Label>, hops: nat)
    requires WrittenAt(msg, pos, labels)
    ensures var r := Read(msg, pos, hops);
            Named(r) && r.value.labels == labels && r.value.wire == WireLength(labels)
    decreases |labels|
  {
    if labels != [] {
      ReadWritten(msg, After(msg, pos), labels[1..], hops);
      assert labels == [labels[0]] + labels[1..];
    }
  }

  /** Uncompressed octets and a final zero stand at pos. */
  ghost predicate StandsAt(msg: Message, pos: nat, octets: seq<Octet>) {
    pos + |octets| < |msg| && msg[pos..pos + |octets|] == octets && msg[pos + |octets|] as int == 0
  }

  lemma RestStands(msg: Message, pos: nat, octets: seq<Octet>, n: nat)
    requires StandsAt(msg, pos, octets) && n <= |octets|
    ensures StandsAt(msg, pos + n, octets[n..])
  {
    SliceOfSlice(msg, pos, pos + |octets|, n, |octets|);
  }

  lemma LabelStands(msg: Message, pos: nat, x: Label, octets: seq<Octet>)
    requires StandsAt(msg, pos, octets)
    requires 0 < |x| <= 63 && |x| < |octets| && octets[0] as int == |x| && octets[1..|x| + 1] == x
    ensures !IsPointer(msg, pos) && IsLabel(msg, pos) && LabelAt(msg, pos) == x && After(msg, pos) == pos + |x| + 1
  {
    assert msg[pos] == msg[pos..pos + |octets|][0];
    SliceOfSlice(msg, pos, pos + |octets|, 1, |x| + 1);
  }

  /** Octets that spell labels are such a name. */
  lemma {:induction false} SpelledIsWritten(msg: Message, pos: nat, labels: seq<Label>, octets: seq<Octet>)
    requires Counted(labels, octets) && StandsAt(msg, pos, octets)
    ensures WrittenAt(msg, pos, labels)
    decreases |labels|
  {
    if labels != [] {
      var n := |labels[0]| + 1;
      LabelStands(msg, pos, labels[0], octets);
      RestStands(msg, pos, octets, n);
      SpelledIsWritten(msg, pos + n, labels[1..], octets[n..]);
    }
  }

  /** Decoding what the decompressor wrote gives the same labels again, without any pointer. */
  lemma DecompressedReadsBack(packet: Message, start: nat, buffer: Message, outLen: nat)
    requires DecompressorAccepts(packet, start) && Read(packet, start, MAX_POINTERS).value.terminated
    requires Holds(buffer, outLen, Image(Read(packet, start, MAX_POINTERS).value))
    ensures var r := Read(buffer, 0, 0); Named(r) && r.value.labels == Read(packet, start, MAX_POINTERS).value.labels
  {
    var r := Read(packet, start, MAX_POINTERS).value;
    var n := outLen - 1;
    OctetsSpellLabels(packet, start, MAX_POINTERS);
    assert buffer[..outLen] == r.octets + [0 as char];
    assert buffer[0..n] == buffer[..outLen][..n];
    assert buffer[n] == buffer[..outLen][n];
    SpelledIsWritten(buffer, 0, r.labels, r.octets);
    ReadWritten(buffer, 0, r.labels, 0);
  }
}
