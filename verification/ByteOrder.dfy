/**
  Go compares strings octet by octet.  Normalised domain names and labels are
  octet strings here, one char to an octet, under that one order.
 */
module ByteOrder {
  type Octets = string

  predicate Less(a: Octets, b: Octets) {
    b != [] && (a == [] || a[0] < b[0] || (a[0] == b[0] && Less(a[1..], b[1..])))
  }

  /** The strings agree in k octets, and then a ends or has the smaller octet. */
  predicate LessAt(a: Octets, b: Octets, k: nat) {
    k <= |a| && k < |b| && a[..k] == b[..k] && (k == |a| || a[k] < b[k])
  }

  lemma {:induction false} FirstDifference(a: Octets, b: Octets) returns (k: nat)
    requires Less(a, b)
    ensures LessAt(a, b, k)
  {
    k := 0;
    if a != [] && a[0] == b[0] {
      var j := FirstDifference(a[1..], b[1..]);
      k := j + 1;
      assert a[..k] == [a[0]] + a[1..][..j] && b[..k] == [b[0]] + b[1..][..j];
    }
  }

  lemma {:induction false} DifferenceDecides(a: Octets, b: Octets, k: nat)
    requires LessAt(a, b, k)
    ensures Less(a, b)
  {
    if k > 0 {
      assert a[0] == a[..k][0] && b[0] == b[..k][0];
      assert a[1..][..k - 1] == a[..k][1..] && b[1..][..k - 1] == b[..k][1..];
      DifferenceDecides(a[1..], b[1..], k - 1);
    }
  }

  /** The first octet that differs decides, and a string precedes its continuations. */
  lemma LessIff(a: Octets, b: Octets)
    ensures Less(a, b) <==> exists k: nat :: LessAt(a, b, k)
  {
    if Less(a, b) {
      var k := FirstDifference(a, b);
    }
    if k: nat :| LessAt(a, b, k) {
      DifferenceDecides(a, b, k);
    }
  }

  lemma {:induction false} LessIrreflexive(a: Octets)
    ensures !Less(a, a)
  {
    if a != [] {
      LessIrreflexive(a[1..]);
    }
  }

  lemma {:induction false} LessTransitive(a: Octets, b: Octets, c: Octets)
    requires Less(a, b) && Less(b, c)
    ensures Less(a, c)
  {
    if a != [] && a[0] == b[0] == c[0] {
      LessTransitive(a[1..], b[1..], c[1..]);
    }
  }

  lemma {:induction false} LessTotal(a: Octets, b: Octets)
    ensures Less(a, b) || a == b || Less(b, a)
  {
    if a != [] && b != [] && a[0] == b[0] {
      LessTotal(a[1..], b[1..]);
      if a[1..] == b[1..] {
        assert a == [a[0]] + a[1..] == b;
      }
    }
  }

  lemma LessAsymmetric(a: Octets, b: Octets)
    requires Less(a, b)
    ensures !Less(b, a)
  {
    if Less(b, a) {
      LessTransitive(a, b, a);
      LessIrreflexive(a);
    }
  }

  // ---------- sorted lists of names ----------

  ghost predicate Sorted(s: seq<Octets>) {
    forall i, j | 0 <= i < j < |s| :: Less(s[i], s[j])
  }

  function Elements<T>(s: seq<T>): (r: set<T>) {
    set x | x in s
  }

  lemma HasElement<T>(s: seq<T>)
    ensures s != [] ==> exists x :: x in s
  {
    if s != [] {
      assert s[0] in s;
    }
  }

  /** A sorted list is determined by its elements, so sorting hides map iteration order. */
  lemma {:induction false} SortedUnique(s: seq<Octets>, t: seq<Octets>)
    requires Sorted(s) && Sorted(t) && Elements(s) == Elements(t)
    ensures s == t
  {
    if s == [] {
      assert forall i | 0 <= i < |t| :: t[i] in Elements(s);
    } else {
      assert s[0] in Elements(t);
      assert t != [] && t[0] in Elements(s);
      if s[0] != t[0] {
        LessIfLater(s, t[0]);
        LessIfLater(t, s[0]);
        LessAsymmetric(s[0], t[0]);
      }
      TailElements(s);
      TailElements(t);
      SortedUnique(s[1..], t[1..]);
      assert s == [s[0]] + s[1..] == t;
    }
  }

  lemma LessIfLater(s: seq<Octets>, x: Octets)
    requires Sorted(s) && x in s && x != s[0]
    ensures Less(s[0], x)
  {
    var i :| 0 <= i < |s| && s[i] == x;
  }

  lemma TailElements(s: seq<Octets>)
    requires Sorted(s) && s != []
    ensures Sorted(s[1..]) && Elements(s[1..]) == Elements(s) - {s[0]}
  {
    forall x | x in s[1..] ensures x != s[0] {
      var i :| 0 <= i < |s[1..]| && s[1..][i] == x;
      assert Less(s[0], s[i + 1]);
      LessIrreflexive(x);
    }
    forall x | x in Elements(s) - {s[0]} ensures x in s[1..] {
      var i :| 0 <= i < |s| && s[i] == x;
      assert s[1..][i - 1] == x;
    }
  }

  lemma SortedDistinct(s: seq<Octets>, i: nat, j: nat)
    requires Sorted(s) && i < |s| && j < |s| && s[i] == s[j]
    ensures i == j
  {
    LessIrreflexive(s[i]);
  }

  /** The insertion point sort.SearchStrings computes: how many elements precede x. */
  function SearchStrings(s: seq<Octets>, x: Octets): (k: nat)
    ensures k <= |s|
    ensures k < |s| ==> !Less(s[k], x)
    ensures forall i | 0 <= i < k :: Less(s[i], x)
  {
    if s == [] || !Less(s[0], x) then 0 else 1 + SearchStrings(s[1..], x)
  }

  function InsertAt<T>(s: seq<T>, k: nat, x: T): (r: seq<T>)
    requires k <= |s|
  {
    s[..k] + [x] + s[k..]
  }

  lemma InsertElements<T>(s: seq<T>, k: nat, x: T)
    requires k <= |s|
    ensures forall y :: y in InsertAt(s, k, x) <==> y in s || y == x
    ensures Elements(InsertAt(s, k, x)) == Elements(s) + {x}
  {
    assert s == s[..k] + s[k..];
  }

  lemma InsertKeepsSorted(s: seq<Octets>, x: Octets, k: nat)
    requires Sorted(s) && x !in s && k == SearchStrings(s, x)
    ensures Sorted(InsertAt(s, k, x))
  {
    forall i | k <= i < |s| ensures Less(x, s[i]) {
      LessTotal(s[k], x);
      assert s[k] in s;
      if i > k {
        LessTransitive(x, s[k], s[i]);
      }
    }
  }

  lemma {:induction false} SortedListExists(keys: set<Octets>)
    ensures exists s :: Sorted(s) && Elements(s) == keys
  {
    if keys == {} {
      assert Sorted([]) && Elements<Octets>([]) == keys;
    } else {
      var x :| x in keys;
      SortedListExists(keys - {x});
      var s :| Sorted(s) && Elements(s) == keys - {x};
      assert x !in s by {
        assert x !in Elements(s);
      }
      var k := SearchStrings(s, x);
      InsertKeepsSorted(s, x, k);
      InsertElements(s, k, x);
      assert Elements(InsertAt(s, k, x)) == keys;
    }
  }

  ghost function SortedList(keys: set<Octets>): (s: seq<Octets>)
    ensures Sorted(s) && Elements(s) == keys
  {
    SortedListExists(keys);
    var s :| Sorted(s) && Elements(s) == keys;
    s
  }

  /** Ranging over a set in any order and sorting gives the one sorted list of it. */
  method SortedKeys(keys: set<Octets>) returns (r: seq<Octets>)
    ensures Sorted(r) && Elements(r) == keys && r == SortedList(keys)
  {
    r := [];
    var todo := keys;
    while todo != {}
      invariant todo <= keys
      invariant Sorted(r) && Elements(r) == keys - todo
      decreases |todo|
    {
      var x :| x in todo;
      var k := SearchStrings(r, x);
      assert x !in r by {
        assert x !in Elements(r);
      }
      InsertKeepsSorted(r, x, k);
      InsertElements(r, k, x);
      r := InsertAt(r, k, x);
      todo := todo - {x};
    }
    SortedUnique(r, SortedList(keys));
  }
}
