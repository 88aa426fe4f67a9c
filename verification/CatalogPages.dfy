/**
  Listing the members of one accepted catalog, a bounded page at a time.
 */
module CatalogPages {
  import opened SerialNumbers
  import opened Wrappers
  import opened ByteOrder
  import opened CatalogModel

  function Above(keys: set<Name>, cursor: Name): set<Name> {
    set name | name in keys && Less(cursor, name)
  }

  function Prefix<T>(s: seq<T>, limit: nat): seq<T> {
    if |s| <= limit then s else s[..limit]
  }

  /** The limit least names above the cursor, in order. */
  ghost function PageOf(keys: set<Name>, cursor: Name, limit: nat): seq<Name> {
    Prefix(SortedList(Above(keys, cursor)), limit)
  }

  lemma SortedListInsert(keys: set<Name>, x: Name)
    requires x !in keys
    ensures SortedList(keys + {x}) == InsertAt(SortedList(keys), SearchStrings(SortedList(keys), x), x)
  {
    var s := SortedList(keys);
    assert x !in s by {
      assert x !in Elements(s);
    }
    var k := SearchStrings(s, x);
    InsertKeepsSorted(s, x, k);
    InsertElements(s, k, x);
    SortedUnique(InsertAt(s, k, x), SortedList(keys + {x}));
  }

  lemma {:induction false} SearchInPrefix(s: seq<Name>, limit: nat, x: Name)
    ensures SearchStrings(Prefix(s, limit), x) ==
            if SearchStrings(s, x) < limit then SearchStrings(s, x) else |Prefix(s, limit)|
  {
    if s != [] && limit > 0 && Less(s[0], x) {
      SearchInPrefix(s[1..], limit - 1, x);
      assert Prefix(s, limit)[1..] == Prefix(s[1..], limit - 1);
    }
  }

  /** The page after one more name, by where the name falls. */
  function PageWith(page: seq<Name>, limit: nat, name: Name): seq<Name>
    requires |page| <= limit
  {
    var index := SearchStrings(page, name);
    if index < |page| && page[index] == name then page
    else if |page| < limit then InsertAt(page, index, name)
    else if index >= limit then page
    else page[..index] + [name] + page[index..limit - 1]
  }

  lemma PrefixOfInsert<T>(s: seq<T>, limit: nat, k: nat, x: T)
    requires k <= |s|
    ensures Prefix(InsertAt(s, k, x), limit) ==
            if |s| < limit then InsertAt(s, k, x)
            else if k >= limit then Prefix(s, limit)
            else Prefix(s, limit)[..k] + [x] + Prefix(s, limit)[k..limit - 1]
  {
    var t := InsertAt(s, k, x);
    if |s| >= limit && k < limit {
      assert t[..limit] == s[..limit][..k] + [x] + s[..limit][k..limit - 1];
    }
  }

  lemma PageGrows(keys: set<Name>, cursor: Name, limit: nat, name: Name)
    requires name !in keys
    ensures PageOf(keys + {name}, cursor, limit) ==
            if Less(cursor, name) then PageWith(PageOf(keys, cursor, limit), limit, name)
            else PageOf(keys, cursor, limit)
  {
    var eligible := Above(keys, cursor);
    if Less(cursor, name) {
      assert Above(keys + {name}, cursor) == eligible + {name};
      var s := SortedList(eligible);
      SortedListInsert(eligible, name);
      SearchInPrefix(s, limit, name);
      PrefixOfInsert(s, limit, SearchStrings(s, name), name);
      var page := Prefix(s, limit);
      forall i | 0 <= i < |page| ensures page[i] != name {
        assert page[i] == s[i] && s[i] in Elements(s);
      }
    } else {
      assert Above(keys + {name}, cursor) == eligible;
    }
  }

  lemma EmptyPage(cursor: Name, limit: nat)
    ensures PageOf({}, cursor, limit) == []
  {
    assert Above({}, cursor) == {};
    SortedUnique(SortedList({}), []);
  }

  /**
    Keeps the page sorted in one pass, shifting later names along and dropping
    the last when the page is full.  The map is ranged in no particular order.
   */
  method BoundedMemberPage(members: map<Name, Member>, cursor: Name, limit: nat) returns (result: seq<Name>)
    ensures result == PageOf(members.Keys, cursor, limit)
  {
    result := [];
    ghost var seen: set<Name> := {};
    var todo := members.Keys;
    EmptyPage(cursor, limit);
    while todo != {}
      invariant todo <= members.Keys && seen == members.Keys - todo
      invariant result == PageOf(seen, cursor, limit)
      decreases |todo|
    {
      var name :| name in todo;
      todo := todo - {name};
      PageGrows(seen, cursor, limit, name);
      seen := seen + {name};
      if !Less(cursor, name) {
        continue;
      }
      var index := SearchStrings(result, name);
      if index < |result| && result[index] == name {
        continue;
      }
      if |result| < limit {
        result := result[..index] + [name] + result[index..];
        continue;
      }
      if index >= limit {
        continue;
      }
      result := result[..index] + [name] + result[index..limit - 1];
    }
    assert members.Keys == seen;
  }

  datatype Page = Page(names: seq<Name>, nextCursor: Name, total: nat, serial: Serial)

  datatype PageError = BadLimit | CatalogNotFound | CatalogChanged | NoMasters

  /** Empty once nothing follows the page. */
  ghost function NextCursor(keys: set<Name>, cursor: Name, limit: nat): Name {
    var page := PageOf(keys, cursor, limit);
    if page != [] && Above(keys, page[|page| - 1]) != {} then page[|page| - 1] else []
  }

  /** Some listed member has no masters to transfer from. */
  ghost predicate MastersMissing(members: map<Name, Member>, names: seq<Name>, hasMasters: Member -> bool) {
    exists name | name in names && name in members :: !hasMasters(members[name])
  }

  /**
    One page of an accepted catalog; a caller that names a serial is told when
    the snapshot is another one.  Listing a member looks its transfer policy
    up, so one member without masters fails the page it is on.
   */
  method CatalogMembers(catalogs: Catalogs, catalogName: Name, cursor: Name, limit: int, expected: Option<Serial>,
                        hasMasters: Member -> bool)
    returns (r: Result<Page, PageError>)
    ensures r == Err(BadLimit) <==> !(1 <= limit <= 1000)
    ensures r == Err(CatalogNotFound) <==> 1 <= limit <= 1000 && catalogName !in catalogs
    ensures r == Err(CatalogChanged) <==>
              && 1 <= limit <= 1000 && catalogName in catalogs
              && expected.Some? && expected.value != catalogs[catalogName].serial
    ensures r == Err(NoMasters) <==>
              && 1 <= limit <= 1000 && catalogName in catalogs
              && (expected.Some? ==> expected.value == catalogs[catalogName].serial)
              && var members := catalogs[catalogName].members;
              MastersMissing(members, PageOf(members.Keys, cursor, limit), hasMasters)
    ensures r.Ok? ==>
              && var accepted := catalogs[catalogName];
              && r.value.names == PageOf(accepted.members.Keys, cursor, limit)
              && r.value.nextCursor == NextCursor(accepted.members.Keys, cursor, limit)
              && r.value.total == |accepted.members| && r.value.serial == accepted.serial
  {
    if limit < 1 || limit > 1000 {
      return Err(BadLimit);
    }
    if catalogName !in catalogs {
      return Err(CatalogNotFound);
    }
    var accepted := catalogs[catalogName];
    if expected.Some? && accepted.serial != expected.value {
      return Err(CatalogChanged);
    }
    var names := BoundedMemberPage(accepted.members, cursor, limit);
    for i := 0 to |names|
      invariant forall j | 0 <= j < i :: names[j] in accepted.members && hasMasters(accepted.members[names[j]])
    {
      PageIsAbove(accepted.members.Keys, cursor, limit, i);
      if !hasMasters(accepted.members[names[i]]) {
        return Err(NoMasters);
      }
    }
    var hasMore := false;
    if |names| > 0 {
      var last := names[|names| - 1];
      var todo := accepted.members.Keys;
      while todo != {} && !hasMore
        invariant todo <= accepted.members.Keys
        invariant hasMore ==> Above(accepted.members.Keys, last) != {}
        invariant !hasMore ==> forall name | name in accepted.members.Keys - todo :: !Less(last, name)
        decreases |todo|
      {
        var name :| name in todo;
        todo := todo - {name};
        if Less(last, name) {
          assert name in Above(accepted.members.Keys, last);
          hasMore := true;
        }
      }
    }
    return Ok(Page(names, if hasMore then names[|names| - 1] else [], |accepted.members|, accepted.serial));
  }

  // ---------- following the cursor ----------

  lemma SmallerAbove(keys: set<Name>, cursor: Name, x: Name)
    requires x in Above(keys, cursor)
    ensures Above(keys, x) < Above(keys, cursor)
  {
    forall y | y in Above(keys, x) ensures y in Above(keys, cursor) {
      LessTransitive(cursor, x, y);
    }
    LessIrreflexive(x);
  }

  lemma PageIsAbove(keys: set<Name>, cursor: Name, limit: nat, i: nat)
    requires i < |PageOf(keys, cursor, limit)|
    ensures PageOf(keys, cursor, limit)[i] in Above(keys, cursor)
  {
    assert SortedList(Above(keys, cursor))[i] in Elements(SortedList(Above(keys, cursor)));
  }

  /** Every name a client sees by following nextCursor from the given cursor to the end. */
  ghost function Listing(keys: set<Name>, cursor: Name, limit: nat): seq<Name>
    decreases Above(keys, cursor)
  {
    var page := PageOf(keys, cursor, limit);
    if NextCursor(keys, cursor, limit) == [] then page
    else
      PageIsAbove(keys, cursor, limit, |page| - 1);
      SmallerAbove(keys, cursor, page[|page| - 1]);
      page + Listing(keys, page[|page| - 1], limit)
  }

  /** What follows the n-th name of a sorted list is exactly what lies above it. */
  lemma RestIsAbove(keys: set<Name>, cursor: Name, n: nat)
    requires 0 < n <= |SortedList(Above(keys, cursor))|
    ensures var s := SortedList(Above(keys, cursor)); s[n..] == SortedList(Above(keys, s[n - 1]))
  {
    var s := SortedList(Above(keys, cursor));
    var last := s[n - 1];
    assert last in Elements(s);
    forall x ensures x in s[n..] <==> x in Above(keys, last) {
      if x in s[n..] {
        var i :| 0 <= i < |s[n..]| && s[n..][i] == x;
        assert s[n + i] == x && x in Elements(s);
      }
      if x in Above(keys, last) {
        LessTransitive(cursor, last, x);
        assert x in Elements(s);
        var i :| 0 <= i < |s| && s[i] == x;
        if i < n - 1 {
          LessAsymmetric(s[i], last);
        } else if i == n - 1 {
          LessIrreflexive(x);
        }
        assert s[n..][i - n] == x;
      }
    }
    SortedUnique(s[n..], SortedList(Above(keys, last)));
  }

  /** A page is followed by exactly what lies above its last name. */
  lemma PageThenRest(keys: set<Name>, cursor: Name, limit: nat)
    requires PageOf(keys, cursor, limit) != []
    ensures var page := PageOf(keys, cursor, limit);
            && SortedList(Above(keys, cursor)) == page + SortedList(Above(keys, page[|page| - 1]))
            && (NextCursor(keys, cursor, limit) == [] <==> Above(keys, page[|page| - 1]) == {})
  {
    var s := SortedList(Above(keys, cursor));
    var page := PageOf(keys, cursor, limit);
    RestIsAbove(keys, cursor, |page|);
    assert s == page + s[|page|..];
    PageIsAbove(keys, cursor, limit, |page| - 1);
  }

  lemma NothingAbove(keys: set<Name>, cursor: Name, limit: nat)
    requires limit > 0
    ensures PageOf(keys, cursor, limit) == [] <==> SortedList(Above(keys, cursor)) == []
    ensures Above(keys, cursor) == {} ==> SortedList(Above(keys, cursor)) == []
  {
    if Above(keys, cursor) == {} {
      SortedUnique(SortedList({}), []);
    }
  }

  /** Paging from any cursor lists every later member exactly once, in order, and stops. */
  lemma {:induction false} ListingIsComplete(keys: set<Name>, cursor: Name, limit: nat)
    requires limit > 0
    ensures Listing(keys, cursor, limit) == SortedList(Above(keys, cursor))
    decreases Above(keys, cursor)
  {
    var page := PageOf(keys, cursor, limit);
    NothingAbove(keys, cursor, limit);
    if page != [] {
      var last := page[|page| - 1];
      PageThenRest(keys, cursor, limit);
      NothingAbove(keys, last, limit);
      if NextCursor(keys, cursor, limit) != [] {
        PageIsAbove(keys, cursor, limit, |page| - 1);
        SmallerAbove(keys, cursor, last);
        ListingIsComplete(keys, last, limit);
      }
    }
  }

  lemma WholeListing(accepted: Catalog, limit: nat)
    requires limit > 0 && [] !in accepted.members
    ensures Listing(accepted.members.Keys, [], limit) == SortedList(accepted.members.Keys)
  {
    ListingIsComplete(accepted.members.Keys, [], limit);
    assert Above(accepted.members.Keys, []) == accepted.members.Keys;
  }
}
