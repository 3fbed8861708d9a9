/**
 * The `availableConnectors` list of components/wallet/WalletModalRoot.tsx:
 * the wallet connectors the connect dialog offers, taken from the
 * connectors the wallet library reports. Only three wallets are allowed;
 * a name reported twice keeps its last connector; the list is ordered
 * MetaMask, Backpack, OKX Wallet.
 */
module Connectors {
  import opened Wrappers

  /** A connector the wallet library reports: an id and a display name. */
  datatype Connector = Connector(id: string, name: string)

  /** The display order, which also names the allowed wallets. */
  const Order: seq<string> := ["MetaMask", "Backpack", "OKX Wallet"]

  /** `allowNames`. */
  const AllowNames: set<string> := {"MetaMask", "Backpack", "OKX Wallet"}

  /** `order.indexOf(name)`: the first position of `name`, -1 when absent. */
  function IndexOf(names: seq<string>, name: string): (k: int)
    ensures -1 <= k < |names|
    ensures k >= 0 ==> names[k] == name && forall i :: 0 <= i < k ==> names[i] != name
    ensures k == -1 ==> name !in names
    decreases |names|
  {
    if names == [] then -1
    else if names[0] == name then 0
    else
      var k := IndexOf(names[1..], name);
      if k == -1 then -1 else k + 1
  }

  function Rank(name: string): int
  {
    IndexOf(Order, name)
  }

  /** The allowed names are the ordered ones, and each has its own rank. */
  lemma RankOfAllowed(name: string)
    ensures name in AllowNames <==> name in Order
    ensures name in AllowNames ==> 0 <= Rank(name) < |Order| && Order[Rank(name)] == name
  {
  }

  /** `filter((c) => allowNames.has(c.name))`. */
  function Allowed(cs: seq<Connector>): (r: seq<Connector>)
    decreases |cs|
  {
    if cs == [] then []
    else
      var rest := Allowed(cs[..|cs| - 1]);
      var last := cs[|cs| - 1];
      if last.name in AllowNames then rest + [last] else rest
  }

  /** Position of the entry named `name`, or `|entries|` when there is none. */
  function Slot(entries: seq<Connector>, name: string): (k: nat)
    ensures k <= |entries|
    ensures k < |entries| ==> entries[k].name == name
    ensures k == |entries| ==> forall i :: 0 <= i < |entries| ==> entries[i].name != name
    decreases |entries|
  {
    if entries == [] then 0
    else if entries[0].name == name then 0
    else 1 + Slot(entries[1..], name)
  }

  /**
   * `Array.from(new Map(cs.map((c) => [c.name, c])).values())`: a Map keeps
   * a key where it was first set and the value it was last set to.
   */
  function UniqueByName(cs: seq<Connector>): seq<Connector>
    decreases |cs|
  {
    if cs == [] then []
    else
      var entries := UniqueByName(cs[..|cs| - 1]);
      var c := cs[|cs| - 1];
      var k := Slot(entries, c.name);
      if k < |entries| then entries[k := c] else entries + [c]
  }

  /** Insert `c` after the entries of no greater key (a stable insertion). */
  function Insert(c: Connector, sorted: seq<Connector>, key: Connector -> int): seq<Connector>
    decreases |sorted|
  {
    if sorted == [] then [c]
    else if key(c) < key(sorted[0]) then [c] + sorted
    else [sorted[0]] + Insert(c, sorted[1..], key)
  }

  /** A stable insertion sort by `key`, as JavaScript's sort is stable. */
  function SortBy(cs: seq<Connector>, key: Connector -> int): seq<Connector>
    decreases |cs|
  {
    if cs == [] then [] else Insert(cs[|cs| - 1], SortBy(cs[..|cs| - 1], key), key)
  }

  /** The rank of a connector's name: the sort key. */
  function RankOf(c: Connector): int
  {
    Rank(c.name)
  }

  /** `sort((a, b) => order.indexOf(a.name) - order.indexOf(b.name))`. */
  function SortByRank(cs: seq<Connector>): seq<Connector>
  {
    SortBy(cs, RankOf)
  }

  /** `availableConnectors`: an absent connector list offers nothing. */
  function Available(connectors: Option<seq<Connector>>): seq<Connector>
  {
    SortByRank(UniqueByName(Allowed(connectors.GetOr([]))))
  }

  /** The last connector of `cs` named `name`. */
  function LastNamed(cs: seq<Connector>, name: string): Option<Connector>
    decreases |cs|
  {
    if cs == [] then None
    else if cs[|cs| - 1].name == name then Some(cs[|cs| - 1])
    else LastNamed(cs[..|cs| - 1], name)
  }

  predicate DistinctNames(s: seq<Connector>)
  {
    forall i, j :: 0 <= i < j < |s| ==> s[i].name != s[j].name
  }

  predicate SortedBy(s: seq<Connector>, key: Connector -> int)
  {
    forall i, j :: 0 <= i < j < |s| ==> key(s[i]) <= key(s[j])
  }

  /** The filter keeps exactly the allowed connectors, and the last of each allowed name. */
  lemma {:induction false} AllowedMeaning(cs: seq<Connector>)
    ensures forall c :: c in Allowed(cs) <==> c in cs && c.name in AllowNames
    ensures forall name :: name in AllowNames ==> LastNamed(Allowed(cs), name) == LastNamed(cs, name)
    decreases |cs|
  {
    if cs != [] {
      var init := cs[..|cs| - 1];
      AllowedMeaning(init);
      assert cs == init + [cs[|cs| - 1]];
      var r := Allowed(cs);
      if cs[|cs| - 1].name in AllowNames {
        assert r[..|r| - 1] == Allowed(init);
      }
    }
  }

  /**
   * The Map keeps one entry per name, the last connector with that name,
   * and has an entry for every name that occurs.
   */
  lemma UniqueMeaning(cs: seq<Connector>)
    ensures DistinctNames(UniqueByName(cs))
    ensures forall i :: 0 <= i < |UniqueByName(cs)| ==>
      LastNamed(cs, UniqueByName(cs)[i].name) == Some(UniqueByName(cs)[i])
    ensures forall c :: c in cs ==> exists i :: 0 <= i < |UniqueByName(cs)| && UniqueByName(cs)[i].name == c.name
    ensures forall c :: c in UniqueByName(cs) ==> c in cs
  {
    UniqueDistinct(cs);
    UniqueLast(cs);
    UniqueCovers(cs);
    UniqueFrom(cs);
  }

  /** Replacing an entry by one of the same name, or appending a new name, keeps the names distinct. */
  lemma {:induction false} UniqueDistinct(cs: seq<Connector>)
    ensures DistinctNames(UniqueByName(cs))
    decreases |cs|
  {
    if cs != [] {
      var init := cs[..|cs| - 1];
      UniqueDistinct(init);
      var entries := UniqueByName(init);
      var c := cs[|cs| - 1];
      var k := Slot(entries, c.name);
      var r := UniqueByName(cs);
      forall i, j | 0 <= i < j < |r|
        ensures r[i].name != r[j].name
      {
        if k < |entries| {
          assert r == entries[k := c];
        } else {
          assert r == entries + [c];
        }
      }
    }
  }

  lemma {:induction false} UniqueLast(cs: seq<Connector>)
    ensures forall i :: 0 <= i < |UniqueByName(cs)| ==>
      LastNamed(cs, UniqueByName(cs)[i].name) == Some(UniqueByName(cs)[i])
    decreases |cs|
  {
    if cs != [] {
      var init := cs[..|cs| - 1];
      UniqueLast(init);
      UniqueDistinct(init);
      var entries := UniqueByName(init);
      var c := cs[|cs| - 1];
      var k := Slot(entries, c.name);
      var r := UniqueByName(cs);
      assert cs == init + [c];
      forall i | 0 <= i < |r|
        ensures LastNamed(cs, r[i].name) == Some(r[i])
      {
        if r[i].name != c.name {
          assert r[i] == entries[i];
          assert LastNamed(cs, r[i].name) == LastNamed(init, r[i].name);
        } else if k < |entries| && i != k {
          assert r[i] == entries[i];
        }
      }
    }
  }

  lemma {:induction false} UniqueCovers(cs: seq<Connector>)
    ensures forall c :: c in cs ==> exists i :: 0 <= i < |UniqueByName(cs)| && UniqueByName(cs)[i].name == c.name
    decreases |cs|
  {
    if cs != [] {
      var init := cs[..|cs| - 1];
      UniqueCovers(init);
      var entries := UniqueByName(init);
      var c := cs[|cs| - 1];
      var k := Slot(entries, c.name);
      var r := UniqueByName(cs);
      assert cs == init + [c];
      assert |entries| <= |r|;
      forall d | d in cs
        ensures exists i :: 0 <= i < |r| && r[i].name == d.name
      {
        if d in init {
          var i :| 0 <= i < |entries| && entries[i].name == d.name;
          assert r[i].name == d.name;
        } else {
          assert d == c;
          assert r[if k < |entries| then k else |entries|].name == d.name;
        }
      }
      assert r == UniqueByName(cs);
    }
  }

  lemma {:induction false} UniqueFrom(cs: seq<Connector>)
    ensures forall c :: c in UniqueByName(cs) ==> c in cs
    decreases |cs|
  {
    if cs != [] {
      var init := cs[..|cs| - 1];
      UniqueFrom(init);
      var entries := UniqueByName(init);
      var c := cs[|cs| - 1];
      var r := UniqueByName(cs);
      assert cs == init + [c];
      forall d | d in r
        ensures d in cs
      {
        var i :| 0 <= i < |r| && r[i] == d;
        if d != c {
          assert d == entries[i];
        }
      }
    }
  }

  lemma {:induction false} InsertKeeps(c: Connector, s: seq<Connector>, key: Connector -> int)
    ensures multiset(Insert(c, s, key)) == multiset(s) + multiset{c}
    decreases |s|
  {
    if s != [] && key(c) >= key(s[0]) {
      InsertKeeps(c, s[1..], key);
      assert s == [s[0]] + s[1..];
    }
  }

  lemma {:induction false} InsertSorted(c: Connector, s: seq<Connector>, key: Connector -> int)
    requires SortedBy(s, key)
    ensures SortedBy(Insert(c, s, key), key)
    decreases |s|
  {
    if s != [] && key(c) >= key(s[0]) {
      var tail := s[1..];
      var ins := Insert(c, tail, key);
      assert SortedBy(tail, key) by {
        forall i, j | 0 <= i < j < |tail| ensures key(tail[i]) <= key(tail[j]) {
          assert tail[i] == s[i + 1] && tail[j] == s[j + 1];
        }
      }
      InsertSorted(c, tail, key);
      assert forall x :: x in tail ==> key(s[0]) <= key(x) by {
        forall x | x in tail ensures key(s[0]) <= key(x) {
          var k :| 0 <= k < |tail| && tail[k] == x;
          assert x == s[k + 1];
        }
      }
      InsertLowerBound(c, tail, key, key(s[0]));
      var r := Insert(c, s, key);
      assert r == [s[0]] + ins;
      forall i, j | 0 <= i < j < |r|
        ensures key(r[i]) <= key(r[j])
      {
        assert r[j] == ins[j - 1];
        if i > 0 {
          assert r[i] == ins[i - 1];
        } else {
          assert r[j] in ins;
        }
      }
    }
  }

  /** Inserting above a lower bound on the keys keeps the bound. */
  lemma {:induction false} InsertLowerBound(c: Connector, s: seq<Connector>, key: Connector -> int, m: int)
    requires m <= key(c)
    requires forall x :: x in s ==> m <= key(x)
    ensures forall x :: x in Insert(c, s, key) ==> m <= key(x)
    decreases |s|
  {
    if s != [] && key(c) >= key(s[0]) {
      var tail := s[1..];
      assert forall x :: x in tail ==> x in s;
      InsertLowerBound(c, tail, key, m);
      assert Insert(c, s, key) == [s[0]] + Insert(c, tail, key);
    }
  }

  /** The sort is a permutation, and its result is ordered by the key. */
  lemma {:induction false} SortMeaning(s: seq<Connector>, key: Connector -> int)
    ensures multiset(SortBy(s, key)) == multiset(s)
    ensures SortedBy(SortBy(s, key), key)
    decreases |s|
  {
    if s != [] {
      var init := s[..|s| - 1];
      SortMeaning(init, key);
      InsertKeeps(s[|s| - 1], SortBy(init, key), key);
      InsertSorted(s[|s| - 1], SortBy(init, key), key);
      assert s == init + [s[|s| - 1]];
    }
  }

  /** Sorting does not change which connectors are in the list. */
  lemma SortKeepsNames(s: seq<Connector>)
    requires DistinctNames(s)
    ensures DistinctNames(SortByRank(s))
    ensures forall c :: c in SortByRank(s) <==> c in s
  {
    SortMeaning(s, RankOf);
    var r := SortByRank(s);
    forall i, j | 0 <= i < j < |r|
      ensures r[i].name != r[j].name
    {
      DistinctAfterPermutation(s, r, i, j);
    }
    forall c
      ensures c in r <==> c in s
    {
      assert c in r <==> c in multiset(r);
    }
  }

  /** Two positions of a permutation of a list with distinct names hold distinct names. */
  lemma DistinctAfterPermutation(s: seq<Connector>, r: seq<Connector>, i: nat, j: nat)
    requires DistinctNames(s) && multiset(r) == multiset(s)
    requires i < j < |r|
    ensures r[i].name != r[j].name
  {
    assert r[i] in multiset(s) && r[j] in multiset(s);
    var a :| 0 <= a < |s| && s[a] == r[i];
    var b :| 0 <= b < |s| && s[b] == r[j];
    if r[i] == r[j] {
      MultisetTwice(r, i, j);
      MultisetOnce(s, a);
    }
  }

  /** In a list with distinct names an element occurs once. */
  lemma MultisetOnce(s: seq<Connector>, a: nat)
    requires DistinctNames(s) && a < |s|
    ensures multiset(s)[s[a]] == 1
  {
    assert s == s[..a] + [s[a]] + s[a + 1..];
    assert s[a] !in s[..a] by {
      forall k | 0 <= k < a ensures s[k] != s[a] { }
    }
    assert s[a] !in s[a + 1..] by {
      forall k | a + 1 <= k < |s| ensures s[k] != s[a] { }
    }
  }

  /** Two positions holding the same element make it occur twice. */
  lemma MultisetTwice(r: seq<Connector>, i: nat, j: nat)
    requires i < j < |r| && r[i] == r[j]
    ensures multiset(r)[r[i]] >= 2
  {
    assert r == r[..i] + [r[i]] + r[i + 1..j] + [r[j]] + r[j + 1..];
  }

  /**
   * What the dialog offers: only allowed wallets, in the order MetaMask,
   * Backpack, OKX Wallet with no name twice (hence at most three), each
   * the last connector reported under its name, and every allowed wallet
   * that was reported.
   */
  lemma AvailableMeaning(connectors: Option<seq<Connector>>)
    ensures connectors.None? ==> Available(connectors) == []
    ensures var r := Available(connectors);
      && (forall i :: 0 <= i < |r| ==> r[i].name in AllowNames)
      && (forall i, j :: 0 <= i < j < |r| ==> Rank(r[i].name) < Rank(r[j].name))
      && (forall i :: 0 <= i < |r| ==> LastNamed(connectors.GetOr([]), r[i].name) == Some(r[i]))
      && (forall c :: c in connectors.GetOr([]) && c.name in AllowNames ==>
            exists i :: 0 <= i < |r| && r[i].name == c.name)
  {
    var cs := connectors.GetOr([]);
    AvailableEntries(cs);
    AvailableRanks(cs);
    AvailableComplete(cs);
  }

  /** Each offered connector is allowed and the last one reported under its name. */
  lemma AvailableEntries(cs: seq<Connector>)
    ensures var r := Available(Some(cs));
      forall i :: 0 <= i < |r| ==> r[i].name in AllowNames && LastNamed(cs, r[i].name) == Some(r[i])
  {
    var allowed := Allowed(cs);
    var unique := UniqueByName(allowed);
    var r := Available(Some(cs));
    UniqueMeaning(allowed);
    assert forall c :: c in r ==> c in unique by {
      SortKeepsNames(unique);
    }
    AllowedMeaning(cs);
    forall i | 0 <= i < |r|
      ensures r[i].name in AllowNames && LastNamed(cs, r[i].name) == Some(r[i])
    {
      assert r[i] in unique;
      var k :| 0 <= k < |unique| && unique[k] == r[i];
      assert r[i] in allowed;
      assert LastNamed(allowed, r[i].name) == Some(r[i]);
    }
  }

  /** The offered connectors have strictly increasing ranks. */
  lemma AvailableRanks(cs: seq<Connector>)
    ensures var r := Available(Some(cs));
      forall i, j :: 0 <= i < j < |r| ==> Rank(r[i].name) < Rank(r[j].name)
  {
    var unique := UniqueByName(Allowed(cs));
    var r := Available(Some(cs));
    assert DistinctNames(r) && SortedBy(r, RankOf) by {
      UniqueMeaning(Allowed(cs));
      SortKeepsNames(unique);
      SortMeaning(unique, RankOf);
    }
    AvailableEntries(cs);
    forall i, j | 0 <= i < j < |r|
      ensures Rank(r[i].name) < Rank(r[j].name)
    {
      assert RankOf(r[i]) <= RankOf(r[j]);
      RankOfAllowed(r[i].name);
      RankOfAllowed(r[j].name);
    }
  }

  /** Every allowed wallet that was reported is offered. */
  lemma AvailableComplete(cs: seq<Connector>)
    ensures var r := Available(Some(cs));
      forall c :: c in cs && c.name in AllowNames ==> exists i :: 0 <= i < |r| && r[i].name == c.name
  {
    var allowed := Allowed(cs);
    var unique := UniqueByName(allowed);
    var r := Available(Some(cs));
    assert forall c :: c in unique ==> c in r by {
      UniqueMeaning(allowed);
      SortKeepsNames(unique);
    }
    forall c | c in cs && c.name in AllowNames
      ensures exists i :: 0 <= i < |r| && r[i].name == c.name
    {
      AllowedMeaning(cs);
      UniqueMeaning(allowed);
      assert c in allowed;
      var k :| 0 <= k < |unique| && unique[k].name == c.name;
      assert unique[k] in r;
    }
  }

  /** So the dialog never offers more than three wallets. */
  lemma AtMostThree(connectors: Option<seq<Connector>>)
    ensures |Available(connectors)| <= |Order|
  {
    AvailableMeaning(connectors);
    var r := Available(connectors);
    if |r| > |Order| {
      RanksIncrease(r, |r| - 1);
    }
  }

  /** In a list of strictly increasing ranks, position i has rank at least i. */
  lemma {:induction false} RanksIncrease(r: seq<Connector>, i: nat)
    requires i < |r|
    requires forall a, b :: 0 <= a < b < |r| ==> Rank(r[a].name) < Rank(r[b].name)
    requires forall a :: 0 <= a < |r| ==> Rank(r[a].name) >= 0
    ensures Rank(r[i].name) >= i
  {
    if i > 0 {
      RanksIncrease(r, i - 1);
    }
  }

  /** A wallet reported twice is offered once, with its later connector. */
  lemma DuplicateExample()
    ensures Available(Some([Connector("okx", "OKX Wallet"), Connector("mm1", "MetaMask"), Connector("wc", "WalletConnect"),
                            Connector("mm2", "MetaMask")]))
            == [Connector("mm2", "MetaMask"), Connector("okx", "OKX Wallet")]
  {
    ExampleAllowed();
    ExampleUnique();
    ExampleSorted();
  }

  lemma ExampleAllowed()
    ensures Allowed([Connector("okx", "OKX Wallet"), Connector("mm1", "MetaMask"), Connector("wc", "WalletConnect"),
                     Connector("mm2", "MetaMask")])
            == [Connector("okx", "OKX Wallet"), Connector("mm1", "MetaMask"), Connector("mm2", "MetaMask")]
  {
    var okx, mm1, wc, mm2 := Connector("okx", "OKX Wallet"), Connector("mm1", "MetaMask"),
                             Connector("wc", "WalletConnect"), Connector("mm2", "MetaMask");
    var cs := [okx, mm1, wc, mm2];
    assert cs[..3] == [okx, mm1, wc] && [okx, mm1, wc][..2] == [okx, mm1] && [okx, mm1][..1] == [okx];
    assert "WalletConnect" !in AllowNames;
    assert Allowed([okx]) == [okx];
    assert Allowed([okx, mm1]) == [okx, mm1];
    assert Allowed([okx, mm1, wc]) == [okx, mm1];
  }

  lemma ExampleUnique()
    ensures UniqueByName([Connector("okx", "OKX Wallet"), Connector("mm1", "MetaMask"), Connector("mm2", "MetaMask")])
            == [Connector("okx", "OKX Wallet"), Connector("mm2", "MetaMask")]
  {
    var okx, mm1, mm2 := Connector("okx", "OKX Wallet"), Connector("mm1", "MetaMask"), Connector("mm2", "MetaMask");
    assert [okx, mm1, mm2][..2] == [okx, mm1] && [okx, mm1][..1] == [okx];
    assert UniqueByName([okx]) == [okx];
    assert UniqueByName([okx, mm1]) == [okx, mm1];
    assert Slot([okx, mm1], "MetaMask") == 1;
  }

  lemma ExampleSorted()
    ensures SortByRank([Connector("okx", "OKX Wallet"), Connector("mm2", "MetaMask")])
            == [Connector("mm2", "MetaMask"), Connector("okx", "OKX Wallet")]
  {
    var okx, mm2 := Connector("okx", "OKX Wallet"), Connector("mm2", "MetaMask");
    assert RankOf(mm2) == 0 && RankOf(okx) == 2;
    assert [okx, mm2][..1] == [okx];
    assert SortBy([okx], RankOf) == [okx];
    assert Insert(mm2, [okx], RankOf) == [mm2, okx];
  }
}
