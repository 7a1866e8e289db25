/**
 * The `businesses` dictionary and the operations that read or change it. A
 * Python 3.7+ dict iterates its keys in the order they were first inserted,
 * and the query's stable sort depends on that order, so the store keeps it
 * beside the map.
 */
module Registry {
  import opened Wrappers
  import opened Businesses
  import opened Ids
  import opened Query

  /** `order` lists every key of `m` exactly once. */
  ghost predicate IsOrderOf(order: seq<string>, m: map<string, Business>) {
    && (forall i, j :: 0 <= i < j < |order| ==> order[i] != order[j])
    && (forall k :: k in order <==> k in m)
  }

  /** `businesses.items()`: the entries in key insertion order. */
  function Items(m: map<string, Business>, order: seq<string>): (r: seq<Entry>)
    requires forall k :: k in order ==> k in m
    ensures |r| == |order|
    ensures forall i :: 0 <= i < |order| ==> r[i] == Entry(order[i], m[order[i]])
    decreases |order|
  {
    if order == [] then [] else [Entry(order[0], m[order[0]])] + Items(m, order[1..])
  }

  /** Each key of the map yields exactly one entry, paired with its record. */
  lemma {:induction false} ItemsCount(m: map<string, Business>, order: seq<string>)
    requires forall k :: k in order ==> k in m
    requires forall i, j :: 0 <= i < j < |order| ==> order[i] != order[j]
    ensures |Items(m, order)| == |order|
    ensures forall e :: multiset(Items(m, order))[e] == if e.id in order && e.record == m[e.id] then 1 else 0
    decreases |order|
  {
    if order != [] {
      ItemsCount(m, order[1..]);
      forall j | 0 <= j < |order[1..]| ensures order[1..][j] != order[0] {
        assert order[1..][j] == order[j + 1];
      }
      forall k | k in order ensures k == order[0] || k in order[1..] {
        var i :| 0 <= i < |order| && order[i] == k;
        if i > 0 { assert order[1..][i - 1] == k; }
      }
    }
  }

  /** A list of distinct keys is as long as the map it enumerates. */
  lemma {:induction false} OrderLength(order: seq<string>, m: map<string, Business>)
    requires IsOrderOf(order, m)
    ensures |order| == |m|
    decreases |order|
  {
    if order == [] {
      assert m.Keys == {};
    } else {
      var k := order[0];
      var m' := map x | x in m && x != k :: m[x];
      forall x | x in order[1..] ensures x != k {
        var j :| 0 <= j < |order[1..]| && order[1..][j] == x;
        assert order[j + 1] == x;
      }
      forall x | x in m' ensures x in order[1..] {
        var i :| 0 <= i < |order| && order[i] == x;
        assert i > 0 && order[1..][i - 1] == x;
      }
      OrderLength(order[1..], m');
      assert m.Keys == m'.Keys + {k};
    }
  }

  /**
   * The query on a registry returns each matching business exactly once, with
   * its stored record, and nothing else.
   */
  lemma QueryReturnsMatches(m: map<string, Business>, order: seq<string>, q: string)
    requires IsOrderOf(order, m)
    ensures var r := FilterAndSort(Items(m, order), q);
      forall id, b :: multiset(r)[Entry(id, b)] == if id in m && b == m[id] && Matches(b, q) then 1 else 0
  {
    ItemsCount(m, order);
  }

  /** The empty query lists every business of the registry, each once. */
  lemma EmptyQueryListsAll(m: map<string, Business>, order: seq<string>)
    requires IsOrderOf(order, m)
    ensures var r := FilterAndSort(Items(m, order), "");
      && |r| == |m|
      && (forall id :: id in m ==> Entry(id, m[id]) in r)
      && (forall i :: 0 <= i < |r| ==> r[i].id in m && r[i].record == m[r[i].id])
  {
    var r := FilterAndSort(Items(m, order), "");
    ItemsCount(m, order);
    OrderLength(order, m);
    EmptyQueryReturnsAll(Items(m, order));
    assert |r| == |m| by {
      assert |multiset(r)| == |multiset(Items(m, order))|;
    }
    forall id | id in m ensures Entry(id, m[id]) in r {
      assert multiset(r)[Entry(id, m[id])] == 1;
    }
    forall i | 0 <= i < |r| ensures r[i].id in m && r[i].record == m[r[i].id] {
      assert multiset(r)[r[i]] > 0;
    }
  }

  /** The `businesses` dictionary, with its keys' insertion order. */
  class BusinessStore {
    var businesses: map<string, Business>
    var order: seq<string>

    ghost predicate Valid()
      reads this
    {
      IsOrderOf(order, businesses)
    }

    /** The map as loaded at start-up, with its keys in file order. */
    constructor (initial: map<string, Business>, loadOrder: seq<string>)
      requires IsOrderOf(loadOrder, initial)
      ensures Valid()
      ensures businesses == initial && order == loadOrder
    {
      businesses := initial;
      order := loadOrder;
    }

    /** `businesses.items()`: one entry per key, in key insertion order. */
    function Entries(): (r: seq<Entry>)
      reads this
      requires Valid()
      ensures |r| == |order| && forall i :: 0 <= i < |r| ==> r[i] == Entry(order[i], businesses[order[i]])
      ensures forall e :: multiset(r)[e] == if e.id in businesses && e.record == businesses[e.id] then 1 else 0
    {
      ItemsCount(businesses, order);
      Items(businesses, order)
    }

    /** `filter_and_sort_businesses(q, 'category')` on the current map. */
    function FilterAndSortBusinesses(q: string): (r: seq<Entry>)
      reads this
      requires Valid()
      ensures forall id, b ::
                multiset(r)[Entry(id, b)] == if id in businesses && b == businesses[id] && Matches(b, q) then 1 else 0
      ensures SortedDesc(r) && forall c :: WithKey(r, c) == Filter(WithKey(Entries(), c), q)
    {
      QueryReturnsMatches(businesses, order, q);
      FilterAndSort(Entries(), q)
    }

    /** `Business.get` / `BusinessAsJSON.get`: the guard, then the stored record. */
    method Get(id: string) returns (r: Result<Business, Error>)
      requires Valid()
      ensures r.Success? <==> id in businesses
      ensures r.Success? ==> r.value == businesses[id]
      ensures r.Failure? ==> r.error == NotFound(404, "Business " + id + " doesn't exist")
    {
      var found := CheckExists(businesses, id);
      if found.Fail? {
        return Failure(found.error);
      }
      r := Success(businesses[id]);
    }

    /**
     * `post`: store the payload (each field already passed `nonempty_string`
     * in the request parser) with the shop category under the id the draws
     * generate, then list all businesses. A colliding id is not checked for: its
     * record is replaced and it keeps its place in the order.
     */
    method Post(draws: seq<nat>, fields: NewBusiness) returns (id: string, listing: seq<Entry>)
      requires Valid()
      requires |draws| == DefaultIdSize && ValidDraws(draws)
      requires ValidPayload(fields)
      modifies this
      ensures Valid()
      ensures id == GenerateId(draws)
      ensures businesses == old(businesses)[id := Created(fields)]
      ensures order == if id in old(businesses) then old(order) else old(order) + [id]
      ensures listing == FilterAndSort(Items(businesses, order), "")
    {
      id := GenerateId(draws);
      var business := Created(fields);
      if id !in businesses {
        order := order + [id];
      }
      businesses := businesses[id := business];
      listing := FilterAndSortBusinesses("");
    }

    /**
     * `Business.patch`: the guard, then the eight fields of the stored record
     * assigned from the update, one by one.
     */
    method Patch(id: string, upd: Update) returns (r: Result<Business, Error>)
      requires Valid()
      modifies this
      ensures Valid() && order == old(order)
      ensures r.Success? <==> id in old(businesses)
      ensures r.Failure? ==> businesses == old(businesses)
      ensures r.Failure? ==> r.error == NotFound(404, "Business " + id + " doesn't exist")
      ensures r.Success? ==> businesses == old(businesses)[id := Patched(old(businesses)[id], upd)]
      ensures r.Success? ==> r.value == businesses[id]
    {
      var found := CheckExists(businesses, id);
      if found.Fail? {
        return Failure(found.error);
      }
      var business := businesses[id];
      business := business.(name := upd.name);
      business := business.(location := upd.location);
      business := business.(url := Some(upd.url));
      business := business.(phone := Some(upd.phone));
      business := business.(hours := Some(upd.hours));
      business := business.(rating := Some(upd.rating));
      business := business.(description := upd.description);
      business := business.(category := upd.category);
      businesses := businesses[id := business];
      r := Success(business);
    }
  }

  /** A create with a fresh id adds that one key, with the shop category, and changes no other record. */
  lemma PostFreshIdFrame(m: map<string, Business>, id: string, fields: NewBusiness)
    requires id !in m
    ensures var m' := m[id := Created(fields)];
      && m'.Keys == m.Keys + {id} && |m'| == |m| + 1
      && m'[id].category == 0 && Categories[m'[id].category] == "shop"
      && (forall k :: k in m ==> m'[k] == m[k])
  {
    assert (m[id := Created(fields)]).Keys == m.Keys + {id};
  }

  /** A patch keeps the key set and every other record. */
  lemma PatchFrame(m: map<string, Business>, id: string, upd: Update)
    requires id in m
    ensures var m' := m[id := Patched(m[id], upd)];
      && m'.Keys == m.Keys
      && (forall k :: k in m && k != id ==> m'[k] == m[k])
      && m'[id].name == upd.name && m'[id].description == upd.description
      && m'[id].category == upd.category
  {
    PatchedOverwritesAll(m[id], upd);
  }
}

module RegistryExample {
  import opened Wrappers
  import opened Text
  import opened Businesses
  import opened Query
  import opened Registry

  const JoesBar := Business("Joe's Bar", "Main St", None, None, None, None, "craft beer", 2)
  const CityClub := Business("City Club", "High St", None, None, None, None, "dancing", 3)

  lemma ExampleTexts()
    ensures Lower(JoesBar.name + JoesBar.description) == "joe's barcraft beer"
    ensures Lower(CityClub.name + CityClub.description) == "city clubdancing"
    ensures Lower("beer") == "beer"
  {
    LowerAppend(JoesBar.name, JoesBar.description);
    LowerAppend(CityClub.name, CityClub.description);
  }

  lemma BeerInBar()
    ensures Contains("joe's barcraft beer", "beer")
  {
    var bar := "joe's barcraft beer";
    assert bar[15] == 'b' && bar[16] == 'e' && bar[17] == 'e' && bar[18] == 'r';
    assert OccursAt(bar, "beer", 15);
  }

  lemma NoBeerInClub()
    ensures !Contains("city clubdancing", "beer")
  {
    var club := "city clubdancing";
    forall i | 0 <= i <= 12 && i != 8 ensures club[i] != 'b' {
      assert i == 0 || i == 1 || i == 2 || i == 3 || i == 4 || i == 5 || i == 6 || i == 7
        || i == 9 || i == 10 || i == 11 || i == 12;
    }
    forall i ensures !OccursAt(club, "beer", i) {
      if 0 <= i && i + 4 <= |club| {
        assert club[i..i + 4][0] == club[i] && club[i..i + 4][1] == club[i + 1];
        if i == 8 {
          assert club[9] == 'd';
        }
      }
    }
  }

  lemma ExampleMatches()
    ensures Matches(JoesBar, "beer") && !Matches(CityClub, "beer")
  {
    ExampleTexts();
    BeerInBar();
    NoBeerInClub();
  }

  lemma ExampleItems()
    ensures Items(map["a1" := JoesBar, "b2" := CityClub], ["a1", "b2"])
      == [Entry("a1", JoesBar), Entry("b2", CityClub)]
  {
    var m := map["a1" := JoesBar, "b2" := CityClub];
    assert ["a1", "b2"][1..] == ["b2"];
    assert ["b2"][1..] == [];
    assert Items(m, ["b2"]) == [Entry("b2", CityClub)];
  }

  /**
   * Two businesses loaded in the order a1, b2: the empty query lists the club
   * (category 3) before the bar (category 2); the query "beer" finds only the bar.
   */
  lemma QueryExample()
    ensures var m := map["a1" := JoesBar, "b2" := CityClub];
      && FilterAndSort(Items(m, ["a1", "b2"]), "") == [Entry("b2", CityClub), Entry("a1", JoesBar)]
      && FilterAndSort(Items(m, ["a1", "b2"]), "beer") == [Entry("a1", JoesBar)]
  {
    var a1, b2 := Entry("a1", JoesBar), Entry("b2", CityClub);
    ExampleItems();
    FilterEmptyQuery([a1, b2]);
    assert [a1, b2][1..] == [b2];
    assert SortDesc([b2]) == [b2];
    assert InsertDesc(a1, [b2]) == [b2, a1];
    assert SortDesc([a1, b2]) == [b2, a1];
    ExampleMatches();
    FilterCons(a1, [b2], "beer");
    FilterCons(b2, [], "beer");
    assert Filter([a1, b2], "beer") == [a1];
    assert SortDesc([a1]) == [a1];
  }
}
