/** Properties that relate several handler calls, the behaviour the router's
    tests exercise, and the quirks of its validation order. */
module CatalogProperties {
  import opened Wrappers
  import opened Text
  import opened ItemStore
  import opened Helpers
  import opened ItemsRoutes

  /** A name with no `%20` and no white space at its ends is unchanged by cleanString. */
  lemma CleanStringPlain(s: string)
    requires Trimmed(s) && !Has20(s)
    ensures Trim(s) == s && CleanString(s) == s
  {
    TrimUntouched(s);
    CleanStringNo20IsTrim(s);
  }

  // ---------------------------------------------------------------------------
  // Sequences of requests
  // ---------------------------------------------------------------------------

  /** A record just created is found by a GET whose path cleans to its name. */
  lemma CreateThenGet(store: Store, name: Value, price: Value, parse: string -> Option<real>, param: string)
    requires Create(store, name, price, parse).response.Success?
    requires CleanString(param) == Trim(name.s)
    ensures GetOne(Create(store, name, price, parse).store, param).response
         == Success(200, Found(Item(Trim(name.s), Coerce(price, parse).value)))
  {
    AppendedIsFirstMatch(store, Item(Trim(name.s), Coerce(price, parse).value));
  }

  /** A second create under the same trimmed name is refused with the price of
      the record the first one added, and the store stays as the first left it. */
  lemma CreateTwiceRejected(store: Store, name: Value, price: Value, name2: Value, price2: Value, parse: string -> Option<real>)
    requires Create(store, name, price, parse).response.Success?
    requires Present(name2) && Present(price2) && name2.Str? && Trim(name2.s) == Trim(name.s)
    ensures var s1 := Create(store, name, price, parse).store;
      Create(s1, name2, price2, parse)
        == Reply(Failure(AlreadyExists(Trim(name.s), Coerce(price, parse).value)), s1)
  {
    var s1 := Create(store, name, price, parse).store;
    AppendedIsFirstMatch(store, Item(Trim(name.s), Coerce(price, parse).value));
    RetrieveAgrees(s1, Trim(name.s));
  }

  /** After a DELETE, a GET of the same path name finds nothing. */
  lemma DeleteThenGet(store: Store, param: string)
    requires Unique(store)
    ensures GetOne(Delete(store, param).store, param).response == Failure(NotFound(CleanString(param)))
  {
  }

  /** The all-or-nothing update answers exactly what the router answers, and
      when that answer is a success it leaves the same store. */
  lemma UpdateAtomicAgrees(store: Store, param: string, name: Value, price: Value, parse: string -> Option<real>)
    ensures UpdateAtomic(store, param, name, price, parse).response == Update(store, param, name, price, parse).response
    ensures Update(store, param, name, price, parse).response.Success? ==>
              UpdateAtomic(store, param, name, price, parse).store == Update(store, param, name, price, parse).store
  {
    var i := RetrieveItemIndex(store, CleanString(param));
    if i != -1 && (Present(name) || Present(price)) && (Present(name) ==> name.Str?) {
      if Present(name) && RetrieveItem(store, Trim(name.s)).Some? {
      } else if Present(price) && Coerce(price, parse).None? {
        assert UpdateAtomic(store, param, name, price, parse).response == Failure(NotANumber(CleanString(param), price));
      } else {
        var renamed := if Present(name) then SetName(store, i, Trim(name.s)) else store;
        var repriced := if Present(price) then SetPrice(renamed, i, Coerce(price, parse).value) else renamed;
        assert Update(store, param, name, price, parse).store == repriced;
      }
    }
  }

  // ---------------------------------------------------------------------------
  // Quirks of the validation order
  // ---------------------------------------------------------------------------

  /** Whenever a rename is accepted and the price then fails to coerce, the
      answer is an error and yet the store has changed: the rename persists. */
  lemma UpdateNotAtomic(store: Store, param: string, name: Value, price: Value, parse: string -> Option<real>)
    requires Named(store, CleanString(param))
    requires Present(name) && name.Str? && !Named(store, Trim(name.s))
    requires Present(price) && Coerce(price, parse).None?
    ensures var r := Update(store, param, name, price, parse);
      && r.response == Failure(NotANumber(CleanString(param), price))
      && r.store == SetName(store, RetrieveItemIndex(store, CleanString(param)), Trim(name.s))
      && r.store != store
  {
    var i := RetrieveItemIndex(store, CleanString(param));
    var r := Update(store, param, name, price, parse);
    assert r.store[i].name == Trim(name.s) != store[i].name;
  }

  /** Renaming an item to the name it already has is a name collision:
      `PATCH /milk` with body name `milk` is refused and changes nothing. */
  lemma RenameToSelfRejected(store: Store, n: string, price: Value, parse: string -> Option<real>)
    requires n != [] && Trimmed(n) && !Has20(n) && Named(store, n)
    ensures Update(store, n, Str(n), price, parse) == Reply(Failure(NameTaken(n, n)), store)
  {
    CleanStringPlain(n);
  }

  /** A price of 0 is falsy, so it counts as a missing price. */
  lemma ZeroPriceIsMissing(store: Store, s: string, parse: string -> Option<real>)
    requires s != ""
    ensures Create(store, Str(s), Num(0.0), parse) == Reply(Failure(MissingPrice), store)
  {
  }

  /** Presence is checked before trimming: a name of white space only passes
      and is stored as the empty name. */
  lemma BlankNameStoredEmpty(store: Store, blank: string, p: real, parse: string -> Option<real>)
    requires blank != "" && AllWs(blank)
    requires !Named(store, "") && p != 0.0
    ensures Create(store, Str(blank), Num(p), parse)
         == Reply(Success(201, Added(Item("", p))), store + [Item("", p)])
  {
    TrimAllWs(blank);
  }

  /** A path parameter holding the literal text `%20` finds the same record
      as one holding a plain space. Express has already decoded the URL, so
      the parameter `froot%20loops` comes from a request for
      `/items/froot%2520loops`, and `froot loops` from `/items/froot%20loops`. */
  lemma GetDecodesSpaces(store: Store, p: string, q: string)
    requires p != [] && q != [] && !IsWs(p[0]) && !IsWs(q[|q| - 1])
    requires !Has20(p) && !Has20(q)
    ensures GetOne(store, p + "%20" + q) == GetOne(store, p + " " + q)
  {
    var encoded := p + "%20" + q;
    var spaced := p + " " + q;
    assert encoded[0] == p[0] && encoded[|encoded| - 1] == q[|q| - 1];
    assert spaced[0] == p[0] && spaced[|spaced| - 1] == q[|q| - 1];
    TrimUntouched(encoded);
    CleanStringDecodesOneSpace(p, q);
    SpaceJoinNo20(p, q);
    TrimUntouched(spaced);
  }

  /** The request sequence the router's tests walk through on a store seeded
      with one record whose name has no white space at its ends and no `%20`:
      a duplicate POST is refused with the existing price, a PATCH with blank
      fields changes nothing, and a DELETE empties the store so that a later
      GET finds nothing. */
  lemma SeededScenario(seeded: Item, parse: string -> Option<real>)
    requires seeded.name != "" && seeded.price != 0.0
    requires Trimmed(seeded.name) && !Has20(seeded.name)
    ensures var seed := [seeded];
      && Create(seed, Str(seeded.name), Num(seeded.price), parse)
           == Reply(Failure(AlreadyExists(seeded.name, seeded.price)), seed)
      && Update(seed, seeded.name, Str(""), Str(""), parse)
           == Reply(Failure(NothingToUpdate(seeded.name)), seed)
      && Delete(seed, seeded.name) == Reply(Success(200, Deleted), [])
      && GetOne([], seeded.name).response == Failure(NotFound(seeded.name))
  {
    CleanStringPlain(seeded.name);
    SeededDuplicatePost(seeded, parse);
    SeededBlankPatch(seeded, parse);
    SeededDelete(seeded);
  }

  lemma SeededFindsItself(seeded: Item)
    ensures RetrieveItemIndex([seeded], seeded.name) == 0
    ensures RetrieveItem([seeded], seeded.name) == Some(seeded)
  {
    assert [seeded][0].name == seeded.name;
    RetrieveAgrees([seeded], seeded.name);
  }

  lemma SeededDuplicatePost(seeded: Item, parse: string -> Option<real>)
    requires seeded.name != "" && seeded.price != 0.0 && Trimmed(seeded.name)
    ensures Create([seeded], Str(seeded.name), Num(seeded.price), parse)
         == Reply(Failure(AlreadyExists(seeded.name, seeded.price)), [seeded])
  {
    var n := seeded.name;
    assert Present(Str(n)) && Present(Num(seeded.price));
    TrimUntouched(n);
    SeededFindsItself(seeded);
    assert RetrieveItem([seeded], Trim(n)) == Some(seeded);
  }

  lemma SeededBlankPatch(seeded: Item, parse: string -> Option<real>)
    requires Trimmed(seeded.name) && !Has20(seeded.name)
    ensures Update([seeded], seeded.name, Str(""), Str(""), parse)
         == Reply(Failure(NothingToUpdate(seeded.name)), [seeded])
  {
    CleanStringPlain(seeded.name);
    SeededFindsItself(seeded);
  }

  lemma SeededDelete(seeded: Item)
    requires Trimmed(seeded.name) && !Has20(seeded.name)
    ensures Delete([seeded], seeded.name) == Reply(Success(200, Deleted), [])
    ensures GetOne([], seeded.name).response == Failure(NotFound(seeded.name))
  {
    CleanStringPlain(seeded.name);
    SeededFindsItself(seeded);
  }

  /** The fixture record of the router's tests meets the seeded scenario's
      requirements on its name. */
  lemma HersheyBarIsClean(n: string)
    requires n == "giant hershey bar"
    ensures Trimmed(n) && !Has20(n)
  {
    SearchHersheyBar();
  }

  lemma SearchHersheyBar()
    ensures Search20("giant hershey bar") == -1
  {
  }
}
