/** routes/items-routes.js: the five handlers of the `/items` router, each a
    single-shot transition from a store and the request's inputs to a reply
    and the store afterwards. */
module ItemsRoutes {
  import opened Wrappers
  import opened Text
  import opened ItemStore
  import opened Helpers

  /** A body field as a handler sees it: missing, a string or a number. */
  datatype Value = Absent | Str(s: string) | Num(n: real)

  /** JavaScript truthiness of a body field: `undefined`, `""` and `0` are falsy. */
  predicate Present(v: Value) {
    match v
    case Absent => false
    case Str(s) => s != ""
    case Num(n) => n != 0.0
  }

  /** Unary `+` followed by the `isNaN` test, with `None` standing for NaN.
      `parse` is JavaScript's string-to-number conversion. */
  function Coerce(v: Value, parse: string -> Option<real>): Option<real> {
    match v
    case Absent => None
    case Num(n) => Some(n)
    case Str(s) => parse(s)
  }

  /** The errors the handlers throw. `NameNotText` is the TypeError raised by
      calling `.trim()` on a body name that is not a string. */
  datatype Error =
    | MissingNameAndPrice
    | MissingName
    | MissingPrice
    | NameNotText
    | AlreadyExists(name: string, existingPrice: real)
    | NotANumber(name: string, given: Value)
    | NotFound(name: string)
    | NothingToUpdate(name: string)
    | NameTaken(from: string, to: string)
  {
    /** The HTTP status the error carries; a TypeError has none and the
        application's error handler answers 500. */
    function Status(): int {
      match this
      case NameNotText => 500
      case AlreadyExists(_, _) => 404
      case NotFound(_) => 404
      case NameTaken(_, _) => 404
      case _ => 400
    }
  }

  datatype Payload = Listing(items: Store) | Added(item: Item) | Found(item: Item) | Updated(item: Item) | Deleted

  datatype Response = Success(status: int, payload: Payload) | Failure(error: Error) {
    function Status(): int {
      match this
      case Success(status, _) => status
      case Failure(e) => e.Status()
    }
  }

  /** What a handler answers, together with the store it leaves behind. */
  datatype Reply = Reply(response: Response, store: Store)

  // ---------------------------------------------------------------------------
  // GET /
  // ---------------------------------------------------------------------------

  function ListAll(store: Store): (r: Reply)
    ensures r.store == store
    ensures r.response.Status() == 200 && r.response.payload == Listing(store)
  {
    Reply(Success(200, Listing(store)), store)
  }

  // ---------------------------------------------------------------------------
  // POST /
  // ---------------------------------------------------------------------------

  function Create(store: Store, name: Value, price: Value, parse: string -> Option<real>): (r: Reply)
    // presence checks, in their order; each one answers 400
    ensures r.response == Failure(MissingNameAndPrice) <==> !Present(name) && !Present(price)
    ensures r.response == Failure(MissingName) <==> !Present(name) && Present(price)
    ensures r.response == Failure(MissingPrice) <==> Present(name) && !Present(price)
    ensures r.response == Failure(NameNotText) <==> Present(name) && Present(price) && !name.Str?
    // the trimmed name must be new; the error reports the existing record's price
    ensures r.response.Failure? && r.response.error.AlreadyExists? <==>
              Present(name) && Present(price) && name.Str? && Named(store, Trim(name.s))
    ensures r.response.Failure? && r.response.error.AlreadyExists? ==>
              r.response.error == AlreadyExists(Trim(name.s), store[RetrieveItemIndex(store, Trim(name.s))].price)
    // a new name whose price is NaN
    ensures r.response.Failure? && r.response.error.NotANumber? <==>
              && Present(name) && Present(price) && name.Str?
              && !Named(store, Trim(name.s)) && Coerce(price, parse).None?
    ensures r.response.Failure? && r.response.error.NotANumber? ==>
              r.response.error == NotANumber(Trim(name.s), price)
    // success: the price coerces, and exactly the new record is appended
    ensures r.response.Success? <==>
              && Present(name) && Present(price) && name.Str?
              && !Named(store, Trim(name.s)) && Coerce(price, parse).Some?
    ensures r.response.Success? ==>
              var added := Item(Trim(name.s), Coerce(price, parse).value);
              r.response == Success(201, Added(added)) && r.store == store + [added]
    ensures r.response.Failure? ==> r.store == store
    ensures Unique(store) ==> Unique(r.store)
  {
    if !Present(name) || !Present(price) then
      if !Present(name) && !Present(price) then Reply(Failure(MissingNameAndPrice), store)
      else if !Present(name) then Reply(Failure(MissingName), store)
      else Reply(Failure(MissingPrice), store)
    else if !name.Str? then
      Reply(Failure(NameNotText), store)
    else
      var itemName := Trim(name.s);
      RetrieveAgrees(store, itemName);
      match RetrieveItem(store, itemName)
      case Some(found) =>
        Reply(Failure(AlreadyExists(itemName, found.price)), store)
      case None =>
        match Coerce(price, parse)
        case None => Reply(Failure(NotANumber(itemName, price)), store)
        case Some(p) =>
          var added := Item(itemName, p);
          var pushed := Insert(store, added);
          assert Unique(store) ==> Unique(pushed) by {
            if Unique(store) {
              InsertKeepsUnique(store, added);
            }
          }
          Reply(Success(201, Added(added)), pushed)
  }

  // ---------------------------------------------------------------------------
  // GET /:name
  // ---------------------------------------------------------------------------

  function GetOne(store: Store, param: string): (r: Reply)
    ensures r.store == store
    ensures r.response.Success? <==> Named(store, CleanString(param))
    ensures r.response.Failure? ==> r.response == Failure(NotFound(CleanString(param)))
    ensures r.response.Success? ==>
              var i := RetrieveItemIndex(store, CleanString(param));
              r.response == Success(200, Found(store[i]))
  {
    var inName := CleanString(param);
    RetrieveAgrees(store, inName);
    match RetrieveItem(store, inName)
    case None => Reply(Failure(NotFound(inName)), store)
    case Some(found) => Reply(Success(200, Found(found)), store)
  }

  // ---------------------------------------------------------------------------
  // PATCH /:name
  // ---------------------------------------------------------------------------

  /** The update as the router performs it: the new name is written before
      the new price is checked, so a bad price leaves a rename in place. */
  function Update(store: Store, param: string, name: Value, price: Value, parse: string -> Option<real>): (r: Reply)
    ensures |r.store| == |store|
    ensures forall j :: 0 <= j < |store| && j != RetrieveItemIndex(store, CleanString(param)) ==> r.store[j] == store[j]
    // the checks, in their order
    ensures r.response == Failure(NotFound(CleanString(param))) <==> !Named(store, CleanString(param))
    ensures r.response == Failure(NothingToUpdate(CleanString(param))) <==>
              Named(store, CleanString(param)) && !Present(name) && !Present(price)
    ensures r.response == Failure(NameNotText) <==>
              Named(store, CleanString(param)) && Present(name) && !name.Str?
    ensures r.response.Failure? && r.response.error.NameTaken? <==>
              Named(store, CleanString(param)) && Present(name) && name.Str? && Named(store, Trim(name.s))
    ensures r.response.Failure? && r.response.error.NameTaken? ==>
              r.response.error == NameTaken(CleanString(param), Trim(name.s))
    ensures r.response == Failure(NotANumber(CleanString(param), price)) <==>
              && Named(store, CleanString(param))
              && (Present(name) ==> name.Str? && !Named(store, Trim(name.s)))
              && Present(price) && Coerce(price, parse).None?
    ensures r.response.Success? <==>
              && Named(store, CleanString(param))
              && (Present(name) || Present(price))
              && (Present(name) ==> name.Str? && !Named(store, Trim(name.s)))
              && (Present(price) ==> Coerce(price, parse).Some?)
    // every error but a bad price leaves the store as it was
    ensures r.response.Failure? && !r.response.error.NotANumber? ==> r.store == store
    ensures r.response.Failure? && r.response.error.NotANumber? ==>
              && Present(price) && Coerce(price, parse).None?
              && (!Present(name) ==> r.store == store)
              && (Present(name) ==>
                    name.Str? && r.store == SetName(store, RetrieveItemIndex(store, CleanString(param)), Trim(name.s)))
    // success: only the fields supplied change on the target record
    ensures r.response.Success? ==>
              var i := RetrieveItemIndex(store, CleanString(param));
              && r.response == Success(200, Updated(r.store[i]))
              && (Present(name) ==> name.Str? && r.store[i].name == Trim(name.s))
              && (!Present(name) ==> r.store[i].name == store[i].name)
              && (Present(price) ==> r.store[i].price == Coerce(price, parse).value)
              && (!Present(price) ==> r.store[i].price == store[i].price)
    ensures Unique(store) ==> Unique(r.store)
  {
    var inName := CleanString(param);
    var i := RetrieveItemIndex(store, inName);
    if i == -1 then
      Reply(Failure(NotFound(inName)), store)
    else if !Present(name) && !Present(price) then
      Reply(Failure(NothingToUpdate(inName)), store)
    else if Present(name) && !name.Str? then
      Reply(Failure(NameNotText), store)
    else if Present(name) && RetrieveItem(store, Trim(name.s)).Some? then
      Reply(Failure(NameTaken(inName, Trim(name.s))), store)
    else
      var renamed := if Present(name) then SetName(store, i, Trim(name.s)) else store;
      assert Unique(store) ==> Unique(renamed) by {
        if Unique(store) && Present(name) {
          SetNameKeepsUnique(store, i, Trim(name.s));
        }
      }
      if !Present(price) then
        Reply(Success(200, Updated(renamed[i])), renamed)
      else
        match Coerce(price, parse)
        case None => Reply(Failure(NotANumber(inName, price)), renamed)
        case Some(p) =>
          var repriced := SetPrice(renamed, i, p);
          assert Unique(renamed) ==> Unique(repriced) by {
            if Unique(renamed) {
              SetPriceKeepsUnique(renamed, i, p);
            }
          }
          Reply(Success(200, Updated(repriced[i])), repriced)
  }

  /** The update the comment above the handler describes: both fields are
      checked before either is written, so every error leaves the store as it was. */
  function UpdateAtomic(store: Store, param: string, name: Value, price: Value, parse: string -> Option<real>): (r: Reply)
    ensures r.response.Failure? ==> r.store == store
    ensures r.response.Failure? && r.response.error.NameTaken? <==>
              Named(store, CleanString(param)) && Present(name) && name.Str? && Named(store, Trim(name.s))
    ensures r.response.Failure? && r.response.error.NameTaken? ==>
              r.response.error == NameTaken(CleanString(param), Trim(name.s))
    ensures r.response == Failure(NotANumber(CleanString(param), price)) <==>
              && Named(store, CleanString(param))
              && (Present(name) ==> name.Str? && !Named(store, Trim(name.s)))
              && Present(price) && Coerce(price, parse).None?
    ensures r.response.Success? <==>
              && Named(store, CleanString(param))
              && (Present(name) || Present(price))
              && (Present(name) ==> name.Str? && !Named(store, Trim(name.s)))
              && (Present(price) ==> Coerce(price, parse).Some?)
    ensures |r.store| == |store|
    ensures forall j :: 0 <= j < |store| && j != RetrieveItemIndex(store, CleanString(param)) ==> r.store[j] == store[j]
    ensures r.response.Success? ==>
              var i := RetrieveItemIndex(store, CleanString(param));
              && r.response == Success(200, Updated(r.store[i]))
              && (Present(name) ==> name.Str? && r.store[i].name == Trim(name.s))
              && (!Present(name) ==> r.store[i].name == store[i].name)
              && (Present(price) ==> r.store[i].price == Coerce(price, parse).value)
              && (!Present(price) ==> r.store[i].price == store[i].price)
    ensures Unique(store) ==> Unique(r.store)
  {
    var inName := CleanString(param);
    var i := RetrieveItemIndex(store, inName);
    if i == -1 then
      Reply(Failure(NotFound(inName)), store)
    else if !Present(name) && !Present(price) then
      Reply(Failure(NothingToUpdate(inName)), store)
    else if Present(name) && !name.Str? then
      Reply(Failure(NameNotText), store)
    else if Present(name) && RetrieveItem(store, Trim(name.s)).Some? then
      Reply(Failure(NameTaken(inName, Trim(name.s))), store)
    else if Present(price) && Coerce(price, parse).None? then
      Reply(Failure(NotANumber(inName, price)), store)
    else
      var renamed := if Present(name) then SetName(store, i, Trim(name.s)) else store;
      assert Unique(store) ==> Unique(renamed) by {
        if Unique(store) && Present(name) {
          SetNameKeepsUnique(store, i, Trim(name.s));
        }
      }
      var repriced := if Present(price) then SetPrice(renamed, i, Coerce(price, parse).value) else renamed;
      assert Unique(renamed) ==> Unique(repriced) by {
        if Unique(renamed) && Present(price) {
          SetPriceKeepsUnique(renamed, i, Coerce(price, parse).value);
        }
      }
      Reply(Success(200, Updated(repriced[i])), repriced)
  }

  // ---------------------------------------------------------------------------
  // DELETE /:name
  // ---------------------------------------------------------------------------

  function Delete(store: Store, param: string): (r: Reply)
    ensures r.response.Failure? <==> !Named(store, CleanString(param))
    ensures r.response.Failure? ==>
              r.response == Failure(NotFound(CleanString(param))) && r.store == store
    ensures r.response.Success? ==>
              var i := RetrieveItemIndex(store, CleanString(param));
              && r.response == Success(200, Deleted)
              && |r.store| == |store| - 1
              && r.store == store[..i] + store[i + 1..]
    ensures Unique(store) ==> Unique(r.store) && !Named(r.store, CleanString(param))
  {
    var inName := CleanString(param);
    var i := RetrieveItemIndex(store, inName);
    if i == -1 then
      Reply(Failure(NotFound(inName)), store)
    else
      var spliced := RemoveAt(store, i);
      assert Unique(store) ==> Unique(spliced) && !Named(spliced, inName) by {
        if Unique(store) {
          RemoveAtKeepsUnique(store, i);
        }
      }
      Reply(Success(200, Deleted), spliced)
  }
}
