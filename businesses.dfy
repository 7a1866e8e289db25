/**
 * The business record, the category enumeration, the errors the service raises,
 * and the pure helpers around them: the lookup guard, the non-empty string
 * validator, and the record built by a create or a patch.
 */
module Businesses {
  import opened Wrappers

  /** The errors of the registry: a 404 abort, or a Python ValueError. */
  datatype Error = NotFound(status: nat, message: string) | ValueError(message: string)

  /** The category enumeration `('shop', 'restaurant', 'bar', 'club')`. */
  const Categories: seq<string> := ["shop", "restaurant", "bar", "club"]

  /**
   * One business. `url`, `phone`, `hours` and `rating` are absent (None) on a
   * record made by a create, whose payload has only name, location and description.
   */
  datatype Business = Business(
    name: string,
    location: string,
    url: Option<string>,
    phone: Option<string>,
    hours: Option<string>,
    rating: Option<string>,
    description: string,
    category: int)

  /** The validated payload of a create request. */
  datatype NewBusiness = NewBusiness(name: string, location: string, description: string)

  /** The payload of a patch request: all eight fields the patch reads. */
  datatype Update = Update(
    name: string,
    location: string,
    url: string,
    phone: string,
    hours: string,
    rating: string,
    description: string,
    category: int)

  /** `xs.index(x)`: the first position of `x`, or a ValueError when it is absent. */
  function Index(xs: seq<string>, x: string): (r: Result<nat, Error>)
    ensures r.Success? <==> x in xs
    ensures r.Success? ==> r.value < |xs| && xs[r.value] == x
    ensures r.Success? ==> forall j :: 0 <= j < r.value ==> xs[j] != x
    ensures r.Failure? ==> r.error == ValueError("tuple.index(x): x not in tuple")
  {
    if |xs| == 0 then Failure(ValueError("tuple.index(x): x not in tuple"))
    else if xs[0] == x then Success(0)
    else match Index(xs[1..], x)
      case Success(i) => Success(i + 1)
      case Failure(e) => Failure(e)
  }

  /** `CATEGORIES.index('shop')`, the category every created business gets. */
  function ShopCategory(): (c: nat)
    ensures c == 0 && Categories[c] == "shop"
  {
    Index(Categories, "shop").value
  }

  function NotFoundMessage(id: string): string {
    "Business " + id + " doesn't exist"
  }

  /** `error_if_business_not_found`: fails with a 404 exactly when `id` is not a key. */
  function CheckExists(businesses: map<string, Business>, id: string): (r: Outcome<Error>)
    ensures r.Pass? <==> id in businesses
    ensures r.Fail? ==> r.error.NotFound? && r.error.status == 404
    ensures r.Fail? ==> r.error.message == "Business " + id + " doesn't exist"
  {
    if id !in businesses then Fail(NotFound(404, NotFoundMessage(id))) else Pass
  }

  /** `nonempty_string` on a string argument: rejects "" and returns any other input as it is. */
  function NonemptyString(x: string): (r: Result<string, Error>)
    ensures r.Success? <==> |x| > 0
    ensures r.Success? ==> r.value == x
    ensures r.Failure? ==> r.error == ValueError("string is empty")
  {
    if |x| == 0 then Failure(ValueError("string is empty")) else Success(x)
  }

  /**
   * A create payload as the request parser delivers it: each of the three
   * fields has passed `nonempty_string`.
   */
  predicate ValidPayload(fields: NewBusiness) {
    && NonemptyString(fields.name).Success?
    && NonemptyString(fields.location).Success?
    && NonemptyString(fields.description).Success?
  }

  /**
   * The record a create stores: the parsed payload with the shop category, and
   * no url, phone, hours or rating.
   */
  function Created(fields: NewBusiness): (b: Business)
    ensures b.name == fields.name && b.location == fields.location && b.description == fields.description
    ensures b.category == 0 && Categories[b.category] == "shop"
    ensures b.url.None? && b.phone.None? && b.hours.None? && b.rating.None?
  {
    Business(fields.name, fields.location, None, None, None, None, fields.description, ShopCategory())
  }

  /** The record a patch leaves behind: each of the eight fields assigned from `upd`. */
  function Patched(b: Business, upd: Update): (p: Business)
    ensures p.name == upd.name && p.location == upd.location && p.url == Some(upd.url)
    ensures p.phone == Some(upd.phone) && p.hours == Some(upd.hours) && p.rating == Some(upd.rating)
    ensures p.description == upd.description && p.category == upd.category
  {
    b.(name := upd.name, location := upd.location, url := Some(upd.url), phone := Some(upd.phone),
       hours := Some(upd.hours), rating := Some(upd.rating), description := upd.description,
       category := upd.category)
  }

  /**
   * A patch replaces every field unconditionally: a field is never kept from
   * the record the patch was applied to.
   */
  lemma PatchedOverwritesAll(b: Business, upd: Update)
    ensures forall other :: Patched(other, upd) == Patched(b, upd)
  {
  }
}
