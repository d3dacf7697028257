/**
 * The tag lookups of `internal/wp/tag.go`: `GetTagIDs`, the same algorithm as
 * `GetCategoryIDs` over the tag listing, and `GetTagID`, which resolves one name by exact
 * comparison and creates the tag when no listed tag has that name.
 */
module Tag {
  import opened Wrappers
  import opened Taxonomy

  /**
   * `GetTagIDs(client, names)`. `listing` is the decoded tag listing, or `None` when the
   * listing request or its decoding failed; `service` stands for `CreateTag`.
   */
  method GetTagIDs(service: TermService, listing: Option<seq<Term>>, names: seq<string>) returns (r: Result<seq<int>, TaxonomyError>)
    modifies service
    ensures listing.None? ==> r == Failure(ListingFailed) && service.requests == old(service.requests)
    ensures listing.Some? ==>
      var res := Resolve(listing.value, names, service.respond, |old(service.requests)|);
      && service.requests == old(service.requests) + res.created
      && (r.Success? <==> res.ids.Some?)
      && (r.Success? ==> r.value == res.ids.value)
      && (r.Failure? ==> r.error == CreateFailed)
  {
    if listing.None? {
      return Failure(ListingFailed);
    }
    r := ResolveIDs(service, listing.value, names);
  }

  /**
   * `GetTagID(client, name)`: the ID of the first listed tag whose name equals `name`
   * exactly (case matters); otherwise exactly one creation request, whose failure is the
   * call's error. A failed listing is reported before anything is created.
   */
  method GetTagID(service: TermService, listing: Option<seq<Term>>, name: string) returns (r: Result<int, TaxonomyError>)
    modifies service
    ensures listing.None? ==> r == Failure(ListingFailed) && service.requests == old(service.requests)
    ensures listing.Some? && Lookup(listing.value, name, Exact).Some? ==>
      r == Success(Lookup(listing.value, name, Exact).value) && service.requests == old(service.requests)
    ensures listing.Some? && Lookup(listing.value, name, Exact).None? ==>
      && service.requests == old(service.requests) + [name]
      && r == match service.respond(|old(service.requests)|, name)
              case None => Failure(CreateFailed)
              case Some(id) => Success(id)
  {
    if listing.None? {
      return Failure(ListingFailed);
    }
    var found := FindFirst(listing.value, name, Exact);
    if found.Some? {
      return Success(found.value);
    }
    var created := service.Create(name);
    if created.None? {
      return Failure(CreateFailed);
    }
    return Success(created.value);
  }
}
