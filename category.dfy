/**
 * `GetCategoryIDs` of `internal/wp/category.go`: list the site's categories once, then
 * resolve each requested name against that listing, creating the names it lacks.
 */
module Category {
  import opened Wrappers
  import opened Taxonomy

  /**
   * `GetCategoryIDs(client, names)`. `listing` is the decoded category listing, or `None`
   * when the listing request or its decoding failed; `service` stands for `CreateCategory`.
   * A failed listing is reported before any category is created.
   */
  method GetCategoryIDs(service: TermService, listing: Option<seq<Term>>, names: seq<string>) returns (r: Result<seq<int>, TaxonomyError>)
    modifies service
    ensures listing.None? ==> r == Failure(ListingFailed) && service.requests == old(service.requests)
    ensures listing.Some? ==>
      var res := Resolve(listing.value, names, service.respond, |old(service.requests)|);
      && service.requests == old(service.requests) + res.created
      && (r.Success? <==> res.ids.Some?)
      && (r.Success? ==> r.value == res.ids.value)
      && (r.Failure? ==> r.error == CreateFailed)
  {
    if listing.None? {
      return Failure(ListingFailed);
    }
    r := ResolveIDs(service, listing.value, names);
  }
}
