/**
 * Resolving category and tag names to WordPress term IDs, the algorithm `GetCategoryIDs`
 * and `GetTagIDs` share. A snapshot of the site's terms is listed once; then, for each
 * requested name in order, the first term whose name matches gives the ID, and a name with
 * no match is created through the REST API. A failed creation triggers a second scan of the
 * same snapshot before the whole call fails; since the snapshot has not changed, that second
 * scan finds nothing.
 *
 * The REST API is a `TermService` whose answers are fixed in advance: `respond(n, name)` is
 * what the n-th creation request, for `name`, returns (`None` for any error).
 */
module Taxonomy {
  import opened Wrappers

  /** A category or tag record: the `{ID, Name}` pair of the REST API. */
  datatype Term = Term(id: int, name: string)

  /** ASCII case folding: upper-case letters map to lower case, every other character to itself. */
  function FoldCase(c: char): char {
    if 'A' <= c <= 'Z' then (c as int - 'A' as int + 'a' as int) as char else c
  }

  /** `strings.EqualFold` restricted to ASCII: equal lengths and equal characters up to case. */
  predicate EqualFold(a: string, b: string) {
    |a| == |b| && forall i :: 0 <= i < |a| ==> FoldCase(a[i]) == FoldCase(b[i])
  }

  /** How a term's name is compared with a requested name. */
  datatype Comparison = Exact | IgnoreCase

  predicate NameMatches(cmp: Comparison, termName: string, name: string) {
    match cmp
    case Exact => termName == name
    case IgnoreCase => EqualFold(termName, name)
  }

  /** The index of the first term whose name matches `name`. */
  function FirstMatch(terms: seq<Term>, name: string, cmp: Comparison): (r: Option<nat>)
    ensures r.Some? ==> r.value < |terms| && NameMatches(cmp, terms[r.value].name, name)
    ensures r.Some? ==> forall k :: 0 <= k < r.value ==> !NameMatches(cmp, terms[k].name, name)
    ensures r.None? ==> forall k :: 0 <= k < |terms| ==> !NameMatches(cmp, terms[k].name, name)
  {
    if terms == [] then None
    else if NameMatches(cmp, terms[0].name, name) then Some(0)
    else match FirstMatch(terms[1..], name, cmp)
      case None => None
      case Some(k) => Some(k + 1)
  }

  /** The ID of the first term whose name matches `name`, if any. */
  function Lookup(terms: seq<Term>, name: string, cmp: Comparison): Option<int> {
    match FirstMatch(terms, name, cmp)
    case None => None
    case Some(k) => Some(terms[k].id)
  }

  /** An exact match is also a match up to case, so a name found exactly is found ignoring case. */
  lemma ExactMatchFoundIgnoringCase(terms: seq<Term>, name: string)
    requires FirstMatch(terms, name, Exact).Some?
    ensures FirstMatch(terms, name, IgnoreCase).Some?
    ensures FirstMatch(terms, name, IgnoreCase).value <= FirstMatch(terms, name, Exact).value
  {
    var k := FirstMatch(terms, name, Exact).value;
    assert NameMatches(IgnoreCase, terms[k].name, name);
  }

  /**
   * The scan over the snapshot: the loop with `break` (or `return`) at the first matching
   * term, giving that term's ID.
   */
  method FindFirst(terms: seq<Term>, name: string, cmp: Comparison) returns (id: Option<int>)
    ensures id.Some? <==> exists k :: 0 <= k < |terms| && NameMatches(cmp, terms[k].name, name)
    ensures id == Lookup(terms, name, cmp)
  {
    for i := 0 to |terms|
      invariant forall k :: 0 <= k < i ==> !NameMatches(cmp, terms[k].name, name)
    {
      if NameMatches(cmp, terms[i].name, name) {
        return Some(terms[i].id);
      }
    }
    return None;
  }

  /**
   * The REST API's term creation (`CreateCategory`, `CreateTag`). `requests` lists the names
   * sent so far, in order; the answer to a request depends only on its position and name.
   */
  class TermService {
    const respond: (nat, string) -> Option<int>
    var requests: seq<string>

    constructor (respond: (nat, string) -> Option<int>)
      ensures this.respond == respond && requests == []
    {
      this.respond := respond;
      requests := [];
    }

    /** One creation request: it is recorded, and its answer is the new term's ID or an error. */
    method Create(name: string) returns (id: Option<int>)
      modifies this
      ensures requests == old(requests) + [name]
      ensures id == respond(|old(requests)|, name)
    {
      id := respond(|requests|, name);
      requests := requests + [name];
    }
  }

  /** Why resolving names failed: the listing could not be fetched, or a creation failed. */
  datatype TaxonomyError = ListingFailed | CreateFailed

  /** The outcome of resolving names: the IDs (`None` on failure) and the names sent for creation. */
  datatype Resolution = Resolution(ids: Option<seq<int>>, created: seq<string>)

  /**
   * The names of `names` that the snapshot does not hold, ignoring case, in order and with
   * repetitions: the names a successful resolution creates.
   */
  function Misses(terms: seq<Term>, names: seq<string>): seq<string> {
    if names == [] then []
    else
      var last := names[|names| - 1];
      Misses(terms, names[..|names| - 1]) + if Lookup(terms, last, IgnoreCase).None? then [last] else []
  }

  /** Resolving one more name after a successful resolution of the names before it. */
  function ResolveStep(terms: seq<Term>, prev: Resolution, name: string, respond: (nat, string) -> Option<int>, start: nat): Resolution
    requires prev.ids.Some?
  {
    match Lookup(terms, name, IgnoreCase)
    case Some(id) => Resolution(Some(prev.ids.value + [id]), prev.created)
    case None =>
      match respond(start + |prev.created|, name)
      case None => Resolution(None, prev.created + [name])
      case Some(id) => Resolution(Some(prev.ids.value + [id]), prev.created + [name])
  }

  /**
   * What resolving `names` against the snapshot `terms` gives, when the first creation
   * request is the `start`-th the service sees: the names are taken in order, and the first
   * failed creation ends the resolution.
   */
  function Resolve(terms: seq<Term>, names: seq<string>, respond: (nat, string) -> Option<int>, start: nat): Resolution {
    if names == [] then Resolution(Some([]), [])
    else
      var prev := Resolve(terms, names[..|names| - 1], respond, start);
      if prev.ids.None? then prev
      else ResolveStep(terms, prev, names[|names| - 1], respond, start)
  }

  /** Once a prefix of the names fails, the rest of the names change nothing. */
  lemma {:induction false} ResolveFailureStops(terms: seq<Term>, names: seq<string>, respond: (nat, string) -> Option<int>, start: nat, i: nat)
    requires i <= |names| && Resolve(terms, names[..i], respond, start).ids.None?
    ensures Resolve(terms, names, respond, start) == Resolve(terms, names[..i], respond, start)
    decreases |names| - i
  {
    if i < |names| {
      var p := names[..|names| - 1];
      assert p[..i] == names[..i];
      ResolveFailureStops(terms, p, respond, start, i);
    } else {
      assert names[..i] == names;
    }
  }

  /**
   * On success the service was asked to create exactly the missing names, in order; on
   * failure it was asked for a prefix of them, and the last request is the one that failed.
   */
  lemma {:induction false} ResolveCreatesMisses(terms: seq<Term>, names: seq<string>, respond: (nat, string) -> Option<int>, start: nat)
    ensures var r := Resolve(terms, names, respond, start);
      r.ids.Some? ==> r.created == Misses(terms, names)
    ensures var r := Resolve(terms, names, respond, start);
      r.ids.None? ==>
        && r.created != []
        && r.created <= Misses(terms, names)
        && respond(start + |r.created| - 1, r.created[|r.created| - 1]).None?
  {
    if names != [] {
      var p, last := names[..|names| - 1], names[|names| - 1];
      ResolveCreatesMisses(terms, p, respond, start);
      var m, all := Misses(terms, p), Misses(terms, names);
      var prev, r := Resolve(terms, p, respond, start), Resolve(terms, names, respond, start);
      var missing := Lookup(terms, last, IgnoreCase).None?;
      assert all == m + if missing then [last] else [];
      if prev.ids.None? {
        assert r == prev;
        assert prev.created <= m <= all;
      } else if !missing {
        assert r.created == prev.created && all == m;
      } else {
        assert r.created == prev.created + [last] && all == m + [last];
      }
    }
  }

  /** A successful resolution gives one ID per requested name. */
  lemma {:induction false} ResolveLength(terms: seq<Term>, names: seq<string>, respond: (nat, string) -> Option<int>, start: nat)
    ensures var r := Resolve(terms, names, respond, start);
      r.ids.Some? ==> |r.ids.value| == |names|
  {
    if names != [] {
      ResolveLength(terms, names[..|names| - 1], respond, start);
    }
  }

  /** Resolution succeeds exactly when every creation of a missing name succeeds. */
  lemma {:induction false} ResolveSucceedsIff(terms: seq<Term>, names: seq<string>, respond: (nat, string) -> Option<int>, start: nat)
    ensures var m := Misses(terms, names);
      Resolve(terms, names, respond, start).ids.Some? <==> forall j :: 0 <= j < |m| ==> respond(start + j, m[j]).Some?
  {
    if names != [] {
      var p, last := names[..|names| - 1], names[|names| - 1];
      ResolveSucceedsIff(terms, p, respond, start);
      ResolveCreatesMisses(terms, p, respond, start);
      var m := Misses(terms, p);
      var all := Misses(terms, names);
      assert all == m + if Lookup(terms, last, IgnoreCase).None? then [last] else [];
      assert forall j :: 0 <= j < |m| ==> all[j] == m[j];
      var prev := Resolve(terms, p, respond, start);
      if prev.ids.Some? && Lookup(terms, last, IgnoreCase).None? {
        assert all[|m|] == last && |prev.created| == |m|;
        if respond(start + |m|, last).Some? {
          forall j | 0 <= j < |all|
            ensures respond(start + j, all[j]).Some?
          {
            if j < |m| {
              assert respond(start + j, m[j]).Some?;
            }
          }
        } else {
          assert respond(start + |m|, all[|m|]).None?;
        }
      }
    }
  }

  /** A successful resolution extends the successful resolution of all names but the last by one ID. */
  lemma ResolveLast(terms: seq<Term>, names: seq<string>, respond: (nat, string) -> Option<int>, start: nat)
    requires names != [] && Resolve(terms, names, respond, start).ids.Some?
    ensures var prev := Resolve(terms, names[..|names| - 1], respond, start);
      var ids := Resolve(terms, names, respond, start).ids.value;
      var found := Lookup(terms, names[|names| - 1], IgnoreCase);
      && prev.ids.Some?
      && ids[..|ids| - 1] == prev.ids.value
      && |ids| == |prev.ids.value| + 1
      && Some(ids[|ids| - 1]) == if found.Some? then found else respond(start + |prev.created|, names[|names| - 1])
  {
    ResolveUnfold(terms, names, respond, start);
    StepExtends(terms, Resolve(terms, names[..|names| - 1], respond, start), names[|names| - 1], respond, start);
  }

  /** A successful resolution is a successful resolution of all names but the last, and one step. */
  lemma ResolveUnfold(terms: seq<Term>, names: seq<string>, respond: (nat, string) -> Option<int>, start: nat)
    requires names != [] && Resolve(terms, names, respond, start).ids.Some?
    ensures var prev := Resolve(terms, names[..|names| - 1], respond, start);
      prev.ids.Some? && Resolve(terms, names, respond, start) == ResolveStep(terms, prev, names[|names| - 1], respond, start)
  {
  }

  /** A successful step appends the new name's ID to the IDs before it. */
  lemma StepExtends(terms: seq<Term>, prev: Resolution, name: string, respond: (nat, string) -> Option<int>, start: nat)
    requires prev.ids.Some? && ResolveStep(terms, prev, name, respond, start).ids.Some?
    ensures var ids := ResolveStep(terms, prev, name, respond, start).ids.value;
      var found := Lookup(terms, name, IgnoreCase);
      && ids[..|ids| - 1] == prev.ids.value
      && |ids| == |prev.ids.value| + 1
      && Some(ids[|ids| - 1]) == if found.Some? then found else respond(start + |prev.created|, name)
  {
    var ids := ResolveStep(terms, prev, name, respond, start).ids.value;
    assert ids[..|ids| - 1] == prev.ids.value;
  }

  /**
   * The ID a successful resolution gives for the `i`-th name: the first matching term's, or
   * the ID the service answered when that name was created.
   */
  lemma {:induction false} ResolveIdAt(terms: seq<Term>, names: seq<string>, respond: (nat, string) -> Option<int>, start: nat, i: nat)
    requires i < |names| && Resolve(terms, names, respond, start).ids.Some?
    ensures var ids := Resolve(terms, names, respond, start).ids.value;
      var found := Lookup(terms, names[i], IgnoreCase);
      |ids| == |names| &&
      Some(ids[i]) == if found.Some? then found else respond(start + |Misses(terms, names[..i])|, names[i])
    decreases |names|, 1
  {
    if i < |names| - 1 {
      ResolveIdEarlier(terms, names, respond, start, i);
    } else {
      ResolveIdOfLast(terms, names, respond, start);
    }
  }

  /** A name before the last keeps the ID it had in the resolution of all names but the last. */
  lemma {:induction false} ResolveIdEarlier(terms: seq<Term>, names: seq<string>, respond: (nat, string) -> Option<int>, start: nat, i: nat)
    requires i < |names| - 1 && Resolve(terms, names, respond, start).ids.Some?
    ensures var ids := Resolve(terms, names, respond, start).ids.value;
      var found := Lookup(terms, names[i], IgnoreCase);
      |ids| == |names| &&
      Some(ids[i]) == if found.Some? then found else respond(start + |Misses(terms, names[..i])|, names[i])
    decreases |names|, 0
  {
    var p := names[..|names| - 1];
    ResolveLast(terms, names, respond, start);
    assert p[..i] == names[..i] && p[i] == names[i];
    var prevIds := Resolve(terms, p, respond, start).ids.value;
    var ids := Resolve(terms, names, respond, start).ids.value;
    ResolveIdAt(terms, p, respond, start, i);
    assert ids[i] == ids[..|ids| - 1][i] == prevIds[i];
  }

  /** The last name's ID: its first match, or the answer to the creation request sent for it. */
  lemma ResolveIdOfLast(terms: seq<Term>, names: seq<string>, respond: (nat, string) -> Option<int>, start: nat)
    requires names != [] && Resolve(terms, names, respond, start).ids.Some?
    ensures var ids := Resolve(terms, names, respond, start).ids.value;
      var i := |names| - 1;
      var found := Lookup(terms, names[i], IgnoreCase);
      |ids| == |names| &&
      Some(ids[i]) == if found.Some? then found else respond(start + |Misses(terms, names[..i])|, names[i])
  {
    var p := names[..|names| - 1];
    ResolveLast(terms, names, respond, start);
    ResolveLength(terms, p, respond, start);
    ResolveCreatesMisses(terms, p, respond, start);
  }

  /**
   * A name the snapshot holds gets the same ID wherever it is requested; a missing name
   * requested twice is created twice, so its two IDs are two separate answers.
   */
  lemma ResolveDuplicateFound(terms: seq<Term>, names: seq<string>, respond: (nat, string) -> Option<int>, start: nat, i: nat, j: nat)
    requires i < |names| && j < |names| && names[i] == names[j]
    requires Resolve(terms, names, respond, start).ids.Some?
    ensures var ids := Resolve(terms, names, respond, start).ids.value;
      |ids| == |names| &&
      (Lookup(terms, names[i], IgnoreCase).Some? ==> ids[i] == ids[j] == Lookup(terms, names[i], IgnoreCase).value)
  {
    ResolveIdAt(terms, names, respond, start, i);
    ResolveIdAt(terms, names, respond, start, j);
  }

  /**
   * Each occurrence of a missing name is created once, so a missing name requested twice is
   * created twice; a name the snapshot holds is never created.
   */
  lemma {:induction false} MissesCount(terms: seq<Term>, names: seq<string>, name: string)
    ensures multiset(Misses(terms, names))[name]
      == if Lookup(terms, name, IgnoreCase).Some? then 0 else multiset(names)[name]
  {
    if names != [] {
      var p, last := names[..|names| - 1], names[|names| - 1];
      MissesCount(terms, p, name);
      assert names == p + [last];
    }
  }

  /**
   * The loop shared by `GetCategoryIDs` and `GetTagIDs`, after the snapshot was listed:
   * for each name, the first match ignoring case, else one creation request, and on a failed
   * creation a second scan of the same snapshot before giving up.
   */
  method ResolveIDs(service: TermService, terms: seq<Term>, names: seq<string>) returns (r: Result<seq<int>, TaxonomyError>)
    modifies service
    ensures var res := Resolve(terms, names, service.respond, |old(service.requests)|);
      && service.requests == old(service.requests) + res.created
      && (r.Success? <==> res.ids.Some?)
      && (r.Success? ==> r.value == res.ids.value)
      && (r.Failure? ==> r.error == CreateFailed)
  {
    var ids: seq<int> := [];
    ghost var start := |service.requests|;
    for i := 0 to |names|
      invariant start <= |service.requests| && service.requests[..start] == old(service.requests)
      invariant Resolve(terms, names[..i], service.respond, start) == Resolution(Some(ids), service.requests[start..])
    {
      assert names[..i + 1][..i] == names[..i];
      var name := names[i];
      var id := FindFirst(terms, name, IgnoreCase);
      if id.None? {
        ghost var before := service.requests;
        var created := service.Create(name);
        assert service.requests[start..] == before[start..] + [name];
        if created.None? {
          // The snapshot is the one scanned above: the recovery scan cannot find the name.
          var again := FindFirst(terms, name, IgnoreCase);
          if again.Some? {
            assert false;
          }
          ResolveFailureStops(terms, names, service.respond, start, i + 1);
          return Failure(CreateFailed);
        }
        ids := ids + [created.value];
      } else {
        ids := ids + [id.value];
      }
    }
    assert names[..|names|] == names;
    return Success(ids);
  }
}
