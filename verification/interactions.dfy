/**
 * Recipe interaction service (microservice_d.py): ratings and tags per recipe
 * id in interactions.json. Records appear on first use and only ever grow.
 */
module Interactions {
  import opened Replies

  datatype Interaction = Interaction(ratings: seq<int>, tags: seq<string>)

  /** interactions.json: recipe id to its record; a missing file loads as the empty map. */
  type Store = map<string, Interaction>

  /** An interaction request; `rating` is read only by `rate` and `tag` only by `tag`. */
  datatype Request = Request(action: string, id: string, rating: int, tag: string)

  /** The record `rate_recipe` and `tag_recipe` create for an id they have not seen. */
  const Fresh := Interaction([], [])

  function Sum(xs: seq<int>): int
    decreases |xs|
  {
    if xs == [] then 0 else Sum(xs[..|xs| - 1]) + xs[|xs| - 1]
  }

  /** `sum(ratings) / len(ratings)`, exact. */
  function Average(xs: seq<int>): (avg: real)
    requires xs != []
    ensures avg * (|xs| as real) == Sum(xs) as real
  {
    Sum(xs) as real / |xs| as real
  }

  function RecordOf(store: Store, id: string): Interaction {
    if id in store then store[id] else Fresh
  }

  /**
   * `rate_recipe`: the rating goes at the end of the id's ratings (the record
   * is created if missing); its tags and every other record are untouched,
   * and the reply carries the average of all the id's ratings. The range of
   * the rating is not checked here.
   */
  function Rate(store: Store, id: string, rating: int): (out: (Store, Reply))
    ensures out.0.Keys == store.Keys + {id}
    ensures id !in store ==> out.0[id] == Interaction([rating], [])
    ensures id in store ==>
              out.0[id].ratings == store[id].ratings + [rating] && out.0[id].tags == store[id].tags
    ensures forall k :: k in store && k != id ==> out.0[k] == store[k]
    ensures out.1.Rated? && out.1.text == "Recipe '" + id + "' rated successfully."
    ensures |out.0[id].ratings| >= 1
    ensures out.1.average * (|out.0[id].ratings| as real) == Sum(out.0[id].ratings) as real
  {
    var rec := RecordOf(store, id);
    var ratings := rec.ratings + [rating];
    (store[id := rec.(ratings := ratings)],
     Rated("Recipe '" + id + "' rated successfully.", Average(ratings)))
  }

  /**
   * `tag_recipe`: the tag goes at the end of the id's tags, duplicates and
   * empty tags included; ratings and every other record are untouched.
   */
  function Tag(store: Store, id: string, tag: string): (out: (Store, Reply))
    ensures out.0.Keys == store.Keys + {id}
    ensures id !in store ==> out.0[id] == Interaction([], [tag])
    ensures id in store ==>
              out.0[id].tags == store[id].tags + [tag] && out.0[id].ratings == store[id].ratings
    ensures forall k :: k in store && k != id ==> out.0[k] == store[k]
    ensures out.1 == Message("Tag '" + tag + "' added to recipe '" + id + "'.")
  {
    var rec := RecordOf(store, id);
    (store[id := rec.(tags := rec.tags + [tag])],
     Message("Tag '" + tag + "' added to recipe '" + id + "'."))
  }

  /** Every record of `before` survives in `after` with its ratings and tags as prefixes. */
  predicate Extends(before: Store, after: Store) {
    forall k :: k in before ==>
      k in after && before[k].ratings <= after[k].ratings && before[k].tags <= after[k].tags
  }

  /** The action dispatch of the service loop; nothing is ever removed or reordered. */
  function Handle(store: Store, req: Request): (out: (Store, Reply))
    ensures req.action == "rate" ==> out == Rate(store, req.id, req.rating)
    ensures req.action == "tag" ==> out == Tag(store, req.id, req.tag)
    ensures req.action != "rate" && req.action != "tag" ==> out == (store, Error(InvalidAction))
    ensures !out.1.Succeeded() ==> out.0 == store
    ensures Extends(store, out.0)
  {
    if req.action == "rate" then Rate(store, req.id, req.rating)
    else if req.action == "tag" then Tag(store, req.id, req.tag)
    else (store, Error(InvalidAction))
  }

  /** The store after the service has answered each request in turn. */
  function Run(store: Store, reqs: seq<Request>): Store
    decreases |reqs|
  {
    if reqs == [] then store else Run(Handle(store, reqs[0]).0, reqs[1..])
  }

  /** Over any sequence of requests, no record, rating or tag is lost or reordered. */
  lemma {:induction false} RunExtends(store: Store, reqs: seq<Request>)
    ensures Extends(store, Run(store, reqs))
    decreases |reqs|
  {
    if reqs != [] {
      var next := Handle(store, reqs[0]).0;
      RunExtends(next, reqs[1..]);
      forall k | k in store
        ensures k in Run(store, reqs)
        ensures store[k].ratings <= Run(store, reqs)[k].ratings
        ensures store[k].tags <= Run(store, reqs)[k].tags
      {
        PrefixTransitive(store[k].ratings, next[k].ratings, Run(store, reqs)[k].ratings);
        PrefixTransitive(store[k].tags, next[k].tags, Run(store, reqs)[k].tags);
      }
    }
  }

  lemma PrefixTransitive<T>(a: seq<T>, b: seq<T>, c: seq<T>)
    requires a <= b && b <= c
    ensures a <= c
  {
    assert c[..|a|] == b[..|a|];
  }

  /** Ratings between 1 and 5 add up to between one and five times their count. */
  lemma {:induction false} SumBounds(xs: seq<int>)
    requires forall i :: 0 <= i < |xs| ==> 1 <= xs[i] <= 5
    ensures |xs| <= Sum(xs) <= 5 * |xs|
    decreases |xs|
  {
    if xs != [] {
      SumBounds(xs[..|xs| - 1]);
    }
  }

  /** The average of ratings between 1 and 5 lies between 1 and 5. */
  lemma AverageInRange(xs: seq<int>)
    requires xs != []
    requires forall i :: 0 <= i < |xs| ==> 1 <= xs[i] <= 5
    ensures 1.0 <= Average(xs) <= 5.0
  {
    SumBounds(xs);
    QuotientBounds(Sum(xs) as real, |xs| as real);
  }

  lemma QuotientBounds(s: real, n: real)
    requires n > 0.0 && n <= s <= 5.0 * n
    ensures 1.0 <= s / n <= 5.0
  {
    var q := s / n;
    assert q * n == s;
    PositiveFactor(q - 1.0, n);
    PositiveFactor(5.0 - q, n);
  }

  lemma PositiveFactor(a: real, n: real)
    requires n > 0.0 && a * n >= 0.0
    ensures a >= 0.0
  {
    assert a < 0.0 ==> a * n < 0.0 * n;
  }

  /**
   * While every stored rating of an id lies between 1 and 5, so does each
   * average the service reports for it.
   */
  lemma RatedAverageInRange(store: Store, id: string, rating: int)
    requires 1 <= rating <= 5
    requires id in store ==> forall i :: 0 <= i < |store[id].ratings| ==> 1 <= store[id].ratings[i] <= 5
    ensures 1.0 <= Rate(store, id, rating).1.average <= 5.0
  {
    var ratings := RecordOf(store, id).ratings + [rating];
    AverageInRange(ratings);
  }

  /** Rating a fresh id 4, 5, then 3 stores [4, 5, 3] and reports 4 on the third call. */
  lemma RateFourFiveThree(store: Store, id: string)
    requires id !in store
    ensures var s1 := Rate(store, id, 4).0;
            var s2 := Rate(s1, id, 5).0;
            && Rate(s2, id, 3).0[id].ratings == [4, 5, 3]
            && Rate(s2, id, 3).1.average == 4.0
  {
    var s1 := Rate(store, id, 4).0;
    var s2 := Rate(s1, id, 5).0;
    assert s2[id].ratings == [4, 5];
    assert Rate(s2, id, 3).0[id].ratings == [4, 5, 3];
    assert Sum([4, 5, 3]) == 12 by {
      assert [4, 5, 3][..2] == [4, 5];
      assert [4, 5][..1] == [4];
      assert [4][..0] == [];
    }
  }
}
