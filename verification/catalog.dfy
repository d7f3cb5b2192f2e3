/** The model catalog: which model ids the chat front-end offers in its model
    selector, and in what order. The remote listing call is an input: `None`
    stands for a listing that raised, `Some(ms)` for the records it returned
    in API order. */
module Catalog {
  import opened Wrappers

  /** One record of the remote model listing: its qualified name
      (such as "models/gemini-2.5-flash") and its supported generation
      methods, absent when the record has no such attribute or it is None. */
  datatype ModelRecord = ModelRecord(name: string, supportedMethods: Option<seq<string>>)

  /** The generation method a model must advertise to be offered. */
  const GenerateContent: string := "generateContent"

  /** The ids offered when the listing fails or yields nothing usable. */
  const Fallback: seq<string> :=
    ["gemini-2.5-flash", "gemini-2.5-flash-lite", "gemini-2.5-pro", "gemini-flash-latest"]

  /** The ids put first, in this order, when the listing offers them. */
  const Prefs: seq<string> :=
    ["gemini-2.5-flash", "gemini-2.5-flash-lite", "gemini-2.5-pro", "gemini-flash-latest"]

  /** The advertised methods; a missing or falsy attribute reads as none. */
  function Methods(m: ModelRecord): (methods: seq<string>)
    ensures m.supportedMethods.None? ==> methods == []
    ensures m.supportedMethods.Some? ==> methods == m.supportedMethods.value
  {
    m.supportedMethods.GetOr([])
  }

  /** A record can answer chat messages exactly when it advertises
      "generateContent"; one without a method list never can. */
  function Capable(m: ModelRecord): (b: bool)
    ensures b <==> m.supportedMethods.Some? && GenerateContent in m.supportedMethods.value
  {
    GenerateContent in Methods(m)
  }

  /** The text after the last '/' of `s`, or all of `s` when it has no '/'. */
  function LastSegment(s: string): (r: string)
    ensures |r| <= |s|
  {
    if |s| == 0 then ""
    else if s[|s| - 1] == '/' then ""
    else LastSegment(s[..|s| - 1]) + [s[|s| - 1]]
  }

  /** The last segment is the longest suffix of `s` free of '/': it has no
      '/', and it is either all of `s` or preceded by a '/'. */
  lemma {:induction false} LastSegmentIsSlashFreeSuffix(s: string)
    ensures var r := LastSegment(s);
      && '/' !in r
      && r == s[|s| - |r|..]
      && (|r| == |s| || s[|s| - |r| - 1] == '/')
    decreases |s|
  {
    if |s| > 0 && s[|s| - 1] != '/' {
      var p := s[..|s| - 1];
      LastSegmentIsSlashFreeSuffix(p);
      var r := LastSegment(s);
      var r' := LastSegment(p);
      assert r == r' + [s[|s| - 1]];
      assert r' == p[|p| - |r'|..];
      assert r == s[|s| - |r|..];
      if |r| < |s| {
        assert s[|s| - |r| - 1] == p[|p| - |r'| - 1];
      }
    }
  }

  /** The id under which a listed model is offered. */
  function Id(m: ModelRecord): string {
    LastSegment(m.name)
  }

  /** Record `m` is capable and offered as `x`. */
  ghost predicate OffersAt(m: ModelRecord, x: string) {
    Capable(m) && Id(m) == x
  }

  /** Some record of `ms` is capable and offered as `x`. */
  ghost predicate Offers(ms: seq<ModelRecord>, x: string) {
    exists i :: 0 <= i < |ms| && OffersAt(ms[i], x)
  }

  /** Some record of `ms` is capable. */
  ghost predicate AnyCapable(ms: seq<ModelRecord>) {
    exists i :: 0 <= i < |ms| && Capable(ms[i])
  }

  /** A listing offers what its first record offers and what the rest of it
      offers. */
  lemma OffersCons(ms: seq<ModelRecord>)
    requires |ms| > 0
    ensures forall x :: Offers(ms, x) <==> OffersAt(ms[0], x) || Offers(ms[1..], x)
  {
    forall x | Offers(ms, x) && !OffersAt(ms[0], x) ensures Offers(ms[1..], x) {
      var i :| 0 <= i < |ms| && OffersAt(ms[i], x);
      assert ms[1..][i - 1] == ms[i];
    }
    forall x | Offers(ms[1..], x) ensures Offers(ms, x) {
      var i :| 0 <= i < |ms[1..]| && OffersAt(ms[1..][i], x);
      assert ms[i + 1] == ms[1..][i];
    }
  }

  /** A listing has a capable record when its first record is capable or the
      rest of it has one. */
  lemma AnyCapableCons(ms: seq<ModelRecord>)
    requires |ms| > 0
    ensures AnyCapable(ms) <==> Capable(ms[0]) || AnyCapable(ms[1..])
  {
    if AnyCapable(ms) && !Capable(ms[0]) {
      var i :| 0 <= i < |ms| && Capable(ms[i]);
      assert ms[1..][i - 1] == ms[i];
    }
    if AnyCapable(ms[1..]) {
      var i :| 0 <= i < |ms[1..]| && Capable(ms[1..][i]);
      assert ms[i + 1] == ms[1..][i];
    }
  }

  /** The ids of the capable records, in API order, duplicates kept: at most
      one per record. */
  function CapableIds(ms: seq<ModelRecord>): (names: seq<string>)
    ensures |names| <= |ms|
  {
    if |ms| == 0 then []
    else if Capable(ms[0]) then [Id(ms[0])] + CapableIds(ms[1..])
    else CapableIds(ms[1..])
  }

  /** An id is collected exactly when some capable record offers it, and
      nothing is collected exactly when no record is capable. */
  lemma {:induction false} CapableIdsOffers(ms: seq<ModelRecord>)
    ensures forall x :: x in CapableIds(ms) <==> Offers(ms, x)
    ensures CapableIds(ms) == [] <==> !AnyCapable(ms)
    decreases |ms|
  {
    if |ms| > 0 {
      var rest := CapableIds(ms[1..]);
      CapableIdsOffers(ms[1..]);
      OffersCons(ms);
      AnyCapableCons(ms);
      if Capable(ms[0]) {
        assert CapableIds(ms) == [Id(ms[0])] + rest;
        forall x ensures x in CapableIds(ms) <==> OffersAt(ms[0], x) || x in rest {
        }
      } else {
        assert CapableIds(ms) == rest;
      }
    }
  }

  /** The positions of the records of `ms` that are capable and offered as `x`. */
  ghost function OfferIndices(ms: seq<ModelRecord>, x: string): set<int> {
    set i | 0 <= i < |ms| && OffersAt(ms[i], x)
  }

  /** Collecting ids distributes over concatenation of listings. */
  lemma {:induction false} CapableIdsAppend(a: seq<ModelRecord>, b: seq<ModelRecord>)
    ensures CapableIds(a + b) == CapableIds(a) + CapableIds(b)
    decreases |a|
  {
    if |a| == 0 {
      assert a + b == b;
    } else {
      assert (a + b)[0] == a[0];
      assert (a + b)[1..] == a[1..] + b;
      CapableIdsAppend(a[1..], b);
    }
  }

  /** The offering positions of a listing are those of all but its last
      record, plus the last position when the last record offers `x`. */
  lemma OfferIndicesSnoc(ms: seq<ModelRecord>, x: string)
    requires |ms| > 0
    ensures var n := |ms|;
      OfferIndices(ms, x) ==
        OfferIndices(ms[..n - 1], x) + (if OffersAt(ms[n - 1], x) then {n - 1} else {})
    ensures |ms| - 1 !in OfferIndices(ms[..|ms| - 1], x)
  {
    var n := |ms|;
    var init := ms[..n - 1];
    assert forall i :: 0 <= i < n - 1 ==> init[i] == ms[i];
  }

  /** Each id is collected once per capable record that offers it: duplicates
      in the listing are kept, and nothing else is added. */
  lemma {:induction false} CapableIdsMultiplicity(ms: seq<ModelRecord>, x: string)
    ensures multiset(CapableIds(ms))[x] == |OfferIndices(ms, x)|
    decreases |ms|
  {
    if |ms| == 0 {
      assert OfferIndices(ms, x) == {};
    } else {
      var n := |ms|;
      var init := ms[..n - 1];
      var last := ms[n - 1];
      assert ms == init + [last];
      CapableIdsAppend(init, [last]);
      CapableIdsMultiplicity(init, x);
      OfferIndicesSnoc(ms, x);
      var tail := CapableIds([last]);
      assert tail == if Capable(last) then [Id(last)] else [];
      assert multiset(tail)[x] == if OffersAt(last, x) then 1 else 0;
      assert multiset(CapableIds(ms)) == multiset(CapableIds(init)) + multiset(tail);
    }
  }

  /** The elements of `ps` that occur in `names`, in the order of `ps`. */
  function PresentIn(ps: seq<string>, names: seq<string>): (r: seq<string>)
    ensures |r| <= |ps|
    ensures forall x :: x in r <==> x in ps && x in names
  {
    if |ps| == 0 then []
    else if ps[0] in names then [ps[0]] + PresentIn(ps[1..], names)
    else PresentIn(ps[1..], names)
  }

  /** The elements of `names` that do not occur in `ps`, in the order of
      `names`, duplicates kept. */
  function NotIn(names: seq<string>, ps: seq<string>): (r: seq<string>)
    ensures |r| <= |names|
    ensures forall x :: x in r <==> x in names && x !in ps
    ensures forall x :: x !in ps ==> multiset(r)[x] == multiset(names)[x]
    ensures forall x :: x in ps ==> multiset(r)[x] == 0
  {
    if |names| == 0 then []
    else
      assert names == [names[0]] + names[1..];
      if names[0] in ps then NotIn(names[1..], ps)
      else [names[0]] + NotIn(names[1..], ps)
  }

  /** The preferred ids the listing offers, in preference order, followed by
      every other offered id in API order. */
  function Reorder(names: seq<string>): (r: seq<string>)
    ensures forall x :: x in r <==> x in names
    ensures r == [] <==> names == []
  {
    var r := PresentIn(Prefs, names) + NotIn(names, Prefs);
    assert names != [] ==> names[0] in names && names[0] in r;
    assert r != [] ==> r[0] in r;
    r
  }

  /** The model ids offered in the model selector. */
  function ListAvailableModels(listing: Option<seq<ModelRecord>>): (r: seq<string>)
    ensures |r| > 0
    ensures listing.None? ==> r == Fallback
    ensures listing.Some? && !AnyCapable(listing.value) ==> r == Fallback
    ensures listing.Some? && AnyCapable(listing.value) ==>
      forall x :: x in r <==> Offers(listing.value, x)
  {
    match listing
    case None => Fallback
    case Some(ms) =>
      CapableIdsOffers(ms);
      var ordered := Reorder(CapableIds(ms));
      if ordered == [] then Fallback else ordered
  }

  /** The position of the first occurrence of `x` in `s`. */
  function IndexOf(s: seq<string>, x: string): (k: nat)
    requires x in s
    ensures k < |s| && s[k] == x && x !in s[..k]
  {
    if s[0] == x then 0 else 1 + IndexOf(s[1..], x)
  }

  /** The position of a preferred id in the preference list. */
  function Rank(x: string): nat
    requires x in Prefs
  {
    IndexOf(Prefs, x)
  }

  ghost predicate Distinct(s: seq<string>) {
    forall i, j :: 0 <= i < j < |s| ==> s[i] != s[j]
  }

  /** The fallback list is the preference list, and neither repeats an id. */
  lemma FallbackIsPrefs()
    ensures Fallback == Prefs
    ensures Distinct(Prefs)
  {
  }

  /** The id of a qualified name "prefix/id" is `id`. */
  lemma LastSegmentOfQualified(prefix: string, id: string)
    requires '/' !in id
    ensures LastSegment(prefix + "/" + id) == id
  {
    var s := prefix + "/" + id;
    assert id == s[|s| - |id|..];
    assert s[|s| - |id| - 1] == '/';
    LastSegmentUnique(s, id);
  }

  /** The last segment is the only suffix free of '/' that is either the
      whole string or preceded by '/'. */
  lemma LastSegmentUnique(s: string, t: string)
    requires |t| <= |s| && t == s[|s| - |t|..] && '/' !in t
    requires |t| == |s| || s[|s| - |t| - 1] == '/'
    ensures LastSegment(s) == t
  {
    LastSegmentIsSlashFreeSuffix(s);
  }

  /** Removing the head of a repetition-free list leaves it repetition-free
      and without its head. */
  lemma DistinctTail(ps: seq<string>)
    requires |ps| > 0 && Distinct(ps)
    ensures Distinct(ps[1..]) && ps[0] !in ps[1..]
  {
    var t := ps[1..];
    forall i, j | 0 <= i < j < |t| ensures t[i] != t[j] {
      assert t[i] == ps[i + 1] && t[j] == ps[j + 1];
    }
    forall k | 0 <= k < |t| ensures t[k] != ps[0] {
      assert t[k] == ps[k + 1];
    }
  }

  /** Past the head, positions shift by one. */
  lemma IndexOfTail(ps: seq<string>, x: string)
    requires |ps| > 0 && x in ps[1..] && x != ps[0]
    ensures IndexOf(ps, x) == 1 + IndexOf(ps[1..], x)
  {
  }

  /** The present preferred ids keep the order of a repetition-free
      preference list, so none of them occurs twice. */
  lemma {:induction false} PresentInFollowsOrder(ps: seq<string>, names: seq<string>)
    requires Distinct(ps)
    ensures forall i, j :: 0 <= i < j < |PresentIn(ps, names)| ==>
      IndexOf(ps, PresentIn(ps, names)[i]) < IndexOf(ps, PresentIn(ps, names)[j])
    decreases |ps|
  {
    if |ps| > 0 {
      var t := ps[1..];
      DistinctTail(ps);
      PresentInFollowsOrder(t, names);
      var r := PresentIn(ps, names);
      var r' := PresentIn(t, names);
      if ps[0] in names {
        assert r == [ps[0]] + r';
        forall i, j | 0 <= i < j < |r| ensures IndexOf(ps, r[i]) < IndexOf(ps, r[j]) {
          assert r[j] == r'[j - 1] && r[j] in t;
          IndexOfTail(ps, r[j]);
          if i > 0 {
            assert r[i] == r'[i - 1] && r[i] in t;
            IndexOfTail(ps, r[i]);
          }
        }
      } else {
        assert r == r';
        forall i, j | 0 <= i < j < |r| ensures IndexOf(ps, r[i]) < IndexOf(ps, r[j]) {
          assert r[i] in t && r[j] in t;
          IndexOfTail(ps, r[i]);
          IndexOfTail(ps, r[j]);
        }
      }
    }
  }

  /** Dropping the preferred ids distributes over concatenation. */
  lemma {:induction false} NotInAppend(a: seq<string>, b: seq<string>, ps: seq<string>)
    ensures NotIn(a + b, ps) == NotIn(a, ps) + NotIn(b, ps)
    decreases |a|
  {
    if |a| == 0 {
      assert a + b == b;
    } else {
      assert (a + b)[0] == a[0];
      assert (a + b)[1..] == a[1..] + b;
      NotInAppend(a[1..], b, ps);
    }
  }

  /** Dropping the preferred ids twice drops nothing more. */
  lemma {:induction false} NotInIdempotent(a: seq<string>, ps: seq<string>)
    ensures NotIn(NotIn(a, ps), ps) == NotIn(a, ps)
    decreases |a|
  {
    if |a| > 0 {
      NotInIdempotent(a[1..], ps);
      if a[0] !in ps {
        var r := NotIn(a, ps);
        assert r == [a[0]] + NotIn(a[1..], ps);
        assert r[0] == a[0] && r[1..] == NotIn(a[1..], ps);
      }
    }
  }

  /** A sequence of preferred ids only has no other ids. */
  lemma NotInOfPreferred(a: seq<string>, ps: seq<string>)
    requires forall x :: x in a ==> x in ps
    ensures NotIn(a, ps) == []
  {
  }

  /** Every preferred id in the offered list comes before every other id. */
  lemma PreferredFirst(listing: Option<seq<ModelRecord>>)
    ensures var r := ListAvailableModels(listing);
      forall i, j :: 0 <= i < j < |r| && r[j] in Prefs ==> r[i] in Prefs
  {
  }

  /** The preferred ids in the offered list appear in the preference list's
      order, each at most once, even when the listing repeats one. */
  lemma PreferredInOrder(listing: Option<seq<ModelRecord>>)
    ensures var r := ListAvailableModels(listing);
      forall i, j :: 0 <= i < j < |r| && r[i] in Prefs && r[j] in Prefs ==>
        Rank(r[i]) < Rank(r[j])
  {
    var r := ListAvailableModels(listing);
    FallbackIsPrefs();
    if r == Fallback {
      forall i, j | 0 <= i < j < |r| ensures Rank(r[i]) < Rank(r[j]) {
        assert IndexOf(Prefs, r[i]) == i by {
          assert r[i] !in Prefs[..IndexOf(Prefs, r[i])] ;
        }
        assert IndexOf(Prefs, r[j]) == j by {
          assert r[j] !in Prefs[..IndexOf(Prefs, r[j])];
        }
      }
    } else {
      var names := CapableIds(listing.value);
      var p := PresentIn(Prefs, names);
      assert r == p + NotIn(names, Prefs);
      PresentInFollowsOrder(Prefs, names);
      forall i, j | 0 <= i < j < |r| && r[i] in Prefs && r[j] in Prefs
        ensures Rank(r[i]) < Rank(r[j])
      {
        assert r[i] == p[i] && r[j] == p[j];
      }
    }
  }

  /** The ids outside the preference list keep their API order and
      multiplicity: dropping the preferred ids from the offered list and from
      the capable ids gives the same sequence. */
  lemma OthersKeepApiOrder(ms: seq<ModelRecord>)
    ensures NotIn(ListAvailableModels(Some(ms)), Prefs) == NotIn(CapableIds(ms), Prefs)
  {
    var names := CapableIds(ms);
    var r := ListAvailableModels(Some(ms));
    FallbackIsPrefs();
    if r == Fallback && names == [] {
      NotInOfPreferred(r, Prefs);
    } else {
      var p := PresentIn(Prefs, names);
      assert r == p + NotIn(names, Prefs);
      NotInAppend(p, NotIn(names, Prefs), Prefs);
      NotInOfPreferred(p, Prefs);
      NotInIdempotent(names, Prefs);
    }
  }

  /** Record `i` is the first capable record of `ms`. */
  ghost predicate FirstCapable(ms: seq<ModelRecord>, i: int) {
    && 0 <= i < |ms|
    && Capable(ms[i])
    && forall k :: 0 <= k < i ==> !Capable(ms[k])
  }

  /** The first id collected is the id of the first capable record. */
  lemma {:induction false} CapableIdsHead(ms: seq<ModelRecord>, i: int)
    requires FirstCapable(ms, i)
    ensures |CapableIds(ms)| > 0 && CapableIds(ms)[0] == Id(ms[i])
    decreases i
  {
    if i > 0 {
      assert !Capable(ms[0]);
      assert CapableIds(ms) == CapableIds(ms[1..]);
      assert FirstCapable(ms[1..], i - 1) by {
        forall k | 0 <= k < i - 1 ensures !Capable(ms[1..][k]) {
          assert ms[1..][k] == ms[k + 1];
        }
      }
      CapableIdsHead(ms[1..], i - 1);
    }
  }

  /** The first present preferred id ranks no lower than any present one. */
  lemma PresentInFirstIsBest(ps: seq<string>, names: seq<string>, p: string)
    requires Distinct(ps) && p in ps && p in names
    ensures |PresentIn(ps, names)| > 0
    ensures IndexOf(ps, PresentIn(ps, names)[0]) <= IndexOf(ps, p)
  {
    var r := PresentIn(ps, names);
    assert p in r;
    var j :| 0 <= j < |r| && r[j] == p;
    PresentInFollowsOrder(ps, names);
  }

  /** With no preferred id present, nothing is put first. */
  lemma PresentInNone(ps: seq<string>, names: seq<string>)
    requires forall p :: p in ps ==> p !in names
    ensures PresentIn(ps, names) == []
  {
  }

  /** A leading non-preferred name stays first. */
  lemma NotInHead(names: seq<string>, ps: seq<string>)
    requires |names| > 0 && names[0] !in ps
    ensures |NotIn(names, ps)| > 0 && NotIn(names, ps)[0] == names[0]
  {
  }

  /** The first offered id: the best-ranked preferred id the listing offers,
      or, when it offers none, the id of its first capable record, or the
      head of the fallback list when nothing usable was listed. */
  lemma DefaultChoice(listing: Option<seq<ModelRecord>>)
    ensures var r := ListAvailableModels(listing);
      && (listing.None? ==> r[0] == Fallback[0])
      && (listing.Some? && !AnyCapable(listing.value) ==> r[0] == Fallback[0])
      && (listing.Some? && AnyCapable(listing.value) ==> Offers(listing.value, r[0]))
      && (listing.Some? ==> forall p :: p in Prefs && Offers(listing.value, p) ==>
            r[0] in Prefs && Rank(r[0]) <= Rank(p))
      && (listing.Some? && (forall p :: p in Prefs ==> !Offers(listing.value, p)) ==>
            forall i :: FirstCapable(listing.value, i) ==> r[0] == Id(listing.value[i]))
  {
    var r := ListAvailableModels(listing);
    assert r[0] in r;
    FallbackIsPrefs();
    if listing.Some? {
      var ms := listing.value;
      var names := CapableIds(ms);
      CapableIdsOffers(ms);
      forall i | FirstCapable(ms, i) ensures AnyCapable(ms) {
      }
      if names != [] {
        var present := PresentIn(Prefs, names);
        assert r == present + NotIn(names, Prefs);
        forall p | p in Prefs && Offers(ms, p) ensures r[0] in Prefs && Rank(r[0]) <= Rank(p) {
          PresentInFirstIsBest(Prefs, names, p);
          assert r[0] == present[0];
        }
        if forall p :: p in Prefs ==> !Offers(ms, p) {
          PresentInNone(Prefs, names);
          assert r == NotIn(names, Prefs);
          assert names[0] in names;
          NotInHead(names, Prefs);
          forall i | FirstCapable(ms, i) ensures r[0] == Id(ms[i]) {
            CapableIdsHead(ms, i);
          }
        }
      }
    }
  }

  /** The model the selector shows first (it defaults to index 0): the
      best-ranked preferred id the listing offers, else the id of the first
      capable record in API order, else the head of the fallback list. */
  function DefaultModel(listing: Option<seq<ModelRecord>>): (m: string)
    ensures listing.None? ==> m == Fallback[0]
    ensures listing.Some? && !AnyCapable(listing.value) ==> m == Fallback[0]
    ensures listing.Some? && AnyCapable(listing.value) ==> Offers(listing.value, m)
    ensures listing.Some? ==> forall p :: p in Prefs && Offers(listing.value, p) ==>
      m in Prefs && Rank(m) <= Rank(p)
    ensures listing.Some? && (forall p :: p in Prefs ==> !Offers(listing.value, p)) ==>
      forall i :: FirstCapable(listing.value, i) ==> m == Id(listing.value[i])
  {
    DefaultChoice(listing);
    ListAvailableModels(listing)[0]
  }
}
