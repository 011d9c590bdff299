/** The breed search and the breed label of the DogTable view: the records fetched
    from the image-search endpoint, the search string typed by the user, the list
    derived from both on every render, and the text shown in each table row. */
module DogTable {
  import opened JsString

  datatype Option<T> = None | Some(value: T)

  /** A breed tag; its name is the only field the view reads. */
  datatype Breed = Breed(name: string)

  /** One record of the API response: an image location and zero or more breed tags. */
  datatype Dog = Dog(url: string, breeds: seq<Breed>)

  /** One row of the rendered table: the breed cell and the image's `src` and `alt`. */
  datatype Row = Row(breed: string, src: string, alt: string)

  const UnknownBreed: string := "Unknown Breed"
  const DogAlt: string := "Dog"

  /** `dog.breeds[0]?.name`: the first breed's name, or undefined when there is none. */
  function FirstBreedName(dog: Dog): Option<string> {
    if |dog.breeds| == 0 then None else Some(dog.breeds[0].name)
  }

  /** The predicate handed to `dogs.filter`: undefined (no breed) is falsy, otherwise the
      lower-cased first breed name must include the lower-cased query. A kept record has
      a first breed whose name is at least as long as the query, and the empty query
      would keep every record that has a breed. */
  predicate Matches(dog: Dog, query: string)
    ensures Matches(dog, query) ==> |dog.breeds| > 0 && |query| <= |dog.breeds[0].name|
    ensures query == "" ==> (Matches(dog, query) <==> |dog.breeds| > 0)
  {
    match FirstBreedName(dog)
    case None => false
    case Some(name) =>
      IncludesBounds(Lower(name), Lower(query));
      Includes(Lower(name), Lower(query))
  }

  /** `dogs.filter(Matches)`, built up record by record from the left. */
  function Filter(dogs: seq<Dog>, query: string): (r: seq<Dog>)
    ensures |r| <= |dogs|
    ensures forall d :: d in r <==> d in dogs && Matches(d, query)
  {
    if |dogs| == 0 then []
    else
      var last := dogs[|dogs| - 1];
      Filter(dogs[..|dogs| - 1], query) + (if Matches(last, query) then [last] else [])
  }

  /** `getFilteredDogs`: the whole list for the empty query (the early return),
      the filtered list otherwise. */
  function FilteredDogs(dogs: seq<Dog>, query: string): (r: seq<Dog>)
    ensures |r| <= |dogs|
    ensures forall d :: d in r <==> d in dogs && (query == "" || Matches(d, query))
    ensures query != "" ==> forall d :: d in r ==> HasBreedName(d)
  {
    if query == "" then dogs else Filter(dogs, query)
  }

  /** `name || fallback` where `name` may be undefined: undefined and "" are falsy, so
      the result is one of the two operands, and it is falsy only when both are. */
  function OrElse(name: Option<string>, fallback: string): (r: string)
    ensures r == fallback || (name.Some? && r == name.value)
    ensures name.Some? && name.value != "" ==> r == name.value
    ensures r == "" <==> (name.None? || name.value == "") && fallback == ""
  {
    match name
    case Some(s) => if s != "" then s else fallback
    case None => fallback
  }

  /** The record has a first breed whose name is a non-empty string. */
  predicate HasBreedName(dog: Dog) {
    |dog.breeds| > 0 && dog.breeds[0].name != ""
  }

  /** `dog.breeds[0]?.name || fallback`. */
  function Label(dog: Dog, fallback: string): (r: string)
    ensures HasBreedName(dog) ==> r == dog.breeds[0].name
    ensures !HasBreedName(dog) ==> r == fallback
  {
    OrElse(FirstBreedName(dog), fallback)
  }

  /** The text of the "Breed" cell of a row: never empty, and "Unknown Breed" unless the
      record has a named first breed. */
  function BreedCell(dog: Dog): (r: string)
    ensures r != ""
    ensures r != UnknownBreed ==> HasBreedName(dog) && r == dog.breeds[0].name
    ensures HasBreedName(dog) ==> r == dog.breeds[0].name
  {
    Label(dog, UnknownBreed)
  }

  /** The `alt` text of a row's image: never empty, and "Dog" unless the record has a
      named first breed. */
  function AltText(dog: Dog): (r: string)
    ensures r != ""
    ensures r != DogAlt ==> HasBreedName(dog) && r == dog.breeds[0].name
    ensures HasBreedName(dog) ==> r == dog.breeds[0].name
  {
    Label(dog, DogAlt)
  }

  /** One table row: the image shows the record's url; a record with a named first breed
      shows that name as both breed cell and alt text, any other record shows the two
      fallbacks. */
  function RowOf(dog: Dog): (r: Row)
    ensures r.src == dog.url && r.breed != "" && r.alt != ""
    ensures r.breed == r.alt <==> HasBreedName(dog)
    ensures HasBreedName(dog) ==> r == Row(dog.breeds[0].name, dog.url, dog.breeds[0].name)
    ensures !HasBreedName(dog) ==> r == Row(UnknownBreed, dog.url, DogAlt)
  {
    LabelsAgreeIffNamed(dog);
    Row(BreedCell(dog), dog.url, AltText(dog))
  }

  /** The table body: one row per record of the filtered list, in that list's order.
      There are never more rows than records, all of them for the empty query; no cell
      text is empty; and under a non-empty query every row's breed cell equals its alt
      text, i.e. no row shows a fallback label. Row k shows the k-th shown record: its
      breed name in both texts when it has a named first breed, the fallbacks otherwise. */
  function Rows(dogs: seq<Dog>, query: string): (r: seq<Row>)
    ensures |r| <= |dogs|
    ensures query == "" ==> |r| == |dogs|
    ensures forall k :: 0 <= k < |r| ==> r[k].breed != "" && r[k].alt != ""
    ensures query != "" ==> forall k :: 0 <= k < |r| ==> r[k].breed == r[k].alt
    ensures |r| == |FilteredDogs(dogs, query)|
    ensures forall k :: 0 <= k < |r| ==>
              var d := FilteredDogs(dogs, query)[k];
              r[k] == if HasBreedName(d) then Row(d.breeds[0].name, d.url, d.breeds[0].name)
                      else Row(UnknownBreed, d.url, DogAlt)
  {
    var shown := FilteredDogs(dogs, query);
    seq(|shown|, k requires 0 <= k < |shown| => RowOf(shown[k]))
  }

  // ---------------------------------------------------------------------------
  // The filtered list is exactly the matching records, in their original order.
  // ---------------------------------------------------------------------------

  /** `idx` lists positions of `s`, strictly increasing, whose records make up `r`. */
  ghost predicate SelectsVia(r: seq<Dog>, s: seq<Dog>, idx: seq<nat>) {
    && |idx| == |r|
    && (forall k :: 0 <= k < |idx| ==> idx[k] < |s| && r[k] == s[idx[k]])
    && (forall k, l :: 0 <= k < l < |idx| ==> idx[k] < idx[l])
  }

  /** `r` is a subsequence of `s`: it keeps some of its records, in their relative order. */
  ghost predicate IsSubsequence(r: seq<Dog>, s: seq<Dog>) {
    exists idx :: SelectsVia(r, s, idx)
  }

  /** The positions of the records that `Matches` keeps, in increasing order, and all of them. */
  ghost function KeptIndices(dogs: seq<Dog>, query: string): (r: seq<nat>)
    ensures forall k :: 0 <= k < |r| ==> r[k] < |dogs| && Matches(dogs[r[k]], query)
    ensures forall k, l :: 0 <= k < l < |r| ==> r[k] < r[l]
    ensures forall i :: 0 <= i < |dogs| && Matches(dogs[i], query) ==> i in r
  {
    if |dogs| == 0 then []
    else
      var n := |dogs| - 1;
      KeptIndices(dogs[..n], query) + (if Matches(dogs[n], query) then [n] else [])
  }

  /** `Filter` returns the records at `KeptIndices`, one for one. */
  lemma {:induction false} FilterSelectsKeptIndices(dogs: seq<Dog>, query: string)
    ensures SelectsVia(Filter(dogs, query), dogs, KeptIndices(dogs, query))
  {
    if |dogs| > 0 {
      var n := |dogs| - 1;
      FilterSelectsKeptIndices(dogs[..n], query);
      var r, idx := Filter(dogs, query), KeptIndices(dogs, query);
      var r', idx' := Filter(dogs[..n], query), KeptIndices(dogs[..n], query);
      assert r == r' + (if Matches(dogs[n], query) then [dogs[n]] else []);
      assert idx == idx' + (if Matches(dogs[n], query) then [n] else []);
      forall k | 0 <= k < |idx|
        ensures idx[k] < |dogs| && r[k] == dogs[idx[k]]
      {
        if k < |idx'| {
          assert r[k] == r'[k] && idx[k] == idx'[k];
          assert dogs[..n][idx'[k]] == dogs[idx'[k]];
        }
      }
    }
  }

  /** For every query the derived list is a subsequence of the records, so it never
      reorders them and is never longer. */
  lemma FilteredDogsIsSubsequence(dogs: seq<Dog>, query: string)
    ensures IsSubsequence(FilteredDogs(dogs, query), dogs)
    ensures |FilteredDogs(dogs, query)| <= |dogs|
  {
    if query == "" {
      var all: seq<nat> := seq(|dogs|, i requires 0 <= i < |dogs| => i);
      assert SelectsVia(dogs, dogs, all);
    } else {
      FilterSelectsKeptIndices(dogs, query);
    }
  }

  /** For a non-empty query the derived list is exactly the records at the matching
      positions, in increasing position order: nothing matching is dropped. */
  lemma FilteredDogsIsKeptRecords(dogs: seq<Dog>, query: string)
    requires query != ""
    ensures SelectsVia(FilteredDogs(dogs, query), dogs, KeptIndices(dogs, query))
    ensures forall i :: 0 <= i < |dogs| ==>
              (i in KeptIndices(dogs, query) <==>
                 |dogs[i].breeds| > 0 && Includes(Lower(dogs[i].breeds[0].name), Lower(query)))
  {
    FilterSelectsKeptIndices(dogs, query);
  }

  /** The empty query shows the whole list: same length, same records, same order. */
  lemma EmptyQueryKeepsAll(dogs: seq<Dog>)
    ensures FilteredDogs(dogs, "") == dogs
    ensures |Rows(dogs, "")| == |dogs|
  {
  }

  /** A record is shown exactly when the query is empty or its first breed's name,
      lower-cased, includes the lower-cased query. */
  lemma ShownIff(dogs: seq<Dog>, query: string, d: Dog)
    ensures d in FilteredDogs(dogs, query) <==>
              d in dogs && (query == "" ||
                (|d.breeds| > 0 && Includes(Lower(d.breeds[0].name), Lower(query))))
  {
  }

  /** A record without breeds is shown for the empty query and hidden for every other. */
  lemma NoBreedShownOnlyForEmptyQuery(dogs: seq<Dog>, query: string, d: Dog)
    requires d in dogs && d.breeds == []
    ensures d in FilteredDogs(dogs, query) <==> query == ""
  {
  }

  // ---------------------------------------------------------------------------
  // Case-insensitivity and first-breed-only
  // ---------------------------------------------------------------------------

  /** Two queries with the same lower-case form keep the same records. */
  lemma {:induction false} FilterCaseInsensitive(dogs: seq<Dog>, q1: string, q2: string)
    requires Lower(q1) == Lower(q2)
    ensures Filter(dogs, q1) == Filter(dogs, q2)
  {
    if |dogs| > 0 {
      FilterCaseInsensitive(dogs[..|dogs| - 1], q1, q2);
    }
  }

  /** The derived list depends on the query only through its lower-case form: even the
      early return agrees, since only "" lower-cases to "". */
  lemma FilteredDogsCaseInsensitive(dogs: seq<Dog>, q1: string, q2: string)
    requires Lower(q1) == Lower(q2)
    ensures FilteredDogs(dogs, q1) == FilteredDogs(dogs, q2)
    ensures Rows(dogs, q1) == Rows(dogs, q2)
  {
    LowerEmpty(q1);
    LowerEmpty(q2);
    FilterCaseInsensitive(dogs, q1, q2);
  }

  /** "lab" and "LAB" both keep a record whose first breed is "Labrador". */
  lemma LabMatchesLabrador(url: string, rest: seq<Breed>)
    ensures Matches(Dog(url, [Breed("Labrador")] + rest), "lab")
    ensures Matches(Dog(url, [Breed("Labrador")] + rest), "LAB")
  {
    assert Lower("LAB") == "lab";
    assert Lower("Labrador") == "labrador";
    assert OccursAt("labrador", "lab", 0);
  }

  /** Whether a record is kept, and what its row shows as breed and alt text, depend on
      its first breed only: the breeds after it never matter. */
  lemma OnlyFirstBreedMatters(d: Dog, e: Dog, query: string)
    requires |d.breeds| > 0 <==> |e.breeds| > 0
    requires |d.breeds| > 0 ==> d.breeds[0] == e.breeds[0]
    ensures Matches(d, query) <==> Matches(e, query)
    ensures BreedCell(d) == BreedCell(e) && AltText(d) == AltText(e)
  {
  }

  /** Two record lists that agree position by position on the first breed keep the same
      positions for every query. */
  lemma {:induction false} KeptIndicesIgnoreLaterBreeds(dogs: seq<Dog>, others: seq<Dog>, query: string)
    requires |dogs| == |others|
    requires forall i :: 0 <= i < |dogs| ==> FirstBreedName(dogs[i]) == FirstBreedName(others[i])
    ensures KeptIndices(dogs, query) == KeptIndices(others, query)
  {
    if |dogs| > 0 {
      var n := |dogs| - 1;
      KeptIndicesIgnoreLaterBreeds(dogs[..n], others[..n], query);
      assert Matches(dogs[n], query) <==> Matches(others[n], query);
    }
  }

  // ---------------------------------------------------------------------------
  // Filtering is a pure projection
  // ---------------------------------------------------------------------------

  /** Filtering a concatenation filters each part. */
  lemma {:induction false} FilterAppend(a: seq<Dog>, b: seq<Dog>, query: string)
    ensures Filter(a + b, query) == Filter(a, query) + Filter(b, query)
  {
    if |b| > 0 {
      var n := |b| - 1;
      assert (a + b)[..|a + b| - 1] == a + b[..n];
      FilterAppend(a, b[..n], query);
    } else {
      assert a + b == a;
    }
  }

  /** A list whose every record matches passes through `Filter` unchanged. */
  lemma {:induction false} FilterAllMatching(dogs: seq<Dog>, query: string)
    requires forall d :: d in dogs ==> Matches(d, query)
    ensures Filter(dogs, query) == dogs
  {
    if |dogs| > 0 {
      var n := |dogs| - 1;
      FilterAllMatching(dogs[..n], query);
      assert dogs[..n] + [dogs[n]] == dogs;
    }
  }

  /** Filtering the derived list again with the same query changes nothing. */
  lemma FilteredDogsIdempotent(dogs: seq<Dog>, query: string)
    ensures FilteredDogs(FilteredDogs(dogs, query), query) == FilteredDogs(dogs, query)
  {
    if query != "" {
      FilterAllMatching(Filter(dogs, query), query);
    }
  }

  // ---------------------------------------------------------------------------
  // Labels
  // ---------------------------------------------------------------------------

  /** The breed cell and the alt text are never empty, and they agree exactly when the
      record has a named first breed (the two fallbacks differ). */
  lemma LabelsAgreeIffNamed(d: Dog)
    ensures BreedCell(d) != "" && AltText(d) != ""
    ensures BreedCell(d) == AltText(d) <==> HasBreedName(d)
  {
    assert UnknownBreed != DogAlt;
  }

  /** Under a non-empty query every row shows a real breed name in both the breed cell and
      the alt text: fallback labels appear only for the empty query. */
  lemma RowsForQueryShowBreedNames(dogs: seq<Dog>, query: string)
    requires query != ""
    ensures forall k :: 0 <= k < |Rows(dogs, query)| ==>
              var d := FilteredDogs(dogs, query)[k];
              HasBreedName(d) && Rows(dogs, query)[k] == Row(d.breeds[0].name, d.url, d.breeds[0].name)
  {
  }

  // ---------------------------------------------------------------------------
  // Worked cases
  // ---------------------------------------------------------------------------

  /** A "Pug" record and a record without breeds, as in the view's basic use. */
  const Pug: Dog := Dog("a.jpg", [Breed("Pug")])
  const Bare: Dog := Dog("b.jpg", [])

  /** The empty query shows both rows, the second with the fallback labels. */
  lemma EmptyQueryShowsPlaceholderRow()
    ensures Rows([Pug, Bare], "") == [Row("Pug", "a.jpg", "Pug"), Row(UnknownBreed, "b.jpg", DogAlt)]
  {
  }

  /** "pu" keeps only the pug. */
  lemma PartialQueryKeepsPug()
    ensures FilteredDogs([Pug, Bare], "pu") == [Pug]
  {
    assert Lower("Pug") == "pug" && Lower("pu") == "pu";
    assert OccursAt("pug", "pu", 0);
    assert Matches(Pug, "pu");
    assert [Pug, Bare][..1] == [Pug] && [Pug][..0] == [];
    assert Filter([Pug], "pu") == [Pug];
  }

  /** "xyz" keeps nothing. */
  lemma UnmatchedQueryKeepsNothing()
    ensures FilteredDogs([Pug, Bare], "xyz") == []
  {
    assert Lower("Pug") == "pug" && Lower("xyz") == "xyz";
    assert !OccursAt("pug", "xyz", 0) by {
      assert "pug"[0..3][0] != "xyz"[0];
    }
    assert !Includes("pug", "xyz");
    assert !Matches(Pug, "xyz");
    assert [Pug, Bare][..1] == [Pug] && [Pug][..0] == [];
    assert Filter([Pug], "xyz") == [];
  }

  /** An empty response renders no rows, whatever the query. */
  lemma EmptyResponseRendersNothing(query: string)
    ensures Rows([], query) == []
  {
  }
}
