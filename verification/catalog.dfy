/**
 The language catalog: its one record type, the partial update a PATCH body
 carries, and the collection the handlers read and write.

 The collection is a sequence in the store's natural order (a new document
 goes last, an updated one keeps its place) whose records have pairwise
 distinct names; `Lookup` gives its view as a map from name to record.
 */
module Catalog {
  import opened Results

  /** Who designed a language: one person, or a list of them. */
  datatype Designer = Person(person: string) | People(people: seq<string>)

  /** One language document. `areas` and `techs` hold references into other collections. */
  datatype LangRecord = LangRecord(
    name: string,
    description: string,
    imgURL: string,
    keyFeatures: seq<string>,
    advantages: seq<string>,
    disadvantages: seq<string>,
    designedBy: Designer,
    yearCreated: int,
    popularity: int,
    areas: seq<string>,
    techs: seq<string>)

  /** The fields of a record, for saying which of them an update touches. */
  datatype Field =
    | Name | Description | ImgURL | KeyFeatures | Advantages | Disadvantages
    | DesignedBy | YearCreated | Popularity | Areas | Techs

  /** A PATCH body: a field that is present is written, an absent one is kept. */
  datatype Patch = Patch(
    name: Option<string>,
    description: Option<string>,
    imgURL: Option<string>,
    keyFeatures: Option<seq<string>>,
    advantages: Option<seq<string>>,
    disadvantages: Option<seq<string>>,
    designedBy: Option<Designer>,
    yearCreated: Option<int>,
    popularity: Option<int>,
    areas: Option<seq<string>>,
    techs: Option<seq<string>>)

  /** The body `{}`. */
  const EmptyPatch := Patch(None, None, None, None, None, None, None, None, None, None, None)

  /** True when the patch supplies field `f`. */
  predicate Supplies(p: Patch, f: Field)
  {
    match f
    case Name => p.name.Some?
    case Description => p.description.Some?
    case ImgURL => p.imgURL.Some?
    case KeyFeatures => p.keyFeatures.Some?
    case Advantages => p.advantages.Some?
    case Disadvantages => p.disadvantages.Some?
    case DesignedBy => p.designedBy.Some?
    case YearCreated => p.yearCreated.Some?
    case Popularity => p.popularity.Some?
    case Areas => p.areas.Some?
    case Techs => p.techs.Some?
  }

  /** True when two records hold the same value in field `f`. */
  predicate SameOn(a: LangRecord, b: LangRecord, f: Field)
  {
    match f
    case Name => a.name == b.name
    case Description => a.description == b.description
    case ImgURL => a.imgURL == b.imgURL
    case KeyFeatures => a.keyFeatures == b.keyFeatures
    case Advantages => a.advantages == b.advantages
    case Disadvantages => a.disadvantages == b.disadvantages
    case DesignedBy => a.designedBy == b.designedBy
    case YearCreated => a.yearCreated == b.yearCreated
    case Popularity => a.popularity == b.popularity
    case Areas => a.areas == b.areas
    case Techs => a.techs == b.techs
  }

  /** True when `u` holds the value the patch supplies for field `f` (trivially, when it supplies none). */
  predicate Takes(p: Patch, u: LangRecord, f: Field)
  {
    match f
    case Name => p.name.Some? ==> u.name == p.name.value
    case Description => p.description.Some? ==> u.description == p.description.value
    case ImgURL => p.imgURL.Some? ==> u.imgURL == p.imgURL.value
    case KeyFeatures => p.keyFeatures.Some? ==> u.keyFeatures == p.keyFeatures.value
    case Advantages => p.advantages.Some? ==> u.advantages == p.advantages.value
    case Disadvantages => p.disadvantages.Some? ==> u.disadvantages == p.disadvantages.value
    case DesignedBy => p.designedBy.Some? ==> u.designedBy == p.designedBy.value
    case YearCreated => p.yearCreated.Some? ==> u.yearCreated == p.yearCreated.value
    case Popularity => p.popularity.Some? ==> u.popularity == p.popularity.value
    case Areas => p.areas.Some? ==> u.areas == p.areas.value
    case Techs => p.techs.Some? ==> u.techs == p.techs.value
  }

  /**
   The record after a `$set` of the patch's fields: a field the patch supplies
   takes the supplied value, a field it does not supply keeps its value.
   */
  function Apply(r: LangRecord, p: Patch): (u: LangRecord)
    ensures forall f :: Takes(p, u, f)
    ensures forall f :: !Supplies(p, f) ==> SameOn(r, u, f)
  {
    LangRecord(
      p.name.GetOr(r.name),
      p.description.GetOr(r.description),
      p.imgURL.GetOr(r.imgURL),
      p.keyFeatures.GetOr(r.keyFeatures),
      p.advantages.GetOr(r.advantages),
      p.disadvantages.GetOr(r.disadvantages),
      p.designedBy.GetOr(r.designedBy),
      p.yearCreated.GetOr(r.yearCreated),
      p.popularity.GetOr(r.popularity),
      p.areas.GetOr(r.areas),
      p.techs.GetOr(r.techs))
  }

  /** On a field the patch supplies, the result does not depend on the record patched: any two records agree there afterwards. */
  lemma ApplyOverwrites(r: LangRecord, other: LangRecord, p: Patch)
    ensures forall f :: Supplies(p, f) ==> SameOn(Apply(r, p), Apply(other, p), f)
  {
  }

  /** Records that agree on every field are the same record. */
  lemma SameOnAllIsEqual(a: LangRecord, b: LangRecord)
    requires forall f :: SameOn(a, b, f)
    ensures a == b
  {
    assert SameOn(a, b, Name) && SameOn(a, b, Description) && SameOn(a, b, ImgURL);
    assert SameOn(a, b, KeyFeatures) && SameOn(a, b, Advantages) && SameOn(a, b, Disadvantages);
    assert SameOn(a, b, DesignedBy) && SameOn(a, b, YearCreated) && SameOn(a, b, Popularity);
    assert SameOn(a, b, Areas) && SameOn(a, b, Techs);
  }

  /**
   The two halves of `Apply`'s contract determine its result: a record that
   takes every supplied value and keeps every other field is `Apply(r, p)`.
   */
  lemma ApplyCharacterised(r: LangRecord, p: Patch, u: LangRecord)
    requires forall f :: Takes(p, u, f)
    requires forall f :: !Supplies(p, f) ==> SameOn(r, u, f)
    ensures u == Apply(r, p)
  {
    var a := Apply(r, p);
    forall f
      ensures SameOn(u, a, f)
    {
      assert Takes(p, u, f) && Takes(p, a, f);
      if !Supplies(p, f) {
        assert SameOn(r, u, f) && SameOn(r, a, f);
      }
    }
    SameOnAllIsEqual(u, a);
  }

  /** Writing the same patch twice is writing it once. */
  lemma ApplyIdempotent(r: LangRecord, p: Patch)
    ensures Apply(Apply(r, p), p) == Apply(r, p)
  {
  }

  /** The empty body changes nothing. */
  lemma ApplyEmpty(r: LangRecord)
    ensures Apply(r, EmptyPatch) == r
  {
  }

  /** The body `{popularity: n}` changes the popularity to `n` and nothing else. */
  lemma ApplyPopularityOnly(r: LangRecord, n: int)
    ensures Apply(r, EmptyPatch.(popularity := Some(n))) == r.(popularity := n)
  {
  }

  // ---------------------------------------------------------------------------
  // The collection

  /** The collection in natural order. */
  type Store = seq<LangRecord>

  /** The unique index on `name`: no two documents share a name. */
  predicate UniqueNames(s: Store)
  {
    forall i, j :: 0 <= i < |s| && 0 <= j < |s| && i != j ==> s[i].name != s[j].name
  }

  /** Position of the first document named `key`. */
  function FindIndex(s: Store, key: string): (r: Option<nat>)
    ensures r.Some? ==> r.value < |s| && s[r.value].name == key
    ensures r.None? <==> forall i :: 0 <= i < |s| ==> s[i].name != key
  {
    if |s| == 0 then None
    else if s[0].name == key then Some(0)
    else match FindIndex(s[1..], key)
      case None => None
      case Some(j) => Some(j + 1)
  }

  /** The collection as a map from name to record: the document named `key`, if any. */
  function Lookup(s: Store, key: string): (r: Option<LangRecord>)
    ensures r.None? <==> forall i :: 0 <= i < |s| ==> s[i].name != key
    ensures r.Some? ==> r.value in s && r.value.name == key
  {
    match FindIndex(s, key)
    case None => None
    case Some(i) => Some(s[i])
  }

  /** Under the unique index, every document is what its name looks up. */
  lemma LookupMember(s: Store, x: LangRecord)
    requires UniqueNames(s) && x in s
    ensures Lookup(s, x.name) == Some(x)
  {
  }

  /** Adding a document whose name is free keeps names unique and maps its name to it, leaving every other name as it was. */
  lemma {:induction false} AppendFrame(s: Store, u: LangRecord)
    requires UniqueNames(s) && Lookup(s, u.name).None?
    ensures UniqueNames(s + [u])
    ensures forall k :: Lookup(s + [u], k) == if k == u.name then Some(u) else Lookup(s, k)
  {
    var t := s + [u];
    forall i, j | 0 <= i < |t| && 0 <= j < |t| && i != j
      ensures t[i].name != t[j].name
    {
      if i < |s| && j < |s| {
        assert t[i] == s[i] && t[j] == s[j];
      } else if i < |s| {
        assert t[i] == s[i];
      } else {
        assert t[j] == s[j];
      }
    }
    LookupMember(t, u);
    forall k | k != u.name
      ensures Lookup(t, k) == Lookup(s, k)
    {
      match Lookup(s, k)
      case Some(x) => LookupMember(t, x);
      case None =>
        forall i | 0 <= i < |t| ensures t[i].name != k {
          if i < |s| { assert t[i] == s[i]; }
        }
    }
  }

  /** The collection without its `i`-th document. */
  function Remove(s: Store, i: nat): (t: Store)
    requires i < |s|
    ensures |t| == |s| - 1
  {
    s[..i] + s[i + 1..]
  }

  /** Removing a document keeps names unique, frees its name and leaves every other name as it was. */
  lemma {:induction false} RemoveFrame(s: Store, i: nat)
    requires UniqueNames(s) && i < |s|
    ensures UniqueNames(Remove(s, i))
    ensures forall k :: Lookup(Remove(s, i), k) == if k == s[i].name then None else Lookup(s, k)
  {
    var t := Remove(s, i);
    assert forall j :: 0 <= j < |t| ==> t[j] == if j < i then s[j] else s[j + 1];
    forall k
      ensures Lookup(t, k) == if k == s[i].name then None else Lookup(s, k)
    {
      match Lookup(s, k)
      case Some(x) =>
        if k != s[i].name {
          var m :| 0 <= m < |s| && s[m] == x;
          assert m != i;
          if m < i { assert t[m] == x; } else { assert t[m - 1] == x; }
          LookupMember(t, x);
        }
      case None =>
    }
  }

  /** Replacing the `i`-th document by one whose name no other document has keeps names unique; its new name maps to it, its old name is freed if it changed, and every other name is as it was. */
  lemma {:induction false} ReplaceFrame(s: Store, i: nat, u: LangRecord)
    requires UniqueNames(s) && i < |s|
    requires forall j :: 0 <= j < |s| && j != i ==> s[j].name != u.name
    ensures UniqueNames(s[i := u])
    ensures forall k :: Lookup(s[i := u], k) == (if k == u.name then Some(u) else if k == s[i].name then None else Lookup(s, k))
  {
    var t := s[i := u];
    forall a, b | 0 <= a < |t| && 0 <= b < |t| && a != b
      ensures t[a].name != t[b].name
    {
      if a != i && b != i {
        assert t[a] == s[a] && t[b] == s[b];
      }
    }
    assert t[i] == u;
    LookupMember(t, u);
    forall k | k != u.name
      ensures Lookup(t, k) == if k == s[i].name then None else Lookup(s, k)
    {
      match Lookup(s, k)
      case Some(x) =>
        if k != s[i].name {
          var m :| 0 <= m < |s| && s[m] == x;
          assert t[m] == x;
          LookupMember(t, x);
        }
      case None =>
    }
  }

  // ---------------------------------------------------------------------------
  // Feature matching

  /** MongoDB's `$in` on an array field: some feature of the record is one of `tags`. */
  predicate SharesFeature(r: LangRecord, tags: seq<string>)
  {
    exists f :: f in r.keyFeatures && f in tags
  }

  /** The documents, in natural order, that share a feature with `tags`. */
  function Matching(s: Store, tags: seq<string>): (r: seq<LangRecord>)
    ensures |r| <= |s|
    ensures forall x :: x in r <==> x in s && SharesFeature(x, tags)
    ensures r == [] <==> forall x :: x in s ==> !SharesFeature(x, tags)
  {
    if |s| == 0 then []
    else
      var rest := Matching(s[1..], tags);
      assert forall x :: x in s <==> x == s[0] || x in s[1..];
      if SharesFeature(s[0], tags) then [s[0]] + rest else rest
  }

  /** The matching documents keep the unique index: none is returned twice. */
  lemma {:induction false} MatchingUnique(s: Store, tags: seq<string>)
    requires UniqueNames(s)
    ensures UniqueNames(Matching(s, tags))
    decreases |s|
  {
    if |s| > 0 {
      var rest := Matching(s[1..], tags);
      assert UniqueNames(s[1..]) by {
        forall i, j | 0 <= i < |s[1..]| && 0 <= j < |s[1..]| && i != j
          ensures s[1..][i].name != s[1..][j].name
        {
          assert s[1..][i] == s[i + 1] && s[1..][j] == s[j + 1];
        }
      }
      MatchingUnique(s[1..], tags);
      if SharesFeature(s[0], tags) {
        var r := [s[0]] + rest;
        forall i, j | 0 <= i < |r| && 0 <= j < |r| && i != j
          ensures r[i].name != r[j].name
        {
          if i > 0 && j > 0 {
            assert r[i] == rest[i - 1] && r[j] == rest[j - 1];
          } else {
            var m := if i == 0 then j else i;
            assert r[m] == rest[m - 1] && rest[m - 1] in rest;
            var n :| 0 <= n < |s[1..]| && s[1..][n] == r[m];
            assert s[n + 1] == r[m];
          }
        }
      }
    }
  }

  // ---------------------------------------------------------------------------
  // The store calls the handlers make. Failures the store can have for reasons
  // this model cannot see (schema validation, casting, connectivity) come in
  // as `fault`; when present, the call fails with it and changes nothing.

  /** Why a store call threw. */
  datatype StoreError =
    | ValidationError   // the schema rejected a value (`err.name === 'ValidationError'`)
    | DuplicateKey      // the unique index on `name` rejected a write
    | Unavailable       // any other driver or connection failure

  /** What a write call returns: the affected document (if any) and the collection afterwards. */
  datatype Written = Written(doc: Option<LangRecord>, store: Store)

  /** `new Lang(body).save()`: appends the document unless the store fails or its name is taken. */
  function Save(s: Store, doc: LangRecord, fault: Option<StoreError>): (r: Result<Store, StoreError>)
    requires UniqueNames(s)
    ensures r.Ok? <==> fault.None? && Lookup(s, doc.name).None?
    ensures r.Err? ==> r.error == fault.GetOr(DuplicateKey)
    ensures r.Ok? ==> UniqueNames(r.value) && r.value == s + [doc]
    ensures r.Ok? ==> forall k :: Lookup(r.value, k) == if k == doc.name then Some(doc) else Lookup(s, k)
  {
    if fault.Some? then Err(fault.value)
    else if FindIndex(s, doc.name).Some? then Err(DuplicateKey)
    else
      AppendFrame(s, doc);
      Ok(s + [doc])
  }

  /** `Lang.find()` with no filter: every document, in natural order. */
  function FindAll(s: Store, fault: Option<StoreError>): (r: Result<seq<LangRecord>, StoreError>)
    ensures r.Err? <==> fault.Some?
    ensures r.Ok? ==> r.value == s
  {
    if fault.Some? then Err(fault.value) else Ok(s)
  }

  /** `Lang.findOne({name: key})`, with `populate` leaving the document as it is. */
  function FindOne(s: Store, key: string, fault: Option<StoreError>): (r: Result<Option<LangRecord>, StoreError>)
    ensures r.Err? <==> fault.Some?
    ensures r.Ok? ==> r.value == Lookup(s, key)
  {
    if fault.Some? then Err(fault.value) else Ok(Lookup(s, key))
  }

  /** The patch would rename the document named `key` onto a name another document holds. */
  predicate RenameClash(s: Store, key: string, patch: Patch)
  {
    Lookup(s, key).Some? &&
    var u := Apply(Lookup(s, key).value, patch);
    u.name != key && Lookup(s, u.name).Some?
  }

  /**
   `Lang.findOneAndUpdate({name: key}, {$set: patch}, {new: true})`: no match
   leaves the store alone and returns no document; a match is patched in place
   and returned as it is after the update, unless the patch renames it onto a
   name another document holds.
   */
  function FindOneAndUpdate(s: Store, key: string, patch: Patch, fault: Option<StoreError>): (r: Result<Written, StoreError>)
    requires UniqueNames(s)
    ensures fault.Some? ==> r == Err(fault.value)
    ensures fault.None? && Lookup(s, key).None? ==> r == Ok(Written(None, s))
    ensures fault.None? && Lookup(s, key).Some? ==>
      var u := Apply(Lookup(s, key).value, patch);
      if RenameClash(s, key, patch) then r == Err(DuplicateKey)
      else
        && r.Ok? && r.value.doc == Some(u)
        && UniqueNames(r.value.store) && |r.value.store| == |s|
        && forall k :: Lookup(r.value.store, k) ==
             (if k == u.name then Some(u) else if k == key then None else Lookup(s, k))
  {
    if fault.Some? then Err(fault.value)
    else match FindIndex(s, key)
      case None => Ok(Written(None, s))
      case Some(i) =>
        var u := Apply(s[i], patch);
        if u.name != key && FindIndex(s, u.name).Some? then Err(DuplicateKey)
        else
          ReplaceFrame(s, i, u);
          Ok(Written(Some(u), s[i := u]))
  }

  /** `Lang.findOneAndDelete({name: key})`: removes and returns the document named `key`, if any. */
  function FindOneAndDelete(s: Store, key: string, fault: Option<StoreError>): (r: Result<Written, StoreError>)
    requires UniqueNames(s)
    ensures r.Err? <==> fault.Some?
    ensures r.Err? ==> r.error == fault.value
    ensures r.Ok? ==> r.value.doc == Lookup(s, key) && UniqueNames(r.value.store)
    ensures r.Ok? && r.value.doc.None? ==> r.value.store == s
    ensures r.Ok? && r.value.doc.Some? ==> |r.value.store| == |s| - 1
    ensures r.Ok? ==> forall k :: Lookup(r.value.store, k) == if k == key then None else Lookup(s, k)
  {
    if fault.Some? then Err(fault.value)
    else match FindIndex(s, key)
      case None => Ok(Written(None, s))
      case Some(i) =>
        RemoveFrame(s, i);
        Ok(Written(Some(s[i]), Remove(s, i)))
  }

  /** `Lang.find({keyFeatures: {$in: tags}})`. */
  function FindByFeatures(s: Store, tags: seq<string>, fault: Option<StoreError>): (r: Result<seq<LangRecord>, StoreError>)
    requires UniqueNames(s)
    ensures r.Err? <==> fault.Some?
    ensures r.Ok? ==> forall x :: x in r.value <==> x in s && SharesFeature(x, tags)
    ensures r.Ok? ==> (r.value == [] <==> forall x :: x in s ==> !SharesFeature(x, tags))
    ensures r.Ok? ==> UniqueNames(r.value)
  {
    if fault.Some? then Err(fault.value)
    else
      MatchingUnique(s, tags);
      Ok(Matching(s, tags))
  }
}
