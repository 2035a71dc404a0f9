/**
 Properties that relate several requests to one another: what a later request
 sees of an earlier write, repeated requests, and what the listing and the
 filter say about the whole collection.
 */
module CatalogProperties {
  import opened Results
  import opened Catalog
  import opened LangController
  import Tags

  /** A record created under a name is what a later get of any parameter normalising to that name returns. */
  lemma CreateThenGet(s: Store, body: LangRecord, canon: string -> string, param: string)
    requires UniqueNames(s) && Lookup(s, body.name).None?
    requires canon(param) == body.name
    ensures CreateLang(s, body, None).response.code == 201
    ensures GetLang(CreateLang(s, body, None).store, canon, param, None).response
      == Response(200, Envelope(Success, None, OneLang(body)))
  {
  }

  /** After a successful update, a get under the record's new name returns the updated record. */
  lemma UpdateThenGet(s: Store, canon: string -> string, param: string, patch: Patch, param': string)
    requires UniqueNames(s)
    requires UpdateLang(s, canon, param, patch, None).response.code == 200
    requires canon(param') == UpdateLang(s, canon, param, patch, None).response.body.data.updatedlang.name
    ensures GetLang(UpdateLang(s, canon, param, patch, None).store, canon, param', None).response
      == Response(200, Envelope(Success, None, OneLang(Apply(Lookup(s, canon(param)).value, patch))))
  {
  }

  /** After a successful delete, a get of the same parameter is a 404. */
  lemma DeleteThenGet(s: Store, canon: string -> string, param: string, fault: Option<StoreError>)
    requires UniqueNames(s)
    requires DeleteLang(s, canon, param, fault).response.code == 200
    ensures GetLang(DeleteLang(s, canon, param, fault).store, canon, param, None).response == Failure(404, NotFoundMessage)
  {
  }

  /**
   Delete is not idempotent: once a delete has answered 200 or 404, repeating
   it answers 404 with the "already been deleted" message and writes nothing.
   */
  lemma DeleteTwice(s: Store, canon: string -> string, param: string, fault: Option<StoreError>)
    requires UniqueNames(s)
    requires DeleteLang(s, canon, param, fault).response.code != 500
    ensures var first := DeleteLang(s, canon, param, fault);
      var second := DeleteLang(first.store, canon, param, None);
      second.response == Failure(404, AlreadyDeletedMessage) && second.store == first.store
  {
  }

  /** Get, list and filter write nothing, so asking again gives the same answer. */
  lemma ReadsRepeat(s: Store, canon: string -> string, param: string, tags: QueryValue, fault: Option<StoreError>)
    requires UniqueNames(s)
    ensures var g := GetLang(s, canon, param, fault); GetLang(g.store, canon, param, fault) == g
    ensures var l := GetAllLangs(s, fault); GetAllLangs(l.store, fault) == l
    ensures var f := GetLangsByFeatures(s, tags, fault); GetLangsByFeatures(f.store, tags, fault) == f
  {
  }

  /** Parameters the normaliser maps to the same name get the same answer. */
  lemma GetByCanonicalName(s: Store, canon: string -> string, a: string, b: string, fault: Option<StoreError>)
    requires canon(a) == canon(b)
    ensures GetLang(s, canon, a, fault) == GetLang(s, canon, b, fault)
  {
  }

  /**
   The listing holds one entry per record: a name is listed exactly when a
   record has it, and no name is listed twice.
   */
  lemma ListCoversStore(s: Store)
    requires UniqueNames(s) && |s| > 0
    ensures GetAllLangs(s, None).response.code == 200
    ensures var items := GetAllLangs(s, None).response.body.data.langsList;
      && (forall k :: Lookup(s, k).Some? <==> exists i :: 0 <= i < |items| && items[i].name == k)
      && (forall i, j :: 0 <= i < |items| && 0 <= j < |items| && i != j ==> items[i].name != items[j].name)
  {
  }

  /** A successful create makes the listing one entry longer, with the new record's projection last. */
  lemma CreateThenList(s: Store, body: LangRecord)
    requires UniqueNames(s) && Lookup(s, body.name).None?
    ensures var t := CreateLang(s, body, None).store;
      var items := GetAllLangs(t, None).response.body.data.langsList;
      && GetAllLangs(t, None).response.code == 200
      && |items| == |s| + 1
      && items[|s|] == Summary(body.name, body.description, body.imgURL)
      && forall i :: 0 <= i < |s| ==> items[i] == Project(s[i])
  {
  }

  /** A well-formed `tags` query that no record matches is still a 200, with no languages. */
  lemma FilterNoMatchIsOk(s: Store, text: string)
    requires UniqueNames(s) && |text| > 0
    requires forall r :: r in s ==> !SharesFeature(r, Tags.ParseTags(text))
    ensures GetLangsByFeatures(s, Text(text), None).response == Response(200, Envelope(Success, None, Languages([])))
  {
  }

  /**
   Two compound tags such as `pattern-matching+null-safety` ask for the
   features `pattern_matching` and `null_safety`: each dash becomes an
   underscore and the plus separates the two.
   */
  lemma ParseTwoCompoundTags(x: string, y: string, z: string, w: string)
    requires Tags.Plus !in x + y + z + w && Tags.Dash !in x + y + z + w
    ensures Tags.ParseTags(x + "-" + y + "+" + z + "-" + w) == [x + "_" + y, z + "_" + w]
  {
    assert forall c :: c in x || c in y || c in z || c in w ==> c in x + y + z + w;
    var first, second := x + "-" + y, z + "-" + w;
    var text := x + "-" + y + "+" + z + "-" + w;
    assert Tags.Unseparated([first, second], Tags.Plus) by {
      assert forall c :: c in first ==> c in x || c == '-' || c in y;
      assert forall c :: c in second ==> c in z || c == '-' || c in w;
    }
    assert text == Tags.Join([first, second], Tags.Plus);
    Tags.SplitJoin([first, second], Tags.Plus);
    Tags.ParseTagsSegments(text);
    CompoundTag(x, y);
    CompoundTag(z, w);
  }

  /** A dash-joined pair of dash-free words becomes the underscore-joined pair. */
  lemma CompoundTag(x: string, y: string)
    requires Tags.Dash !in x && Tags.Dash !in y
    ensures Tags.ReplaceDashes(x + "-" + y) == x + "_" + y
  {
    var r := Tags.ReplaceDashes(x + "-" + y);
    forall i | 0 <= i < |r| ensures r[i] == (x + "_" + y)[i] {
      if i < |x| {
        assert (x + "-" + y)[i] == x[i] && x[i] in x;
      } else if i > |x| {
        assert (x + "-" + y)[i] == y[i - |x| - 1] && y[i - |x| - 1] in y;
      }
    }
  }
}
