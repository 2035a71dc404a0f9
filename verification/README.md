# Language catalog request handlers, in Dafny

This project models the request handlers of the devNexus language catalog, `src/controllers/langController.js`. These are the six Express handlers behind `/langs`:

- create (POST)
- list (GET)
- get one (GET `/:name`)
- partial update (PATCH `/:name`)
- delete (DELETE `/:name`)
- filter by feature tags (GET `?tags=`)

Each handler awaits one Mongoose call and turns its outcome into an HTTP status code and a JSON envelope `{status, message?, data?}`. Here each handler is a pure function. It takes the collection and the request's inputs and returns an `Exchange`: the response, plus the collection afterwards.

Files and modules:

- `results.dfy`, module `Results`: `Option` (JavaScript `null`/`undefined`, an absent body field) and `Result` (an awaited call that either returns or throws).
- `tags.dfy`, module `Tags`: the parser for the `tags` query.
  - `Split` follows JavaScript's `split('+')`.
  - `ReplaceDashes` follows `replace(/-/g, '_')`.
  - `ParseTags` combines the two.
  - There are lemmas that characterise the parsed list completely.
- `catalog.dfy`, module `Catalog`: the record, the PATCH body, the collection and the store calls.
  - `LangRecord` is the record and `Patch` is the PATCH body.
  - The collection is a sequence in natural order under a unique index on `name`. `Lookup` gives its map view from name to record.
  - Each store call the controller makes is a function: `save`, `find`, `findOne`, `findOneAndUpdate`, `findOneAndDelete`, and `find` with `$in`.
- `handlers.dfy`, module `LangController`: the six handlers and the response envelope.
- `properties.dfy`, module `CatalogProperties`: properties that span several requests. Examples: create then get, delete twice, and the listing covering the collection.

Inputs the controller gets from code this model cannot see become parameters:

- `fault: Option<StoreError>`: a failure the store throws for reasons not visible here, such as a schema validation error, a cast error or a lost connection. When present, the store call throws it and writes nothing.
- `canon: string -> string`: the `capitalizeName` normaliser. It is uninterpreted, and no property of it is assumed.

A unique index on `name` is assumed; the Lang schema is not part of this model. Under that assumption a save or a rename onto a name that is taken throws `DuplicateKey`, which the handlers turn into a 500.

## Model

| member | source | states |
|---|---|---|
| `Tags.Split` | src/controllers/langController.js:189 | `split('+')` gives one more segment than the text has separators. No segment holds the separator, and joining the segments with it gives back the text. |
| `Tags.SplitJoin` | src/controllers/langController.js:189 | On separator-free parts, splitting undoes joining, so the segments of a split are the only such reading of the text. |
| `Tags.ReplaceDashes` | src/controllers/langController.js:189 | `replace(/-/g, '_')` keeps the length. Each character is unchanged except that `'-'` becomes `'_'`, and no `'-'` is left. |
| `Tags.ParseTags` | src/controllers/langController.js:189 | The feature list has one entry per `'+'`-separated segment. Joined with `'+'`, it gives the query text with its dashes replaced. No entry holds `'+'` or `'-'`. |
| `Tags.ParseTagsUnique` | src/controllers/langController.js:189 | The parsed list is the only non-empty list of `'+'`/`'-'`-free tags whose join is the dash-replaced text. |
| `Tags.ParseTagsSegments` | src/controllers/langController.js:189 | The i-th tag is the i-th `'+'`-segment of the query with its dashes replaced, in order. |
| `Tags.ParseJoinedTags` | src/controllers/langController.js:189 | Dash-free tags joined with `'+'` parse back to themselves. |
| `Tags.JoinInjective` | src/controllers/langController.js:189 | Joining separator-free parts loses nothing: equal joins come from equal part lists. |
| `Catalog.Apply` | src/controllers/langController.js:115-119 | `$set` of a body: a field the body supplies takes the supplied value, and a field it does not supply keeps its value. |
| `Catalog.ApplyCharacterised` | src/controllers/langController.js:117 | Those two facts determine the updated record: any record that takes every supplied value and keeps every other field is the result of `$set`. |
| `Catalog.ApplyOverwrites` | src/controllers/langController.js:117 | Two records patched with the same body agree on every field the body supplies: the old value there is irrelevant. |
| `Catalog.SameOnAllIsEqual` | src/controllers/langController.js:6-18 | The eleven body fields are all a record has: two records that agree on each of them are the same record. |
| `Catalog.ApplyIdempotent` | src/controllers/langController.js:117 | Sending the same PATCH body twice has the effect of sending it once. |
| `Catalog.ApplyEmpty` | src/controllers/langController.js:117 | The empty body `{}` leaves the record as it was. |
| `Catalog.ApplyPopularityOnly` | src/controllers/langController.js:117 | The body `{popularity: n}` sets the popularity to `n` and changes nothing else. |
| `Catalog.Lookup` | src/controllers/langController.js:85 | The map view of the collection: it answers nothing exactly when no document has the name. Otherwise it answers a member document with that name. |
| `Catalog.LookupMember` | src/controllers/langController.js:85 | Under the unique index, every document is what its own name looks up. |
| `Catalog.AppendFrame` | src/controllers/langController.js:34 | Adding a document under a free name keeps names unique. The new name maps to it and every other name maps as before. |
| `Catalog.RemoveFrame` | src/controllers/langController.js:153 | Removing a document keeps names unique and frees its name. Every other name maps as before. |
| `Catalog.ReplaceFrame` | src/controllers/langController.js:115-119 | Updating a document in place keeps names unique. Its new name maps to it, an old name it left is freed, and every other name maps as before. |
| `Catalog.Matching` | src/controllers/langController.js:192-194 | `$in` on `keyFeatures`: a document is returned exactly when it is in the collection and shares a feature with the tags. The result is empty exactly when no document does. |
| `Catalog.MatchingUnique` | src/controllers/langController.js:192-194 | No document is returned twice. |
| `Catalog.Save` | src/controllers/langController.js:20-34 | The save succeeds exactly when there is no fault and the name is free. It then adds exactly that document, last. Otherwise it throws the fault, or `DuplicateKey`. |
| `Catalog.FindAll` | src/controllers/langController.js:51 | It throws exactly when there is a fault. Otherwise it returns the whole collection. |
| `Catalog.FindOne` | src/controllers/langController.js:85-87 | It throws exactly when there is a fault. Otherwise it returns the document under the key, with `populate` as identity. |
| `Catalog.FindOneAndUpdate` | src/controllers/langController.js:115-119 | A fault is thrown first, and no match returns no document and writes nothing. A rename onto a taken name throws `DuplicateKey`. Otherwise it returns the patched record, which replaces the old one; nothing else changes. |
| `Catalog.FindOneAndDelete` | src/controllers/langController.js:153 | It returns the document under the key, if any, and frees that key. A miss writes nothing, and every other name maps as before. |
| `Catalog.FindByFeatures` | src/controllers/langController.js:192-194 | It throws exactly when there is a fault. Otherwise it returns the matching documents, each exactly once. |
| `LangController.DeletedMessage` | src/controllers/langController.js:161 | The delete confirmation contains the deleted record's name at a fixed position. |
| `LangController.ProjectAll` | src/controllers/langController.js:57-61 | One `{name, description, imgURL}` projection per record, in order. |
| `LangController.CreateLang` | src/controllers/langController.js:4-47 | The only codes are 201 and 500. A 201 happens exactly when the store has no fault and the name is free. It returns the saved record and adds only it. Every failure, validation included, is the generic 500, and the collection is unchanged. |
| `LangController.GetAllLangs` | src/controllers/langController.js:49-80 | A fault gives 500 and an empty collection gives 404 "Resource not found!". Otherwise it is 200, with no message and one projection per record, in order. It never writes. |
| `LangController.GetLang` | src/controllers/langController.js:82-110 | It looks up `canon(param)`. A fault gives 500 and a miss gives 404. Otherwise it is 200, with no message and a member record of that name. It never writes. |
| `LangController.UpdateLang` | src/controllers/langController.js:112-148 | A 400 happens exactly on a `ValidationError`. A 404 happens exactly when no record has `canon(param)`. A 500 comes from other faults or a rename clash. A 200 returns the post-update record and changes only that record. No failure writes anything. |
| `LangController.DeleteLang` | src/controllers/langController.js:150-176 | A 200 removes exactly the record under `canon(param)`, and its message names it. A miss gives 404 with the "already been deleted" message. A fault gives 500. Failures write nothing. |
| `LangController.GetLangsByFeatures` | src/controllers/langController.js:180-213 | A 400 with the guard's own message happens exactly when `tags` is missing, empty or not a string, and comes before any store call. A 500 comes from a fault. A 200 carries no message and returns exactly the records sharing a feature with `ParseTags(tags)`, and may return an empty list. It never writes. |
| `CatalogProperties.CreateThenGet` | src/controllers/langController.js:34-39 | After a create, a get whose normalised parameter is the new name returns 200 with exactly the created record. |
| `CatalogProperties.UpdateThenGet` | src/controllers/langController.js:115-128 | After a 200 update, a get under the record's new name returns the patched record. |
| `CatalogProperties.DeleteThenGet` | src/controllers/langController.js:153-161 | After a 200 delete, a get of the same parameter is a 404. |
| `CatalogProperties.DeleteTwice` | src/controllers/langController.js:153-167 | After a delete answered 200 or 404, repeating it gives 404 with the "already been deleted" message and writes nothing. |
| `CatalogProperties.ReadsRepeat` | src/controllers/langController.js:51-96 | Get, list and filter write nothing, so repeating one gives the same answer. |
| `CatalogProperties.GetByCanonicalName` | src/controllers/langController.js:84 | Two parameters that normalise to the same name get the same answer. |
| `CatalogProperties.ListCoversStore` | src/controllers/langController.js:51-66 | On a non-empty collection, a name is listed exactly when a record has it, and never twice. |
| `CatalogProperties.CreateThenList` | src/controllers/langController.js:34-66 | A create makes the listing one entry longer: the old entries are kept and the new projection comes last. |
| `CatalogProperties.FilterNoMatchIsOk` | src/controllers/langController.js:192-201 | A valid `tags` query that matches nothing is 200 with an empty list, not 404. |
| `CatalogProperties.ParseTwoCompoundTags` | src/controllers/langController.js:189 | For dash- and plus-free words, `x-y+z-w` parses to `[x_y, z_w]`. An example is `pattern-matching+null-safety` giving `pattern_matching` and `null_safety`. |
| `CatalogProperties.CompoundTag` | src/controllers/langController.js:189 | A dash-joined pair of dash-free words becomes the underscore-joined pair. |

## Left out

- `src/routes/authRouter.js` only wires routes to an authentication controller and middleware. Neither is part of this model, so there is no logic to model.
- Mongoose internals are not modelled: schema validation rules, casting, `_id` assignment, timestamps and schema defaults. They all come in through the `fault` input, and the saved record is the body's record.
- `populate('areas')` and `populate('techs')` are modelled as identity. `areas` and `techs` stay reference strings.
- `capitalizeName` is the `canon` parameter. Its algorithm is not part of this model, so it cannot be proved that `GET /langs/python` and `GET /langs/Python` reach the same record. `CatalogProperties.GetByCanonicalName` states only that equal normalised names get equal answers.
- The create body is a full `LangRecord`. A body with missing fields is not modelled separately: whatever the schema makes of an `undefined` field is part of the abstract `fault`.
- The PATCH body holds only the eleven schema fields. Keys outside the schema, which Mongoose strict mode drops, are not modelled.
- Express `req`/`res`, async/await and URL decoding are left out. `tags` arrives already decoded as `QueryValue`: absent, a string, or an array/object. Whether a literal `'+'` survives decoding (standard query parsing turns `+` into a space unless it is sent as `%2B`) is outside this model.
- `popularity` and `yearCreated` are JavaScript numbers. The model uses `int` for both, because no handler computes with them.
- The source chooses between 404 and 500 by comparing error message strings. The model uses error kinds instead. This assumes the store never throws an error whose message is literally `'Not Found'`: the source would report such an error as a 404.
- MongoDB does not promise an order for `find()`. The model uses insertion order, with an updated document keeping its place.
- When a fault and a missing record coincide, the model reports the fault: Mongoose casts the update before it runs the query. The update call passes only `{ new: true }`, so no update validators run; `ValidationError` is kept as an abstract fault the store may throw.
- Concurrency between in-flight requests is left out. Each request is one atomic store call, so a request is modelled as one step.
- An empty tag set never reaches the store: a non-empty string always splits into at least one segment (possibly empty ones, as for `"+"`), so the `$in` query always has at least one value.
- A create under a name that is already taken is the generic 500, like every other create failure; there is no distinct status for it.
- `Catalog.Save`: the unique index on `name` is assumed, because the Lang schema is not part of this model and the controller itself never checks for a duplicate. Three contracts rest on it: `Catalog.Save` succeeds only under a free name, `LangController.CreateLang` answers 201 only under a free name, and `LangController.UpdateLang` answers 500 on a rename clash. Without the index, a create under a taken name would answer 201.
- JSON `null` field values are not modelled. A body such as `{"description": null}` makes `$set` (and `new Lang(...)` on create) store a null field, but here an absent body field is `None` and a record field always holds a value.
