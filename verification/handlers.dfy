/**
 The six request handlers of the language catalog. Each makes one store call
 and maps its outcome to an HTTP status code and a JSON envelope
 `{status, message?, data?}`; each is a function from the collection and the
 request's inputs to the response and the collection afterwards.

 The path parameter of get, update and delete goes through the name
 normaliser `canon` before the lookup; the normaliser's algorithm is not part
 of this model, so it is a parameter and nothing is assumed about it.
 */
module LangController {
  import opened Results
  import opened Catalog
  import Tags

  /** The `status` field of every envelope. */
  datatype Status = Success | Fail

  /** One entry of the list response: exactly the three fields the listing shows. */
  datatype Summary = Summary(name: string, description: string, imgURL: string)

  /** The `data` field of an envelope. */
  datatype Payload =
    | NoData
    | SavedLang(savedLang: LangRecord)
    | LangsList(langsList: seq<Summary>)
    | OneLang(lang: LangRecord)
    | UpdatedLang(updatedlang: LangRecord)
    | Languages(languages: seq<LangRecord>)

  datatype Envelope = Envelope(status: Status, message: Option<string>, data: Payload)

  datatype Response = Response(code: nat, body: Envelope) {
    /** The envelope says `success` exactly for 2xx codes, and a failure carries a message and no data. */
    predicate Consistent() {
      && (body.status == Success <==> 200 <= code < 300)
      && (body.status == Fail ==> body.message.Some? && body.data == NoData)
    }
  }

  /** A handled request: the response sent and the collection afterwards. */
  datatype Exchange = Exchange(response: Response, store: Store)

  /** The decoded `tags` query value: missing, a string, or something else the query parser built (an array or an object). */
  datatype QueryValue = Absent | Text(text: string) | Structured

  const CreatedMessage := "Resource created successfully!"
  const UpdatedMessage := "Resource updated successfully!"
  const NotFoundMessage := "Resource not found!"
  const BadRequestMessage := "Bad request!"
  const InternalMessage := "Internal server error!"
  const AlreadyDeletedMessage := "Error! Resource was not found or has already been deleted!"
  const MissingTagsMessage := "Invalid request! The \"tags\" parameter is empty."
  const DeletedPrefix := "Resource named "
  const DeletedSuffix := " was deleted successfully!"

  /** The confirmation a successful delete sends, naming the deleted record. */
  function DeletedMessage(name: string): (m: string)
    ensures |m| == |DeletedPrefix| + |name| + |DeletedSuffix|
    ensures m[|DeletedPrefix|..|DeletedPrefix| + |name|] == name
  {
    DeletedPrefix + name + DeletedSuffix
  }

  /** A failure response: status `fail`, a message, no data. */
  function Failure(code: nat, message: string): Response
  {
    Response(code, Envelope(Fail, Some(message), NoData))
  }

  /** The 500 response every unexpected error ends in; it reveals nothing about the error. */
  const InternalError := Failure(500, InternalMessage)

  /** The listing's projection of one record. */
  function Project(r: LangRecord): (p: Summary)
    ensures p.name == r.name && p.description == r.description && p.imgURL == r.imgURL
  {
    Summary(r.name, r.description, r.imgURL)
  }

  /** The projection of every record, in order. */
  function ProjectAll(rs: seq<LangRecord>): (ps: seq<Summary>)
    ensures |ps| == |rs|
    ensures forall i :: 0 <= i < |rs| ==> ps[i] == Project(rs[i])
  {
    if |rs| == 0 then [] else [Project(rs[0])] + ProjectAll(rs[1..])
  }

  /** The guard of the filter request: `tags` must be a non-empty string. */
  predicate TagsGiven(q: QueryValue)
  {
    q.Text? && |q.text| > 0
  }

  /**
   POST /langs. The saved record comes back with 201; every store failure,
   a schema violation included, is a 500 with the collection unchanged.
   */
  function CreateLang(s: Store, body: LangRecord, fault: Option<StoreError>): (x: Exchange)
    requires UniqueNames(s)
    ensures x.response.Consistent() && UniqueNames(x.store)
    ensures x.response.code == 201 || x.response.code == 500
    ensures x.response.code == 201 <==> fault.None? && Lookup(s, body.name).None?
    ensures x.response.code == 201 ==>
      && x.response.body == Envelope(Success, Some(CreatedMessage), SavedLang(body))
      && |x.store| == |s| + 1
      && forall k :: Lookup(x.store, k) == (if k == body.name then Some(body) else Lookup(s, k))
    ensures x.response.code == 500 ==> x.response == InternalError && x.store == s
  {
    match Save(s, body, fault)
    case Ok(s') => Exchange(Response(201, Envelope(Success, Some(CreatedMessage), SavedLang(body))), s')
    case Err(_) => Exchange(InternalError, s)
  }

  /**
   GET /langs. An empty collection is a 404; otherwise 200 with the
   name/description/image projection of every record, in order. Nothing is written.
   */
  function GetAllLangs(s: Store, fault: Option<StoreError>): (x: Exchange)
    ensures x.response.Consistent() && x.store == s
    ensures x.response.code in {200, 404, 500}
    ensures x.response.code == 500 <==> fault.Some?
    ensures x.response.code == 404 <==> fault.None? && |s| == 0
    ensures x.response.code == 404 ==> x.response == Failure(404, NotFoundMessage)
    ensures x.response.code == 500 ==> x.response == InternalError
    ensures x.response.code == 200 ==>
      && x.response.body.message == None
      && x.response.body.data.LangsList?
      && |x.response.body.data.langsList| == |s|
      && forall i :: 0 <= i < |s| ==> x.response.body.data.langsList[i] == Project(s[i])
  {
    match FindAll(s, fault)
    case Err(_) => Exchange(InternalError, s)
    case Ok(langs) =>
      if |langs| == 0 then Exchange(Failure(404, NotFoundMessage), s)
      else Exchange(Response(200, Envelope(Success, None, LangsList(ProjectAll(langs)))), s)
  }

  /** GET /langs/:name. The record stored under the normalised name, or 404. Nothing is written. */
  function GetLang(s: Store, canon: string -> string, param: string, fault: Option<StoreError>): (x: Exchange)
    ensures x.response.Consistent() && x.store == s
    ensures x.response.code in {200, 404, 500}
    ensures x.response.code == 500 <==> fault.Some?
    ensures x.response.code == 404 <==> fault.None? && Lookup(s, canon(param)).None?
    ensures x.response.code == 404 ==> x.response == Failure(404, NotFoundMessage)
    ensures x.response.code == 500 ==> x.response == InternalError
    ensures x.response.code == 200 ==>
      && x.response.body.message == None
      && x.response.body.data.OneLang?
      && x.response.body.data.lang.name == canon(param)
      && x.response.body.data.lang in s
  {
    match FindOne(s, canon(param), fault)
    case Err(_) => Exchange(InternalError, s)
    case Ok(None) => Exchange(Failure(404, NotFoundMessage), s)
    case Ok(Some(lang)) => Exchange(Response(200, Envelope(Success, None, OneLang(lang))), s)
  }

  /**
   PATCH /langs/:name. The supplied fields of the record under the normalised
   name are overwritten and the record as it is afterwards comes back with 200;
   no such record is a 404, a schema violation a 400, any other failure a 500,
   and none of these changes the collection.
   */
  function UpdateLang(s: Store, canon: string -> string, param: string, patch: Patch, fault: Option<StoreError>): (x: Exchange)
    requires UniqueNames(s)
    ensures x.response.Consistent() && UniqueNames(x.store)
    ensures x.response.code in {200, 400, 404, 500}
    ensures x.response.code == 400 <==> fault == Some(ValidationError)
    ensures x.response.code == 404 <==> fault.None? && Lookup(s, canon(param)).None?
    ensures x.response.code == 500 <==>
      (fault.Some? && fault != Some(ValidationError)) || (fault.None? && RenameClash(s, canon(param), patch))
    ensures x.response.code == 400 ==> x.response == Failure(400, BadRequestMessage)
    ensures x.response.code == 404 ==> x.response == Failure(404, NotFoundMessage)
    ensures x.response.code == 500 ==> x.response == InternalError
    ensures x.response.code != 200 ==> x.store == s
    ensures x.response.code == 200 ==> Lookup(s, canon(param)).Some?
    ensures x.response.code == 200 ==>
      var key := canon(param);
      var u := Apply(Lookup(s, key).value, patch);
      && x.response.body == Envelope(Success, Some(UpdatedMessage), UpdatedLang(u))
      && |x.store| == |s|
      && forall k :: Lookup(x.store, k) == (if k == u.name then Some(u) else if k == key then None else Lookup(s, k))
  {
    match FindOneAndUpdate(s, canon(param), patch, fault)
    case Err(ValidationError) => Exchange(Failure(400, BadRequestMessage), s)
    case Err(_) => Exchange(InternalError, s)
    case Ok(Written(None, _)) => Exchange(Failure(404, NotFoundMessage), s)
    case Ok(Written(Some(updatedlang), s')) =>
      Exchange(Response(200, Envelope(Success, Some(UpdatedMessage), UpdatedLang(updatedlang))), s')
  }

  /**
   DELETE /langs/:name. The record under the normalised name is removed and
   the confirmation names it; no such record is a 404 with its own message.
   */
  function DeleteLang(s: Store, canon: string -> string, param: string, fault: Option<StoreError>): (x: Exchange)
    requires UniqueNames(s)
    ensures x.response.Consistent() && UniqueNames(x.store)
    ensures x.response.code in {200, 404, 500}
    ensures x.response.code == 500 <==> fault.Some?
    ensures x.response.code == 404 <==> fault.None? && Lookup(s, canon(param)).None?
    ensures x.response.code == 404 ==> x.response == Failure(404, AlreadyDeletedMessage)
    ensures x.response.code == 500 ==> x.response == InternalError
    ensures x.response.code != 200 ==> x.store == s
    ensures x.response.code == 200 ==>
      && x.response.body == Envelope(Success, Some(DeletedMessage(canon(param))), NoData)
      && |x.store| == |s| - 1
      && forall k :: Lookup(x.store, k) == (if k == canon(param) then None else Lookup(s, k))
  {
    match FindOneAndDelete(s, canon(param), fault)
    case Err(_) => Exchange(InternalError, s)
    case Ok(Written(None, _)) => Exchange(Failure(404, AlreadyDeletedMessage), s)
    case Ok(Written(Some(deletedlang), s')) =>
      Exchange(Response(200, Envelope(Success, Some(DeletedMessage(deletedlang.name)), NoData)), s')
  }

  /**
   GET /langs?tags=... A missing, empty or non-string `tags` is a 400 that
   carries the guard's own message, before any store call. Otherwise 200 with
   every record sharing a feature with the parsed tags, even when there is
   none. Nothing is written.
   */
  function GetLangsByFeatures(s: Store, tags: QueryValue, fault: Option<StoreError>): (x: Exchange)
    requires UniqueNames(s)
    ensures x.response.Consistent() && x.store == s
    ensures x.response.code in {200, 400, 500}
    ensures x.response.code == 400 <==> !TagsGiven(tags)
    ensures x.response.code == 500 <==> TagsGiven(tags) && fault.Some?
    ensures x.response.code == 400 ==> x.response == Failure(400, MissingTagsMessage)
    ensures x.response.code == 500 ==> x.response == InternalError
    ensures x.response.code == 200 ==>
      && x.response.body.message == None
      && x.response.body.data.Languages?
      && UniqueNames(x.response.body.data.languages)
      && (forall r :: r in x.response.body.data.languages <==> r in s && SharesFeature(r, Tags.ParseTags(tags.text)))
      && (x.response.body.data.languages == [] <==> forall r :: r in s ==> !SharesFeature(r, Tags.ParseTags(tags.text)))
  {
    if !TagsGiven(tags) then Exchange(Failure(400, MissingTagsMessage), s)
    else
      var featureArray := Tags.ParseTags(tags.text);
      match FindByFeatures(s, featureArray, fault)
      case Err(_) => Exchange(InternalError, s)
      case Ok(matchingLangs) => Exchange(Response(200, Envelope(Success, None, Languages(matchingLangs))), s)
  }
}
