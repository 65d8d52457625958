/**
 * `supabase/functions/handle-resume-upload.ts`: the storage webhook that forwards a newly
 * uploaded résumé to the extraction function. Before forwarding it checks, in this order,
 * that the call comes from the database trigger, that the file is in the `truthtalent`
 * bucket, and that its extension is one of `pdf`, `docx`, `doc` and `txt`.
 */
module UploadGate {
  import opened Common
  import opened Strings

  /** The storage object named in the payload: its key (the path of the file in the
      bucket) and its owner; a field that is missing is `None`. */
  datatype StorageObject = StorageObject(key: Option<string>, owner: Option<string>)

  /** The fields read from the JSON body; `None` for a field that is missing or is not a
      string. */
  datatype Payload = Payload(bucket: Option<string>, storageObject: Option<StorageObject>)

  /** The `x-supabase-trigger` header (`None` when absent) and the body, which
      `req.json()` and the destructuring either turn into a payload or throw on. */
  datatype Request = Request(trigger: Option<string>, body: Result<Payload>)

  /** What the handler does with a request. */
  datatype Decision =
    | Reply(status: nat, text: string)                  // a plain-text response
    | ServerError(message: string)                      // the `catch`: status 500, `{ error: message }`
    | Forward(fileUrl: string, owner: Option<string>)   // the call to `extract-resume`

  /** The status of the response the handler returns; a forwarded request answers with
      the default 200 around the extraction's result. */
  function Status(d: Decision): nat {
    match d
    case Reply(status, _) => status
    case ServerError(_) => 500
    case Forward(_, _) => 200
  }

  const AllowedExtensions: seq<string> := ["pdf", "docx", "doc", "txt"]

  const Bucket: string := "truthtalent"

  /** `object.key` when `object` is undefined. */
  const NoObject: string := "Cannot read properties of undefined (reading 'key')"

  /** `fileUrl.split('.')` when `object.key` is undefined. */
  const NoKey: string := "Cannot read properties of undefined (reading 'split')"

  /** The handler up to the forward call. */
  function Gate(req: Request): (r: Decision)
    ensures r.Forward? ==> Extension(r.fileUrl) in AllowedExtensions
    ensures r.Forward? ==> req.body.Success? && req.body.value.bucket == Some(Bucket)
    ensures Status(r) == 403 <==> req.trigger != Some("true")
  {
    if req.trigger != Some("true") then Reply(403, "Unauthorized")
    else match req.body
      case Failure(message) => ServerError(message)
      case Success(payload) =>
        if payload.bucket != Some(Bucket) then Reply(400, "Wrong bucket")
        else match payload.storageObject
          case None => ServerError(NoObject)
          case Some(obj) => match obj.key
            case None => ServerError(NoKey)
            case Some(fileUrl) =>
              if Extension(fileUrl) !in AllowedExtensions then Reply(400, "Unsupported file type")
              else Forward(fileUrl, obj.owner)
  }

  /** The bucket check passes and the object has a key. */
  predicate KeyInBucket(req: Request, key: string) {
    && req.body.Success?
    && req.body.value.bucket == Some(Bucket)
    && req.body.value.storageObject.Some?
    && req.body.value.storageObject.value.key == Some(key)
  }

  /** The checks in their order: a bad trigger header gives 403, then a wrong bucket 400
      `Wrong bucket`, then an extension outside the allow-list 400 `Unsupported file
      type`; a request is forwarded, with its key as the file address, exactly when all
      three pass. */
  lemma GateDecisions(req: Request)
    ensures var r := Gate(req);
      && (r == Reply(400, "Wrong bucket") <==>
            req.trigger == Some("true") && req.body.Success? && req.body.value.bucket != Some(Bucket))
      && (r == Reply(400, "Unsupported file type") <==>
            req.trigger == Some("true") && exists key :: KeyInBucket(req, key) && Extension(key) !in AllowedExtensions)
      && (r.Forward? <==>
            req.trigger == Some("true") && exists key :: KeyInBucket(req, key) && Extension(key) in AllowedExtensions)
      && (r.Forward? ==> KeyInBucket(req, r.fileUrl))
  {
    var r := Gate(req);
    if r.Forward? {
      assert KeyInBucket(req, r.fileUrl);
    }
    if r == Reply(400, "Unsupported file type") {
      var key := req.body.value.storageObject.value.key.value;
      assert KeyInBucket(req, key);
    }
  }

  /** The body is not read before the trigger check: a request without the header gets
      the same answer whatever its body. */
  lemma TriggerCheckedFirst(trigger: Option<string>, body1: Result<Payload>, body2: Result<Payload>)
    requires trigger != Some("true")
    ensures Gate(Request(trigger, body1)) == Gate(Request(trigger, body2)) == Reply(403, "Unauthorized")
  {
  }

  /** The allow-list read on the path: a key passes exactly when, lower-cased, it ends in
      `.pdf`, `.docx`, `.doc` or `.txt` or is one of those words. */
  lemma AllowedExtensionCases(key: string)
    ensures var lower := LowerString(key);
      Extension(key) in AllowedExtensions <==>
        EndsWithPiece(lower, '.', "pdf") || EndsWithPiece(lower, '.', "docx")
        || EndsWithPiece(lower, '.', "doc") || EndsWithPiece(lower, '.', "txt")
  {
    var lower := LowerString(key);
    ExtensionOfLowered(key);
    AfterLastIs(lower, '.', "pdf");
    AfterLastIs(lower, '.', "docx");
    AfterLastIs(lower, '.', "doc");
    AfterLastIs(lower, '.', "txt");
  }
}
