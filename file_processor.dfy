/**
 * The upload handler (src/fileProcessorLambda.ts): validate an API Gateway
 * request carrying a base64 file, then store the file in S3, index it in
 * DynamoDB and announce it on SNS, in that order, answering 200, 400 or 500.
 *
 * What the handler obtains from the Node runtime (the decoded body, the
 * clock and the random token) is passed in as a `Runtime` value.
 */
module FileProcessor {
  import opened Wrappers
  import opened Text
  import opened Aws

  const AllowedExtensions: seq<string> := [".pdf", ".jpg", ".png"]

  const ExtensionMap: map<string, string> :=
    map["application/pdf" := ".pdf", "image/jpeg" := ".jpg", "image/png" := ".png"]

  const InvalidEncoding := "Invalid file or encoding. Ensure the file is sent as base64."
  const MissingContentType := "Content-Type header is required."
  const UploadSucceeded := "File uploaded successfully!"
  const UploadFailed := "Failed to upload file"

  function Unsupported(contentType: string): string {
    "Unsupported file type: " + contentType
  }

  /** The parts of the API Gateway event the handler reads. */
  datatype Request = Request(body: Option<string>, isBase64Encoded: bool, headers: map<string, string>)

  /**
   * Values the handler draws from its runtime: the bytes `Buffer.from(body, "base64")`
   * yields, `Date.now()`, the random token and the ISO date read after the upload.
   */
  datatype Runtime = Runtime(decoded: seq<Byte>, now: nat, token: string, uploadDate: string)

  /** A response: status code, the `message` of its JSON body and, on success, its `fileKey`. */
  datatype Response = Response(statusCode: int, message: string, fileKey: Option<string>)

  /** What one invocation answers and the collaborator calls it made, in order. */
  datatype Invocation = Invocation(response: Response, calls: seq<Call>)

  /** A JavaScript string value that is neither undefined nor empty. */
  predicate Truthy(s: Option<string>) {
    s.Some? && s.value != ""
  }

  function Header(headers: map<string, string>, name: string): Option<string> {
    if name in headers then Some(headers[name]) else None
  }

  /** `headers["content-type"] || headers["Content-Type"]`, with an unusable result as None. */
  function ContentTypeOf(headers: map<string, string>): (ct: Option<string>)
    ensures ct.None? <==> !Truthy(Header(headers, "content-type")) && !Truthy(Header(headers, "Content-Type"))
    ensures Truthy(Header(headers, "content-type")) ==> ct == Header(headers, "content-type")
    ensures !Truthy(Header(headers, "content-type")) ==> ct.None? || ct == Header(headers, "Content-Type")
    ensures ct.Some? ==> ct.value != ""
  {
    var lower := Header(headers, "content-type");
    if Truthy(lower) then lower
    else
      var upper := Header(headers, "Content-Type");
      if Truthy(upper) then upper else None
  }

  /**
   * The extension for a content type: it must be a key of `ExtensionMap`
   * and its extension must be in `allowed`.
   */
  function ResolveExtension(contentType: string, allowed: seq<string>): (ext: Option<string>)
    ensures ext.Some? ==> contentType in ExtensionMap && ext.value == ExtensionMap[contentType]
    ensures ext.Some? ==> ext.value in allowed
    ensures contentType in ExtensionMap && ExtensionMap[contentType] in allowed ==> ext == Some(ExtensionMap[contentType])
  {
    if contentType in ExtensionMap && ExtensionMap[contentType] in allowed
    then Some(ExtensionMap[contentType])
    else None
  }

  /** Exactly the three mapped content types are accepted, each with its own extension. */
  lemma SupportedContentTypes(contentType: string)
    ensures ResolveExtension(contentType, AllowedExtensions).Some?
        <==> contentType == "application/pdf" || contentType == "image/jpeg" || contentType == "image/png"
    ensures contentType == "application/pdf" ==> ResolveExtension(contentType, AllowedExtensions) == Some(".pdf")
    ensures contentType == "image/jpeg" ==> ResolveExtension(contentType, AllowedExtensions) == Some(".jpg")
    ensures contentType == "image/png" ==> ResolveExtension(contentType, AllowedExtensions) == Some(".png")
  {
  }

  /** Being a key of the map is not enough: an extension missing from the allow-list is refused. */
  lemma AllowListStillApplies(contentType: string, allowed: seq<string>)
    requires contentType in ExtensionMap && ExtensionMap[contentType] !in allowed
    ensures ResolveExtension(contentType, allowed) == None
  {
  }

  /** Everything up to the first underscore. */
  function BeforeUnderscore(s: string): (p: string)
    ensures p <= s && '_' !in p
    decreases |s|
  {
    if s == [] || s[0] == '_' then [] else [s[0]] + BeforeUnderscore(s[1..])
  }

  lemma {:induction false} BeforeUnderscoreOfDigits(digits: string, rest: string)
    requires IsDigits(digits)
    ensures BeforeUnderscore(digits + "_" + rest) == digits
    decreases |digits|
  {
    var s := digits + "_" + rest;
    if digits == [] {
      assert s[0] == '_';
    } else {
      assert s[0] == digits[0];
      assert s[1..] == digits[1..] + "_" + rest;
      BeforeUnderscoreOfDigits(digits[1..], rest);
    }
  }

  /** The millisecond timestamp a storage key starts with, if it starts with one. */
  function KeyTimestamp(key: string): Option<nat> {
    var prefix := BeforeUnderscore(key);
    if prefix != [] && IsDigits(prefix) then Some(Value(prefix)) else None
  }

  /**
   * The storage key `${Date.now()}_${token}${extension}`: it records the time
   * it was made and ends with the extension, whatever the token.
   */
  function FileKey(now: nat, token: string, extension: string): (key: string)
    ensures EndsWith(key, extension)
    ensures KeyTimestamp(key) == Some(now)
  {
    var key := Show(now) + "_" + token + extension;
    assert key == Show(now) + "_" + (token + extension);
    BeforeUnderscoreOfDigits(Show(now), token + extension);
    ValueOfShow(now);
    key
  }

  /**
   * For one extension, the key determines both the time and the token it was
   * made from: two uploads collide only when both were drawn alike.
   */
  lemma FileKeyInjective(now1: nat, token1: string, now2: nat, token2: string, extension: string)
    requires FileKey(now1, token1, extension) == FileKey(now2, token2, extension)
    ensures now1 == now2 && token1 == token2
  {
    assert Some(now1) == KeyTimestamp(FileKey(now1, token1, extension));
    var key := FileKey(now1, token1, extension);
    var start := |Show(now1)| + 1;
    assert key == Show(now1) + "_" + token1 + extension;
    assert key == Show(now2) + "_" + token2 + extension;
    assert key[start..|key| - |extension|] == token1;
    assert key[start..|key| - |extension|] == token2;
  }

  /** The SNS message announcing a stored file, one line per field. */
  function NotificationMessage(item: FileItem): string {
    "File uploaded:\n" + ("Key: " + item.fileKey)
      + "\n" + ("Extension: " + item.fileExtension)
      + "\n" + ("Size: " + Show(item.fileSize) + " bytes")
      + "\n" + ("Upload Date: " + item.uploadDate)
  }

  /** The message names the item's key, extension, size in bytes and upload date. */
  lemma MessageMentionsItem(item: FileItem)
    ensures IsInfix("Key: " + item.fileKey, NotificationMessage(item))
    ensures IsInfix("Extension: " + item.fileExtension, NotificationMessage(item))
    ensures IsInfix("Size: " + Show(item.fileSize) + " bytes", NotificationMessage(item))
    ensures IsInfix("Upload Date: " + item.uploadDate, NotificationMessage(item))
  {
    var key := "Key: " + item.fileKey;
    var ext := "Extension: " + item.fileExtension;
    var size := "Size: " + Show(item.fileSize) + " bytes";
    var date := "Upload Date: " + item.uploadDate;
    var m1 := "File uploaded:\n" + key;
    var m2 := m1 + "\n" + ext;
    var m3 := m2 + "\n" + size;
    var m4 := m3 + "\n" + date;
    assert m4 == NotificationMessage(item);
    InfixOfSuffix("File uploaded:\n", key);
    InfixOfLonger(key, m1, "\n" + ext);
    assert m1 + ("\n" + ext) == m2;
    InfixOfLonger(key, m2, "\n" + size);
    assert m2 + ("\n" + size) == m3;
    InfixOfLonger(key, m3, "\n" + date);
    assert m3 + ("\n" + date) == m4;
    InfixOfSuffix(m1 + "\n", ext);
    InfixOfLonger(ext, m2, "\n" + size);
    InfixOfLonger(ext, m3, "\n" + date);
    InfixOfSuffix(m2 + "\n", size);
    InfixOfLonger(size, m3, "\n" + date);
    InfixOfSuffix(m3 + "\n", date);
  }

  /** The outcome of the checks made before any collaborator is called. */
  datatype Verdict = Rejected(response: Response) | Accepted(contentType: string, extension: string)

  /** The request checks, in the handler's order: body and encoding, then Content-Type, then the type itself. */
  function Validate(req: Request): (v: Verdict)
    ensures v.Accepted? <==>
      Truthy(req.body) && req.isBase64Encoded && ContentTypeOf(req.headers).Some?
      && ContentTypeOf(req.headers).value in ExtensionMap
    ensures v.Accepted? ==>
      ContentTypeOf(req.headers) == Some(v.contentType)
      && v.extension == ExtensionMap[v.contentType] && v.extension in AllowedExtensions
    ensures v.Rejected? ==> v.response.statusCode == 400 && v.response.fileKey == None
  {
    if !Truthy(req.body) || !req.isBase64Encoded then
      Rejected(Response(400, InvalidEncoding, None))
    else
      match ContentTypeOf(req.headers)
      case None => Rejected(Response(400, MissingContentType, None))
      case Some(contentType) =>
        match ResolveExtension(contentType, AllowedExtensions)
        case None => Rejected(Response(400, Unsupported(contentType), None))
        case Some(extension) => Accepted(contentType, extension)
  }

  /** The item indexed for an accepted upload. */
  function ItemFor(contentType: string, extension: string, rt: Runtime): FileItem {
    FileItem(FileKey(rt.now, rt.token, extension), extension, |rt.decoded|, contentType, rt.uploadDate)
  }

  /** The three calls an accepted upload makes when nothing fails: store, index, announce. */
  function Plan(cfg: Config, contentType: string, extension: string, rt: Runtime): seq<Call> {
    var item := ItemFor(contentType, extension, rt);
    [ PutObject(cfg.bucket, item.fileKey, rt.decoded, contentType),
      PutItem(cfg.table, item),
      Publish(cfg.topicArn, NotificationMessage(item)) ]
  }

  predicate AllSucceed(calls: seq<Call>, failing: set<Operation>) {
    forall i :: 0 <= i < |calls| ==> calls[i].Op() !in failing
  }

  /**
   * How many of `plan` are made when each is awaited in turn and the first
   * rejection aborts the rest: all of them, or up to and including the first
   * that fails.
   */
  function Attempted(plan: seq<Call>, failing: set<Operation>): (n: nat)
    ensures n <= |plan|
    ensures AllSucceed(plan, failing) <==> n == |plan| && (n == 0 || plan[n - 1].Op() !in failing)
    ensures n > 0 ==> AllSucceed(plan[..n - 1], failing)
    ensures !AllSucceed(plan, failing) ==> n > 0 && plan[n - 1].Op() in failing
    decreases |plan|
  {
    if plan == [] then 0
    else if plan[0].Op() in failing then 1
    else
      var rest := Attempted(plan[1..], failing);
      assert rest > 0 ==> plan[1..][..rest - 1] == plan[1..rest];
      1 + rest
  }

  /** One invocation of the upload handler, as the collaborators and the client observe it. */
  function Upload(cfg: Config, req: Request, rt: Runtime, failing: set<Operation>): (r: Invocation)
    ensures r.response.statusCode == 200 || r.response.statusCode == 400 || r.response.statusCode == 500
    ensures r.response.statusCode == 400 <==> Validate(req).Rejected?
    ensures Validate(req).Rejected? ==> r.calls == []
    ensures Validate(req).Accepted? ==>
      var plan := Plan(cfg, Validate(req).contentType, Validate(req).extension, rt);
      r.calls <= plan && r.calls != []
      && (r.response.statusCode == 200 <==> r.calls == plan && AllSucceed(plan, failing))
      && (r.response.statusCode == 500 ==> r.calls[|r.calls| - 1].Op() in failing)
    ensures r.response.fileKey.Some? <==> r.response.statusCode == 200
  {
    match Validate(req)
    case Rejected(response) => Invocation(response, [])
    case Accepted(contentType, extension) =>
      var plan := Plan(cfg, contentType, extension, rt);
      if AllSucceed(plan, failing) then
        Invocation(Response(200, UploadSucceeded, Some(FileKey(rt.now, rt.token, extension))), plan)
      else
        Invocation(Response(500, UploadFailed, None), plan[..Attempted(plan, failing)])
  }

  /** No body, an empty body or a body not flagged as base64: 400, and no collaborator is called. */
  lemma BadEncodingRejected(cfg: Config, req: Request, rt: Runtime, failing: set<Operation>)
    requires !Truthy(req.body) || !req.isBase64Encoded
    ensures Upload(cfg, req, rt, failing) == Invocation(Response(400, InvalidEncoding, None), [])
  {
  }

  /** A usable body but neither content-type header: 400, and no collaborator is called. */
  lemma MissingContentTypeRejected(cfg: Config, req: Request, rt: Runtime, failing: set<Operation>)
    requires Truthy(req.body) && req.isBase64Encoded
    requires !Truthy(Header(req.headers, "content-type")) && !Truthy(Header(req.headers, "Content-Type"))
    ensures Upload(cfg, req, rt, failing) == Invocation(Response(400, MissingContentType, None), [])
  {
  }

  /** Any other content type than the three supported ones: 400 naming it, and no collaborator is called. */
  lemma UnsupportedTypeRejected(cfg: Config, req: Request, rt: Runtime, failing: set<Operation>, contentType: string)
    requires Truthy(req.body) && req.isBase64Encoded
    requires ContentTypeOf(req.headers) == Some(contentType)
    requires contentType != "application/pdf" && contentType != "image/jpeg" && contentType != "image/png"
    ensures Upload(cfg, req, rt, failing) == Invocation(Response(400, Unsupported(contentType), None), [])
  {
  }

  /**
   * Once the file is stored, the indexed item describes it: its key, the
   * mapped extension, the decoded length, the declared type and the date
   * read after the upload.
   */
  lemma IndexedItemDescribesFile(cfg: Config, req: Request, rt: Runtime, failing: set<Operation>)
    requires Validate(req).Accepted?
    requires PutObjectOp !in failing
    ensures var r := Upload(cfg, req, rt, failing);
      var contentType := ContentTypeOf(req.headers).value;
      var extension := ExtensionMap[contentType];
      |r.calls| >= 2
      && r.calls[0].PutObject? && r.calls[0].body == rt.decoded && r.calls[0].contentType == contentType
      && r.calls[1] == PutItem(cfg.table, FileItem(r.calls[0].key, extension, |rt.decoded|, contentType, rt.uploadDate))
      && EndsWith(r.calls[0].key, extension)
      && KeyTimestamp(r.calls[0].key) == Some(rt.now)
  {
  }

  /** When all three calls succeed: 200 with the stored key, and the message announces the indexed item. */
  lemma SuccessfulUpload(cfg: Config, req: Request, rt: Runtime, failing: set<Operation>)
    requires Validate(req).Accepted?
    requires PutObjectOp !in failing && PutItemOp !in failing && PublishOp !in failing
    ensures var r := Upload(cfg, req, rt, failing);
      |r.calls| == 3 && r.calls[0].PutObject? && r.calls[1].PutItem? && r.calls[2].Publish?
      && r.response == Response(200, UploadSucceeded, Some(r.calls[0].key))
      && r.calls[1].item.fileKey == r.calls[0].key
      && r.calls[2].message == NotificationMessage(r.calls[1].item)
      && IsInfix("Size: " + Show(|rt.decoded|) + " bytes", r.calls[2].message)
  {
    var plan := Plan(cfg, Validate(req).contentType, Validate(req).extension, rt);
    assert AllSucceed(plan, failing);
    MessageMentionsItem(plan[1].item);
  }

  /**
   * A failing call answers 500 and ends the run: the calls already made stay
   * made (nothing is deleted), and the later ones are not attempted.
   */
  lemma FailureStopsPipeline(cfg: Config, req: Request, rt: Runtime, failing: set<Operation>)
    requires Validate(req).Accepted?
    ensures var r := Upload(cfg, req, rt, failing);
      (PutObjectOp in failing ==> |r.calls| == 1)
      && (PutObjectOp !in failing && PutItemOp in failing ==> |r.calls| == 2)
      && (PutObjectOp !in failing && PutItemOp !in failing && PublishOp in failing ==> |r.calls| == 3)
      && (PutObjectOp in failing || PutItemOp in failing || PublishOp in failing ==>
            r.response == Response(500, UploadFailed, None))
      && forall i :: 0 <= i < |r.calls| ==> !r.calls[i].DeleteObjects?
  {
    var plan := Plan(cfg, Validate(req).contentType, Validate(req).extension, rt);
    assert plan[0].Op() == PutObjectOp && plan[1].Op() == PutItemOp && plan[2].Op() == PublishOp;
    var n := Attempted(plan, failing);
    if PutObjectOp in failing {
      assert n == 1;
    } else if PutItemOp in failing {
      assert Attempted(plan[1..], failing) == 1;
    }
  }

  /** A 1024-byte PNG is stored under a ".png" key, indexed with that size, and announced as "1024 bytes". */
  lemma PngScenario(cfg: Config, body: string, rt: Runtime)
    requires body != "" && |rt.decoded| == 1024
    ensures var r := Upload(cfg, Request(Some(body), true, map["content-type" := "image/png"]), rt, {});
      r.response.statusCode == 200
      && |r.calls| == 3 && r.calls[1].PutItem?
      && r.calls[1].item.fileExtension == ".png" && r.calls[1].item.fileSize == 1024
      && r.response.fileKey.Some? && EndsWith(r.response.fileKey.value, ".png")
      && IsInfix("1024 bytes", r.calls[2].message)
  {
    var req := Request(Some(body), true, map["content-type" := "image/png"]);
    SuccessfulUpload(cfg, req, rt, {});
    var r := Upload(cfg, req, rt, {});
    assert Show(1024) == "1024";
    assert "Size: " + Show(1024) + " bytes" == "Size: " + "1024 bytes";
    InfixOfSuffix("Size: ", "1024 bytes");
    InfixWithin("1024 bytes", "Size: " + Show(1024) + " bytes", r.calls[2].message);
  }

  /** A text/plain upload is refused by name, with no collaborator called. */
  lemma PlainTextScenario(cfg: Config, body: string, rt: Runtime, failing: set<Operation>)
    requires body != ""
    ensures Upload(cfg, Request(Some(body), true, map["Content-Type" := "text/plain"]), rt, failing)
         == Invocation(Response(400, "Unsupported file type: text/plain", None), [])
  {
  }

  /**
   * The handler itself: early returns for a bad request, then three awaited
   * calls in a try block whose catch answers 500.
   */
  method Handle(env: Cloud, req: Request, rt: Runtime) returns (response: Response)
    modifies env
    ensures env.trace == old(env.trace) + Upload(env.config, req, rt, env.failing).calls
    ensures response == Upload(env.config, req, rt, env.failing).response
  {
    if !Truthy(req.body) || !req.isBase64Encoded {
      return Response(400, InvalidEncoding, None);
    }
    var fileBuffer := rt.decoded;
    var contentType := ContentTypeOf(req.headers);
    if contentType.None? {
      return Response(400, MissingContentType, None);
    }
    var extension := ResolveExtension(contentType.value, AllowedExtensions);
    if extension.None? {
      return Response(400, Unsupported(contentType.value), None);
    }
    ghost var plan := Plan(env.config, contentType.value, extension.value, rt);
    var fileKey := FileKey(rt.now, rt.token, extension.value);
    var ok := env.Send(PutObject(env.config.bucket, fileKey, fileBuffer, contentType.value));
    if !ok {
      assert Attempted(plan, env.failing) == 1;
      return Response(500, UploadFailed, None);
    }
    var size := |fileBuffer|;
    var item := FileItem(fileKey, extension.value, size, contentType.value, rt.uploadDate);
    ok := env.Send(PutItem(env.config.table, item));
    if !ok {
      assert Attempted(plan, env.failing) == 2;
      return Response(500, UploadFailed, None);
    }
    ok := env.Send(Publish(env.config.topicArn, NotificationMessage(item)));
    if !ok {
      assert Attempted(plan, env.failing) == 3;
      return Response(500, UploadFailed, None);
    }
    assert env.trace == old(env.trace) + plan;
    return Response(200, UploadSucceeded, Some(fileKey));
  }
}
