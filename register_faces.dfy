/**
 * controller/regisImageController.js: registering a face (detector run, two image copies, one
 * row holding the tagged embeddings), the two face listings, deleting a registration, and the
 * registration statistics.
 */
module RegisterFaces {
  import opened Wrappers
  import opened Seqs
  import opened Text
  import opened Json
  import opened Http
  import opened Schema
  import opened Disk
  import opened DataUrl
  import opened UploadPaths
  import opened DetectorOutput

  /** `path.join(__dirname, 'temp_image.jpg')`: the one file every detection overwrites. */
  const TempFile := "controller/temp_image.jpg"

  /** The detector subprocess: given the image bytes, its stdout and the files it wrote. */
  type Detector = Bytes -> (string, map<string, Bytes>)

  /** A value thrown or rejected: an Error object, or a bare string as detectFaceAndProcess rejects with. */
  datatype Thrown = ErrorObject(message: string) | StringValue(text: string)

  /** The outer catch of createRegisterFace: `error.message` is undefined unless an Error was thrown. */
  function CatchReply<T>(thrown: Thrown): (r: Reply<T>)
    ensures r.Failure? && r.status == 500 && r.message == "Internal Server Error"
    ensures r.error.Some? <==> thrown.ErrorObject?
  {
    Failure(500, "Internal Server Error", if thrown.ErrorObject? then Some(thrown.message) else None)
  }

  /** How detectFaceAndProcess rejects: with the bare reason string. */
  function Rejection(reason: string): (t: Thrown)
    ensures !t.ErrorObject?
  {
    StringValue(reason)
  }

  /** The rejection as evidently intended, so that the catch can report the reason. */
  function RejectionIntended(reason: string): (t: Thrown)
    ensures t.ErrorObject? && t.message == reason
  {
    ErrorObject(reason)
  }

  /** As written, a detector failure reaches the client without its reason. */
  lemma RejectionLosesReason<T>(reason: string)
    ensures CatchReply<T>(Rejection(reason)) == Failure(500, "Internal Server Error", None)
  {
  }

  /** Rejecting with an Error carries the reason into the answer. */
  lemma RejectionIntendedKeepsReason<T>(reason: string)
    ensures CatchReply<T>(RejectionIntended(reason)).error == Some(reason)
  {
  }

  /** `JSON.stringify([[account_id], embedding])`'s value: the embedding tagged with its account. */
  function Tagged(accountId: int, embedding: Json): Json {
    JArr([JArr([JNum(accountId, 0)]), embedding])
  }

  /** A stored vector parses back to the tagged embedding, and different accounts or embeddings give different text. */
  lemma TaggedRoundTrip(codec: Codec, accountId: int, embedding: Json, accountId': int, embedding': Json)
    requires Lawful(codec)
    ensures codec.parse(codec.stringify(Tagged(accountId, embedding))) == Some(Tagged(accountId, embedding))
    ensures (accountId, embedding) != (accountId', embedding') ==>
      codec.stringify(Tagged(accountId, embedding)) != codec.stringify(Tagged(accountId', embedding'))
  {
    assert codec.parse(codec.stringify(Tagged(accountId', embedding'))) == Some(Tagged(accountId', embedding'));
  }

  /** The files once the uploaded image is in the temp file and the detector has written its outputs. */
  function AfterDetection(files: map<string, Bytes>, image: Bytes, detector: Detector): map<string, Bytes> {
    files[TempFile := image] + detector(image).1
  }

  /** The body of the 201 answer, which is also the row inserted. */
  datatype Registration = Registration(faceImage: string, faceImageProcess: string, accountId: int,
                                       imageVector: string, imageVectorProcess: string)

  /**
   * createRegisterFace. The image, its header stripped, is decoded into the temp file and given
   * to the detector; the detected original and processed images are copied to
   * `uploads/<account_id>/<uuid>.jpg` and `process/<account_id>/processed_<uuid>.jpg`, and one row
   * stores both URLs and both embeddings tagged with the account.
   */
  method CreateRegisterFace(db: Database, fs: FileSystem, base64Image: Option<string>, accountId: Option<int>,
                            env: Option<string>, decode: string -> Bytes, detector: Detector, codec: Codec,
                            uuid1: string, uuid2: string)
    returns (r: Reply<Registration>)
    requires db.Valid()
    modifies db`faces, db`faceSeq, fs
    ensures db.Valid()
    ensures !Given(base64Image) || !GivenNumber(accountId) ==>
      r == Fail(400, "Base64 image and account_id are required!") && fs.files == old(fs.files) && db.faces == old(db.faces)
    ensures r.Success? || db.faces == old(db.faces)
    ensures Given(base64Image) && GivenNumber(accountId) ==>
      var image := decode(StripHeader(base64Image.value));
      var settled := Interpret(detector(image).0, codec);
      var files := AfterDetection(old(fs.files), image, detector);
      var dir := DecimalText(accountId.value);
      && (settled.Thrown? ==> r.Crash?)
      && (settled.Rejected? ==> r == CatchReply(Rejection(settled.reason)) && fs.files == files)
      && (settled.Resolved? && (settled.detection.originalPath == "" || settled.detection.processedPath == "") ==>
            r == Fail(400, "Face not detected in the image!") && fs.files == files)
      && (settled.Resolved? && settled.detection.originalPath != "" && settled.detection.processedPath != "" ==>
            var d := settled.detection;
            if d.originalPath !in files then
              r == Fail(500, "Failed to save image files") && fs.files == files
            else
              var copied := files[UploadFile(dir, OriginalName(uuid1)) := files[d.originalPath]];
              if d.processedPath !in copied then
                r == Fail(500, "Failed to save image files") && fs.files == copied
              else
                var row := Registration(UploadUrl(env, dir, OriginalName(uuid1)), ProcessUrl(env, dir, ProcessedName(uuid2)),
                                        accountId.value,
                                        codec.stringify(Tagged(accountId.value, d.originalEmbedding)),
                                        codec.stringify(Tagged(accountId.value, d.processedEmbedding)));
                && fs.files == copied[ProcessFile(dir, ProcessedName(uuid2)) := copied[d.processedPath]]
                && (HasAccount(db.accounts, accountId.value) ==>
                      && r == Success(201, row)
                      && db.faces == old(db.faces) + [Face(db.faceSeq, row.faceImage, row.accountId, row.imageVector,
                                                           row.imageVectorProcess, row.faceImageProcess)])
                && (!HasAccount(db.accounts, accountId.value) ==> r == Fail(500, "Internal Server Error")))
  {
    if !Given(base64Image) || !GivenNumber(accountId) {
      return Fail(400, "Base64 image and account_id are required!");
    }
    var image := decode(StripHeader(base64Image.value));
    fs.Write(TempFile, image);
    var (stdout, written) := detector(image);
    fs.WriteAll(written);
    var settled := Interpret(stdout, codec);
    if settled.Thrown? {
      return Crash;
    }
    if settled.Rejected? {
      return CatchReply(Rejection(settled.reason));
    }
    var d := settled.detection;
    if d.originalPath == "" || d.processedPath == "" {
      return Fail(400, "Face not detected in the image!");
    }
    var dir := DecimalText(accountId.value);
    var originalName := OriginalName(uuid1);
    var processedName := ProcessedName(uuid2);
    var originalUrl := UploadUrl(env, dir, originalName);
    var processedUrl := ProcessUrl(env, dir, processedName);
    if d.originalPath !in fs.files {
      return Fail(500, "Failed to save image files");
    }
    fs.Write(UploadFile(dir, originalName), fs.files[d.originalPath]);
    if d.processedPath !in fs.files {
      return Fail(500, "Failed to save image files");
    }
    fs.Write(ProcessFile(dir, processedName), fs.files[d.processedPath]);
    var originalVector := codec.stringify(Tagged(accountId.value, d.originalEmbedding));
    var processedVector := codec.stringify(Tagged(accountId.value, d.processedEmbedding));
    var id := db.InsertFace(originalUrl, processedUrl, accountId.value, originalVector, processedVector);
    if id.None? {
      return Fail(500, "Internal Server Error");
    }
    r := Success(201, Registration(originalUrl, processedUrl, accountId.value, originalVector, processedVector));
  }

  /** A registered face as the lookup by account answers it: both vectors parsed. */
  datatype FaceView = FaceView(id: int, faceImageUrl: string, imageVector: Json,
                               faceImageProcessUrl: string, imageVectorProcess: Json)

  /** The map/filter of getImageByID: a row whose vectors do not both parse is dropped, the others keep their order. */
  function Views(rows: seq<Face>, codec: Codec): (r: seq<FaceView>)
    ensures |r| <= |rows|
  {
    if rows == [] then []
    else
      var f := rows[0];
      var o := codec.parse(f.imageVector);
      var p := codec.parse(f.imageVectorProcess);
      var head := if o.Some? && p.Some? then [FaceView(f.id, f.faceImage, o.value, f.faceImageProcess, p.value)] else [];
      head + Views(rows[1..], codec)
  }

  /** Dropping is row by row: the views of two runs of rows are the views of each, in order. */
  lemma {:induction false} ViewsAppend(a: seq<Face>, b: seq<Face>, codec: Codec)
    ensures Views(a + b, codec) == Views(a, codec) + Views(b, codec)
  {
    if a == [] {
      assert a + b == b;
    } else {
      assert (a + b)[0] == a[0];
      assert (a + b)[1..] == a[1..] + b;
      ViewsAppend(a[1..], b, codec);
    }
  }

  /** A row one of whose vectors does not parse is dropped. */
  lemma ViewsDropUnparsable(f: Face, codec: Codec)
    requires codec.parse(f.imageVector).None? || codec.parse(f.imageVectorProcess).None?
    ensures Views([f], codec) == []
  {
  }

  /** A row whose vectors both parse is shown with the parsed values. */
  lemma ViewsShowParsed(f: Face, codec: Codec)
    requires codec.parse(f.imageVector).Some? && codec.parse(f.imageVectorProcess).Some?
    ensures Views([f], codec) == [FaceView(f.id, f.faceImage, codec.parse(f.imageVector).value,
                                           f.faceImageProcess, codec.parse(f.imageVectorProcess).value)]
  {
  }

  /** Rows whose vectors were written by the codec are never dropped. */
  lemma {:induction false} ViewsKeepParsable(rows: seq<Face>, codec: Codec)
    requires forall k :: 0 <= k < |rows| ==>
      codec.parse(rows[k].imageVector).Some? && codec.parse(rows[k].imageVectorProcess).Some?
    ensures |Views(rows, codec)| == |rows|
  {
    if rows != [] {
      ViewsKeepParsable(rows[1..], codec);
    }
  }

  /**
   * The lookup of getImageByID once it has the account id text: 400 when there is none, 404
   * when no row has that account, otherwise the parsable rows. SQLite compares the text with
   * the integer column by its numeric value.
   */
  function FacesByAccount(faces: seq<Face>, accountId: Option<string>, codec: Codec): (r: Reply<seq<FaceView>>)
    ensures !Given(accountId) <==> r == Fail(400, "Account ID is required")
    ensures Given(accountId) && DecimalValue(accountId.value).None? ==> r == Fail(404, "No data found for the given account ID")
    ensures Given(accountId) && DecimalValue(accountId.value).Some? ==>
      var rows := FacesOf(faces, DecimalValue(accountId.value).value);
      if rows == [] then r == Fail(404, "No data found for the given account ID")
      else r == Success(200, Views(rows, codec))
  {
    if !Given(accountId) then Fail(400, "Account ID is required")
    else
      var wanted := DecimalValue(accountId.value);
      var rows := if wanted.Some? then FacesOf(faces, wanted.value) else [];
      if rows == [] then Fail(404, "No data found for the given account ID")
      else Success(200, Views(rows, codec))
  }

  /** getImageByID as written: it reads `req.params.accountId`. */
  function GetImageById(faces: seq<Face>, params: map<string, string>, codec: Codec): (r: Reply<seq<FaceView>>)
    ensures ("accountId" !in params || params["accountId"] == "") <==> r == Fail(400, "Account ID is required")
    ensures r.Success? ==>
      DecimalValue(params["accountId"]).Some? && r.payload == Views(FacesOf(faces, DecimalValue(params["accountId"]).value), codec)
  {
    FacesByAccount(faces, if "accountId" in params then Some(params["accountId"]) else None, codec)
  }

  /** getImageByID reading the parameter its route declares, `:memberId`. */
  function GetImageByIdIntended(faces: seq<Face>, params: map<string, string>, codec: Codec): (r: Reply<seq<FaceView>>)
    ensures ("memberId" !in params || params["memberId"] == "") <==> r == Fail(400, "Account ID is required")
    ensures r.Success? ==>
      DecimalValue(params["memberId"]).Some? && r.payload == Views(FacesOf(faces, DecimalValue(params["memberId"]).value), codec)
  {
    FacesByAccount(faces, if "memberId" in params then Some(params["memberId"]) else None, codec)
  }

  /** Routed as `/:memberId`, the handler as written answers 400 to every request. */
  lemma RoutedLookupAlwaysRefused(faces: seq<Face>, memberId: string, codec: Codec)
    ensures GetImageById(faces, map["memberId" := memberId], codec) == Fail(400, "Account ID is required")
  {
    assert "accountId" != "memberId";
  }

  /**
   * Reading `:memberId`, a face just registered is listed for its account, with the tagged
   * embeddings it was stored with.
   */
  lemma RegisteredFaceIsListed(faces: seq<Face>, face: Face, codec: Codec, original: Json, processed: Json)
    requires Lawful(codec)
    requires face.imageVector == codec.stringify(Tagged(face.accountId, original))
    requires face.imageVectorProcess == codec.stringify(Tagged(face.accountId, processed))
    ensures var r := GetImageByIdIntended(faces + [face], map["memberId" := DecimalText(face.accountId)], codec);
      && r.Success? && |r.payload| > 0
      && FaceView(face.id, face.faceImage, Tagged(face.accountId, original), face.faceImageProcess,
                  Tagged(face.accountId, processed)) == r.payload[|r.payload| - 1]
  {
    TaggedRoundTrip(codec, face.accountId, original, face.accountId, original);
    TaggedRoundTrip(codec, face.accountId, processed, face.accountId, processed);
    ViewsShowParsed(face, codec);
    ListedAfter(faces, face, codec);
    assert map["memberId" := DecimalText(face.accountId)]["memberId"] == DecimalText(face.accountId);
  }

  /** The lookup by a face's own account id ends with the views of that face. */
  lemma ListedAfter(faces: seq<Face>, face: Face, codec: Codec)
    ensures FacesByAccount(faces + [face], Some(DecimalText(face.accountId)), codec)
            == Success(200, Views(FacesOf(faces, face.accountId), codec) + Views([face], codec))
  {
    DecimalRoundTrip(face.accountId);
    var p := (f: Face) => f.accountId == face.accountId;
    FilterAppend(faces, [face], p);
    assert Filter([face], p) == [face];
    var rows := FacesOf(faces + [face], face.accountId);
    assert rows == FacesOf(faces, face.accountId) + [face];
    ViewsAppend(FacesOf(faces, face.accountId), [face], codec);
  }

  /** A row of getAllDataWithUsername. */
  datatype FaceListing = FaceListing(id: int, accountId: int, username: Option<string>, faceImageUrl: string,
                                     imageVector: Json, faceImageProcessUrl: string, imageVectorProcess: Json)

  /** A vector column as the listing reads it: null when empty or unparsable. */
  function ParseOrNull(text: string, codec: Codec): (v: Json)
    ensures text != "" && codec.parse(text).Some? ==> v == codec.parse(text).value
    ensures text == "" || codec.parse(text).None? ==> v == JNull
  {
    if text != "" then codec.parse(text).GetOr(JNull) else JNull
  }

  /** One row of the LEFT JOIN: the face, and its owner's username when the owner exists. */
  function Listing(accounts: seq<Account>, f: Face, codec: Codec): (row: FaceListing)
    ensures row.username.None? <==> !HasAccount(accounts, f.accountId)
    ensures row.username.Some? ==> exists a :: a in accounts && a.id == f.accountId && a.username == row.username.value
  {
    var owner := AccountWithId(accounts, f.accountId);
    FaceListing(f.id, f.accountId, if owner.Some? then Some(owner.value.username) else None, f.faceImage,
                ParseOrNull(f.imageVector, codec), f.faceImageProcess, ParseOrNull(f.imageVectorProcess, codec))
  }

  /**
   * getAllDataWithUsername: every face with its owner's username (LEFT JOIN), 404 when there is
   * no face at all.
   */
  function GetAllDataWithUsername(accounts: seq<Account>, faces: seq<Face>, codec: Codec): (r: Reply<seq<FaceListing>>)
    ensures faces == [] <==> r == Fail(404, "No data found in the database")
    ensures r.Success? ==> r.status == 200 && |r.payload| == |faces|
    ensures r.Success? ==> forall k :: 0 <= k < |faces| ==>
      && r.payload[k].id == faces[k].id && r.payload[k].accountId == faces[k].accountId
      && r.payload[k].faceImageUrl == faces[k].faceImage
      && r.payload[k].faceImageProcessUrl == faces[k].faceImageProcess
      && r.payload[k].imageVector == ParseOrNull(faces[k].imageVector, codec)
      && r.payload[k].imageVectorProcess == ParseOrNull(faces[k].imageVectorProcess, codec)
    ensures r.Success? ==> forall k :: 0 <= k < |faces| ==>
      && (r.payload[k].username.None? <==> !HasAccount(accounts, faces[k].accountId))
      && (r.payload[k].username.Some? ==>
            exists a :: a in accounts && a.id == faces[k].accountId && a.username == r.payload[k].username.value)
    ensures r.Success? && FacesOwned(accounts, faces) ==> forall k :: 0 <= k < |faces| ==> r.payload[k].username.Some?
  {
    if faces == [] then Fail(404, "No data found in the database")
    else
      var rows := seq(|faces|, k requires 0 <= k < |faces| => Listing(accounts, faces[k], codec));
      assert FacesOwned(accounts, faces) ==> forall k :: 0 <= k < |faces| ==> rows[k].username.Some? by {
        if FacesOwned(accounts, faces) {
          forall k | 0 <= k < |faces| ensures rows[k].username.Some? {
            assert faces[k] in faces;
          }
        }
      }
      Success(200, rows)
  }

  /**
   * deleteRegisterFace: 404 for an unknown id; otherwise the original image the row's URL names
   * is unlinked when it exists, and the row is deleted whether or not the unlink succeeds.
   * The processed copy is left on disk.
   */
  method DeleteRegisterFace(db: Database, fs: FileSystem, id: string, unlinkOk: bool) returns (r: Reply<string>)
    requires db.Valid()
    modifies db`faces, fs
    ensures db.Valid()
    ensures id == "" ==> r == Fail(400, "ID is required!")
    ensures r.Success? || (db.faces == old(db.faces) && fs.files == old(fs.files))
    ensures id != "" && (DecimalValue(id).None? || FaceWithId(old(db.faces), DecimalValue(id).value).None?) ==>
      r == Fail(404, "Face registration not found")
    ensures id != "" && DecimalValue(id).Some? && FaceWithId(old(db.faces), DecimalValue(id).value).Some? ==>
      var file := UploadFileOfUrl(FaceWithId(old(db.faces), DecimalValue(id).value).value.faceImage);
      && r == Success(200, "Face registration and image deleted successfully")
      && db.faces == Filter(old(db.faces), (f: Face) => f.id != DecimalValue(id).value)
      && fs.files == (if file in old(fs.files) && unlinkOk then old(fs.files) - {file} else old(fs.files))
  {
    if id == "" {
      return Fail(400, "ID is required!");
    }
    var key := DecimalValue(id);
    if key.None? {
      return Fail(404, "Face registration not found");
    }
    var row := FaceWithId(db.faces, key.value);
    if row.None? {
      return Fail(404, "Face registration not found");
    }
    var file := UploadFileOfUrl(row.value.faceImage);
    if file in fs.files {
      fs.Unlink(file, unlinkOk);
    }
    db.DeleteFace(key.value);
    r := Success(200, "Face registration and image deleted successfully");
  }

  /** Deleting a registration never removes a processed image. */
  lemma DeleteKeepsProcessedImages(face: Face, dir: string, name: string)
    ensures UploadFileOfUrl(face.faceImage) != ProcessFile(dir, name)
  {
    UploadIsNotProcessFile(SegmentText(SecondToLastSegment(face.faceImage)), Basename(face.faceImage), dir, name);
  }

  /** The body of the registration statistics answer. */
  datatype FaceStatistics = FaceStatistics(registeredCount: nat, notRegisteredCount: nat)

  /**
   * getFaceRegistrationStats: the distinct accounts joined with a face, and the accounts with no
   * face. Together they count every account once.
   */
  function FaceRegistrationStats(accounts: seq<Account>, faces: seq<Face>): (r: Reply<FaceStatistics>)
    ensures r.Success? && r.status == 200
    ensures r.payload.notRegisteredCount == |AccountsWithoutFaces(accounts, faces)|
    ensures DistinctKeys(accounts, AccountKey) ==>
      && r.payload.registeredCount == |AccountsWithFaces(accounts, faces)|
      && r.payload.registeredCount + r.payload.notRegisteredCount == |accounts|
  {
    var registered := JoinedOwners(accounts, faces, AccountKey);
    assert DistinctKeys(accounts, AccountKey) ==> |registered| == |AccountsWithFaces(accounts, faces)| by {
      if DistinctKeys(accounts, AccountKey) {
        JoinedOwnersCount(accounts, faces, AccountKey);
      }
    }
    FilterPartition(accounts, (a: Account) => FacesOf(faces, a.id) != [], (a: Account) => FacesOf(faces, a.id) == []);
    Success(200, FaceStatistics(|registered|, |AccountsWithoutFaces(accounts, faces)|))
  }

  /** In a valid store the two statistics always add up to the number of accounts. */
  lemma StatisticsCoverAccounts(db: Database)
    requires db.Valid()
    ensures var s := FaceRegistrationStats(db.accounts, db.faces).payload;
      s.registeredCount + s.notRegisteredCount == |db.accounts|
  {
    AscendingIdsDistinct(db.accounts);
  }
}
