/** The `addCar` server action: the two caller checks, the image batch, the
    empty-result check and the record create, with every error re-thrown as
    `'Error adding car: ' + message`. The session lookup, the user lookup,
    the storage client, the id generator, the clock, the storage service and
    the database are inputs; each call that can throw on its own has an
    optional thrown value. */
module CarCreation {
  import opened Wrappers
  import opened ImageBatch

  datatype CarStatus = Available | Unavailable | Sold

  /** The form data passed through to the record unchanged. `seats`,
      `status` and `featured` are optional in the input type. */
  datatype CarDataInput = CarDataInput(
    make: string, model: string, year: int, price: real, mileage: int,
    color: string, fuelType: string, transmission: string, bodyType: string,
    seats: Option<int>, description: string,
    status: Option<CarStatus>, featured: Option<bool>)

  /** The `data` handed to `db.car.create`: the generated id, the form
      fields, and the uploaded image URLs. */
  datatype CarRow = CarRow(id: string, data: CarDataInput, images: seq<string>)

  /** What an awaited call throws, when it throws: an `Error` with a message,
      or some other value. */
  datatype Thrown = ErrorThrown(message: string) | OtherThrown

  /** Everything one call depends on. `authThrown` is what `auth()` throws,
      if it throws, and `userId` what it reports otherwise; `lookupThrown` is
      what `db.user.findUnique` throws and `users` the Clerk ids that have a
      user record; `clientThrown` is what `createClient(cookies())` throws;
      `carId` is what `uuidv4()` returns, `clock` the `Date.now()` reading of
      each loop iteration, `storage` the outcome of each upload, `baseUrl`
      the configured storage URL and `create` the failure of
      `db.car.create`, if it fails. */
  datatype AddCarRequest = AddCarRequest(
    authThrown: Option<Thrown>, userId: Option<string>,
    lookupThrown: Option<Thrown>, users: set<string>,
    clientThrown: Option<Thrown>, carId: string, carData: CarDataInput,
    images: seq<string>, clock: seq<nat>, storage: seq<UploadOutcome>, baseUrl: string,
    create: Option<Thrown>)
  {
    predicate WellFormed() {
      |clock| == |images| && |storage| == |images|
    }
  }

  datatype AddCarError =
    | CallThrew(thrown: Thrown)
    | Unauthorized
    | UserNotFound
    | ImageError(cause: BatchError)
    | NoValidImages
    | CreateFailed(thrown: Thrown)

  datatype AddCarOutcome = Added | Failed(message: string)

  /** The call's result, the uploads it issued in order, and the row it
      created, if any. */
  datatype AddCarRun = AddCarRun(outcome: AddCarOutcome, uploads: seq<UploadRequest>, row: Option<CarRow>)

  const AddCarErrorPrefix: string := "Error adding car: "
  const UploadErrorPrefix: string := "Failed to upload image: "
  const NoValidImagesMessage: string := "No valid images were uploaded"

  /** The message Node's `Buffer.from` gives its `TypeError` when handed
      `undefined`, which is what `split(',')[1]` yields without a comma. */
  const PayloadTypeErrorMessage: string :=
    "The first argument must be of type string or an instance of Buffer, ArrayBuffer, "
    + "or Array or an Array-like Object. Received undefined"

  /** The `catch` block's reading of a thrown value: an `Error`'s message, or
      `'Unknown error'` for anything else. */
  function ThrownMessage(t: Thrown): string {
    match t
    case ErrorThrown(message) => message
    case OtherThrown => "Unknown error"
  }

  /** The message of the error thrown inside the `try` block. */
  function Reason(e: AddCarError): string {
    match e
    case CallThrew(t) => ThrownMessage(t)
    case Unauthorized => "Unauthorized"
    case UserNotFound => "User not found"
    case ImageError(PayloadMissing(_)) => PayloadTypeErrorMessage
    case ImageError(UploadFailed(_, message)) => UploadErrorPrefix + message
    case NoValidImages => NoValidImagesMessage
    case CreateFailed(t) => ThrownMessage(t)
  }

  /** The message of the error the `catch` block re-throws. */
  function ErrorMessage(e: AddCarError): (m: string)
    ensures AddCarErrorPrefix <= m
    ensures |m| > |AddCarErrorPrefix| || e == CreateFailed(ErrorThrown("")) || e == CallThrew(ErrorThrown(""))
  {
    AddCarErrorPrefix + Reason(e)
  }

  /** `if (!userId)`: a missing id and the empty string are both rejected. */
  predicate Authenticated(userId: Option<string>) {
    userId.Some? && userId.value != ""
  }

  /** The caller passes both checks and none of the calls before the loop
      throws, so the loop runs. */
  predicate ReachesLoop(r: AddCarRequest) {
    r.authThrown.None? && Authenticated(r.userId) && r.lookupThrown.None?
    && r.userId.value in r.users && r.clientThrown.None?
  }

  function BatchOf(r: AddCarRequest): (b: Batch)
    requires r.WellFormed()
    ensures b.WellFormed()
  {
    Batch(r.carId, r.images, r.clock, r.storage, r.baseUrl)
  }

  /** What one call does, stated over whole runs: the specification that
      `AddCar` is proved to meet and that the lemmas below are about. */
  function ExpectedAddCar(r: AddCarRequest): AddCarRun
    requires r.WellFormed()
  {
    if r.authThrown.Some? then
      AddCarRun(Failed(ErrorMessage(CallThrew(r.authThrown.value))), [], None)
    else if !Authenticated(r.userId) then
      AddCarRun(Failed(ErrorMessage(Unauthorized)), [], None)
    else if r.lookupThrown.Some? then
      AddCarRun(Failed(ErrorMessage(CallThrew(r.lookupThrown.value))), [], None)
    else if r.userId.value !in r.users then
      AddCarRun(Failed(ErrorMessage(UserNotFound)), [], None)
    else if r.clientThrown.Some? then
      AddCarRun(Failed(ErrorMessage(CallThrew(r.clientThrown.value))), [], None)
    else
      var run := ExpectedBatch(BatchOf(r));
      match run.result
      case Err(e) => AddCarRun(Failed(ErrorMessage(ImageError(e))), run.uploads, None)
      case Ok(urls) =>
        if |urls| == 0 then AddCarRun(Failed(ErrorMessage(NoValidImages)), run.uploads, None)
        else match r.create
          case None => AddCarRun(Added, run.uploads, Some(CarRow(r.carId, r.carData, urls)))
          case Some(t) => AddCarRun(Failed(ErrorMessage(CreateFailed(t))), run.uploads, None)
  }

  method AddCar(r: AddCarRequest) returns (outcome: AddCarOutcome, uploads: seq<UploadRequest>, row: Option<CarRow>)
    requires r.WellFormed()
    ensures AddCarRun(outcome, uploads, row) == ExpectedAddCar(r)
  {
    if r.authThrown.Some? {
      return Failed(ErrorMessage(CallThrew(r.authThrown.value))), [], None;
    }
    if !Authenticated(r.userId) {
      return Failed(ErrorMessage(Unauthorized)), [], None;
    }
    if r.lookupThrown.Some? {
      return Failed(ErrorMessage(CallThrew(r.lookupThrown.value))), [], None;
    }
    if r.userId.value !in r.users {
      return Failed(ErrorMessage(UserNotFound)), [], None;
    }
    if r.clientThrown.Some? {
      return Failed(ErrorMessage(CallThrew(r.clientThrown.value))), [], None;
    }
    var result;
    result, uploads := UploadImages(BatchOf(r));
    if result.Err? {
      return Failed(ErrorMessage(ImageError(result.error))), uploads, None;
    }
    var imageUrls := result.value;
    if |imageUrls| == 0 {
      return Failed(ErrorMessage(NoValidImages)), uploads, None;
    }
    if r.create.Some? {
      return Failed(ErrorMessage(CreateFailed(r.create.value))), uploads, None;
    }
    outcome, row := Added, Some(CarRow(r.carId, r.carData, imageUrls));
  }

  // ---------------------------------------------------------------------
  // Properties

  /** Only an authenticated caller with a user record gets as far as the
      storage service, and only when neither lookup nor the storage client
      throws: otherwise nothing is uploaded and nothing created. */
  lemma CallerChecksPrecedeUploads(r: AddCarRequest)
    requires r.WellFormed()
    ensures var run := ExpectedAddCar(r);
      |run.uploads| > 0 || run.row.Some? ==>
        r.authThrown.None? && Authenticated(r.userId)
        && r.lookupThrown.None? && r.userId.value in r.users && r.clientThrown.None?
    ensures var run := ExpectedAddCar(r);
      r.authThrown.None? && !Authenticated(r.userId) ==>
        run == AddCarRun(Failed(AddCarErrorPrefix + "Unauthorized"), [], None)
    ensures var run := ExpectedAddCar(r);
      r.authThrown.None? && Authenticated(r.userId) && r.lookupThrown.None?
      && r.userId.value !in r.users ==>
        run == AddCarRun(Failed(AddCarErrorPrefix + "User not found"), [], None)
  {
  }

  /** A value thrown by `auth()`, `db.user.findUnique` or
      `createClient(cookies())` reaches the `catch` block: the call fails with
      the common prefix and the value's message, or `'Unknown error'` for a
      non-`Error`, before anything is uploaded or created. Each call is only
      reached when the steps before it passed. */
  lemma ThrownCallsAreRethrown(r: AddCarRequest)
    requires r.WellFormed()
    ensures var run := ExpectedAddCar(r); var t := r.authThrown;
      t.Some? ==>
        run == AddCarRun(Failed(AddCarErrorPrefix +
          (if t.value.ErrorThrown? then t.value.message else "Unknown error")), [], None)
    ensures var run := ExpectedAddCar(r); var t := r.lookupThrown;
      r.authThrown.None? && Authenticated(r.userId) && t.Some? ==>
        run == AddCarRun(Failed(AddCarErrorPrefix +
          (if t.value.ErrorThrown? then t.value.message else "Unknown error")), [], None)
    ensures var run := ExpectedAddCar(r); var t := r.clientThrown;
      r.authThrown.None? && Authenticated(r.userId) && r.lookupThrown.None?
      && r.userId.value in r.users && t.Some? ==>
        run == AddCarRun(Failed(AddCarErrorPrefix +
          (if t.value.ErrorThrown? then t.value.message else "Unknown error")), [], None)
  {
  }

  /** A request none of whose entries is an image data URI is rejected with
      `'No valid images were uploaded'` before the create, having uploaded
      nothing. */
  lemma NoValidImageRejected(r: AddCarRequest)
    requires r.WellFormed() && ReachesLoop(r)
    requires forall j :: 0 <= j < |r.images| ==> !IsImageDataUri(r.images[j])
    ensures ExpectedAddCar(r) ==
      AddCarRun(Failed(AddCarErrorPrefix + NoValidImagesMessage), [], None)
  {
    NoValidEntryUploadsNothing(BatchOf(r));
  }

  /** The call succeeds exactly when the caller passes both checks, none of
      `auth()`, the user lookup and the storage client throws, no valid
      entry aborts the batch, at least one entry is valid and the create
      succeeds. */
  lemma AddedExactlyWhen(r: AddCarRequest)
    requires r.WellFormed()
    ensures ExpectedAddCar(r).outcome == Added <==>
      r.authThrown.None? && Authenticated(r.userId)
      && r.lookupThrown.None? && r.userId.value in r.users && r.clientThrown.None?
      && FirstFailureFrom(BatchOf(r), 0).None?
      && |ValidIndices(r.images)| > 0
      && r.create.None?
  {
    var b := BatchOf(r);
    if FirstFailureFrom(b, 0).None? {
      assert |ExpectedBatch(b).result.value| == |ValidIndices(r.images)|;
    }
  }

  /** The created row carries the generated id, the form data unchanged and
      one URL per valid entry in input order, each the public URL of
      `cars/{carId}/image-{clock}-{position}.{extension}` and each the URL of
      the upload issued for that entry; the URLs are pairwise distinct. */
  lemma AddedRowHoldsUploadedUrls(r: AddCarRequest)
    requires r.WellFormed() && ExpectedAddCar(r).outcome == Added
    ensures var run := ExpectedAddCar(r); var valid := ValidIndices(r.images);
      run.row.Some? && run.row.value.id == r.carId && run.row.value.data == r.carData
      && |run.row.value.images| == |valid| == |run.uploads| > 0
      && (forall k :: 0 <= k < |valid| ==>
            var j := valid[k];
            var path := FilePath(r.carId, r.clock[j], j, FileExtension(r.images[j]));
            run.row.value.images[k] == PublicUrl(r.baseUrl, path)
            && run.uploads[k].path == path)
      && (forall p, q :: 0 <= p < q < |valid| ==> run.row.value.images[p] != run.row.value.images[q])
  {
    var b := BatchOf(r);
    AddedExactlyWhen(r);
    forall j | 0 <= j < |b.images| && IsImageDataUri(b.images[j])
      ensures Payload(b.images[j]).Some? && b.storage[j].Stored?
    {
      assert !FailsAt(b, j);
    }
    AllStoredGivesOneUrlPerValidEntry(b);
    BatchPathsDistinct(b);
  }

  /** A failed create leaves the uploaded images in storage: every valid
      entry was uploaded, no row exists, and the message is the create
      error's, or `'Unknown error'` for a thrown non-`Error`. */
  lemma CreateFailureKeepsUploads(r: AddCarRequest)
    requires r.WellFormed() && ReachesLoop(r)
    requires FirstFailureFrom(BatchOf(r), 0).None? && |ValidIndices(r.images)| > 0
    requires r.create.Some?
    ensures var run := ExpectedAddCar(r);
      run.row.None? && |run.uploads| == |ValidIndices(r.images)| > 0
      && run.outcome == Failed(AddCarErrorPrefix +
           (if r.create.value.ErrorThrown? then r.create.value.message else "Unknown error"))
  {
    var b := BatchOf(r);
    assert |ExpectedBatch(b).result.value| == |ValidIndices(r.images)|;
  }

  /** An upload error ends the call with `'Failed to upload image: '` and
      the storage message behind the common prefix; no row is created, and
      the uploads before it stay in storage. */
  lemma UploadErrorCreatesNothing(r: AddCarRequest, i: nat)
    requires r.WellFormed() && ReachesLoop(r)
    requires i < |r.images| && IsImageDataUri(r.images[i])
    requires Payload(r.images[i]).Some? && r.storage[i].StorageError?
    requires forall j :: 0 <= j < i && IsImageDataUri(r.images[j]) ==>
      Payload(r.images[j]).Some? && r.storage[j].Stored?
    ensures var run := ExpectedAddCar(r);
      run.row.None?
      && run.outcome == Failed(AddCarErrorPrefix + (UploadErrorPrefix + r.storage[i].message))
      && |run.uploads| == |ValidBelow(r.images, i)| + 1
  {
    var b := BatchOf(r);
    UploadErrorAbortsBatch(b, i);
    BatchErrorRun(r);
    UploadFailureMessage(i, r.storage[i].message);
  }

  lemma BatchErrorRun(r: AddCarRequest)
    requires r.WellFormed() && ReachesLoop(r)
    requires ExpectedBatch(BatchOf(r)).result.Err?
    ensures var run := ExpectedBatch(BatchOf(r));
      ExpectedAddCar(r) == AddCarRun(Failed(ErrorMessage(ImageError(run.result.error))), run.uploads, None)
  {
  }

  lemma UploadFailureMessage(i: nat, message: string)
    ensures ErrorMessage(ImageError(UploadFailed(i, message))) == AddCarErrorPrefix + (UploadErrorPrefix + message)
  {
  }
}
