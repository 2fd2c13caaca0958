/** The image loop of `addCar` (actions/cars.ts:158-198): each data URI is
    checked, split into payload and extension, given a storage path in the
    car's folder, uploaded, and turned into a public URL. The clock reading
    and the storage outcome of each iteration are inputs. */
module ImageBatch {
  import opened Wrappers
  import opened JsText

  const DataImagePrefix: string := "data:image/"
  const DefaultExtension: string := "jpeg"
  const PublicObjectInfix: string := "/storage/v1/object/public/car-images/"

  // ---------------------------------------------------------------------
  // One data URI

  /** `!base64Data || !base64Data.startsWith('data:image/')` is false. The
      empty string fails the prefix test as well. */
  predicate IsImageDataUri(s: string) {
    DataImagePrefix <= s
  }

  /** Position of the first comma, or `|s|` when there is none. */
  function CommaIndex(s: string): (k: nat)
    ensures k <= |s|
    ensures ',' !in s[..k]
    ensures k < |s| ==> s[k] == ','
  {
    if s == [] || s[0] == ',' then 0 else 1 + CommaIndex(s[1..])
  }

  /** `s.split(',')[1]`: the text between the first comma and the next one
      (or the end); None stands for `undefined`, when `s` has no comma. */
  function Payload(s: string): (r: Option<string>)
    ensures r.None? <==> ',' !in s
    ensures r.Some? ==> ',' !in r.value
  {
    var c := CommaIndex(s);
    if c == |s| then
      assert s[..c] == s;
      None
    else
      var rest := s[c + 1..];
      Some(rest[..CommaIndex(rest)])
  }

  lemma CommaIndexIs(s: string, k: nat)
    requires k < |s| && s[k] == ',' && ',' !in s[..k]
    ensures CommaIndex(s) == k
  {
    assert s[..k + 1][k] == ',';
  }

  lemma CommaIndexAbsent(s: string)
    requires ',' !in s
    ensures CommaIndex(s) == |s|
  {
  }

  /** A data URI built from a comma-free header, a comma and a comma-free
      payload (optionally followed by more comma-separated text) yields that
      payload. */
  lemma PayloadOfDataUri(header: string, data: string, tail: string)
    requires ',' !in header && ',' !in data
    requires tail == [] || tail[0] == ','
    ensures Payload(header + "," + data + tail) == Some(data)
  {
    var s := header + "," + data + tail;
    assert s[..|header|] == header;
    CommaIndexIs(s, |header|);
    var rest := s[|header| + 1..];
    assert rest == data + tail;
    if tail == [] {
      assert rest == data;
      CommaIndexAbsent(rest);
    } else {
      assert rest[..|data|] == data;
      CommaIndexIs(rest, |data|);
    }
  }

  predicate IsAlnum(c: char) {
    'a' <= c <= 'z' || 'A' <= c <= 'Z' || '0' <= c <= '9'
  }

  predicate AllAlnum(s: string) {
    forall k :: 0 <= k < |s| ==> IsAlnum(s[k])
  }

  /** Length of the longest run of `[a-zA-Z0-9]` at the start of `s`. */
  function AlnumRun(s: string): (n: nat)
    ensures n <= |s|
    ensures forall m :: 0 <= m < n ==> IsAlnum(s[m])
    ensures n == |s| || !IsAlnum(s[n])
  {
    if s == [] || !IsAlnum(s[0]) then 0 else 1 + AlnumRun(s[1..])
  }

  /** The pattern `data:image\/([a-zA-Z0-9]+);` matches at position `k`. The
      greedy group can only be followed by `;` at the end of the longest run,
      since every shorter run is followed by another letter or digit. */
  predicate MimeMatchAt(s: string, k: nat) {
    k <= |s| && DataImagePrefix <= s[k..] &&
    var rest := s[k + |DataImagePrefix|..];
    var n := AlnumRun(rest);
    0 < n < |rest| && rest[n] == ';'
  }

  /** The group captured by a match at position `k`. */
  function SubtypeAt(s: string, k: nat): (e: string)
    requires MimeMatchAt(s, k)
    ensures |e| > 0 && AllAlnum(e)
  {
    var rest := s[k + |DataImagePrefix|..];
    rest[..AlnumRun(rest)]
  }

  /** The group of the leftmost match at or after `from`, as
      `s.match(/data:image\/([a-zA-Z0-9]+);/)` finds it; None for `null`. */
  function FirstSubtype(s: string, from: nat): (r: Option<string>)
    requires from <= |s|
    ensures r.None? <==> forall k :: from <= k <= |s| ==> !MimeMatchAt(s, k)
    ensures r.Some? ==>
      exists k :: from <= k <= |s| && MimeMatchAt(s, k) && r.value == SubtypeAt(s, k)
        && forall j :: from <= j < k ==> !MimeMatchAt(s, j)
    decreases |s| - from
  {
    if MimeMatchAt(s, from) then Some(SubtypeAt(s, from))
    else if from == |s| then None
    else FirstSubtype(s, from + 1)
  }

  /** The file extension of actions/cars.ts:178-179: the captured subtype,
      or `jpeg` when the pattern matches nowhere. */
  function FileExtension(s: string): (ext: string)
    ensures |ext| > 0 && AllAlnum(ext)
    ensures (forall k :: 0 <= k <= |s| ==> !MimeMatchAt(s, k)) ==> ext == DefaultExtension
  {
    match FirstSubtype(s, 0)
    case Some(e) => e
    case None => DefaultExtension
  }

  /** A data URI `data:image/<subtype>;...` with an alphanumeric subtype has
      that subtype as its extension. */
  lemma ExtensionOfWellFormedUri(subtype: string, rest: string)
    requires |subtype| > 0 && AllAlnum(subtype) && |rest| > 0 && rest[0] == ';'
    ensures FileExtension(DataImagePrefix + subtype + rest) == subtype
  {
    var s := DataImagePrefix + subtype + rest;
    assert s[0..] == s;
    var after := s[|DataImagePrefix|..];
    assert after == subtype + rest;
    assert after[|subtype|] == ';';
    var n := AlnumRun(after);
    assert n == |subtype|;
    assert after[..n] == subtype;
    assert MimeMatchAt(s, 0);
  }

  /** A subtype that the pattern cannot capture (`svg+xml`, say) gives
      `jpeg`, provided no second `data:image/` follows; a payload holds no
      colon, so none can. */
  lemma UnmatchedSubtypeGivesJpeg(subtype: string, stop: char, rest: string)
    requires AllAlnum(subtype) && !IsAlnum(stop) && stop != ';'
    requires ':' !in subtype + [stop] + rest
    ensures FileExtension(DataImagePrefix + subtype + [stop] + rest) == DefaultExtension
  {
    var s := DataImagePrefix + subtype + [stop] + rest;
    var tail := subtype + [stop] + rest;
    assert s == DataImagePrefix + tail;
    forall k | 0 <= k <= |s|
      ensures !MimeMatchAt(s, k)
    {
      if k == 0 {
        var after := s[|DataImagePrefix|..];
        assert after == tail;
        assert after[|subtype|] == stop;
        assert AlnumRun(after) == |subtype|;
      } else if k + 11 <= |s| {
        assert s[k..][4] == ':' ==> s[k + 4] == ':';
        if k + 4 >= 11 {
          assert s[k + 4] == tail[k + 4 - 11];
        }
      }
    }
  }

  // ---------------------------------------------------------------------
  // Storage paths and public URLs

  /** `cars/{carId}`. */
  function FolderPath(carId: string): string {
    "cars/" + carId
  }

  /** `image-{Date.now()}-{i}.{fileExtension}`. */
  function FileName(timestamp: nat, index: nat, ext: string): string {
    "image-" + (DecimalString(timestamp) + ("-" + (DecimalString(index) + ("." + ext))))
  }

  /** `${folderPath}/${fileName}`. */
  function FilePath(carId: string, timestamp: nat, index: nat, ext: string): string {
    FolderPath(carId) + ("/" + FileName(timestamp, index, ext))
  }

  /** `${NEXT_PUBLIC_SUPABASE_URL}/storage/v1/object/public/car-images/${filePath}`. */
  function PublicUrl(baseUrl: string, path: string): string {
    baseUrl + PublicObjectInfix + path
  }

  /** Two digit strings followed by the same non-digit separator can only
      line up one way. */
  lemma SplitAtSeparator(a: string, x: string, b: string, y: string, sep: char)
    requires AllDigits(a) && AllDigits(b) && !IsDigit(sep)
    requires a + ([sep] + x) == b + ([sep] + y)
    ensures a == b && x == y
  {
    var s := a + ([sep] + x);
    assert s[|a|] == sep && s[|b|] == sep;
    assert a == s[..|a|];
    assert b == (b + ([sep] + y))[..|b|];
    assert x == s[|a| + 1..];
    assert y == (b + ([sep] + y))[|b| + 1..];
  }

  lemma CancelPrefix<T>(a: seq<T>, x: seq<T>, y: seq<T>)
    requires a + x == a + y
    ensures x == y
  {
    assert x == (a + x)[|a|..];
  }

  /** Paths built for different input positions differ, whatever the clock
      readings and extensions: the index sits between the only `-` after the
      timestamp and the next `.`. */
  lemma FilePathsDistinct(carId: string, t1: nat, i1: nat, e1: string, t2: nat, i2: nat, e2: string)
    requires i1 != i2
    ensures FilePath(carId, t1, i1, e1) != FilePath(carId, t2, i2, e2)
  {
    if FilePath(carId, t1, i1, e1) == FilePath(carId, t2, i2, e2) {
      var x1 := DecimalString(i1) + ("." + e1);
      var x2 := DecimalString(i2) + ("." + e2);
      CancelPrefix(FolderPath(carId), "/" + FileName(t1, i1, e1), "/" + FileName(t2, i2, e2));
      CancelPrefix("/", FileName(t1, i1, e1), FileName(t2, i2, e2));
      CancelPrefix("image-", DecimalString(t1) + ("-" + x1), DecimalString(t2) + ("-" + x2));
      SplitAtSeparator(DecimalString(t1), x1, DecimalString(t2), x2, '-');
      SplitAtSeparator(DecimalString(i1), e1, DecimalString(i2), e2, '.');
      DecimalStringInjective(i1, i2);
    }
  }

  /** Distinct paths give distinct public URLs. */
  lemma PublicUrlInjective(baseUrl: string, p: string, q: string)
    requires PublicUrl(baseUrl, p) == PublicUrl(baseUrl, q)
    ensures p == q
  {
    var n := |baseUrl + PublicObjectInfix|;
    assert p == PublicUrl(baseUrl, p)[n..];
    assert q == PublicUrl(baseUrl, q)[n..];
  }

  // ---------------------------------------------------------------------
  // The batch

  datatype UploadOutcome = Stored | StorageError(message: string)

  /** One call of `supabase.storage.from('car-images').upload(...)`. The
      payload is the base64 text; its decoding is not modelled. */
  datatype UploadRequest = UploadRequest(path: string, base64: string, contentType: string)

  /** Why a batch stops: `Buffer.from(undefined, 'base64')` throws when a
      valid entry has no comma, or an upload reports an error. */
  datatype BatchError = PayloadMissing(index: nat) | UploadFailed(index: nat, message: string)

  /** Everything the loop reads: the car id, the data URIs, the clock
      reading and the storage outcome of each iteration (only those of valid
      entries are used), and the configured storage base URL. */
  datatype Batch = Batch(carId: string, images: seq<string>, clock: seq<nat>,
                         storage: seq<UploadOutcome>, baseUrl: string)
  {
    predicate WellFormed() {
      |clock| == |images| && |storage| == |images|
    }
  }

  /** The loop's result: the URL list or the error that aborted it, and the
      uploads it issued, in order. */
  datatype BatchRun = BatchRun(result: Result<seq<string>, BatchError>, uploads: seq<UploadRequest>)

  /** Positions below `n` that hold valid entries, in increasing order. */
  function ValidBelow(images: seq<string>, n: nat): (r: seq<nat>)
    requires n <= |images|
    ensures forall j: nat :: j in r <==> j < n && IsImageDataUri(images[j])
    ensures forall p :: 0 <= p < |r| ==> r[p] < n && IsImageDataUri(images[r[p]])
    ensures forall p, q :: 0 <= p < q < |r| ==> r[p] < r[q]
  {
    if n == 0 then []
    else ValidBelow(images, n - 1) + (if IsImageDataUri(images[n - 1]) then [n - 1] else [])
  }

  function ValidIndices(images: seq<string>): seq<nat> {
    ValidBelow(images, |images|)
  }

  function PathAt(b: Batch, j: nat): string
    requires b.WellFormed() && j < |b.images|
  {
    FilePath(b.carId, b.clock[j], j, FileExtension(b.images[j]))
  }

  function UrlAt(b: Batch, j: nat): string
    requires b.WellFormed() && j < |b.images|
  {
    PublicUrl(b.baseUrl, PathAt(b, j))
  }

  function RequestAt(b: Batch, j: nat): UploadRequest
    requires b.WellFormed() && j < |b.images| && Payload(b.images[j]).Some?
  {
    UploadRequest(PathAt(b, j), Payload(b.images[j]).value, "image/" + FileExtension(b.images[j]))
  }

  /** The iteration for position `j` aborts the batch. */
  predicate FailsAt(b: Batch, j: nat)
    requires b.WellFormed() && j < |b.images|
  {
    IsImageDataUri(b.images[j]) && (Payload(b.images[j]).None? || b.storage[j].StorageError?)
  }

  function ErrorAt(b: Batch, j: nat): BatchError
    requires b.WellFormed() && j < |b.images| && FailsAt(b, j)
  {
    if Payload(b.images[j]).None? then PayloadMissing(j) else UploadFailed(j, b.storage[j].message)
  }

  /** The first position at or after `from` whose iteration aborts. */
  function FirstFailureFrom(b: Batch, from: nat): (r: Option<nat>)
    requires b.WellFormed() && from <= |b.images|
    ensures r.None? ==> forall j :: from <= j < |b.images| ==> !FailsAt(b, j)
    ensures r.Some? ==>
      from <= r.value < |b.images| && FailsAt(b, r.value)
      && forall j :: from <= j < r.value ==> !FailsAt(b, j)
    decreases |b.images| - from
  {
    if from == |b.images| then None
    else if FailsAt(b, from) then Some(from)
    else FirstFailureFrom(b, from + 1)
  }

  /** Every position in `idx` holds a valid entry whose iteration does not abort. */
  predicate Succeeds(b: Batch, idx: seq<nat>)
    requires b.WellFormed()
  {
    forall k :: 0 <= k < |idx| ==>
      idx[k] < |b.images| && IsImageDataUri(b.images[idx[k]]) && !FailsAt(b, idx[k])
  }

  /** The public URLs of the positions in `idx`, in that order. */
  function UrlsFor(b: Batch, idx: seq<nat>): seq<string>
    requires b.WellFormed() && forall k :: 0 <= k < |idx| ==> idx[k] < |b.images|
  {
    seq(|idx|, k requires 0 <= k < |idx| => UrlAt(b, idx[k]))
  }

  /** The upload requests for the positions in `idx`, in that order. */
  function RequestsFor(b: Batch, idx: seq<nat>): seq<UploadRequest>
    requires b.WellFormed() && Succeeds(b, idx)
  {
    seq(|idx|, k requires 0 <= k < |idx| => RequestAt(b, idx[k]))
  }

  /** What the loop does, stated over whole index lists: without a failing
      entry, one URL and one upload per valid entry in input order; otherwise
      the uploads of the valid entries before the first failing one, that
      entry's own upload if it got that far, and its error. */
  function ExpectedBatch(b: Batch): BatchRun
    requires b.WellFormed()
  {
    match FirstFailureFrom(b, 0)
    case None =>
      BatchRun(Ok(UrlsFor(b, ValidIndices(b.images))), RequestsFor(b, ValidIndices(b.images)))
    case Some(j) =>
      var before := RequestsFor(b, ValidBelow(b.images, j));
      BatchRun(Err(ErrorAt(b, j)),
               if Payload(b.images[j]).Some? then before + [RequestAt(b, j)] else before)
  }

  lemma UrlsForAppend(b: Batch, idx: seq<nat>, j: nat)
    requires b.WellFormed() && j < |b.images| && forall k :: 0 <= k < |idx| ==> idx[k] < |b.images|
    ensures UrlsFor(b, idx + [j]) == UrlsFor(b, idx) + [UrlAt(b, j)]
  {
    var u, v := UrlsFor(b, idx + [j]), UrlsFor(b, idx) + [UrlAt(b, j)];
    forall k | 0 <= k < |u|
      ensures u[k] == v[k]
    {
      if k < |idx| {
        assert (idx + [j])[k] == idx[k];
        assert u[k] == UrlAt(b, idx[k]);
        assert v[k] == UrlsFor(b, idx)[k];
      } else {
        assert (idx + [j])[k] == j;
        assert u[k] == UrlAt(b, j);
        assert v[k] == UrlAt(b, j);
      }
    }
    SameElements(u, v);
  }

  lemma RequestsForAppend(b: Batch, idx: seq<nat>, j: nat)
    requires b.WellFormed() && Succeeds(b, idx)
    requires j < |b.images| && IsImageDataUri(b.images[j]) && !FailsAt(b, j)
    ensures Succeeds(b, idx + [j])
    ensures RequestsFor(b, idx + [j]) == RequestsFor(b, idx) + [RequestAt(b, j)]
  {
    var u, v := RequestsFor(b, idx + [j]), RequestsFor(b, idx) + [RequestAt(b, j)];
    forall k | 0 <= k < |u|
      ensures u[k] == v[k]
    {
      if k < |idx| {
        assert (idx + [j])[k] == idx[k];
        assert u[k] == RequestAt(b, idx[k]);
        assert v[k] == RequestsFor(b, idx)[k];
      } else {
        assert (idx + [j])[k] == j;
        assert u[k] == RequestAt(b, j);
        assert v[k] == RequestAt(b, j);
      }
    }
    SameElements(u, v);
  }

  /** When position `i` is the first to abort, this is what the batch yields. */
  lemma ExpectedOnFailure(b: Batch, i: nat)
    requires b.WellFormed() && i < |b.images|
    requires forall j :: 0 <= j < i ==> !FailsAt(b, j)
    requires FailsAt(b, i)
    ensures FirstFailureFrom(b, 0) == Some(i)
  {
  }

  /** No iteration before position `n` aborts. */
  predicate NoFailureBelow(b: Batch, n: nat)
    requires b.WellFormed() && n <= |b.images|
  {
    n == 0 || (NoFailureBelow(b, n - 1) && !FailsAt(b, n - 1))
  }

  lemma {:induction false} NoFailureBelowMeans(b: Batch, n: nat)
    requires b.WellFormed() && n <= |b.images|
    ensures NoFailureBelow(b, n) <==> forall j :: 0 <= j < n ==> !FailsAt(b, j)
  {
    if n > 0 {
      NoFailureBelowMeans(b, n - 1);
    }
  }

  /** An iteration that skips position `i` changes neither list. */
  lemma SkippedStep(b: Batch, i: nat)
    requires b.WellFormed() && i < |b.images| && NoFailureBelow(b, i)
    requires !IsImageDataUri(b.images[i])
    ensures NoFailureBelow(b, i + 1)
    ensures ValidBelow(b.images, i + 1) == ValidBelow(b.images, i)
  {
  }

  /** An iteration that uploads and stores position `i` extends both lists. */
  lemma StoredStep(b: Batch, i: nat)
    requires b.WellFormed() && i < |b.images| && NoFailureBelow(b, i)
    requires IsImageDataUri(b.images[i]) && !FailsAt(b, i)
    ensures NoFailureBelow(b, i + 1)
    ensures Succeeds(b, ValidBelow(b.images, i)) && Succeeds(b, ValidBelow(b.images, i + 1))
    ensures UrlsFor(b, ValidBelow(b.images, i + 1)) == UrlsFor(b, ValidBelow(b.images, i)) + [UrlAt(b, i)]
    ensures RequestsFor(b, ValidBelow(b.images, i + 1))
         == RequestsFor(b, ValidBelow(b.images, i)) + [RequestAt(b, i)]
  {
    NoFailureBelowMeans(b, i);
    var done := ValidBelow(b.images, i);
    assert ValidBelow(b.images, i + 1) == done + [i];
    UrlsForAppend(b, done, i);
    RequestsForAppend(b, done, i);
  }

  /** A valid entry without a comma ends the batch after the earlier uploads. */
  lemma PayloadMissingEnds(b: Batch, i: nat)
    requires b.WellFormed() && i < |b.images| && NoFailureBelow(b, i)
    requires IsImageDataUri(b.images[i]) && Payload(b.images[i]).None?
    ensures Succeeds(b, ValidBelow(b.images, i))
    ensures ExpectedBatch(b) == BatchRun(Err(PayloadMissing(i)), RequestsFor(b, ValidBelow(b.images, i)))
  {
    NoFailureBelowMeans(b, i);
    ExpectedOnFailure(b, i);
  }

  /** A storage error ends the batch after the earlier uploads and its own. */
  lemma StorageErrorEnds(b: Batch, i: nat)
    requires b.WellFormed() && i < |b.images| && NoFailureBelow(b, i)
    requires IsImageDataUri(b.images[i]) && Payload(b.images[i]).Some? && b.storage[i].StorageError?
    ensures Succeeds(b, ValidBelow(b.images, i))
    ensures ExpectedBatch(b) == BatchRun(Err(UploadFailed(i, b.storage[i].message)),
                                         RequestsFor(b, ValidBelow(b.images, i)) + [RequestAt(b, i)])
  {
    NoFailureBelowMeans(b, i);
    ExpectedOnFailure(b, i);
  }

  /** A loop that runs to the end returns every valid entry's URL. */
  lemma CompletedRun(b: Batch)
    requires b.WellFormed() && NoFailureBelow(b, |b.images|)
    ensures Succeeds(b, ValidIndices(b.images))
    ensures ExpectedBatch(b)
         == BatchRun(Ok(UrlsFor(b, ValidIndices(b.images))), RequestsFor(b, ValidIndices(b.images)))
  {
    NoFailureBelowMeans(b, |b.images|);
    assert FirstFailureFrom(b, 0).None?;
  }

  /** The `for` loop of actions/cars.ts:165-198. */
  method UploadImages(b: Batch) returns (result: Result<seq<string>, BatchError>, uploads: seq<UploadRequest>)
    requires b.WellFormed()
    ensures BatchRun(result, uploads) == ExpectedBatch(b)
  {
    var imageUrls: seq<string> := [];
    uploads := [];
    var i := 0;
    while i < |b.images|
      invariant i <= |b.images| && NoFailureBelow(b, i)
      invariant Succeeds(b, ValidBelow(b.images, i))
      invariant imageUrls == UrlsFor(b, ValidBelow(b.images, i))
      invariant uploads == RequestsFor(b, ValidBelow(b.images, i))
    {
      var data := b.images[i];
      if !IsImageDataUri(data) {
        SkippedStep(b, i);
        i := i + 1;
        continue;
      }
      var payload := Payload(data);
      if payload.None? {
        PayloadMissingEnds(b, i);
        return Err(PayloadMissing(i)), uploads;
      }
      var ext := FileExtension(data);
      var path := FilePath(b.carId, b.clock[i], i, ext);
      var request := UploadRequest(path, payload.value, "image/" + ext);
      assert request == RequestAt(b, i);
      uploads := uploads + [request];
      if b.storage[i].StorageError? {
        StorageErrorEnds(b, i);
        return Err(UploadFailed(i, b.storage[i].message)), uploads;
      }
      var publicUrl := PublicUrl(b.baseUrl, path);
      assert publicUrl == UrlAt(b, i);
      imageUrls := imageUrls + [publicUrl];
      StoredStep(b, i);
      i := i + 1;
    }
    CompletedRun(b);
    result := Ok(imageUrls);
  }

  // ---------------------------------------------------------------------
  // Properties of the batch

  /** Positions whose entries the batch uploads, in upload order. */
  function UploadedIndices(b: Batch): (r: seq<nat>)
    requires b.WellFormed()
    ensures forall k :: 0 <= k < |r| ==>
      r[k] < |b.images| && IsImageDataUri(b.images[r[k]]) && Payload(b.images[r[k]]).Some?
    ensures forall p, q :: 0 <= p < q < |r| ==> r[p] < r[q]
  {
    match FirstFailureFrom(b, 0)
    case None =>
      var valid := ValidIndices(b.images);
      assert forall k :: 0 <= k < |valid| ==> !FailsAt(b, valid[k]);
      valid
    case Some(j) =>
      var before := ValidBelow(b.images, j);
      assert forall k :: 0 <= k < |before| ==> before[k] < j && !FailsAt(b, before[k]);
      if Payload(b.images[j]).Some? then
        AppendUploadable(b, before, j);
        before + [j]
      else before
  }

  /** Appending a larger uploadable position to increasing uploadable
      positions keeps both properties. */
  lemma AppendUploadable(b: Batch, before: seq<nat>, j: nat)
    requires b.WellFormed() && j < |b.images|
    requires IsImageDataUri(b.images[j]) && Payload(b.images[j]).Some?
    requires forall k :: 0 <= k < |before| ==>
      before[k] < j && IsImageDataUri(b.images[before[k]]) && Payload(b.images[before[k]]).Some?
    requires forall p, q :: 0 <= p < q < |before| ==> before[p] < before[q]
    ensures var r := before + [j];
      (forall k :: 0 <= k < |r| ==>
         r[k] < |b.images| && IsImageDataUri(b.images[r[k]]) && Payload(b.images[r[k]]).Some?)
      && forall p, q :: 0 <= p < q < |r| ==> r[p] < r[q]
  {
    var r := before + [j];
    forall k | 0 <= k < |r|
      ensures r[k] < |b.images| && IsImageDataUri(b.images[r[k]]) && Payload(b.images[r[k]]).Some?
    {
      if k < |before| {
        assert r[k] == before[k];
      } else {
        assert r[k] == j;
      }
    }
    forall p, q | 0 <= p < q < |r|
      ensures r[p] < r[q]
    {
      assert r[p] == before[p];
      if q < |before| {
        assert r[q] == before[q];
      } else {
        assert r[q] == j;
      }
    }
  }

  /** The k-th upload is the request for the k-th uploaded position. */
  lemma UploadsAreAt(b: Batch)
    requires b.WellFormed()
    ensures var run := ExpectedBatch(b); var idx := UploadedIndices(b);
      |run.uploads| == |idx| && forall k :: 0 <= k < |idx| ==> run.uploads[k] == RequestAt(b, idx[k])
  {
    match FirstFailureFrom(b, 0)
    case None =>
    case Some(j) =>
      var before := ValidBelow(b.images, j);
      assert forall k :: 0 <= k < |before| ==> before[k] < j && !FailsAt(b, before[k]);
      var requests := RequestsFor(b, before);
      if Payload(b.images[j]).Some? {
        var uploads, idx := requests + [RequestAt(b, j)], before + [j];
        forall k | 0 <= k < |idx|
          ensures uploads[k] == RequestAt(b, idx[k])
        {
          if k < |before| {
            assert uploads[k] == requests[k] && idx[k] == before[k];
          } else {
            assert uploads[k] == RequestAt(b, j) && idx[k] == j;
          }
        }
      }
  }

  /** Every storage path used by one batch is different from every other, so
      no upload overwrites another; the same holds for the public URLs. */
  lemma BatchPathsDistinct(b: Batch)
    requires b.WellFormed()
    ensures var run := ExpectedBatch(b);
      (forall p, q :: 0 <= p < q < |run.uploads| ==> run.uploads[p].path != run.uploads[q].path)
      && (run.result.Ok? ==>
            forall p, q :: 0 <= p < q < |run.result.value| ==> run.result.value[p] != run.result.value[q])
  {
    var run := ExpectedBatch(b);
    var idx := UploadedIndices(b);
    UploadsAreAt(b);
    forall p, q | 0 <= p < q < |run.uploads|
      ensures run.uploads[p].path != run.uploads[q].path
    {
      var i, j := idx[p], idx[q];
      FilePathsDistinct(b.carId, b.clock[i], i, FileExtension(b.images[i]),
                        b.clock[j], j, FileExtension(b.images[j]));
    }
    if run.result.Ok? {
      var urls := run.result.value;
      var valid := ValidIndices(b.images);
      forall p, q | 0 <= p < q < |urls|
        ensures urls[p] != urls[q]
      {
        var i, j := valid[p], valid[q];
        FilePathsDistinct(b.carId, b.clock[i], i, FileExtension(b.images[i]),
                          b.clock[j], j, FileExtension(b.images[j]));
        if urls[p] == urls[q] {
          PublicUrlInjective(b.baseUrl, PathAt(b, i), PathAt(b, j));
        }
      }
    }
  }

  /** An entry that is not an image data URI leaves no trace: whatever clock
      reading and extension one might pair it with, no upload uses a path for
      its position and no URL points there. */
  lemma SkippedEntryLeavesNoTrace(b: Batch, j: nat, t: nat, ext: string)
    requires b.WellFormed() && j < |b.images| && !IsImageDataUri(b.images[j])
    ensures var run := ExpectedBatch(b); var path := FilePath(b.carId, t, j, ext);
      (forall k :: 0 <= k < |run.uploads| ==> run.uploads[k].path != path)
      && (run.result.Ok? ==> forall k :: 0 <= k < |run.result.value| ==>
            run.result.value[k] != PublicUrl(b.baseUrl, path))
  {
    var run := ExpectedBatch(b);
    var path := FilePath(b.carId, t, j, ext);
    var idx := UploadedIndices(b);
    UploadsAreAt(b);
    forall k | 0 <= k < |run.uploads|
      ensures run.uploads[k].path != path
    {
      var i := idx[k];
      FilePathsDistinct(b.carId, b.clock[i], i, FileExtension(b.images[i]), t, j, ext);
    }
    if run.result.Ok? {
      var valid := ValidIndices(b.images);
      forall k | 0 <= k < |run.result.value|
        ensures run.result.value[k] != PublicUrl(b.baseUrl, path)
      {
        var i := valid[k];
        FilePathsDistinct(b.carId, b.clock[i], i, FileExtension(b.images[i]), t, j, ext);
        if run.result.value[k] == PublicUrl(b.baseUrl, path) {
          PublicUrlInjective(b.baseUrl, PathAt(b, i), path);
        }
      }
    }
  }

  /** When every valid entry has a payload and stores, the batch returns one
      URL per valid entry, in input order, each the public URL of
      `cars/{carId}/image-{clock}-{position}.{extension}`. */
  lemma AllStoredGivesOneUrlPerValidEntry(b: Batch)
    requires b.WellFormed()
    requires forall j :: 0 <= j < |b.images| && IsImageDataUri(b.images[j]) ==>
      Payload(b.images[j]).Some? && b.storage[j].Stored?
    ensures var run := ExpectedBatch(b); var valid := ValidIndices(b.images);
      run.result.Ok? && |run.result.value| == |valid| == |run.uploads|
      && forall k :: 0 <= k < |valid| ==>
           var j := valid[k];
           var path := FilePath(b.carId, b.clock[j], j, FileExtension(b.images[j]));
           run.result.value[k] == PublicUrl(b.baseUrl, path) && run.uploads[k] == RequestAt(b, j)
  {
    assert forall j :: 0 <= j < |b.images| ==> !FailsAt(b, j);
  }

  /** The first valid entry whose upload reports an error ends the batch with
      that error, after the uploads of the valid entries before it and its
      own; no later entry is uploaded. */
  lemma UploadErrorAbortsBatch(b: Batch, i: nat)
    requires b.WellFormed() && i < |b.images|
    requires IsImageDataUri(b.images[i]) && Payload(b.images[i]).Some? && b.storage[i].StorageError?
    requires forall j :: 0 <= j < i && IsImageDataUri(b.images[j]) ==>
      Payload(b.images[j]).Some? && b.storage[j].Stored?
    ensures var run := ExpectedBatch(b); var before := ValidBelow(b.images, i);
      run.result == Err(UploadFailed(i, b.storage[i].message))
      && |run.uploads| == |before| + 1
      && run.uploads[|before|] == RequestAt(b, i)
      && forall k :: 0 <= k < |before| ==> run.uploads[k] == RequestAt(b, before[k])
  {
    forall j | 0 <= j < i
      ensures !FailsAt(b, j)
    {
    }
    ExpectedOnFailure(b, i);
  }

  lemma {:induction false} NothingValidBelow(images: seq<string>, n: nat)
    requires n <= |images|
    requires forall j :: 0 <= j < n ==> !IsImageDataUri(images[j])
    ensures ValidBelow(images, n) == []
  {
    if n > 0 {
      NothingValidBelow(images, n - 1);
    }
  }

  /** A batch with no image data URI at all uploads nothing and yields an
      empty URL list. */
  lemma NoValidEntryUploadsNothing(b: Batch)
    requires b.WellFormed()
    requires forall j :: 0 <= j < |b.images| ==> !IsImageDataUri(b.images[j])
    ensures ExpectedBatch(b) == BatchRun(Ok([]), [])
  {
    NothingValidBelow(b.images, |b.images|);
    assert FirstFailureFrom(b, 0) == None;
    assert UrlsFor(b, []) == [];
    assert RequestsFor(b, []) == [];
  }

  lemma HeaderHasNoComma(subtype: string)
    requires AllAlnum(subtype)
    ensures ',' !in DataImagePrefix + subtype + ";base64"
  {
    var header := DataImagePrefix + subtype + ";base64";
    forall k | 0 <= k < |header|
      ensures header[k] != ','
    {
      if k < |DataImagePrefix| {
        assert header[k] == DataImagePrefix[k];
      } else if k < |DataImagePrefix| + |subtype| {
        assert header[k] == subtype[k - |DataImagePrefix|];
      } else {
        assert header[k] == ";base64"[k - |DataImagePrefix| - |subtype|];
      }
    }
  }

  /** The parts of an image data URI `data:image/<subtype>;base64,<data>`
      come back out of it. */
  lemma DataUriParts(subtype: string, data: string)
    requires |subtype| > 0 && AllAlnum(subtype) && ',' !in data
    ensures var uri := DataImagePrefix + subtype + ";base64," + data;
      IsImageDataUri(uri) && FileExtension(uri) == subtype && Payload(uri) == Some(data)
  {
    var uri := DataImagePrefix + subtype + ";base64," + data;
    DataUriExtension(subtype, data);
    DataUriPayload(subtype, data);
    assert uri[..|DataImagePrefix|] == DataImagePrefix;
  }

  lemma DataUriExtension(subtype: string, data: string)
    requires |subtype| > 0 && AllAlnum(subtype)
    ensures FileExtension(DataImagePrefix + subtype + ";base64," + data) == subtype
  {
    var rest := ";base64," + data;
    Associative(DataImagePrefix + subtype, ";base64,", data);
    assert rest[0] == ';';
    ExtensionOfWellFormedUri(subtype, rest);
  }

  lemma DataUriPayload(subtype: string, data: string)
    requires AllAlnum(subtype) && ',' !in data
    ensures Payload(DataImagePrefix + subtype + ";base64," + data) == Some(data)
  {
    var head := DataImagePrefix + subtype;
    var header := head + ";base64";
    assert ";base64," == ";base64" + ",";
    Associative(head, ";base64", ",");
    NothingAppended(header + "," + data);
    HeaderHasNoComma(subtype);
    PayloadOfDataUri(header, data, []);
  }

  /** Three entries of which the first and last are valid and store. */
  lemma ValidInvalidValidRun(b: Batch)
    requires b.WellFormed() && |b.images| == 3
    requires IsImageDataUri(b.images[0]) && !IsImageDataUri(b.images[1]) && IsImageDataUri(b.images[2])
    requires Payload(b.images[0]).Some? && Payload(b.images[2]).Some?
    requires b.storage[0].Stored? && b.storage[2].Stored?
    ensures ExpectedBatch(b) == BatchRun(Ok([UrlAt(b, 0), UrlAt(b, 2)]), [RequestAt(b, 0), RequestAt(b, 2)])
  {
    ValidIndicesOfThree(b.images);
    NoFailureAmongThree(b);
    UrlsForPair(b, 0, 2);
    RequestsForPair(b, 0, 2);
  }

  lemma ValidIndicesOfThree(images: seq<string>)
    requires |images| == 3
    requires IsImageDataUri(images[0]) && !IsImageDataUri(images[1]) && IsImageDataUri(images[2])
    ensures ValidIndices(images) == [0, 2]
  {
    assert ValidBelow(images, 1) == [0];
    assert ValidBelow(images, 2) == [0];
  }

  lemma NoFailureAmongThree(b: Batch)
    requires b.WellFormed() && |b.images| == 3
    requires !IsImageDataUri(b.images[1])
    requires Payload(b.images[0]).Some? && Payload(b.images[2]).Some?
    requires b.storage[0].Stored? && b.storage[2].Stored?
    ensures FirstFailureFrom(b, 0) == None
  {
    assert !FailsAt(b, 0) && !FailsAt(b, 1) && !FailsAt(b, 2);
    assert FirstFailureFrom(b, 2) == None;
  }

  lemma UrlsForPair(b: Batch, i: nat, j: nat)
    requires b.WellFormed() && i < |b.images| && j < |b.images|
    ensures UrlsFor(b, [i, j]) == [UrlAt(b, i), UrlAt(b, j)]
  {
    var idx: seq<nat> := [i, j];
    assert idx[0] == i && idx[1] == j;
    var urls := UrlsFor(b, idx);
    assert urls[0] == UrlAt(b, i) && urls[1] == UrlAt(b, j);
    PairOf(urls, UrlAt(b, i), UrlAt(b, j));
  }

  lemma RequestsForPair(b: Batch, i: nat, j: nat)
    requires b.WellFormed() && i < |b.images| && j < |b.images|
    requires IsImageDataUri(b.images[i]) && Payload(b.images[i]).Some? && b.storage[i].Stored?
    requires IsImageDataUri(b.images[j]) && Payload(b.images[j]).Some? && b.storage[j].Stored?
    ensures Succeeds(b, [i, j])
    ensures RequestsFor(b, [i, j]) == [RequestAt(b, i), RequestAt(b, j)]
  {
    var idx: seq<nat> := [i, j];
    assert idx[0] == i && idx[1] == j;
    assert !FailsAt(b, i) && !FailsAt(b, j);
    var requests := RequestsFor(b, idx);
    PairOf(requests, RequestAt(b, i), RequestAt(b, j));
  }

  lemma Associative<T>(a: seq<T>, b: seq<T>, c: seq<T>)
    ensures a + b + c == a + (b + c)
  {
  }

  lemma NothingAppended<T>(s: seq<T>)
    ensures s + [] == s
  {
  }

  lemma SameElements<T>(s: seq<T>, t: seq<T>)
    requires |s| == |t| && forall k :: 0 <= k < |s| ==> s[k] == t[k]
    ensures s == t
  {
  }

  lemma PairOf<T>(s: seq<T>, x: T, y: T)
    requires |s| == 2 && s[0] == x && s[1] == y
    ensures s == [x, y]
  {
  }

  /** Two image data URIs around an entry that is not one: two URLs, named
      after input positions 0 and 2, and two uploads carrying the payloads. */
  lemma TwoValidAroundInvalidEntry(carId: string, baseUrl: string, clock: seq<nat>,
                                   sub0: string, data0: string, junk: string, sub2: string, data2: string)
    requires |clock| == 3
    requires |sub0| > 0 && AllAlnum(sub0) && ',' !in data0
    requires |sub2| > 0 && AllAlnum(sub2) && ',' !in data2
    requires !IsImageDataUri(junk)
    ensures var first := DataImagePrefix + sub0 + ";base64," + data0;
      var third := DataImagePrefix + sub2 + ";base64," + data2;
      var b := Batch(carId, [first, junk, third], clock, [Stored, Stored, Stored], baseUrl);
      var p0 := FilePath(carId, clock[0], 0, sub0);
      var p2 := FilePath(carId, clock[2], 2, sub2);
      ExpectedBatch(b) == BatchRun(Ok([PublicUrl(baseUrl, p0), PublicUrl(baseUrl, p2)]),
                                   [UploadRequest(p0, data0, "image/" + sub0),
                                    UploadRequest(p2, data2, "image/" + sub2)])
  {
    var first := DataImagePrefix + sub0 + ";base64," + data0;
    var third := DataImagePrefix + sub2 + ";base64," + data2;
    var b := Batch(carId, [first, junk, third], clock, [Stored, Stored, Stored], baseUrl);
    DataUriParts(sub0, data0);
    DataUriParts(sub2, data2);
    ValidInvalidValidRun(b);
  }
}
