/**
 * The user controller: registration, profile lookup and update, and the
 * profile-image lifecycle (replace, clear, and the cascade when an account is
 * deleted). The user collection is a map from id to record; the object
 * storage is an `S3Service.Bucket`. Responses carry the HTTP status the
 * handler answers with.
 */
module UserController {
  import opened Wrappers
  import opened JsStrings
  import opened Validation
  import opened KeyCodec
  import S3Service

  type UserId = nat

  /** A stored user record; `password` holds the hash, never the input. */
  datatype User = User(name: string, email: string, password: string, profileImage: string)

  /** A user as responses show it: everything but the password. */
  datatype PublicUser = PublicUser(id: UserId, name: string, email: string, profileImage: string)

  function View(id: UserId, u: User): PublicUser {
    PublicUser(id, u.name, u.email, u.profileImage)
  }

  datatype Failure =
    | InvalidFields(errors: seq<FieldError>)
    | NameRequired
    | BadUpload(problem: UploadProblem)
    | UserNotFound
    | EmailTaken
    | UploadFailed

  datatype Reply =
    | Registered(user: PublicUser)
    | Profile(user: PublicUser)
    | ImageUrl(imageUrl: string)
    | Done

  datatype Response = Ok(reply: Reply) | Err(failure: Failure) {
    function Status(): nat {
      match this
      case Ok(Registered(_)) => 201
      case Ok(_) => 200
      case Err(InvalidFields(_)) => 400
      case Err(NameRequired) => 400
      case Err(BadUpload(_)) => 400
      case Err(UserNotFound) => 404
      case Err(EmailTaken) => 409
      case Err(UploadFailed) => 500
    }
  }

  /** The controller's test for an image held in the bucket: `startsWith('https://')`. */
  predicate IsStoredUrl(image: string) {
    StartsWith(image, "https://")
  }

  const BcryptTag: string := "$2a$10$"

  /** Stand-in for the salted bcrypt hash: all the model relies on is that it
      differs from its input and tells inputs apart. */
  function Hash(password: string): (digest: string)
    ensures digest != password
  {
    BcryptTag + password
  }

  lemma HashInjective(a: string, b: string)
    requires Hash(a) == Hash(b)
    ensures a == b
  {
    assert a == Hash(a)[|BcryptTag|..];
  }

  /** No two records share an email. */
  ghost predicate EmailsUnique(users: map<UserId, User>) {
    forall a, b | a in users && b in users && users[a].email == users[b].email :: a == b
  }

  /** `User.findOne({ email })` finds a record. */
  predicate EmailRegistered(users: map<UserId, User>, email: string) {
    exists id | id in users :: users[id].email == email
  }

  /** Every image reference is empty or has the URL form of bucket `bucket` in `region`. */
  ghost predicate ImagesFrom(users: map<UserId, User>, bucket: string, region: string) {
    forall id | id in users :: BucketImage(bucket, region, users[id].profileImage)
  }

  /** `image` is empty or of the form `UrlOf(bucket, region, n)` with `n` free
      of `/` (the object itself may have been deleted). */
  ghost predicate BucketImage(bucket: string, region: string, image: string) {
    image == [] || exists name | '/' !in name :: image == S3Service.UrlOf(bucket, region, name)
  }

  /** The key the controller derives from a bucket image is the name it was
      stored under, and building the URL again from that key gives the image. */
  lemma BucketImageKey(bucket: string, region: string, image: string)
    requires BucketImage(bucket, region, image) && image != []
    ensures '/' !in KeyOf(image) && image == S3Service.UrlOf(bucket, region, KeyOf(image))
    ensures IsStoredUrl(image)
  {
    var name :| '/' !in name && image == S3Service.UrlOf(bucket, region, name);
  }

  /** A new record with an unregistered email keeps emails unique. */
  lemma InsertKeepsUnique(users: map<UserId, User>, id: UserId, u: User)
    requires EmailsUnique(users) && id !in users && !EmailRegistered(users, u.email)
    ensures EmailsUnique(users[id := u])
  {
  }

  /** Renaming a record keeps both invariants. */
  lemma RenameKeepsInvariants(users: map<UserId, User>, id: UserId, newName: string, bucket: string, region: string)
    requires id in users && EmailsUnique(users)
    ensures EmailsUnique(users[id := users[id].(name := newName)])
    ensures ImagesFrom(users, bucket, region) ==> ImagesFrom(users[id := users[id].(name := newName)], bucket, region)
  {
  }

  /** Pointing a record at the URL of a bucket object keeps both invariants. */
  lemma SetImageKeepsInvariants(users: map<UserId, User>, id: UserId, fileName: string, bucket: string, region: string)
    requires id in users && EmailsUnique(users) && '/' !in fileName
    ensures var url := S3Service.UrlOf(bucket, region, fileName);
      && EmailsUnique(users[id := users[id].(profileImage := url)])
      && (ImagesFrom(users, bucket, region) ==> ImagesFrom(users[id := users[id].(profileImage := url)], bucket, region))
  {
    var url := S3Service.UrlOf(bucket, region, fileName);
    assert BucketImage(bucket, region, url);
  }

  /** Clearing the image of a record keeps both invariants. */
  lemma ClearImageKeepsInvariants(users: map<UserId, User>, id: UserId, bucket: string, region: string)
    requires id in users && EmailsUnique(users)
    ensures EmailsUnique(users[id := users[id].(profileImage := "")])
    ensures ImagesFrom(users, bucket, region) ==> ImagesFrom(users[id := users[id].(profileImage := "")], bucket, region)
  {
  }

  /** Removing a record keeps both invariants. */
  lemma RemoveKeepsInvariants(users: map<UserId, User>, id: UserId, bucket: string, region: string)
    requires EmailsUnique(users)
    ensures EmailsUnique(users - {id})
    ensures ImagesFrom(users, bucket, region) ==> ImagesFrom(users - {id}, bucket, region)
  {
  }

  /** A record written with an empty or bucket-made image keeps every image bucket-made. */
  lemma WriteKeepsImages(users: map<UserId, User>, id: UserId, u: User, bucket: string, region: string)
    requires ImagesFrom(users, bucket, region)
    requires BucketImage(bucket, region, u.profileImage)
    ensures ImagesFrom(users[id := u], bucket, region)
  {
  }

  /** The requests a best-effort delete of `image` sends: one delete of its
      key when it is a bucket URL (whether or not it goes through), none
      otherwise. */
  ghost predicate DeleteAttempt(image: string, calls: seq<S3Service.Call>) {
    if IsStoredUrl(image)
    then |calls| == 1 && calls[0] == S3Service.Delete(KeyOf(image), calls[0].ok)
    else calls == []
  }

  /** What a replacement of the image of `id` by the object `fileName` did:
      the requests it sent (an attempted delete of the old key when the old
      image is a bucket URL, then the put), and, only when the put went
      through, the record pointing at the new URL, whose key is `fileName`. */
  ghost predicate ReplacedImage(before: map<UserId, User>, after: map<UserId, User>, id: UserId,
                                body: seq<bv8>, mimeType: string, fileName: string,
                                bucket: string, region: string,
                                res: Response, calls: seq<S3Service.Call>)
    requires id in before
  {
    var image := before[id].profileImage;
    var put := S3Service.Put(fileName, S3Service.StoredObject(body, mimeType), res.Ok?);
    var url := S3Service.UrlOf(bucket, region, fileName);
    && |calls| >= 1 && DeleteAttempt(image, calls[..|calls| - 1]) && calls[|calls| - 1] == put
    && (res.Ok? ==>
          && res == Ok(ImageUrl(url))
          && after == before[id := before[id].(profileImage := url)]
          && KeyOf(url) == fileName && IsStoredUrl(url))
    && (res.Err? ==> res == Err(UploadFailed) && after == before)
  }

  /** After a successful replacement the key the controller derives from the
      record names the object just stored, with the uploaded body and type. */
  lemma ReplacedImageIsStored(before: map<UserId, User>, after: map<UserId, User>, id: UserId,
                              body: seq<bv8>, mimeType: string, fileName: string,
                              bucket: string, region: string,
                              res: Response, calls: seq<S3Service.Call>, objects: map<string, S3Service.StoredObject>)
    requires id in before
    requires ReplacedImage(before, after, id, body, mimeType, fileName, bucket, region, res, calls)
    requires res.Ok?
    ensures id in after
    ensures KeyOf(after[id].profileImage) == fileName
    ensures fileName in S3Service.Apply(objects, calls)
    ensures S3Service.Apply(objects, calls)[fileName] == S3Service.StoredObject(body, mimeType)
  {
    assert calls[|calls| - 1].ok;
  }

  /** The old object is deleted before the new one is put: when the delete
      goes through and the put fails, the record keeps the old URL while its
      object is gone. */
  lemma FailedReplaceLeavesDanglingImage(before: map<UserId, User>, after: map<UserId, User>, id: UserId,
                                         body: seq<bv8>, mimeType: string, fileName: string,
                                         bucket: string, region: string,
                                         res: Response, calls: seq<S3Service.Call>,
                                         objects: map<string, S3Service.StoredObject>)
    requires id in before
    requires ReplacedImage(before, after, id, body, mimeType, fileName, bucket, region, res, calls)
    requires res.Err? && IsStoredUrl(before[id].profileImage) && calls[0].ok
    ensures id in after && after[id].profileImage == before[id].profileImage
    ensures KeyOf(before[id].profileImage) !in S3Service.Apply(objects, calls)
  {
    var key := KeyOf(before[id].profileImage);
    assert |calls| == 2;
    assert calls[..1] == [S3Service.Delete(key, true)];
    assert calls[..1][..0] == [];
    assert S3Service.Apply(objects, calls[..1]) == objects - {key};
  }

  /** Backend state: the user collection, the next id the store assigns, and the bucket. */
  class Backend {
    var users: map<UserId, User>
    var nextId: UserId
    const storage: S3Service.Bucket

    ghost predicate Valid()
      reads this, storage
    {
      && storage.Valid()
      && (forall id | id in users :: id < nextId)
      && EmailsUnique(users)
    }

    /** Every image reference is empty or has this bucket's URL form for a
        name without `/`, so the key the controller derives from it is that
        name (the object itself may have been deleted). */
    ghost predicate ImagesFromBucket()
      reads this, storage
    {
      ImagesFrom(users, storage.name, storage.region)
    }

    constructor (storage: S3Service.Bucket)
      requires storage.Valid()
      ensures Valid() && ImagesFromBucket()
      ensures this.storage == storage && users == map[] && nextId == 0
    {
      this.storage := storage;
      users := map[];
      nextId := 0;
    }

    /** `register`: all field errors first (400, nothing looked up), then the
        duplicate email (409), then a new record with no image and the hashed
        password (201). */
    method Register(name: Option<string>, email: Option<string>, password: Option<string>) returns (res: Response)
      requires Valid()
      modifies this
      ensures Valid()
      ensures old(ImagesFromBucket()) ==> ImagesFromBucket()
      ensures RegistrationErrors(name, email, password) != [] ==>
        && res == Err(InvalidFields(RegistrationErrors(name, email, password)))
        && users == old(users) && nextId == old(nextId)
      ensures RegistrationErrors(name, email, password) == [] && EmailRegistered(old(users), email.value) ==>
        res == Err(EmailTaken) && users == old(users) && nextId == old(nextId)
      ensures RegistrationErrors(name, email, password) == [] && !EmailRegistered(old(users), email.value) ==>
        && old(nextId) !in old(users)
        && users == old(users)[old(nextId) := User(name.value, email.value, Hash(password.value), "")]
        && nextId == old(nextId) + 1
        && res == Ok(Registered(PublicUser(old(nextId), name.value, email.value, "")))
    {
      var errors := RegistrationErrors(name, email, password);
      if errors != [] {
        res := Err(InvalidFields(errors));
      } else if EmailRegistered(users, email.value) {
        res := Err(EmailTaken);
      } else {
        var u := User(name.value, email.value, Hash(password.value), "");
        var id := Create(u);
        res := Ok(Registered(View(id, u)));
      }
    }

    /** `new User({...})` and `save()`: the record is stored under the next id. */
    method Create(u: User) returns (id: UserId)
      requires Valid()
      requires !EmailRegistered(users, u.email) && u.profileImage == ""
      modifies this
      ensures Valid()
      ensures old(ImagesFromBucket()) ==> ImagesFromBucket()
      ensures id == old(nextId) && id !in old(users)
      ensures users == old(users)[id := u] && nextId == old(nextId) + 1
    {
      id := nextId;
      InsertKeepsUnique(users, id, u);
      if ImagesFromBucket() {
        WriteKeepsImages(users, id, u, storage.name, storage.region);
      }
      users := users[id := u];
      nextId := nextId + 1;
    }

    /** `getProfile`: the record without its password, or 404. */
    function GetProfile(id: UserId): (res: Response)
      reads this
      ensures res.Ok? <==> id in users
      ensures res.Ok? ==> res.reply == Profile(PublicUser(id, users[id].name, users[id].email, users[id].profileImage))
      ensures res.Err? ==> res.failure == UserNotFound && res.Status() == 404
    {
      if id in users then Ok(Profile(View(id, users[id]))) else Err(UserNotFound)
    }

    /** `updateProfile`: a blank name is refused before any lookup; otherwise
        only the name changes, to the trimmed input. */
    method UpdateProfile(id: UserId, name: Option<string>) returns (res: Response)
      requires Valid()
      modifies this
      ensures Valid()
      ensures old(ImagesFromBucket()) ==> ImagesFromBucket()
      ensures nextId == old(nextId)
      ensures UpdateNameProblem(name).Some? ==> res == Err(NameRequired) && users == old(users)
      ensures UpdateNameProblem(name).None? && id !in old(users) ==> res == Err(UserNotFound) && users == old(users)
      ensures UpdateNameProblem(name).None? && id in old(users) ==>
        var u := old(users[id]).(name := Trim(name.value));
        users == old(users)[id := u] && res == Ok(Profile(View(id, u)))
    {
      if UpdateNameProblem(name).Some? {
        return Err(NameRequired);
      }
      if id !in users {
        return Err(UserNotFound);
      }
      var trimmed := Trim(name.value);
      var u := users[id].(name := trimmed);
      RenameKeepsInvariants(users, id, trimmed, storage.name, storage.region);
      users := users[id := u];
      res := Ok(Profile(View(id, u)));
    }

    /** `uploadProfileImage`: the upload guard (400, nothing looked up, nothing
        sent to the bucket), the lookup (404), and then the replacement of the
        image under a generated file name. `calls` are the requests this call
        sent to the bucket. */
    method UploadProfileImage(id: UserId, file: Option<UploadedFile>, stamp: nat, token: string, ext: string)
      returns (res: Response, ghost calls: seq<S3Service.Call>)
      requires Valid()
      requires IsRandomToken(token) && IsExtension(ext)
      modifies this, storage
      ensures Valid()
      ensures old(ImagesFromBucket()) ==> ImagesFromBucket()
      ensures nextId == old(nextId)
      ensures storage.log == old(storage.log) + calls
      ensures storage.objects == S3Service.Apply(old(storage.objects), calls)
      ensures UploadProblemOf(file).Some? ==>
        res == Err(BadUpload(UploadProblemOf(file).value)) && users == old(users) && calls == []
      ensures UploadProblemOf(file).None? && id !in old(users) ==>
        res == Err(UserNotFound) && users == old(users) && calls == []
      ensures UploadProblemOf(file).None? && id in old(users) ==>
        ReplacedImage(old(users), users, id, file.value.buffer, file.value.mimeType,
                      GeneratedFileName(stamp, token, ext), storage.name, storage.region, res, calls)
    {
      var problem := UploadProblemOf(file);
      if problem.Some? {
        res, calls := Err(BadUpload(problem.value)), [];
      } else if id !in users {
        res, calls := Err(UserNotFound), [];
      } else {
        res, calls := ReplaceImage(id, file.value.buffer, file.value.mimeType, GeneratedFileName(stamp, token, ext));
      }
    }

    /** The replacement itself: a best-effort delete of the old object (when
        the image is a bucket URL), the put of the new one, and its URL
        written to the record once the put has gone through. The old object
        is deleted BEFORE the put, so a failed put can leave the record
        pointing at an object that is gone. */
    method ReplaceImage(id: UserId, body: seq<bv8>, mimeType: string, fileName: string)
      returns (res: Response, ghost calls: seq<S3Service.Call>)
      requires Valid()
      requires id in users && '/' !in fileName
      modifies this, storage
      ensures Valid()
      ensures old(ImagesFromBucket()) ==> ImagesFromBucket()
      ensures nextId == old(nextId)
      ensures storage.log == old(storage.log) + calls
      ensures storage.objects == S3Service.Apply(old(storage.objects), calls)
      ensures ReplacedImage(old(users), users, id, body, mimeType, fileName, storage.name, storage.region, res, calls)
    {
      var url;
      url, calls := StoreReplacement(users[id].profileImage, body, mimeType, fileName);
      if url.Some? {
        SetImageKeepsInvariants(users, id, fileName, storage.name, storage.region);
        users := users[id := users[id].(profileImage := url.value)];
        res := Ok(ImageUrl(url.value));
      } else {
        res := Err(UploadFailed);
      }
    }

    /** The bucket side of a replacement: the best-effort delete of the old
        image, then the put of the new object. */
    method StoreReplacement(image: string, body: seq<bv8>, mimeType: string, fileName: string)
      returns (url: Option<string>, ghost calls: seq<S3Service.Call>)
      requires storage.Valid()
      modifies storage
      ensures storage.Valid()
      ensures storage.log == old(storage.log) + calls
      ensures storage.objects == S3Service.Apply(old(storage.objects), calls)
      ensures |calls| >= 1 && DeleteAttempt(image, calls[..|calls| - 1])
      ensures calls[|calls| - 1] == S3Service.Put(fileName, S3Service.StoredObject(body, mimeType), url.Some?)
      ensures url.Some? ==> url.value == S3Service.UrlOf(storage.name, storage.region, fileName)
    {
      ghost var deletes := TryDeleteImage(image);
      ghost var mid := storage.log;
      url := storage.UploadFile(body, fileName, mimeType);
      ghost var put := S3Service.Put(fileName, S3Service.StoredObject(body, mimeType), url.Some?);
      calls := deletes + [put];
      assert calls[..|calls| - 1] == deletes;
      assert storage.log == mid + [put];
      assert mid + [put] == old(storage.log) + calls;
    }

    /** The best-effort delete of an image: only a bucket URL is deleted, by
        the key after its last `/`, and a failure is ignored. */
    method TryDeleteImage(image: string) returns (ghost calls: seq<S3Service.Call>)
      requires storage.Valid()
      modifies storage
      ensures storage.Valid()
      ensures storage.log == old(storage.log) + calls
      ensures storage.objects == S3Service.Apply(old(storage.objects), calls)
      ensures DeleteAttempt(image, calls)
    {
      calls := [];
      if IsStoredUrl(image) {
        var deleted := storage.DeleteFile(KeyOf(image));
        calls := [S3Service.Delete(KeyOf(image), deleted)];
        assert calls[..0] == [];
      }
    }

    /** `deleteProfileImage`: for a bucket URL, a best-effort delete and then
        the reference cleared whatever the delete did; any other value is left
        as it is and nothing is saved. Success either way. */
    method DeleteProfileImage(id: UserId) returns (res: Response, ghost calls: seq<S3Service.Call>)
      requires Valid()
      modifies this, storage
      ensures Valid()
      ensures old(ImagesFromBucket()) ==> ImagesFromBucket()
      ensures nextId == old(nextId)
      ensures storage.log == old(storage.log) + calls
      ensures storage.objects == S3Service.Apply(old(storage.objects), calls)
      ensures id !in old(users) ==> res == Err(UserNotFound) && users == old(users) && calls == []
      ensures id in old(users) ==>
        var image := old(users[id].profileImage);
        && res == Ok(Done)
        && DeleteAttempt(image, calls)
        && users == if IsStoredUrl(image) then old(users)[id := old(users[id]).(profileImage := "")]
                    else old(users)
    {
      if id !in users {
        res, calls := Err(UserNotFound), [];
      } else {
        var image := users[id].profileImage;
        calls := TryDeleteImage(image);
        if IsStoredUrl(image) {
          ClearImage(id);
        }
        res := Ok(Done);
      }
    }

    /** The record's image reference set to the empty string and saved. */
    method ClearImage(id: UserId)
      requires Valid() && id in users
      modifies this
      ensures Valid()
      ensures old(ImagesFromBucket()) ==> ImagesFromBucket()
      ensures users == old(users)[id := old(users[id]).(profileImage := "")] && nextId == old(nextId)
    {
      ClearImageKeepsInvariants(users, id, storage.name, storage.region);
      users := users[id := users[id].(profileImage := "")];
    }

    /** `user.deleteOne()`: the record is gone. */
    method Remove(id: UserId)
      requires Valid()
      modifies this
      ensures Valid()
      ensures old(ImagesFromBucket()) ==> ImagesFromBucket()
      ensures users == old(users) - {id} && nextId == old(nextId)
    {
      RemoveKeepsInvariants(users, id, storage.name, storage.region);
      users := users - {id};
    }

    /** `deleteAccount`: for a bucket URL a best-effort delete of the image,
        then the record is removed whatever the delete did. */
    method DeleteAccount(id: UserId) returns (res: Response, ghost calls: seq<S3Service.Call>)
      requires Valid()
      modifies this, storage
      ensures Valid()
      ensures old(ImagesFromBucket()) ==> ImagesFromBucket()
      ensures nextId == old(nextId)
      ensures storage.log == old(storage.log) + calls
      ensures storage.objects == S3Service.Apply(old(storage.objects), calls)
      ensures id !in old(users) ==> res == Err(UserNotFound) && users == old(users) && calls == []
      ensures id in old(users) ==>
        var image := old(users[id].profileImage);
        && res == Ok(Done)
        && users == old(users) - {id}
        && DeleteAttempt(image, calls)
    {
      if id !in users {
        res, calls := Err(UserNotFound), [];
      } else {
        var image := users[id].profileImage;
        calls := TryDeleteImage(image);
        Remove(id);
        res := Ok(Done);
      }
    }
  }

  /** Clearing twice: the first call does what `DeleteProfileImage` promises,
      and the second answers as the first did, sends nothing to the bucket
      and changes no record. */
  method ClearTwice(b: Backend, id: UserId)
    returns (first: Response, second: Response, ghost afterFirst: map<UserId, User>,
             ghost firstCalls: seq<S3Service.Call>, ghost secondCalls: seq<S3Service.Call>)
    requires b.Valid()
    modifies b, b.storage
    ensures b.Valid()
    ensures b.storage.log == old(b.storage.log) + firstCalls + secondCalls
    ensures id !in old(b.users) ==> firstCalls == [] && afterFirst == old(b.users)
    ensures id in old(b.users) ==>
      var image := old(b.users[id].profileImage);
      && DeleteAttempt(image, firstCalls)
      && afterFirst == if IsStoredUrl(image) then old(b.users)[id := old(b.users[id]).(profileImage := "")]
                       else old(b.users)
    ensures id !in old(b.users) ==> first == Err(UserNotFound)
    ensures id in old(b.users) ==> first == Ok(Done)
    ensures b.nextId == old(b.nextId)
    ensures second == first
    ensures secondCalls == [] && b.users == afterFirst
    ensures id in old(b.users) ==> id in b.users && !IsStoredUrl(b.users[id].profileImage)
  {
    first, firstCalls := b.DeleteProfileImage(id);
    afterFirst := b.users;
    ghost var mid := b.storage.log;
    second, secondCalls := b.DeleteProfileImage(id);
    assert b.storage.log == mid + secondCalls;
  }
}
