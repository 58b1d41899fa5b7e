/**
 * The object-storage service: one bucket in one region, holding objects under
 * string keys. `uploadFile` puts the bytes under the given file name and
 * answers the object's public URL; the bucket's delete is best effort. The
 * transport is not modelled: each request either goes through or fails, and
 * nothing else decides which.
 */
module S3Service {
  import opened Wrappers
  import opened JsStrings
  import KeyCodec

  /** What a put stores: the body and its `ContentType`. */
  datatype StoredObject = StoredObject(body: seq<bv8>, contentType: string)

  /** One request sent to the bucket, and whether it went through. */
  datatype Call =
    | Put(key: string, obj: StoredObject, ok: bool)
    | Delete(key: string, ok: bool)

  /** The effect of one call: a failed call changes nothing. */
  function Step(objects: map<string, StoredObject>, c: Call): map<string, StoredObject> {
    if !c.ok then objects
    else match c
      case Put(key, obj, _) => objects[key := obj]
      case Delete(key, _) => objects - {key}
  }

  /** The bucket after a series of calls, applied in order. */
  function Apply(objects: map<string, StoredObject>, calls: seq<Call>): map<string, StoredObject> {
    if calls == [] then objects
    else Step(Apply(objects, calls[..|calls| - 1]), calls[|calls| - 1])
  }

  /** Calls applied in two batches have the effect of the whole series. */
  lemma {:induction false} ApplyConcat(objects: map<string, StoredObject>, a: seq<Call>, b: seq<Call>)
    ensures Apply(objects, a + b) == Apply(Apply(objects, a), b)
    decreases |b|
  {
    if b != [] {
      assert (a + b)[..|a + b| - 1] == a + b[..|b| - 1];
      ApplyConcat(objects, a, b[..|b| - 1]);
    } else {
      assert a + b == a;
    }
  }

  /** The object URL `https://<bucket>.s3.<region>.amazonaws.com/<fileName>`. */
  function UrlOf(bucket: string, region: string, fileName: string): (url: string)
    ensures StartsWith(url, "https://")
    ensures '/' !in fileName ==> KeyCodec.KeyOf(url) == fileName
  {
    var host := "https://" + bucket + ".s3." + region + ".amazonaws.com";
    var url := host + "/" + fileName;
    assert url[..8] == "https://";
    if '/' !in fileName then
      KeyCodec.KeyOfAfterSlash(host, fileName);
      url
    else url
  }

  /** The configured bucket. `log` records every request it was sent. */
  class Bucket {
    const name: string
    const region: string
    var objects: map<string, StoredObject>
    ghost const initial: map<string, StoredObject>
    ghost var log: seq<Call>

    /** The contents are exactly what the logged requests made of the initial contents. */
    ghost predicate Valid()
      reads this
    {
      objects == Apply(initial, log)
    }

    constructor (name: string, region: string, contents: map<string, StoredObject>)
      ensures Valid()
      ensures this.name == name && this.region == region
      ensures objects == contents && log == []
    {
      this.name := name;
      this.region := region;
      objects := contents;
      initial := contents;
      log := [];
    }

    /** `uploadFile(fileBuffer, fileName, mimeType)`: the object is stored under
        `Key = fileName` with the given body and content type, and the URL is
        answered only once the put has gone through. */
    method UploadFile(fileBuffer: seq<bv8>, fileName: string, mimeType: string) returns (url: Option<string>)
      requires Valid()
      modifies this
      ensures Valid()
      ensures log == old(log) + [Put(fileName, StoredObject(fileBuffer, mimeType), url.Some?)]
      ensures url.Some? ==> url.value == UrlOf(name, region, fileName)
      ensures objects == if url.Some? then old(objects)[fileName := StoredObject(fileBuffer, mimeType)]
                         else old(objects)
    {
      var sent: bool :| true;
      var call := Put(fileName, StoredObject(fileBuffer, mimeType), sent);
      objects := Step(objects, call);
      log := log + [call];
      assert log[..|log| - 1] == old(log);
      url := if sent then Some(UrlOf(name, region, fileName)) else None;
    }

    /** Best-effort removal of the object under `key`. A failed call answers
        false and changes nothing, and any call may fail: the service module
        as shipped exports no delete operation at all, so there every call
        the controller makes throws. */
    method DeleteFile(key: string) returns (ok: bool)
      requires Valid()
      modifies this
      ensures Valid()
      ensures log == old(log) + [Delete(key, ok)]
      ensures objects == if ok then old(objects) - {key} else old(objects)
    {
      ok :| true;
      var call := Delete(key, ok);
      objects := Step(objects, call);
      log := log + [call];
      assert log[..|log| - 1] == old(log);
    }
  }
}
