/**
 * The storage key codec shared by the controller and the storage service:
 * the controller derives a key from a stored image URL by taking the text
 * after its last `/`, and it names a new upload
 * `<milliseconds>_<random base-36 token><extension>`, which never contains a
 * `/`. Together with the URL format of the storage service this makes
 * deriving the key of a freshly built URL give back the file name.
 */
module KeyCodec {

  /** `url.split('/').pop()`: the longest suffix without a `/`. */
  function KeyOf(url: string): (key: string)
    ensures '/' !in key
    ensures |key| <= |url| && url[|url| - |key|..] == key
    ensures |key| < |url| ==> url[|url| - |key| - 1] == '/'
    decreases |url|
  {
    if url == [] then []
    else if url[|url| - 1] == '/' then []
    else
      var p := url[..|url| - 1];
      var key := KeyOf(p);
      assert url[|url| - 1 - |key|..] == p[|p| - |key|..] + [url[|url| - 1]];
      assert |key| < |p| ==> url[|url| - |key| - 2] == p[|p| - |key| - 1];
      key + [url[|url| - 1]]
  }

  /** Whatever precedes the last `/`, the key is the text after it. */
  lemma {:induction false} KeyOfAfterSlash(prefix: string, name: string)
    requires '/' !in name
    ensures KeyOf(prefix + "/" + name) == name
  {
    var url := prefix + "/" + name;
    var key := KeyOf(url);
    assert url[|url| - |name| - 1] == '/';
    assert url[|url| - |name|..] == name;
  }

  // ---------------------------------------------------------------- generated names

  function DigitChar(d: nat): (c: char)
    requires d < 10
    ensures '0' <= c <= '9'
  {
    ['0', '1', '2', '3', '4', '5', '6', '7', '8', '9'][d]
  }

  /** The decimal form of a natural number, as JavaScript prints `Date.now()`. */
  function Decimal(n: nat): (s: string)
    ensures |s| >= 1
    ensures forall i | 0 <= i < |s| :: '0' <= s[i] <= '9'
    ensures |s| > 1 ==> s[0] != '0'
  {
    if n < 10 then [DigitChar(n)] else Decimal(n / 10) + [DigitChar(n % 10)]
  }

  /** The value of a string of decimal digits. */
  function DecimalValue(s: string): nat
    requires forall i | 0 <= i < |s| :: '0' <= s[i] <= '9'
  {
    if s == [] then 0
    else 10 * DecimalValue(s[..|s| - 1]) + (s[|s| - 1] as int - '0' as int)
  }

  /** Printing a timestamp in decimal loses nothing. */
  lemma {:induction false} DecimalRoundTrip(n: nat)
    ensures DecimalValue(Decimal(n)) == n
  {
    if n >= 10 {
      DecimalRoundTrip(n / 10);
      var s := Decimal(n);
      assert s[..|s| - 1] == Decimal(n / 10);
    }
  }

  predicate IsBase36Digit(c: char) {
    ('0' <= c <= '9') || ('a' <= c <= 'z')
  }

  /** `Math.random().toString(36).substring(2, 10)`: at most eight base-36 digits. */
  predicate IsRandomToken(t: string) {
    |t| <= 8 && forall i | 0 <= i < |t| :: IsBase36Digit(t[i])
  }

  /** What `path.extname(...).toLowerCase()` yields: nothing, or a `.` followed
      by characters that are not `/`. */
  predicate IsExtension(ext: string) {
    ext == [] || (ext[0] == '.' && '/' !in ext)
  }

  /** The upload's file name: `${Date.now()}_${token}${ext}`. */
  function GeneratedFileName(stamp: nat, token: string, ext: string): (name: string)
    requires IsRandomToken(token) && IsExtension(ext)
    ensures '/' !in name
    ensures |name| > 0 && '0' <= name[0] <= '9'
    ensures |name| > |Decimal(stamp)| && name[|Decimal(stamp)|] == '_' && name[..|Decimal(stamp)|] == Decimal(stamp)
  {
    var d := Decimal(stamp);
    var name := d + "_" + token + ext;
    assert forall i | 0 <= i < |name| :: name[i] != '/' by {
      forall i | 0 <= i < |name| ensures name[i] != '/' {
        if i < |d| { assert name[i] == d[i]; }
        else if i == |d| { assert name[i] == '_'; }
        else if i < |d| + 1 + |token| { assert name[i] == token[i - |d| - 1]; }
        else { assert name[i] == ext[i - |d| - 1 - |token|]; }
      }
    }
    name
  }
}
