/**
 * The S3 cache provider: the credential check made when connecting, and the
 * request header signed with the secret key in the AWS signature version 2
 * style. The clock, HMAC-SHA1 and Base64 are parameters.
 */
module S3Cache {
  import Strings

  const CONTENT_TYPE: string := "application/octet-stream"
  const NEWLINE: char := '\n'

  /** The path of an object: the provider's base path, a slash, the key. */
  function RelativePath(basePath: string, key: string): string
  {
    basePath + "/" + key
  }

  /** The text that is signed: the HTTP verb, empty content MD5, content type, date, path. */
  function StringToSign(verb: string, date: string, relativePath: string): string
  {
    verb + "\n\n" + CONTENT_TYPE + "\n" + date + "\n" + relativePath
  }

  /** The signed text as its fields, each followed by a newline except the last. */
  lemma StringToSignFields(verb: string, date: string, relativePath: string)
    ensures StringToSign(verb, date, relativePath)
            == verb + [NEWLINE] + ("" + [NEWLINE] + (CONTENT_TYPE + [NEWLINE] + (date + [NEWLINE] + relativePath)))
  {
  }

  /** Cut at its newlines, the signed text gives back its five fields. */
  lemma StringToSignLines(verb: string, date: string, relativePath: string)
    requires NEWLINE !in verb && NEWLINE !in date && NEWLINE !in relativePath
    ensures Strings.Split(StringToSign(verb, date, relativePath), NEWLINE)
            == [verb, "", CONTENT_TYPE, date, relativePath]
  {
    StringToSignFields(verb, date, relativePath);
    var t3 := date + [NEWLINE] + relativePath;
    var t2 := CONTENT_TYPE + [NEWLINE] + t3;
    var t1 := "" + [NEWLINE] + t2;
    Strings.SplitNoSeparator(relativePath, NEWLINE);
    Strings.SplitAfterSegment(date, NEWLINE, relativePath);
    Strings.SplitAfterSegment(CONTENT_TYPE, NEWLINE, t3);
    Strings.SplitAfterSegment("", NEWLINE, t2);
    Strings.SplitAfterSegment(verb, NEWLINE, t1);
    assert [verb] + ([""] + ([CONTENT_TYPE] + ([date] + [relativePath]))) == [verb, "", CONTENT_TYPE, date, relativePath];
  }

  class S3CacheProvider {
    var access: string
    var secret: string
    var sessionToken: string
    /** The base path of the bucket, provided by the HTTP provider this one builds on. */
    const path: string

    constructor (path: string)
      ensures access == [] && secret == [] && sessionToken == [] && this.path == path
    {
      access, secret, sessionToken := [], [], [];
      this.path := path;
    }

    /**
     * Takes the credentials from the configuration and, when both keys are set,
     * hands over to the HTTP connection, whose outcome is `httpConnected`.
     */
    method Connect(cfgAccess: string, cfgSecret: string, cfgSessionToken: string, httpConnected: bool)
      returns (ok: bool)
      modifies this`access, this`secret, this`sessionToken
      ensures cfgAccess == [] || cfgSecret == [] ==>
                !ok && access == old(access) && secret == old(secret) && sessionToken == old(sessionToken)
      ensures cfgAccess != [] && cfgSecret != [] ==>
                access == cfgAccess && secret == cfgSecret && sessionToken == cfgSessionToken && ok == httpConnected
      ensures ok ==> access != [] && secret != []
    {
      if cfgAccess == [] || cfgSecret == [] {
        return false;
      }
      access, secret, sessionToken := cfgAccess, cfgSecret, cfgSessionToken;
      ok := httpConnected;
    }

    /** The Base64 text of the HMAC-SHA1 of `s` keyed with the secret. */
    function SignString(s: string, hmacSha1: (string, string) -> string, base64: string -> string): string
      reads this
    {
      base64(hmacSha1(secret, s))
    }

    /** The header lines of a request for `key`, sent at `date`. */
    function GetHeader(verb: string, key: string, date: string,
                       hmacSha1: (string, string) -> string, base64: string -> string): (header: seq<string>)
      reads this
      ensures |header| == if sessionToken == [] then 3 else 4
      ensures header[0] == "Date: " + date
      ensures header[1] == "Content-Type: " + CONTENT_TYPE
      ensures header[2] == "Authorization: AWS " + access + ":"
                           + SignString(StringToSign(verb, date, RelativePath(path, key)), hmacSha1, base64)
      ensures sessionToken != [] ==> header[3] == "x-amz-security-token: " + sessionToken
    {
      var signature := SignString(StringToSign(verb, date, RelativePath(path, key)), hmacSha1, base64);
      var header := ["Date: " + date, "Content-Type: " + CONTENT_TYPE, "Authorization: AWS " + access + ":" + signature];
      if sessionToken != [] then header + ["x-amz-security-token: " + sessionToken] else header
    }

    /**
     * The Date and Content-Type headers carry exactly the values that were signed,
     * so the server can rebuild the signed text from the request.
     */
    lemma HeaderMatchesSignedText(verb: string, key: string, date: string,
                                  hmacSha1: (string, string) -> string, base64: string -> string)
      requires NEWLINE !in verb && NEWLINE !in date && NEWLINE !in path && NEWLINE !in key
      ensures var header := GetHeader(verb, key, date, hmacSha1, base64);
        var lines := Strings.Split(StringToSign(verb, date, RelativePath(path, key)), NEWLINE);
        && |lines| == 5
        && lines[0] == verb
        && header[0] == "Date: " + lines[3]
        && header[1] == "Content-Type: " + lines[2]
        && lines[4] == path + "/" + key
    {
      assert NEWLINE !in RelativePath(path, key);
      StringToSignLines(verb, date, RelativePath(path, key));
    }
  }
}
