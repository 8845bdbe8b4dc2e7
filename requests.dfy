/**
 * The request helpers of MyHttp on a connection that getURLConnection has
 * just opened: postForm, postJson, uploadFile and uploadImage. Each one
 * sets the connection's headers, writes its body to the output stream and
 * returns the reply as joined by getResponseContent.
 */
module Requests {
  import opened Wrappers
  import opened JavaText
  import opened Utf8
  import opened ResponseText
  import opened Connections
  import opened FormBody
  import opened Multipart

  const FormContentType := "application/x-www-form-urlencoded"
  const JsonContentType := "application/json"
  const ImageField := "img1"
  const ImageType := "image/jpeg"

  /* ---- postForm ---- */

  /** The bytes postForm writes: the encoded form, or nothing for a null or empty map. */
  function FormBytes(inputs: Option<Entries>, enc: string -> string): seq<byte> {
    if inputs.Some? && |inputs.value| > 0 then Encode(FormEncode(inputs.value, enc)) else []
  }

  /**
   * postForm(inputs, conn): writes the form body only when there are
   * entries, and reads the reply in every case.
   */
  method PostForm(inputs: Option<Entries>, conn: Connection, enc: string -> string) returns (content: string)
    modifies conn`sent
    ensures conn.sent == old(conn.sent) + FormBytes(inputs, enc)
    ensures content == StripLineBreaks(conn.reply)
  {
    if inputs.Some? && |inputs.value| > 0 {
      var body := BuildForm(inputs.value, enc);
      conn.Write(Encode(body));
    }
    content := conn.ResponseContent();
  }

  /** postForm(url, inputs): the form content type on a new connection, then postForm. */
  method PostFormTo(inputs: Option<Entries>, conn: Connection, enc: string -> string, nonce: Long)
    returns (content: string)
    modifies conn`headers, conn`sent
    ensures conn.headers == ConnectionHeaders(old(conn.headers), Some(FormContentType), None, nonce)
    ensures conn.sent == old(conn.sent) + FormBytes(inputs, enc)
    ensures content == StripLineBreaks(conn.reply)
  {
    ConfigureHeaders(conn, Some(FormContentType), None, nonce);
    content := PostForm(inputs, conn, enc);
  }

  /** A fixed content type passes the header guard: its first two chars are above U+0020. */
  lemma FixedTypePasses(t: string)
    requires |t| >= 2 && !IsTrimmable(t[0]) && !IsTrimmable(t[1])
    ensures HeaderGuard(Some(t))
  {
    HeaderGuardMeaning(Some(t));
  }

  /**
   * The headers of a form or JSON request: Content-Type is the fixed type,
   * no cookie is added, and the two always-set headers are present.
   */
  lemma FixedTypeHeaders(h: Headers, t: string, nonce: Long)
    requires |t| >= 2 && !IsTrimmable(t[0]) && !IsTrimmable(t[1])
    ensures Values(ConnectionHeaders(h, Some(t), None, nonce), ContentTypeKey) == [t]
    ensures Values(ConnectionHeaders(h, Some(t), None, nonce), CookieKey) == Values(h, CookieKey)
    ensures ConnectionHeaders(h, Some(t), None, nonce)[UpgradeKey] == ["1"]
    ensures ConnectionHeaders(h, Some(t), None, nonce)[UserAgentKey] == [UserAgent(nonce)]
  {
    FixedTypePasses(t);
  }

  /** postForm(url, inputs) sends Content-Type: application/x-www-form-urlencoded. */
  lemma FormRequestType(h: Headers, nonce: Long)
    ensures Values(ConnectionHeaders(h, Some(FormContentType), None, nonce), ContentTypeKey) == [FormContentType]
  {
    FixedTypeHeaders(h, FormContentType, nonce);
  }

  /* ---- postJson ---- */

  /** postJson's test: a present text with something left after trim. */
  predicate JsonGuard(json: Option<string>) {
    json.Some? && Utf16Length(Trim(json.value)) > 0
  }

  /** The JSON guard holds exactly for a present text with one char above U+0020. */
  lemma JsonGuardMeaning(json: Option<string>)
    ensures JsonGuard(json) <==> (json.Some? && exists i :: 0 <= i < |json.value| && !IsTrimmable(json.value[i]))
  {
    if json.Some? {
      TrimLengthPositive(json.value);
    }
  }

  /**
   * postJson's threshold is lower than getUrlConnection's: every text that
   * passes the header guard passes the JSON guard, and a text of one code
   * unit above U+0020 passes only the JSON guard.
   */
  lemma JsonGuardWeaker(s: Option<string>, c: char)
    requires !IsTrimmable(c) && !IsSupplementary(c)
    ensures HeaderGuard(s) ==> JsonGuard(s)
    ensures JsonGuard(Some([c])) && !HeaderGuard(Some([c]))
  {
    HeaderGuardMeaning(s);
    JsonGuardMeaning(s);
    HeaderGuardMeaning(Some([c]));
    JsonGuardMeaning(Some([c]));
    assert [c][0] == c;
  }

  /** A single char outside the Basic Multilingual Plane is two code units long and passes both guards. */
  lemma SupplementaryPassesBoth(c: char)
    requires IsSupplementary(c)
    ensures JsonGuard(Some([c])) && HeaderGuard(Some([c]))
  {
    HeaderGuardMeaning(Some([c]));
    JsonGuardMeaning(Some([c]));
    assert [c][0] == c;
  }

  /** The bytes postJson writes: the text's UTF-8 bytes, or nothing. */
  function JsonBytes(json: Option<string>): seq<byte> {
    if JsonGuard(json) then Encode(json.value) else []
  }

  /** postJson(url, json): the JSON content type on a new connection, the text when it is not blank, the reply. */
  method PostJson(json: Option<string>, conn: Connection, nonce: Long) returns (content: string)
    modifies conn`headers, conn`sent
    ensures conn.headers == ConnectionHeaders(old(conn.headers), Some(JsonContentType), None, nonce)
    ensures conn.sent == old(conn.sent) + JsonBytes(json)
    ensures content == StripLineBreaks(conn.reply)
  {
    ConfigureHeaders(conn, Some(JsonContentType), None, nonce);
    if json.Some? && Utf16Length(Trim(json.value)) > 0 {
      conn.Write(Encode(json.value));
    }
    content := conn.ResponseContent();
  }

  /** postJson sends Content-Type: application/json. */
  lemma JsonRequestType(h: Headers, nonce: Long)
    ensures Values(ConnectionHeaders(h, Some(JsonContentType), None, nonce), ContentTypeKey) == [JsonContentType]
  {
    FixedTypeHeaders(h, JsonContentType, nonce);
  }

  /* ---- uploadFile and uploadImage ---- */

  /**
   * The headers of uploadFile: those of getURLConnection with no content
   * type and no cookie, then Content-Type set to the multipart type with
   * the boundary, and Upgrade-Insecure-Requests set once more.
   */
  function UploadHeaders(h: Headers, agentNonce: Long, boundary: string): (r: Headers)
    ensures r.Keys == h.Keys + {UpgradeKey, UserAgentKey, ContentTypeKey}
    ensures r[ContentTypeKey] == [BoundaryContentType(boundary)]
    ensures r[UpgradeKey] == ["1"] && r[UserAgentKey] == [UserAgent(agentNonce)]
    ensures Values(r, CookieKey) == Values(h, CookieKey)
    ensures forall k :: (k in h && k != ContentTypeKey && k != UpgradeKey && k != UserAgentKey ==> r[k] == h[k])
  {
    var h1 := ConnectionHeaders(h, None, None, agentNonce);
    assert |CookieKey| == 6 && |ContentTypeKey| == 12 && |UpgradeKey| == 25 && |UserAgentKey| == 10;
    SetProperty(SetProperty(h1, ContentTypeKey, BoundaryContentType(boundary)), UpgradeKey, "1")
  }

  /** The eleven writes of uploadFile, regrouped as head, content and tail. */
  lemma WritesRegroup(o: seq<byte>, w1: seq<byte>, w2: seq<byte>, w3: seq<byte>, w4: seq<byte>, w5: seq<byte>,
                      w6: seq<byte>, w7: seq<byte>, img: seq<byte>, w9: seq<byte>, w10: seq<byte>, w11: seq<byte>)
    ensures o + w1 + w2 + w3 + w4 + w5 + w6 + w7 + img + w9 + w10 + w11
      == o + ((w1 + w2 + w3 + w4 + w5 + w6 + w7) + img + (w9 + w10 + w11))
  {
  }

  /** CRLF.getBytes(UTF_8). */
  lemma CrLfBytes()
    ensures Encode("\r\n") == CRLF
  {
  }

  /** The eleven os.write calls of uploadFile, in order. */
  method WritePart(conn: Connection, boundary: string, name: string, filename: string, contentType: string,
                   img: seq<byte>)
    modifies conn`sent
    ensures conn.sent == old(conn.sent) + MultipartBody(boundary, name, filename, contentType, img)
  {
    CrLfBytes();
    var open, disposition, typeLine := Encode("--" + boundary), Encode(DispositionLine(name, filename)),
      Encode(TypeStart + contentType);
    var close := Encode("--" + boundary + "--");
    ghost var o := conn.sent;
    conn.Write(open);
    conn.Write(Encode("\r\n"));
    conn.Write(disposition);
    conn.Write(Encode("\r\n"));
    conn.Write(typeLine);
    conn.Write(Encode("\r\n"));
    conn.Write(Encode("\r\n"));
    conn.Write(img);
    conn.Write(Encode("\r\n"));
    conn.Write(close);
    conn.Write(Encode("\r\n"));
    WritesRegroup(o, open, CRLF, disposition, CRLF, typeLine, CRLF, CRLF, img, CRLF, close, CRLF);
  }

  /**
   * uploadFile(img, url, inputName, filename, contentType) on a new
   * connection: the boundary from its nonce, the multipart Content-Type,
   * then the part written and the reply read.
   */
  method UploadFile(img: seq<byte>, conn: Connection, name: string, filename: string, contentType: string,
                    agentNonce: Long, boundaryNonce: Long) returns (content: string)
    modifies conn`headers, conn`sent
    ensures conn.headers == UploadHeaders(old(conn.headers), agentNonce, Boundary(boundaryNonce))
    ensures conn.sent == old(conn.sent) + MultipartBody(Boundary(boundaryNonce), name, filename, contentType, img)
    ensures content == StripLineBreaks(conn.reply)
  {
    ConfigureHeaders(conn, None, None, agentNonce);
    var boundary := Boundary(boundaryNonce);
    conn.SetRequestProperty(ContentTypeKey, BoundaryContentType(boundary));
    conn.SetRequestProperty(UpgradeKey, "1");
    WritePart(conn, boundary, name, filename, contentType, img);
    content := conn.ResponseContent();
  }

  /** String.format("%s.%s", System.nanoTime(), "jpg"). */
  function ImageFilename(nonce: Long): string {
    IntToString(nonce) + ".jpg"
  }

  /** uploadImage(img, url): uploadFile with field img1, filename <nonce>.jpg and type image/jpeg. */
  method UploadImage(img: seq<byte>, conn: Connection, agentNonce: Long, fileNonce: Long, boundaryNonce: Long)
    returns (content: string)
    modifies conn`headers, conn`sent
    ensures conn.headers == UploadHeaders(old(conn.headers), agentNonce, Boundary(boundaryNonce))
    ensures conn.sent == old(conn.sent)
      + MultipartBody(Boundary(boundaryNonce), ImageField, ImageFilename(fileNonce), ImageType, img)
    ensures content == StripLineBreaks(conn.reply)
  {
    content := UploadFile(img, conn, ImageField, ImageFilename(fileNonce), ImageType, agentNonce, boundaryNonce);
  }

  /** The image filename holds no CR: the digits, an optional sign and ".jpg". */
  lemma ImageFilenameNoCR(nonce: Long)
    ensures '\r' !in ImageFilename(nonce)
  {
    var digits := IntToString(nonce);
    assert '\r' !in digits by {
      assert IsRegexSpace('\r');
      forall i | 0 <= i < |digits| ensures digits[i] != '\r' {
        assert !IsRegexSpace(digits[i]);
      }
    }
    assert '\r' !in ".jpg";
  }

  /**
   * What uploadImage writes reads back as one part named img1, with the
   * filename <nonce>.jpg, type image/jpeg and the image bytes unchanged.
   */
  lemma UploadImageRoundTrip(img: seq<byte>, fileNonce: Long, boundaryNonce: Long)
    ensures ParsePart(MultipartBody(Boundary(boundaryNonce), ImageField, ImageFilename(fileNonce), ImageType, img),
                      Encode(Boundary(boundaryNonce)))
      == Some(FilePart(Encode(ImageField), Encode(ImageFilename(fileNonce)), Encode(ImageType), img))
  {
    assert '"' !in ImageField && '\r' !in ImageField && '\r' !in ImageType;
    ImageFilenameNoCR(fileNonce);
    MultipartRoundTrip(Boundary(boundaryNonce), ImageField, ImageFilename(fileNonce), ImageType, img);
  }
}
