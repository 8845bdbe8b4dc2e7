# MyHttp request helpers in Dafny

`MyHttp` is a small Java utility class with static helpers over
`java.net.URLConnection`. This project models the logic inside those
helpers and proves properties of it. The network exchange itself is not
modelled.

- `getMap` builds a map from a flat key/value argument list.
- `getResponseCode(URLConnection)` reads the status code from the status
  line (section 4 of RFC 9112).
- `getUrlConnection` sets up the request headers: Cookie, Content-Type,
  Upgrade-Insecure-Requests and User-Agent.
- `postForm(Map, URLConnection)` writes the
  `application/x-www-form-urlencoded` body (section 17.13.4.1 of HTML 4.01).
- `postJson` writes the JSON text unless it is blank.
- `uploadFile` and `uploadImage` frame one `multipart/form-data` part
  (section 4 of RFC 7578, delimiters as in section 5.1.1 of RFC 2046).
- `getResponseContent` joins the lines of the reply.

Modules, one per file:

- `Wrappers`: `Option` and `Result`.
- `Search`: the index of the first occurrence of an element in a sequence.
- `JavaText`: the Java library behaviour the helpers use.
  - `String.trim`.
  - `String.length()`, which counts UTF-16 code units: two for a char outside the Basic Multilingual Plane.
  - The regex class `\s`.
  - `Integer.parseInt` (behind `Integer.valueOf`).
  - `Long.toString` (behind `String.format("%s", long)`).
- `Utf8`: `String.getBytes(UTF_8)` as a real UTF-8 encoder over Unicode scalar values.
- `KeyValues`: `getMap`, as a method with the source's index loop.
- `StatusLine`:
  - `String.split("\\s+")` with Java's rules: a leading empty token, trailing empty tokens dropped.
  - `getResponseCode`.
- `ResponseText`:
  - `BufferedReader.readLine`, with `\n`, `\r` and `\r\n` as terminators.
  - The line-joining result.
- `Connections`:
  - a `Connection` class with these fields: the request-property table, the bytes written to the output stream, the decoded reply text and the status line;
  - the `getResponseContent` loop;
  - `getResponseCode` on the connection's status line;
  - the header logic of `getUrlConnection`.
- `FormBody`: the `postForm` loop, and a reader for the body it builds.
- `Multipart`: the bytes `uploadFile` writes, and a reader that takes them apart again.
- `Requests`: `postForm`, `postJson`, `uploadFile` and `uploadImage` as methods on a `Connection`.

These parts of a request are parameters of the model:

- The value of `System.nanoTime()` is a `Long` parameter (the nonce).
- `URLEncoder.encode` is an uninterpreted function parameter `enc`.
- The server's reply is the `reply` field of the connection.

## Model

| member | source | states |
|---|---|---|
| KeyValues.GetMap | src/main/java/com/fd/myhttputils/MyHttp.java:240-248 | returns None exactly when the list is null, empty or odd-length. Otherwise it returns the map that puts kvs[i] to kvs[i+1] for even i, left to right. |
| KeyValues.PairsMapKeys | src/main/java/com/fd/myhttputils/MyHttp.java:243-245 | the key set is exactly the set of elements at even indices |
| KeyValues.PairsMapLastWins | src/main/java/com/fd/myhttputils/MyHttp.java:243-245 | a key maps to the value after its last occurrence: later duplicates overwrite earlier ones |
| StatusLine.JavaSplit | src/main/java/com/fd/myhttputils/MyHttp.java:90 | split("\\s+"): no token holds \s, only token 0 can be empty, and it is non-empty unless the line is empty or starts with \s |
| StatusLine.ResponseCode | src/main/java/com/fd/myhttputils/MyHttp.java:88-91 | fails with NoStatusLine exactly when the header field is null; a successful result is within int range |
| StatusLine.ResponseCodeOfStatusLine | src/main/java/com/fd/myhttputils/MyHttp.java:88-91 | for "version SP code SP reason", with any reason phrase (spaces allowed, empty allowed), the result is exactly the code |
| StatusLine.ResponseCodeNotFound | src/main/java/com/fd/myhttputils/MyHttp.java:88-91 | "HTTP/1.1 404 Not Found" gives 404 |
| StatusLine.ResponseCodeOneWord | src/main/java/com/fd/myhttputils/MyHttp.java:90 | a line of one word, optionally followed by \s, has no token [1] (ArrayIndexOutOfBounds) |
| StatusLine.ResponseCodeLeadingSpace | src/main/java/com/fd/myhttputils/MyHttp.java:90 | leading \s makes token [0] empty, so token [1] is the version; a version that is not an int gives NotAnInt |
| StatusLine.SplitTwoWords | src/main/java/com/fd/myhttputils/MyHttp.java:90 | splitting two words separated by \s runs yields those words as tokens [0] and [1] |
| JavaText.Trim | src/main/java/com/fd/myhttputils/MyHttp.java:113 | String.trim: the slice between the first and the last char above U+0020. Everything cut off is at most U+0020. |
| JavaText.Utf16Length | src/main/java/com/fd/myhttputils/MyHttp.java:113 | String.length() in UTF-16 code units: between |s| and 2|s|, and equal to |s| exactly when no char lies outside the Basic Multilingual Plane |
| JavaText.TrimLengthPositive | src/main/java/com/fd/myhttputils/MyHttp.java:225 | trim().length() > 0, counted in UTF-16 code units, exactly when some char is above U+0020 |
| JavaText.TrimLengthAboveOne | src/main/java/com/fd/myhttputils/MyHttp.java:113 | trim().length() > 1, counted in UTF-16 code units, exactly when two chars are above U+0020 or one char lies outside the Basic Multilingual Plane (a surrogate pair) |
| JavaText.ParseInt | src/main/java/com/fd/myhttputils/MyHttp.java:90 | Integer.valueOf: a value is produced only for an optional sign followed by digits, and lies in int range |
| JavaText.ParseIntToString | src/main/java/com/fd/myhttputils/MyHttp.java:90 | parsing the decimal text of any int returns that int |
| JavaText.IntToString | src/main/java/com/fd/myhttputils/MyHttp.java:120 | the decimal text of a long: non-empty, free of \s, with a '-' exactly for negative values and digits otherwise |
| JavaText.IntToStringInjective | src/main/java/com/fd/myhttputils/MyHttp.java:120 | distinct numbers have distinct decimal text |
| Utf8.EncodeChar | src/main/java/com/fd/myhttputils/MyHttp.java:207 | getBytes(UTF_8) of one char: one to four bytes; ASCII is its own code; every other char gives bytes of at least 0x80 only |
| Utf8.EncodeAppend | src/main/java/com/fd/myhttputils/MyHttp.java:279-290 | the encoding of a concatenation is the concatenation of the encodings |
| Utf8.EncodeHasAscii | src/main/java/com/fd/myhttputils/MyHttp.java:281-284 | an ASCII byte occurs in the encoding exactly when its char occurs in the text |
| Connections.HeaderGuardMeaning | src/main/java/com/fd/myhttputils/MyHttp.java:113-118 | the guard `s != null && s.trim().length() > 1` holds exactly when s has two chars above U+0020 or one char outside the Basic Multilingual Plane, as length() counts UTF-16 code units |
| Connections.UserAgentDeterminesNonce | src/main/java/com/fd/myhttputils/MyHttp.java:120-121 | the user agent "Windows/<nonce>/Chrome/Safari/QQBrowser/Mozilla/Firefox/IE" determines its nonce |
| Connections.HeaderUpdates | src/main/java/com/fd/myhttputils/MyHttp.java:113-121 | the four header updates, given the outcome of the two guards: the key set, the values under each key, and every other key unchanged |
| Connections.ConnectionHeaders | src/main/java/com/fd/myhttputils/MyHttp.java:113-121 | Cookie is appended and Content-Type replaced exactly when the guard holds; the stored value is untrimmed. Upgrade-Insecure-Requests is "1" and User-Agent is the nonce agent. No other key changes. |
| Connections.ConfigureHeaders | src/main/java/com/fd/myhttputils/MyHttp.java:113-121 | the in-place updates on the connection leave its table equal to ConnectionHeaders of the old table |
| Connections.Connection.GetResponseCode | src/main/java/com/fd/myhttputils/MyHttp.java:88-91 | getResponseCode(conn) reads the code from the connection's status line (getHeaderField(0)); it fails with NoStatusLine exactly when there is none |
| Connections.Connection.AddRequestProperty | src/main/java/com/fd/myhttputils/MyHttp.java:114 | addRequestProperty appends a value to those already under the key |
| Connections.Connection.SetRequestProperty | src/main/java/com/fd/myhttputils/MyHttp.java:117 | setRequestProperty replaces the key's values by the one value |
| Connections.Connection.Write | src/main/java/com/fd/myhttputils/MyHttp.java:207 | a write appends its bytes to those already written |
| Connections.Connection.ResponseContent | src/main/java/com/fd/myhttputils/MyHttp.java:160-172 | the readLine loop returns the reply with every CR and LF removed; the result holds none and is no longer than the reply |
| ResponseText.ReadLine | src/main/java/com/fd/myhttputils/MyHttp.java:163-166 | readLine returns null exactly at the end; otherwise it returns a line without CR or LF and moves forward |
| ResponseText.ReadLineStrips | src/main/java/com/fd/myhttputils/MyHttp.java:163-166 | each line read is the stripped text up to the reader's next position |
| ResponseText.StripLineBreaks | src/main/java/com/fd/myhttputils/MyHttp.java:160-168 | the joined text holds no CR or LF and is no longer than the reply |
| ResponseText.StripFixedPoints | src/main/java/com/fd/myhttputils/MyHttp.java:160-168 | joining leaves a text unchanged exactly when it has no CR and no LF |
| ResponseText.StripIdempotent | src/main/java/com/fd/myhttputils/MyHttp.java:160-168 | joining twice gives the same as joining once |
| ResponseText.StripExample | src/main/java/com/fd/myhttputils/MyHttp.java:160-168 | "abc\ndef" joins to "abcdef" |
| ResponseText.StripAppend | src/main/java/com/fd/myhttputils/MyHttp.java:165 | joining distributes over concatenation |
| FormBody.BuildForm | src/main/java/com/fd/myhttputils/MyHttp.java:197-206 | the iterator loop with a conditional '&' builds exactly the key=enc(value) fields joined by '&' |
| FormBody.FormRoundTrip | src/main/java/com/fd/myhttputils/MyHttp.java:199-206 | with keys free of '&' and '=' and encoded values free of '&', the body reads back as the entries in order: keys unencoded, values encoded |
| FormBody.FormSeparators | src/main/java/com/fd/myhttputils/MyHttp.java:203-205 | with keys and encoded values free of '&', n entries give exactly n-1 '&' |
| FormBody.FormStartsWithKey | src/main/java/com/fd/myhttputils/MyHttp.java:201 | the body starts with the first key verbatim and '=' (no leading '&') |
| FormBody.FormEndsWithLastField | src/main/java/com/fd/myhttputils/MyHttp.java:203-205 | the body ends with the last field (no trailing '&') |
| FormBody.SplitJoin | src/main/java/com/fd/myhttputils/MyHttp.java:203-205 | cutting the joined parts at the separator gives back the parts when none holds it |
| FormBody.JoinSeparators | src/main/java/com/fd/myhttputils/MyHttp.java:203-205 | joining n separator-free parts inserts exactly n-1 separators |
| Requests.PostForm | src/main/java/com/fd/myhttputils/MyHttp.java:194-213 | it writes the UTF-8 bytes of the form body only for a non-empty map, and nothing for a null or empty one; it returns the joined reply in both cases |
| Requests.PostFormTo | src/main/java/com/fd/myhttputils/MyHttp.java:181-185 | postForm(url, inputs): the form content type in the header table, then postForm |
| Requests.FormRequestType | src/main/java/com/fd/myhttputils/MyHttp.java:29 | the form request's Content-Type is application/x-www-form-urlencoded |
| Requests.FixedTypeHeaders | src/main/java/com/fd/myhttputils/MyHttp.java:182 | a fixed content type with a null cookie: Content-Type is that type, Cookie is unchanged, and both always-set headers are present |
| Requests.JsonGuardMeaning | src/main/java/com/fd/myhttputils/MyHttp.java:225 | `json != null && json.trim().length() > 0` holds exactly when json has a char above U+0020 |
| Requests.JsonGuardWeaker | src/main/java/com/fd/myhttputils/MyHttp.java:225 | the JSON threshold is lower than the header one: the header guard implies the JSON guard, and a text of one code unit above U+0020 passes only the JSON guard |
| Requests.SupplementaryPassesBoth | src/main/java/com/fd/myhttputils/MyHttp.java:113-118 | a single char outside the Basic Multilingual Plane (such as U+1F600) is two UTF-16 code units, so it passes both the JSON guard and the header guard |
| Requests.PostJson | src/main/java/com/fd/myhttputils/MyHttp.java:222-232 | the JSON content type goes into the header table; the text's UTF-8 bytes are written unchanged exactly when the JSON guard holds, and nothing otherwise; the joined reply is returned |
| Requests.JsonRequestType | src/main/java/com/fd/myhttputils/MyHttp.java:27 | postJson's Content-Type is application/json |
| Requests.UploadHeaders | src/main/java/com/fd/myhttputils/MyHttp.java:273-277 | Content-Type is "multipart/form-data; boundary=B", Upgrade-Insecure-Requests is "1", User-Agent is set, Cookie is unchanged, and no other key changes |
| Requests.WritePart | src/main/java/com/fd/myhttputils/MyHttp.java:279-290 | the eleven writes append exactly MultipartBody |
| Requests.UploadFile | src/main/java/com/fd/myhttputils/MyHttp.java:272-295 | the boundary is "----WebKitFormBoundary" + nonce; the headers are UploadHeaders; the bytes written are the part's body; the joined reply is returned |
| Requests.UploadImage | src/main/java/com/fd/myhttputils/MyHttp.java:258-260 | uploadFile with field img1, filename <nonce>.jpg and type image/jpeg |
| Requests.ImageFilenameNoCR | src/main/java/com/fd/myhttputils/MyHttp.java:259 | the image filename "<nonce>.jpg" holds no CR |
| Requests.UploadImageRoundTrip | src/main/java/com/fd/myhttputils/MyHttp.java:258-260 | uploadImage's body reads back as field img1, filename <nonce>.jpg, type image/jpeg, and the image bytes unchanged |
| Multipart.MultipartRoundTrip | src/main/java/com/fd/myhttputils/MyHttp.java:274-290 | given the boundary, the body reads back as the name, filename, content type and the file bytes unchanged, whatever those bytes are. The name must hold no '"' and no header value a CR. |
| Multipart.DispositionRoundTrip | src/main/java/com/fd/myhttputils/MyHttp.java:281-282 | the Content-Disposition line reads back as its name and filename |
| Multipart.TypeLineRoundTrip | src/main/java/com/fd/myhttputils/MyHttp.java:284 | the Content-Type line reads back as its value |
| Multipart.BodyShape | src/main/java/com/fd/myhttputils/MyHttp.java:279-290 | the body is the open delimiter "--"B CRLF, the two header lines, an empty line, the content, then CRLF "--"B"--" CRLF |
| Multipart.ContentInPlace | src/main/java/com/fd/myhttputils/MyHttp.java:286-288 | the file's bytes sit unchanged between the header block and the trailer, and neither of those depends on them |
| Multipart.MultipartLength | src/main/java/com/fd/myhttputils/MyHttp.java:279-290 | the body's length is 84 fixed bytes, plus twice the boundary, plus the name, filename and type encodings, plus the content |
| Multipart.DispositionBytes | src/main/java/com/fd/myhttputils/MyHttp.java:281-282 | the encoded Content-Disposition line is the literal's bytes, the name, the filename literal, the filename and '"' |
| Multipart.DelimiterBytes | src/main/java/com/fd/myhttputils/MyHttp.java:279-289 | the delimiter lines encode as "--", the boundary and, for the close delimiter, "--" |
| Multipart.BoundaryDeterminesNonce | src/main/java/com/fd/myhttputils/MyHttp.java:274 | different nonces give different boundaries |
| Multipart.BoundaryIsAscii | src/main/java/com/fd/myhttputils/MyHttp.java:274 | the boundary is ASCII, so its encoding has one byte per char |
| Multipart.LiteralBytesFacts | src/main/java/com/fd/myhttputils/MyHttp.java:281-284 | the header literals hold no CR, have lengths 38, 13 and 14, and the filename literal starts with '"' |
| Requests.CrLfBytes | src/main/java/com/fd/myhttputils/MyHttp.java:297 | CRLF.getBytes(UTF_8) is the two bytes 13, 10 |

## Left out

- Opening a connection is not modelled: `openConnection`, the proxy, `setConnectTimeout`, `setDoOutput` and `setUseCaches`. Each method starts from a `Connection` that is already open.
- The network exchange is not modelled. The reply is a field fixed when the connection is made, and it does not depend on what was sent.
- `getData`, `getLocation`, `getContent` and the overloads that only pass defaults are not modelled. None adds logic beyond one call.
- `getResponseContent`'s charset decoding is not modelled. The reply is already-decoded text.
- `URLEncoder.encode` is uninterpreted: it is the parameter `enc`.
- `System.nanoTime()` is a parameter, one per call site.
- HashMap iteration order is not modelled. The form input is a sequence of entries in the order its iterator yields them.
- Null elements in `kvs`, and null keys or values in the form map, are not modelled: elements are strings. `uploadFile`'s `img`, name, filename and type are non-null values, so `String.format` never prints "null".
- The initial capacity `kvs.length % 2` (always 0) passed to the HashMap has no observable effect.
- URLConnection compares header keys without regard to case. The model's table compares them exactly, which is the same for the fixed keys the helpers use.
- Exceptions are represented as results: `IllegalStateException` for I/O errors is left out, and `getResponseCode`'s NullPointerException, ArrayIndexOutOfBoundsException and NumberFormatException are the `Err` cases of `ResponseCode`.
- Utf8.EncodeChar: a Java string may hold an unpaired surrogate, which `getBytes(UTF_8)` writes as '?'. A Dafny char is a Unicode scalar value, so such strings cannot be expressed and the model says nothing about them.
- JavaText.Utf16Length: an unpaired surrogate would count as one code unit above U+0020 in `trim().length()`. Such strings cannot be expressed (see the line above), so the guards are modelled only for well-formed text.
- ParseInt: accepts only ASCII digits. Java's `Character.digit` also accepts other Unicode decimal digits.
- Nothing in MyHttp is concurrent, so concurrency is not modelled.
