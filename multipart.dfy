/**
 * The body of MyHttp.uploadFile: one multipart/form-data part (section 4
 * of RFC 7578) between the delimiter "--" boundary and the close delimiter
 * "--" boundary "--" of section 5.1.1 of RFC 2046, with CRLF line ends.
 */
module Multipart {
  import opened Wrappers
  import opened JavaText
  import opened Utf8
  import opened Search

  const MultipartContentType := "multipart/form-data"
  const BoundaryPrefix := "----WebKitFormBoundary"
  const DispositionStart := "Content-Disposition: form-data; name=\""
  const FilenameStart := "\"; filename=\""
  const TypeStart := "Content-Type: "
  const Quote: byte := 34

  /* The same literals as bytes, for the reader below. */
  const DashBytes: seq<byte> := [45, 45]
  const DispositionStartBytes: seq<byte> := (DispositionStartText(); AsciiBytes(DispositionStart))
  const FilenameStartBytes: seq<byte> := (FilenameStartText(); AsciiBytes(FilenameStart))
  const TypeStartBytes: seq<byte> := (TypeStartText(); AsciiBytes(TypeStart))

  /** String.format("----WebKitFormBoundary%s", System.nanoTime()). */
  function Boundary(nonce: Long): string {
    BoundaryPrefix + IntToString(nonce)
  }

  /** The request's Content-Type: "multipart/form-data; boundary=<boundary>". */
  function BoundaryContentType(boundary: string): string {
    MultipartContentType + "; boundary=" + boundary
  }

  function DispositionLine(name: string, filename: string): string {
    DispositionStart + name + FilenameStart + filename + "\""
  }

  /** The bytes before the file: delimiter, the part's two header lines and the empty line. */
  function PartHead(boundary: string, name: string, filename: string, contentType: string): seq<byte> {
    Encode("--" + boundary) + CRLF + Encode(DispositionLine(name, filename)) + CRLF
      + Encode(TypeStart + contentType) + CRLF + CRLF
  }

  /** The bytes after the file: CRLF, the close delimiter and CRLF. */
  function PartTail(boundary: string): seq<byte> {
    CRLF + Encode("--" + boundary + "--") + CRLF
  }

  /** Everything uploadFile writes to the output stream, in order. */
  function MultipartBody(boundary: string, name: string, filename: string, contentType: string,
                         content: seq<byte>): seq<byte> {
    PartHead(boundary, name, filename, contentType) + content + PartTail(boundary)
  }

  /* ---- Reading a part back ---- */

  /** A part as read from the wire, each field still as bytes. */
  datatype FilePart = FilePart(name: seq<byte>, filename: seq<byte>, contentType: seq<byte>, content: seq<byte>)

  /** The index of the first CRLF in s, or |s| when there is none. */
  function FindCRLF(s: seq<byte>): (k: nat)
    ensures k <= |s|
    ensures k < |s| ==> k + 1 < |s| && s[k] == CR && s[k + 1] == LF
    ensures forall j :: 0 <= j < k && j + 1 < |s| ==> !(s[j] == CR && s[j + 1] == LF)
  {
    if |s| < 2 then |s|
    else if s[0] == CR && s[1] == LF then 0
    else 1 + FindCRLF(s[1..])
  }

  /** The rest of s after the prefix p, None when s does not start with p. */
  function StripPrefix(s: seq<byte>, p: seq<byte>): (r: Option<seq<byte>>)
    ensures r.Some? <==> |p| <= |s| && s[..|p|] == p
    ensures r.Some? ==> s == p + r.value
  {
    if |p| <= |s| && s[..|p|] == p then Some(s[|p|..]) else None
  }

  /** The start of s before the suffix q, None when s does not end with q. */
  function StripSuffix(s: seq<byte>, q: seq<byte>): (r: Option<seq<byte>>)
    ensures r.Some? <==> |q| <= |s| && s[|s| - |q|..] == q
    ensures r.Some? ==> s == r.value + q
  {
    if |q| <= |s| && s[|s| - |q|..] == q then Some(s[..|s| - |q|]) else None
  }

  /** The name and the filename of a Content-Disposition line. */
  function ParseDisposition(line: seq<byte>): Option<(seq<byte>, seq<byte>)> {
    match StripPrefix(line, DispositionStartBytes)
    case None => None
    case Some(afterStart) =>
      match StripSuffix(afterStart, [Quote])
      case None => None
      case Some(m) =>
        var q := IndexOf(m, Quote);
        match StripPrefix(m[q..], FilenameStartBytes)
        case None => None
        case Some(filename) => Some((m[..q], filename))
  }

  /** The value of a Content-Type line. */
  function ParseTypeLine(line: seq<byte>): Option<seq<byte>> {
    StripPrefix(line, TypeStartBytes)
  }

  /** The text of a line ended by the first CRLF, and what follows that CRLF. */
  function TakeLine(s: seq<byte>): Option<(seq<byte>, seq<byte>)> {
    var i := FindCRLF(s);
    if i == |s| then None else Some((s[..i], s[i + 2..]))
  }

  /**
   * Reads a body of one part framed by the given boundary: the delimiter
   * line, the Content-Disposition and Content-Type lines, an empty line,
   * the content, and CRLF with the close delimiter at the very end.
   */
  function ParsePart(body: seq<byte>, boundary: seq<byte>): Option<FilePart> {
    var open := DashBytes + boundary + CRLF;
    var close := CRLF + (DashBytes + boundary + DashBytes) + CRLF;
    match StripPrefix(body, open)
    case None => None
    case Some(afterOpen) =>
      match StripSuffix(afterOpen, close)
      case None => None
      case Some(inner) =>
        match TakeLine(inner)
        case None => None
        case Some((line1, rest1)) =>
          match TakeLine(rest1)
          case None => None
          case Some((line2, rest2)) =>
            match StripPrefix(rest2, CRLF)
            case None => None
            case Some(content) =>
              match (ParseDisposition(line1), ParseTypeLine(line2))
              case (Some((name, filename)), Some(contentType)) => Some(FilePart(name, filename, contentType, content))
              case _ => None
  }

  /* ---- Lemmas ---- */

  lemma FindCRLFIs(x: seq<byte>, rest: seq<byte>)
    requires CR !in x
    ensures FindCRLF(x + CRLF + rest) == |x|
  {
    var s := x + CRLF + rest;
    assert s[|x|] == CR && s[|x| + 1] == LF;
    assert forall j :: 0 <= j < |x| ==> s[j] == x[j];
  }

  lemma StripPrefixOf(p: seq<byte>, rest: seq<byte>)
    ensures StripPrefix(p + rest, p) == Some(rest)
  {
    assert (p + rest)[..|p|] == p;
  }

  lemma StripSuffixOf(rest: seq<byte>, q: seq<byte>)
    ensures StripSuffix(rest + q, q) == Some(rest)
  {
    assert (rest + q)[|rest|..] == q;
  }

  lemma TakeLineOf(x: seq<byte>, rest: seq<byte>)
    requires CR !in x
    ensures TakeLine(x + CRLF + rest) == Some((x, rest))
  {
    FindCRLFIs(x, rest);
    var s := x + CRLF + rest;
    assert s[..|x|] == x && s[|x| + 2..] == rest;
  }

  /* Facts about the literal texts, one small lemma each so that the solver sees one literal at a time. */

  lemma DispositionStartText()
    ensures IsAscii(DispositionStart)
  {
  }

  lemma DispositionStartShape()
    ensures |DispositionStart| == 38 && '\r' !in DispositionStart
  {
  }

  lemma FilenameStartText()
    ensures IsAscii(FilenameStart) && |FilenameStart| == 13 && '\r' !in FilenameStart && FilenameStart[0] == '"'
  {
  }

  lemma TypeStartText()
    ensures IsAscii(TypeStart) && |TypeStart| == 14 && '\r' !in TypeStart
  {
  }

  lemma BoundaryPrefixText()
    ensures IsAscii(BoundaryPrefix)
  {
  }

  lemma ShortLiteralEncoding()
    ensures Encode("--") == DashBytes && Encode("\"") == [Quote]
  {
  }

  /** The byte of an ASCII char that does not occur in the text does not occur in its encoding. */
  lemma NotInEncoding(s: string, c: char)
    requires c as int < 0x80 && c !in s
    ensures c as int as byte !in Encode(s)
  {
    EncodeHasAscii(s, c);
  }

  /** The literals are ASCII, so each one's encoding is its byte constant. */
  lemma LiteralEncodings()
    ensures Encode(DispositionStart) == DispositionStartBytes
    ensures Encode(FilenameStart) == FilenameStartBytes
    ensures Encode(TypeStart) == TypeStartBytes
  {
    DispositionStartText();
    FilenameStartText();
    TypeStartText();
    EncodeAsciiBytes(DispositionStart);
    EncodeAsciiBytes(FilenameStart);
    EncodeAsciiBytes(TypeStart);
  }

  /** The facts about the byte constants that the reader relies on. */
  lemma LiteralBytesFacts()
    ensures CR !in DispositionStartBytes && CR !in FilenameStartBytes && CR !in TypeStartBytes
    ensures |DispositionStartBytes| == 38 && |FilenameStartBytes| == 13 && |TypeStartBytes| == 14
    ensures FilenameStartBytes[0] == Quote
  {
    LiteralEncodings();
    DispositionStartText();
    DispositionStartShape();
    FilenameStartText();
    TypeStartText();
    NotInEncoding(DispositionStart, '\r');
    NotInEncoding(FilenameStart, '\r');
    NotInEncoding(TypeStart, '\r');
  }

  /** The encoded Content-Disposition line, piece by piece. */
  lemma DispositionBytes(name: string, filename: string)
    ensures Encode(DispositionLine(name, filename)) ==
      DispositionStartBytes + Encode(name) + FilenameStartBytes + Encode(filename) + [Quote]
  {
    ShortLiteralEncoding();
    LiteralEncodings();
    EncodeAppend(DispositionStart, name);
    EncodeAppend(DispositionStart + name, FilenameStart);
    EncodeAppend(DispositionStart + name + FilenameStart, filename);
    EncodeAppend(DispositionStart + name + FilenameStart + filename, "\"");
  }

  /** The encoded Content-Type line of the part. */
  lemma TypeLineBytes(contentType: string)
    ensures Encode(TypeStart + contentType) == TypeStartBytes + Encode(contentType)
  {
    LiteralEncodings();
    EncodeAppend(TypeStart, contentType);
  }

  /** The encoded delimiter lines. */
  lemma DelimiterBytes(boundary: string)
    ensures Encode("--" + boundary) == DashBytes + Encode(boundary)
    ensures Encode("--" + boundary + "--") == DashBytes + Encode(boundary) + DashBytes
  {
    ShortLiteralEncoding();
    EncodeAppend("--", boundary);
    EncodeAppend("--" + boundary, "--");
  }

  /** How ParseDisposition takes apart a line p + en + fp + ef + '"', for any pieces. */
  lemma DispositionSplit(p: seq<byte>, en: seq<byte>, fp: seq<byte>, ef: seq<byte>)
    requires Quote !in en && |fp| > 0 && fp[0] == Quote
    ensures StripPrefix(p + en + fp + ef + [Quote], p) == Some(en + fp + ef + [Quote])
    ensures StripSuffix(en + fp + ef + [Quote], [Quote]) == Some(en + fp + ef)
    ensures IndexOf(en + fp + ef, Quote) == |en|
    ensures (en + fp + ef)[..|en|] == en && (en + fp + ef)[|en|..] == fp + ef
    ensures StripPrefix(fp + ef, fp) == Some(ef)
  {
    assert p + en + fp + ef + [Quote] == p + (en + fp + ef + [Quote]);
    StripPrefixOf(p, en + fp + ef + [Quote]);
    StripSuffixOf(en + fp + ef, [Quote]);
    assert en + fp + ef == en + (fp + ef);
    IndexOfAfter(en, fp + ef, Quote);
    StripPrefixOf(fp, ef);
  }

  /** The Content-Disposition line reads back as its name and filename. */
  lemma DispositionRoundTrip(name: string, filename: string)
    requires '"' !in name
    ensures ParseDisposition(Encode(DispositionLine(name, filename))) == Some((Encode(name), Encode(filename)))
  {
    DispositionBytes(name, filename);
    LiteralBytesFacts();
    NotInEncoding(name, '"');
    DispositionSplit(DispositionStartBytes, Encode(name), FilenameStartBytes, Encode(filename));
  }

  /** The Content-Type line reads back as its value. */
  lemma TypeLineRoundTrip(contentType: string)
    ensures ParseTypeLine(Encode(TypeStart + contentType)) == Some(Encode(contentType))
  {
    TypeLineBytes(contentType);
    StripPrefixOf(TypeStartBytes, Encode(contentType));
  }

  /** Regrouping of the eleven writes of uploadFile into open delimiter, inner part and close delimiter. */
  lemma Regroup(dash: seq<byte>, b: seq<byte>, l1: seq<byte>, l2: seq<byte>, content: seq<byte>, delim: seq<byte>)
    ensures dash + b + CRLF + l1 + CRLF + l2 + CRLF + CRLF + content + (CRLF + delim + CRLF)
      == (dash + b + CRLF) + ((l1 + CRLF + (l2 + CRLF + (CRLF + content))) + (CRLF + delim + CRLF))
  {
  }

  /** The body is the open delimiter line, the inner part and the close delimiter line. */
  lemma BodyShape(boundary: string, name: string, filename: string, contentType: string, content: seq<byte>)
    ensures MultipartBody(boundary, name, filename, contentType, content) ==
      (DashBytes + Encode(boundary) + CRLF)
      + ((Encode(DispositionLine(name, filename)) + CRLF + (Encode(TypeStart + contentType) + CRLF + (CRLF + content)))
      + (CRLF + (DashBytes + Encode(boundary) + DashBytes) + CRLF))
  {
    DelimiterBytes(boundary);
    Regroup(DashBytes, Encode(boundary), Encode(DispositionLine(name, filename)), Encode(TypeStart + contentType),
            content, DashBytes + Encode(boundary) + DashBytes);
  }

  /** How ParsePart takes apart open + inner + close, for any delimiters and header lines free of CR. */
  lemma PartSplit(open: seq<byte>, l1: seq<byte>, l2: seq<byte>, content: seq<byte>, close: seq<byte>)
    requires CR !in l1 && CR !in l2
    ensures StripPrefix(open + ((l1 + CRLF + (l2 + CRLF + (CRLF + content))) + close), open)
      == Some((l1 + CRLF + (l2 + CRLF + (CRLF + content))) + close)
    ensures StripSuffix((l1 + CRLF + (l2 + CRLF + (CRLF + content))) + close, close)
      == Some(l1 + CRLF + (l2 + CRLF + (CRLF + content)))
    ensures TakeLine(l1 + CRLF + (l2 + CRLF + (CRLF + content))) == Some((l1, l2 + CRLF + (CRLF + content)))
    ensures TakeLine(l2 + CRLF + (CRLF + content)) == Some((l2, CRLF + content))
    ensures StripPrefix(CRLF + content, CRLF) == Some(content)
  {
    var inner := l1 + CRLF + (l2 + CRLF + (CRLF + content));
    StripPrefixOf(open, inner + close);
    StripSuffixOf(inner, close);
    TakeLineOf(l1, l2 + CRLF + (CRLF + content));
    TakeLineOf(l2, CRLF + content);
    StripPrefixOf(CRLF, content);
  }

  /**
   * The framing reads back: from uploadFile's bytes and the boundary, the
   * field name, filename and content type come back as written and the
   * content comes back unchanged, whatever bytes it holds. The name must not
   * hold '"', and no header value may hold CR, since either would end its
   * header early.
   */
  lemma MultipartRoundTrip(boundary: string, name: string, filename: string, contentType: string, content: seq<byte>)
    requires '"' !in name && '\r' !in name && '\r' !in filename && '\r' !in contentType
    ensures ParsePart(MultipartBody(boundary, name, filename, contentType, content), Encode(boundary))
      == Some(FilePart(Encode(name), Encode(filename), Encode(contentType), content))
  {
    var l1, l2 := Encode(DispositionLine(name, filename)), Encode(TypeStart + contentType);
    BodyShape(boundary, name, filename, contentType, content);
    assert CR !in l1 by {
      DispositionBytes(name, filename);
      LiteralBytesFacts();
      NotInEncoding(name, '\r');
      NotInEncoding(filename, '\r');
    }
    assert CR !in l2 by {
      TypeLineBytes(contentType);
      LiteralBytesFacts();
      NotInEncoding(contentType, '\r');
    }
    var eb := Encode(boundary);
    PartSplit(DashBytes + eb + CRLF, l1, l2, content, CRLF + (DashBytes + eb + DashBytes) + CRLF);
    DispositionRoundTrip(name, filename);
    TypeLineRoundTrip(contentType);
  }

  /** The body's length: the content plus a fixed frame of 84 bytes plus the encoded strings. */
  lemma MultipartLength(boundary: string, name: string, filename: string, contentType: string, content: seq<byte>)
    ensures |MultipartBody(boundary, name, filename, contentType, content)| ==
      84 + 2 * |Encode(boundary)| + |Encode(name)| + |Encode(filename)| + |Encode(contentType)| + |content|
  {
    LiteralBytesFacts();
    BodyShape(boundary, name, filename, contentType, content);
    DispositionBytes(name, filename);
    TypeLineBytes(contentType);
  }

  /**
   * The file's bytes sit unchanged between the header block and the
   * trailer, and neither of those depends on them.
   */
  lemma ContentInPlace(boundary: string, name: string, filename: string, contentType: string, content: seq<byte>)
    ensures var body, n := MultipartBody(boundary, name, filename, contentType, content),
                           |PartHead(boundary, name, filename, contentType)|;
      n + |content| <= |body| && body[..n] == PartHead(boundary, name, filename, contentType)
      && body[n..n + |content|] == content && body[n + |content|..] == PartTail(boundary)
  {
    var head := PartHead(boundary, name, filename, contentType);
    var body := head + content + PartTail(boundary);
    assert body[..|head|] == head;
    assert body[|head|..|head| + |content|] == content;
    assert body[|head| + |content|..] == PartTail(boundary);
  }

  /** Each nonce gives its own boundary. */
  lemma BoundaryDeterminesNonce(m: Long, n: Long)
    requires Boundary(m) == Boundary(n)
    ensures m == n
  {
    assert IntToString(m) == Boundary(m)[|BoundaryPrefix|..];
    assert IntToString(n) == Boundary(n)[|BoundaryPrefix|..];
    IntToStringInjective(m, n);
  }

  /** The boundary is ASCII, so its encoding is its text byte for byte. */
  lemma BoundaryIsAscii(nonce: Long)
    ensures IsAscii(Boundary(nonce)) && |Encode(Boundary(nonce))| == |Boundary(nonce)|
  {
    BoundaryPrefixText();
    var digits := IntToString(nonce);
    assert forall i :: 0 <= i < |digits| ==> digits[i] as int < 0x80 by {
      forall i | 0 <= i < |digits| ensures digits[i] as int < 0x80 {
        if nonce < 0 && i > 0 {
          assert digits[1..][i - 1] == digits[i];
        }
      }
    }
    EncodeAscii(Boundary(nonce));
  }
}
