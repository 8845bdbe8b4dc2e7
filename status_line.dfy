/**
 * MyHttp.getResponseCode(URLConnection): the status code is token [1] of the
 * first header field split with String.split("\\s+"), read by Integer.valueOf.
 * The field is the status line of section 4 of RFC 9112:
 * HTTP-version SP status-code SP [ reason-phrase ].
 */
module StatusLine {
  import opened Wrappers
  import opened JavaText

  /** The index of the first \s char of s, or |s| when there is none. */
  function FirstSpace(s: string): (k: nat)
    ensures k <= |s|
    ensures forall i :: 0 <= i < k ==> !IsRegexSpace(s[i])
    ensures k < |s| ==> IsRegexSpace(s[k])
  {
    if s == [] || IsRegexSpace(s[0]) then 0 else 1 + FirstSpace(s[1..])
  }

  /** The length of the run of \s chars that s starts with. */
  function SpaceRun(s: string): (k: nat)
    ensures k <= |s|
    ensures forall i :: 0 <= i < k ==> IsRegexSpace(s[i])
    ensures k < |s| ==> !IsRegexSpace(s[k])
  {
    if s != [] && IsRegexSpace(s[0]) then 1 + SpaceRun(s[1..]) else 0
  }

  /**
   * The text between consecutive matches of \s+ (each match a maximal run of
   * \s chars), an empty piece before a leading and after a trailing run included.
   */
  function Pieces(s: string): (r: seq<string>)
    ensures |r| >= 1
    ensures forall k :: 0 <= k < |r| ==> NoRegexSpace(r[k])
    ensures s != [] && !IsRegexSpace(s[0]) ==> r[0] != []
    ensures forall k :: 0 < k < |r| - 1 ==> r[k] != []
    decreases |s|
  {
    var i := FirstSpace(s);
    if i == |s| then [s]
    else
      var j := i + SpaceRun(s[i..]);
      [s[..i]] + Pieces(s[j..])
  }

  /** Removes the empty strings at the end, as split with limit 0 does. */
  function DropTrailingEmpty(p: seq<string>): (r: seq<string>)
    ensures |r| <= |p| && r == p[..|r|]
    ensures r != [] ==> r[|r| - 1] != []
    ensures forall k :: |r| <= k < |p| ==> p[k] == []
  {
    if p != [] && p[|p| - 1] == [] then DropTrailingEmpty(p[..|p| - 1]) else p
  }

  /**
   * String.split("\\s+"): the whole string when \s never matches, otherwise
   * the pieces without their trailing empty ones. Every token is free of
   * \s and only the first can be empty (when s starts with \s).
   */
  function JavaSplit(s: string): (r: seq<string>)
    ensures forall k :: 0 <= k < |r| ==> NoRegexSpace(r[k])
    ensures forall k :: 0 < k < |r| ==> r[k] != []
    ensures s != [] && !IsRegexSpace(s[0]) ==> |r| >= 1 && r[0] != []
  {
    if FirstSpace(s) == |s| then [s] else DropTrailingEmpty(Pieces(s))
  }

  /** Why getResponseCode throws: a null field, no token [1], or a token that is no int. */
  datatype CodeError = NoStatusLine | NoCodeToken | NotAnInt

  /**
   * getResponseCode(conn) on conn.getHeaderField(0): None stands for null
   * (NullPointerException), NoCodeToken for ArrayIndexOutOfBoundsException and
   * NotAnInt for NumberFormatException.
   */
  function ResponseCode(statusLine: Option<string>): (r: Result<int, CodeError>)
    ensures r.Ok? ==> MinInt <= r.value <= MaxInt
    ensures statusLine.None? <==> r == Err(NoStatusLine)
  {
    match statusLine
    case None => Err(NoStatusLine)
    case Some(line) =>
      var tokens := JavaSplit(line);
      if |tokens| < 2 then Err(NoCodeToken)
      else
        match ParseInt(tokens[1])
        case None => Err(NotAnInt)
        case Some(code) => Ok(code)
  }

  /* ---- Splitting lemmas ---- */

  lemma {:induction false} FirstSpaceAppend(a: string, b: string)
    requires NoRegexSpace(a)
    ensures FirstSpace(a + b) == |a| + FirstSpace(b)
  {
    if a == [] {
      assert a + b == b;
    } else {
      assert (a + b)[1..] == a[1..] + b;
      FirstSpaceAppend(a[1..], b);
    }
  }

  lemma {:induction false} SpaceRunAppend(w: string, b: string)
    requires forall i :: 0 <= i < |w| ==> IsRegexSpace(w[i])
    requires b == [] || !IsRegexSpace(b[0])
    ensures SpaceRun(w + b) == |w|
  {
    if w == [] {
      assert w + b == b;
    } else {
      assert (w + b)[1..] == w[1..] + b;
      SpaceRunAppend(w[1..], b);
    }
  }

  /** A space-free piece, a maximal run of spaces, and the rest: the piece comes first. */
  lemma PiecesCons(a: string, w: string, b: string)
    requires NoRegexSpace(a)
    requires w != [] && forall i :: 0 <= i < |w| ==> IsRegexSpace(w[i])
    requires b == [] || !IsRegexSpace(b[0])
    ensures Pieces(a + w + b) == [a] + Pieces(b)
  {
    var s := a + w + b;
    assert s == a + (w + b);
    FirstSpaceAppend(a, w + b);
    assert FirstSpace(s) == |a|;
    assert s[|a|..] == w + b;
    SpaceRunAppend(w, b);
    assert s[..|a|] == a;
    assert s[|a| + |w|..] == b;
  }

  /** Dropping trailing empties keeps every piece up to a non-empty one. */
  lemma DropKeepsPrefix(p: seq<string>, n: nat)
    requires 1 <= n <= |p| && p[n - 1] != []
    ensures |DropTrailingEmpty(p)| >= n && DropTrailingEmpty(p)[..n] == p[..n]
  {
  }

  /** When \s matches and piece [1] is not empty, split keeps pieces [0] and [1]. */
  lemma SplitKeepsTwo(s: string)
    requires FirstSpace(s) < |s|
    requires |Pieces(s)| >= 2 && Pieces(s)[1] != []
    ensures |JavaSplit(s)| >= 2 && JavaSplit(s)[0] == Pieces(s)[0] && JavaSplit(s)[1] == Pieces(s)[1]
  {
    DropKeepsPrefix(Pieces(s), 2);
  }

  /** A word, spaces, a second word, spaces and the rest: the first two pieces are the words. */
  lemma PiecesTwoWords(a: string, w1: string, b: string, w2: string, rest: string)
    requires NoRegexSpace(a) && NoRegexSpace(b)
    requires w1 != [] && forall i :: 0 <= i < |w1| ==> IsRegexSpace(w1[i])
    requires w2 != [] && forall i :: 0 <= i < |w2| ==> IsRegexSpace(w2[i])
    requires b != [] && (rest == [] || !IsRegexSpace(rest[0]))
    ensures |Pieces(a + w1 + b + w2 + rest)| >= 2
    ensures Pieces(a + w1 + b + w2 + rest)[0] == a && Pieces(a + w1 + b + w2 + rest)[1] == b
  {
    var tail := b + w2 + rest;
    assert a + w1 + tail == a + w1 + b + w2 + rest;
    PiecesCons(b, w2, rest);
    PiecesCons(a, w1, tail);
  }

  /** Under the same conditions, the first two tokens of split are the words. */
  lemma SplitTwoWords(a: string, w1: string, b: string, w2: string, rest: string)
    requires NoRegexSpace(a) && NoRegexSpace(b)
    requires w1 != [] && forall i :: 0 <= i < |w1| ==> IsRegexSpace(w1[i])
    requires w2 != [] && forall i :: 0 <= i < |w2| ==> IsRegexSpace(w2[i])
    requires b != [] && (rest == [] || !IsRegexSpace(rest[0]))
    ensures |JavaSplit(a + w1 + b + w2 + rest)| >= 2
    ensures JavaSplit(a + w1 + b + w2 + rest)[0] == a && JavaSplit(a + w1 + b + w2 + rest)[1] == b
  {
    var s := a + w1 + b + w2 + rest;
    assert |Pieces(s)| >= 2 && Pieces(s)[0] == a && Pieces(s)[1] == b by {
      PiecesTwoWords(a, w1, b, w2, rest);
    }
    SplitKeepsTwo(s);
  }

  /* ---- Properties of getResponseCode ---- */

  /** The status line as a server sends it. */
  function StatusLineText(version: string, code: int, reason: string): string {
    version + " " + IntToString(code) + " " + reason
  }

  /**
   * The status code of any well-formed status line is read back exactly,
   * whatever the reason phrase holds (it may contain spaces or be empty).
   */
  lemma ResponseCodeOfStatusLine(version: string, code: int, reason: string)
    requires version != [] && NoRegexSpace(version)
    requires MinInt <= code <= MaxInt
    ensures ResponseCode(Some(StatusLineText(version, code, reason))) == Ok(code)
  {
    var digits := IntToString(code);
    var k := SpaceRun(reason);
    var w2, rest := " " + reason[..k], reason[k..];
    assert reason == reason[..k] + rest;
    assert StatusLineText(version, code, reason) == version + " " + digits + w2 + rest;
    SplitTwoWords(version, " ", digits, w2, rest);
    ParseIntToString(code);
  }

  lemma ResponseCodeNotFound()
    ensures ResponseCode(Some("HTTP/1.1 404 Not Found")) == Ok(404)
  {
    assert IntToString(404) == "404";
    assert StatusLineText("HTTP/1.1", 404, "Not Found") == "HTTP/1.1 404 Not Found";
    ResponseCodeOfStatusLine("HTTP/1.1", 404, "Not Found");
  }

  /** A line that is one word, perhaps followed by spaces, has no token [1]. */
  lemma ResponseCodeOneWord(a: string, w: string)
    requires a != [] && NoRegexSpace(a)
    requires forall i :: 0 <= i < |w| ==> IsRegexSpace(w[i])
    ensures ResponseCode(Some(a + w)) == Err(NoCodeToken)
  {
    if w == [] {
      assert a + w == a;
      FirstSpaceAppend(a, []);
      assert a + [] == a;
    } else {
      assert a + w == a + w + [];
      PiecesCons(a, w, []);
      FirstSpaceAppend(a, w);
      assert Pieces([]) == [[]];
      assert Pieces(a + w) == [a, []];
    }
  }

  /**
   * Leading spaces make token [0] empty, so token [1] is the protocol
   * version and a line such as " HTTP/1.1 200 OK" is refused.
   */
  lemma ResponseCodeLeadingSpace(w1: string, version: string, w2: string, rest: string)
    requires w1 != [] && forall i :: 0 <= i < |w1| ==> IsRegexSpace(w1[i])
    requires version != [] && NoRegexSpace(version) && ParseInt(version).None?
    requires w2 != [] && forall i :: 0 <= i < |w2| ==> IsRegexSpace(w2[i])
    requires rest == [] || !IsRegexSpace(rest[0])
    ensures ResponseCode(Some(w1 + version + w2 + rest)) == Err(NotAnInt)
  {
    assert w1 + version + w2 + rest == [] + w1 + version + w2 + rest;
    SplitTwoWords([], w1, version, w2, rest);
  }
}
