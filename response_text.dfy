/**
 * MyHttp.getResponseContent: BufferedReader.readLine splits the decoded reply
 * at "\n", "\r" or "\r\n" and drops the terminator; the helper appends the
 * lines with nothing between them.
 */
module ResponseText {
  import opened Wrappers

  predicate IsLineBreak(c: char) {
    c == '\r' || c == '\n'
  }

  predicate NoLineBreak(s: string) {
    forall i :: 0 <= i < |s| ==> !IsLineBreak(s[i])
  }

  /** The text with every CR and every LF removed. */
  function StripLineBreaks(s: string): (r: string)
    ensures NoLineBreak(r)
    ensures |r| <= |s|
  {
    if s == [] then []
    else (if IsLineBreak(s[0]) then [] else [s[0]]) + StripLineBreaks(s[1..])
  }

  lemma {:induction false} StripAppend(a: string, b: string)
    ensures StripLineBreaks(a + b) == StripLineBreaks(a) + StripLineBreaks(b)
  {
    if a == [] {
      assert a + b == b;
    } else {
      assert (a + b)[0] == a[0] && (a + b)[1..] == a[1..] + b;
      StripAppend(a[1..], b);
    }
  }

  /** Stripping leaves a text unchanged exactly when it has no CR and no LF. */
  lemma {:induction false} StripFixedPoints(s: string)
    ensures StripLineBreaks(s) == s <==> NoLineBreak(s)
  {
    if s != [] {
      StripFixedPoints(s[1..]);
      if !IsLineBreak(s[0]) {
        assert StripLineBreaks(s) == [s[0]] + StripLineBreaks(s[1..]);
        assert s == [s[0]] + s[1..];
      } else {
        assert |StripLineBreaks(s)| <= |s[1..]| < |s|;
      }
    }
  }

  /** Joining the lines of an already joined text changes nothing. */
  lemma StripIdempotent(s: string)
    ensures StripLineBreaks(StripLineBreaks(s)) == StripLineBreaks(s)
  {
    StripFixedPoints(StripLineBreaks(s));
  }

  lemma StripExample()
    ensures StripLineBreaks("abc\ndef") == "abcdef"
  {
    StripAppend("abc", "\ndef");
    StripAppend("\n", "def");
    StripFixedPoints("abc");
    StripFixedPoints("def");
    assert "abc\ndef" == "abc" + "\ndef" && "\ndef" == "\n" + "def";
  }

  /** The index of the first CR or LF at or after i, or |t| when there is none. */
  function FindLineBreak(t: string, i: nat): (k: nat)
    requires i <= |t|
    ensures i <= k <= |t|
    ensures forall j :: i <= j < k ==> !IsLineBreak(t[j])
    ensures k < |t| ==> IsLineBreak(t[k])
    decreases |t| - i
  {
    if i == |t| || IsLineBreak(t[i]) then i else FindLineBreak(t, i + 1)
  }

  /**
   * BufferedReader.readLine with the reader at position pos of the text:
   * None (null) at the end, otherwise the line and the position after its
   * terminator, where "\r\n" counts as one terminator.
   */
  function ReadLine(t: string, pos: nat): (r: Option<(string, nat)>)
    requires pos <= |t|
    ensures r.None? <==> pos == |t|
    ensures r.Some? ==> pos < r.value.1 <= |t| && NoLineBreak(r.value.0)
  {
    if pos == |t| then None
    else
      var k := FindLineBreak(t, pos);
      var line := t[pos..k];
      if k == |t| then Some((line, k))
      else if t[k] == '\r' && k + 1 < |t| && t[k + 1] == '\n' then Some((line, k + 2))
      else Some((line, k + 1))
  }

  /** A terminator strips to nothing. */
  lemma StripTerminator(s: string)
    requires 1 <= |s| <= 2 && forall i :: 0 <= i < |s| ==> IsLineBreak(s[i])
    ensures StripLineBreaks(s) == []
  {
    if |s| == 2 {
      assert s[1..][1..] == [];
    }
  }

  /** Each line read accounts for the stripped text up to the reader's new position. */
  lemma ReadLineStrips(t: string, pos: nat)
    requires pos <= |t| && ReadLine(t, pos).Some?
    ensures StripLineBreaks(t[pos..]) ==
      ReadLine(t, pos).value.0 + StripLineBreaks(t[ReadLine(t, pos).value.1..])
  {
    var k := FindLineBreak(t, pos);
    var (line, next) := ReadLine(t, pos).value;
    assert t[pos..] == line + t[k..];
    StripAppend(line, t[k..]);
    StripFixedPoints(line);
    assert StripLineBreaks(t[k..]) == StripLineBreaks(t[next..]) by {
      if k < |t| {
        assert t[k..] == t[k..next] + t[next..];
        StripAppend(t[k..next], t[next..]);
        StripTerminator(t[k..next]);
      }
    }
  }
}
