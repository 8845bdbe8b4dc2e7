/**
 * The part of a URLConnection the helpers touch: its request-header table,
 * the bytes written to its output stream, the decoded reply and the status
 * line; and the header setup of MyHttp.getUrlConnection.
 */
module Connections {
  import opened Wrappers
  import opened JavaText
  import opened Utf8
  import opened ResponseText
  import opened StatusLine

  /** Request properties: each key with its values in the order they were added. */
  type Headers = map<string, seq<string>>

  const CookieKey := "Cookie"
  const ContentTypeKey := "Content-Type"
  const UpgradeKey := "Upgrade-Insecure-Requests"
  const UserAgentKey := "User-Agent"

  /** The values already stored under a key, none if it is absent. */
  function Values(h: Headers, key: string): seq<string> {
    if key in h then h[key] else []
  }

  /** URLConnection.addRequestProperty: one more value, the existing ones kept. */
  function AddProperty(h: Headers, key: string, value: string): Headers {
    h[key := Values(h, key) + [value]]
  }

  /** URLConnection.setRequestProperty: the key's values replaced by this one. */
  function SetProperty(h: Headers, key: string, value: string): Headers {
    h[key := [value]]
  }

  /** getUrlConnection's test for a cookie or content type worth sending, trim().length() counting UTF-16 code units. */
  predicate HeaderGuard(s: Option<string>) {
    s.Some? && Utf16Length(Trim(s.value)) > 1
  }

  /**
   * The header guard holds exactly for a present string with two chars
   * above U+0020 or one char outside the Basic Multilingual Plane: a blank
   * argument or one of a single code unit is ignored.
   */
  lemma HeaderGuardMeaning(s: Option<string>)
    ensures HeaderGuard(s) <==> (s.Some? && (
      (exists i, j :: 0 <= i < j < |s.value| && !IsTrimmable(s.value[i]) && !IsTrimmable(s.value[j])) ||
      (exists i :: 0 <= i < |s.value| && IsSupplementary(s.value[i]))))
  {
    if s.Some? {
      TrimLengthAboveOne(s.value);
    }
  }

  /** "Windows/<nonce>/Chrome/Safari/QQBrowser/Mozilla/Firefox/IE", the %s/... format of getUrlConnection. */
  function UserAgent(nonce: Long): string {
    "Windows/" + IntToString(nonce) + "/Chrome/Safari/QQBrowser/Mozilla/Firefox/IE"
  }

  /** The user agent carries its nonce: different nonces give different agents. */
  lemma UserAgentDeterminesNonce(m: Long, n: Long)
    requires UserAgent(m) == UserAgent(n)
    ensures m == n
  {
    var suffix := "/Chrome/Safari/QQBrowser/Mozilla/Firefox/IE";
    var um, un := UserAgent(m), UserAgent(n);
    assert IntToString(m) == um[8..|um| - |suffix|];
    assert IntToString(n) == un[8..|un| - |suffix|];
    IntToStringInjective(m, n);
  }

  /**
   * The four updates of getUrlConnection on a header table, given the
   * outcome of the two guards: Cookie added, Content-Type replaced,
   * Upgrade-Insecure-Requests and User-Agent set.
   */
  function HeaderUpdates(h: Headers, addCookie: bool, cookie: string, setType: bool, contentType: string,
                         agent: string): (r: Headers)
    ensures r.Keys == h.Keys + {UpgradeKey, UserAgentKey}
      + (if addCookie then {CookieKey} else {})
      + (if setType then {ContentTypeKey} else {})
    ensures r[UpgradeKey] == ["1"] && r[UserAgentKey] == [agent]
    ensures Values(r, CookieKey) == Values(h, CookieKey) + (if addCookie then [cookie] else [])
    ensures Values(r, ContentTypeKey) == if setType then [contentType] else Values(h, ContentTypeKey)
    ensures forall k :: (k in h && k != CookieKey && k != ContentTypeKey && k != UpgradeKey && k != UserAgentKey
      ==> r[k] == h[k])
  {
    assert |CookieKey| == 6 && |ContentTypeKey| == 12 && |UpgradeKey| == 25 && |UserAgentKey| == 10;
    var h1 := if addCookie then AddProperty(h, CookieKey, cookie) else h;
    var h2 := if setType then SetProperty(h1, ContentTypeKey, contentType) else h1;
    SetProperty(SetProperty(h2, UpgradeKey, "1"), UserAgentKey, agent)
  }

  /**
   * The header table after getUrlConnection: a Cookie value added and the
   * Content-Type replaced when their arguments pass the guard (the untrimmed
   * argument is stored), Upgrade-Insecure-Requests and User-Agent always set,
   * and no other key touched.
   */
  function ConnectionHeaders(h: Headers, contentType: Option<string>, cookie: Option<string>, nonce: Long): (r: Headers)
    ensures r.Keys == h.Keys + {UpgradeKey, UserAgentKey}
      + (if HeaderGuard(cookie) then {CookieKey} else {})
      + (if HeaderGuard(contentType) then {ContentTypeKey} else {})
    ensures r[UpgradeKey] == ["1"]
    ensures r[UserAgentKey] == [UserAgent(nonce)]
    ensures Values(r, CookieKey) == Values(h, CookieKey) + (if HeaderGuard(cookie) then [cookie.value] else [])
    ensures Values(r, ContentTypeKey) ==
      if HeaderGuard(contentType) then [contentType.value] else Values(h, ContentTypeKey)
    ensures forall k :: (k in h && k != CookieKey && k != ContentTypeKey && k != UpgradeKey && k != UserAgentKey
      ==> r[k] == h[k])
  {
    var addCookie, setType := HeaderGuard(cookie), HeaderGuard(contentType);
    HeaderUpdates(h, addCookie, if addCookie then cookie.value else "",
                  setType, if setType then contentType.value else "", UserAgent(nonce))
  }

  class Connection {
    /** The request properties set so far. */
    var headers: Headers
    /** The bytes written to the output stream so far. */
    var sent: seq<byte>
    /** The reply body as decoded text, which getInputStream would deliver. */
    const reply: string
    /** getHeaderField(0): the status line, or None (null) when there is none. */
    const statusLine: Option<string>

    constructor (reply: string, statusLine: Option<string>)
      ensures headers == map[] && sent == []
      ensures this.reply == reply && this.statusLine == statusLine
    {
      headers := map[];
      sent := [];
      this.reply := reply;
      this.statusLine := statusLine;
    }

    /** getResponseCode(conn): the code read from getHeaderField(0), the status line. */
    method GetResponseCode() returns (r: Result<int, CodeError>)
      ensures r == ResponseCode(statusLine)
      ensures statusLine.None? <==> r == Err(NoStatusLine)
    {
      r := ResponseCode(statusLine);
    }

    method AddRequestProperty(key: string, value: string)
      modifies this`headers
      ensures headers == AddProperty(old(headers), key, value)
    {
      headers := AddProperty(headers, key, value);
    }

    method SetRequestProperty(key: string, value: string)
      modifies this`headers
      ensures headers == SetProperty(old(headers), key, value)
    {
      headers := SetProperty(headers, key, value);
    }

    /** OutputStream.write: the bytes follow those already written. */
    method Write(data: seq<byte>)
      modifies this`sent
      ensures sent == old(sent) + data
    {
      sent := sent + data;
    }

    /**
     * getResponseContent(conn, cs): readLine until null, each line appended
     * without its terminator, so the result is the reply without CR and LF.
     */
    method ResponseContent() returns (content: string)
      ensures content == StripLineBreaks(reply)
      ensures NoLineBreak(content) && |content| <= |reply|
    {
      var sb := "";
      var pos := 0;
      var line := ReadLine(reply, pos);
      while line.Some?
        invariant pos <= |reply|
        invariant line == ReadLine(reply, pos)
        invariant sb + StripLineBreaks(reply[pos..]) == StripLineBreaks(reply)
        decreases |reply| - pos
      {
        ReadLineStrips(reply, pos);
        sb := sb + line.value.0;
        pos := line.value.1;
        line := ReadLine(reply, pos);
      }
      assert reply[pos..] == [];
      content := sb;
    }
  }

  /**
   * The header part of getUrlConnection(url, contentType, cookie, proxy,
   * timeout) on a connection just opened: the four request properties in
   * the source's order.
   */
  method ConfigureHeaders(conn: Connection, contentType: Option<string>, cookie: Option<string>, nonce: Long)
    modifies conn`headers
    ensures conn.headers == ConnectionHeaders(old(conn.headers), contentType, cookie, nonce)
  {
    if cookie.Some? && Utf16Length(Trim(cookie.value)) > 1 {
      conn.AddRequestProperty(CookieKey, cookie.value);
    }
    if contentType.Some? && Utf16Length(Trim(contentType.value)) > 1 {
      conn.SetRequestProperty(ContentTypeKey, contentType.value);
    }
    conn.SetRequestProperty(UpgradeKey, "1");
    conn.SetRequestProperty(UserAgentKey, UserAgent(nonce));
  }
}
