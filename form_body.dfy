/**
 * The body of MyHttp.postForm(Map, URLConnection): key=enc(value) for each
 * entry in iteration order, joined by '&', the keys copied as they are and
 * the values through URLEncoder.encode (the parameter enc). This is the
 * application/x-www-form-urlencoded format of section 17.13.4.1 of HTML 4.01.
 */
module FormBody {
  import opened Search

  /** A map's entries in the order its iterator yields them. */
  type Entries = seq<(string, string)>

  /** The parts joined with one sep between neighbours. */
  function Join(parts: seq<string>, sep: char): string {
    if parts == [] then []
    else if |parts| == 1 then parts[0]
    else Join(parts[..|parts| - 1], sep) + [sep] + parts[|parts| - 1]
  }

  /** s cut at every sep: the inverse of Join on parts free of sep. */
  function SplitAt(s: string, sep: char): (r: seq<string>)
    ensures |r| >= 1
    decreases |s|
  {
    var i := IndexOf(s, sep);
    if i == |s| then [s] else [s[..i]] + SplitAt(s[i + 1..], sep)
  }

  /** The number of times c occurs in s. */
  function Count(s: string, c: char): nat {
    if s == [] then 0 else (if s[0] == c then 1 else 0) + Count(s[1..], c)
  }

  /** One field of the body: the key, '=', and the encoded value. */
  function Field(entry: (string, string), enc: string -> string): string {
    entry.0 + "=" + enc(entry.1)
  }

  function Fields(entries: Entries, enc: string -> string): (r: seq<string>)
    ensures |r| == |entries|
    ensures forall k :: 0 <= k < |r| ==> r[k] == Field(entries[k], enc)
  {
    seq(|entries|, k requires 0 <= k < |entries| => Field(entries[k], enc))
  }

  /** The form body of a non-empty map. */
  function FormEncode(entries: Entries, enc: string -> string): string {
    Join(Fields(entries, enc), '&')
  }

  /** Reads one field back: the text before the first '=' and the text after it. */
  function ParseField(p: string): (string, string) {
    var i := IndexOf(p, '=');
    if i == |p| then (p, "") else (p[..i], p[i + 1..])
  }

  /** Reads a form body back into (key, encoded value) pairs. */
  function ParseForm(body: string): (r: seq<(string, string)>)
    ensures |r| == |SplitAt(body, '&')|
  {
    var parts := SplitAt(body, '&');
    seq(|parts|, k requires 0 <= k < |parts| => ParseField(parts[k]))
  }

  /**
   * postForm's loop: each field appended, then '&' while the iterator has
   * another entry. It builds the form body.
   */
  method BuildForm(entries: Entries, enc: string -> string) returns (body: string)
    ensures body == FormEncode(entries, enc)
  {
    var sb := "";
    ghost var fs := Fields(entries, enc);
    var i := 0;
    while i < |entries|
      invariant 0 <= i <= |entries|
      invariant sb == Join(fs[..i], '&') + (if 0 < i < |entries| then "&" else "")
    {
      var en := entries[i];
      assert fs[..i + 1][..i] == fs[..i] && fs[i] == en.0 + "=" + enc(en.1);
      assert Join(fs[..i + 1], '&') == if i == 0 then fs[i] else Join(fs[..i], '&') + "&" + fs[i];
      sb := sb + en.0 + "=" + enc(en.1);
      if i + 1 < |entries| {
        sb := sb + "&";
      }
      i := i + 1;
    }
    assert fs[..i] == fs;
    body := sb;
  }

  /* ---- Lemmas ---- */

  /** Splitting at a separator between two texts splits each of them. */
  lemma {:induction false} SplitAtAppend(a: string, b: string, sep: char)
    ensures SplitAt(a + [sep] + b, sep) == SplitAt(a, sep) + SplitAt(b, sep)
    decreases |a|
  {
    var s := a + [sep] + b;
    var i := IndexOf(a, sep);
    assert IndexOf(s, sep) == i by {
      assert forall j :: 0 <= j < i ==> s[j] == a[j];
      IndexOfIs(s, sep, i);
    }
    assert s[..i] == a[..i];
    if i == |a| {
      assert s[i + 1..] == b && a[..i] == a;
      calc {
        SplitAt(s, sep);
        [a] + SplitAt(b, sep);
        SplitAt(a, sep) + SplitAt(b, sep);
      }
    } else {
      assert s[i + 1..] == a[i + 1..] + [sep] + b;
      SplitAtAppend(a[i + 1..], b, sep);
      calc {
        SplitAt(s, sep);
        [a[..i]] + SplitAt(a[i + 1..] + [sep] + b, sep);
        [a[..i]] + (SplitAt(a[i + 1..], sep) + SplitAt(b, sep));
        SplitAt(a, sep) + SplitAt(b, sep);
      }
    }
  }

  /** SplitAt inverts Join when no part contains the separator. */
  lemma {:induction false} SplitJoin(parts: seq<string>, sep: char)
    requires |parts| >= 1
    requires forall k :: 0 <= k < |parts| ==> sep !in parts[k]
    ensures SplitAt(Join(parts, sep), sep) == parts
  {
    var n := |parts|;
    if n == 1 {
      assert IndexOf(parts[0], sep) == |parts[0]|;
    } else {
      var front := parts[..n - 1];
      SplitJoin(front, sep);
      SplitAtAppend(Join(front, sep), parts[n - 1], sep);
      assert IndexOf(parts[n - 1], sep) == |parts[n - 1]|;
      assert parts == front + [parts[n - 1]];
    }
  }

  lemma {:induction false} CountAppend(a: string, b: string, c: char)
    ensures Count(a + b, c) == Count(a, c) + Count(b, c)
  {
    if a == [] {
      assert a + b == b;
    } else {
      assert (a + b)[1..] == a[1..] + b;
      CountAppend(a[1..], b, c);
    }
  }

  lemma {:induction false} CountAbsent(s: string, c: char)
    requires c !in s
    ensures Count(s, c) == 0
  {
    if s != [] {
      CountAbsent(s[1..], c);
    }
  }

  /** n parts free of the separator are joined with exactly n - 1 separators. */
  lemma {:induction false} JoinSeparators(parts: seq<string>, sep: char)
    requires |parts| >= 1
    requires forall k :: 0 <= k < |parts| ==> sep !in parts[k]
    ensures Count(Join(parts, sep), sep) == |parts| - 1
  {
    var n := |parts|;
    CountAbsent(parts[n - 1], sep);
    if n > 1 {
      var front := parts[..n - 1];
      JoinSeparators(front, sep);
      CountAppend(Join(front, sep) + [sep], parts[n - 1], sep);
      CountAppend(Join(front, sep), [sep], sep);
    }
  }

  /** No key and no encoded value holds the separator '&'. */
  predicate AmpersandFree(entries: Entries, enc: string -> string) {
    forall k :: 0 <= k < |entries| ==> '&' !in entries[k].0 && '&' !in enc(entries[k].1)
  }

  /** The conditions under which a form body can be read back unambiguously. */
  predicate Unambiguous(entries: Entries, enc: string -> string) {
    AmpersandFree(entries, enc) && forall k :: 0 <= k < |entries| ==> '=' !in entries[k].0
  }

  /**
   * With keys free of '&' and '=' and encoded values free of '&', the body
   * reads back as the entries in order, keys unencoded and values encoded.
   */
  lemma FormRoundTrip(entries: Entries, enc: string -> string)
    requires |entries| >= 1 && Unambiguous(entries, enc)
    ensures ParseForm(FormEncode(entries, enc)) ==
      seq(|entries|, k requires 0 <= k < |entries| => (entries[k].0, enc(entries[k].1)))
  {
    var fs := Fields(entries, enc);
    forall k | 0 <= k < |fs| ensures '&' !in fs[k] {
      assert fs[k] == entries[k].0 + ("=" + enc(entries[k].1));
    }
    SplitJoin(fs, '&');
    forall k | 0 <= k < |entries| ensures ParseField(fs[k]) == (entries[k].0, enc(entries[k].1)) {
      var key := entries[k].0;
      assert fs[k] == key + ("=" + enc(entries[k].1));
      IndexOfAppend(key, "=" + enc(entries[k].1), '=');
      assert fs[k][..|key|] == key;
      assert fs[k][|key| + 1..] == enc(entries[k].1);
    }
  }

  /** With keys and encoded values free of '&', the body has exactly one '&' between neighbouring fields. */
  lemma FormSeparators(entries: Entries, enc: string -> string)
    requires |entries| >= 1 && AmpersandFree(entries, enc)
    ensures Count(FormEncode(entries, enc), '&') == |entries| - 1
  {
    var fs := Fields(entries, enc);
    forall k | 0 <= k < |fs| ensures '&' !in fs[k] {
      assert fs[k] == entries[k].0 + ("=" + enc(entries[k].1));
    }
    JoinSeparators(fs, '&');
  }

  /** The keys go into the body verbatim: a body starts with its first key and '='. */
  lemma FormStartsWithKey(entries: Entries, enc: string -> string)
    requires |entries| >= 1
    ensures |entries[0].0| < |FormEncode(entries, enc)|
    ensures FormEncode(entries, enc)[..|entries[0].0| + 1] == entries[0].0 + "="
  {
    var fs := Fields(entries, enc);
    JoinStartsWithFirst(fs, '&');
  }

  lemma {:induction false} JoinStartsWithFirst(parts: seq<string>, sep: char)
    requires |parts| >= 1
    ensures |Join(parts, sep)| >= |parts[0]| && Join(parts, sep)[..|parts[0]|] == parts[0]
  {
    if |parts| > 1 {
      JoinStartsWithFirst(parts[..|parts| - 1], sep);
    }
  }

  /** No '&' follows the last field: the body ends with the last field. */
  lemma FormEndsWithLastField(entries: Entries, enc: string -> string)
    requires |entries| >= 1
    ensures var body, last := FormEncode(entries, enc), Field(entries[|entries| - 1], enc);
      |last| <= |body| && body[|body| - |last|..] == last
  {
    var fs := Fields(entries, enc);
    var n := |fs|;
    if n > 1 {
      var front := Join(fs[..n - 1], '&') + ['&'];
      assert Join(fs, '&') == front + fs[n - 1];
    }
  }
}
