/**
 * The wire-level pieces of the Fusion pipeline client that are pure computations:
 * the inactivity threshold, the status codes each exchange accepts, the URL of the
 * session (login) resource and the JSON body of a login.
 */
module Protocol {
  import opened Wrappers

  /** A session older than this many nanoseconds (599 seconds) is re-established before use. */
  const MaxNanosOfInactivity: int := 599 * 1_000_000_000

  /** The login exchange accepts 200, 201 and 204. */
  predicate LoginAccepted(code: int) {
    code == 200 || code == 201 || code == 204
  }

  /** The ingestion exchange accepts only 200 and 204. */
  predicate IngestAccepted(code: int) {
    code == 200 || code == 204
  }

  /** Every ingestion success would also be a login success, but 201 is a success only at login. */
  lemma AcceptedStatuses()
    ensures forall code :: IngestAccepted(code) ==> LoginAccepted(code)
    ensures LoginAccepted(201) && !IngestAccepted(201)
    ensures !LoginAccepted(401) && !IngestAccepted(401)
  {
  }

  // ---------------------------------------------------------------------------
  // String search, as java.lang.String.indexOf

  /** `pat` occurs in `s` starting at index `i`. */
  predicate OccursAt(s: string, pat: string, i: int) {
    0 <= i && i + |pat| <= |s| && s[i..i + |pat|] == pat
  }

  /** The first occurrence of `pat` in `s` at or after `from`, or -1 when there is none. */
  function IndexFrom(s: string, pat: string, from: nat): (r: int)
    decreases |s| - from
    ensures r == -1 || (from <= r && OccursAt(s, pat, r))
    ensures r == -1 ==> forall j :: from <= j ==> !OccursAt(s, pat, j)
    ensures r != -1 ==> forall j :: from <= j < r ==> !OccursAt(s, pat, j)
  {
    if from + |pat| > |s| then -1
    else if s[from..from + |pat|] == pat then from
    else IndexFrom(s, pat, from + 1)
  }

  /** `s.indexOf(pat)`: the least index at which `pat` occurs, or -1 when it does not occur. */
  function IndexOf(s: string, pat: string): (r: int)
    ensures r == -1 <==> forall j :: !OccursAt(s, pat, j)
    ensures r != -1 ==> OccursAt(s, pat, r) && forall j :: j < r ==> !OccursAt(s, pat, j)
  {
    IndexFrom(s, pat, 0)
  }

  // ---------------------------------------------------------------------------
  // The session resource

  const ApiSegment: string := "/api"
  const SessionResource: string := "/api/session?realmName="

  /**
   * The login URL for an endpoint: everything before the first "/api", followed by
   * "/api/session?realmName=" and the realm. `None` stands for the
   * StringIndexOutOfBoundsException that `substring(0, -1)` throws when the endpoint
   * URL contains no "/api".
   */
  function SessionApiUrl(url: string, realm: string): (r: Option<string>)
    ensures r.None? <==> forall j :: !OccursAt(url, ApiSegment, j)
    ensures r.Some? ==> exists at :: && OccursAt(url, ApiSegment, at)
                                     && (forall j :: j < at ==> !OccursAt(url, ApiSegment, j))
                                     && r.value == url[..at] + SessionResource + realm
  {
    var at := IndexOf(url, ApiSegment);
    if at < 0 then None else Some(url[..at] + SessionResource + realm)
  }

  /**
   * An endpoint written as a base without "/api", then "/api", then any path, has its
   * login resource directly under that base.
   */
  lemma {:induction false} SessionApiUrlOfBase(base: string, path: string, realm: string)
    requires forall j :: !OccursAt(base, ApiSegment, j)
    ensures SessionApiUrl(base + ApiSegment + path, realm) == Some(base + SessionResource + realm)
  {
    var url := base + ApiSegment + path;
    assert url[..|base|] == base;
    assert url[|base|..|base| + 4] == ApiSegment;
    assert OccursAt(url, ApiSegment, |base|);
    forall j | j < |base|
      ensures !OccursAt(url, ApiSegment, j)
    {
      if 0 <= j && j + 4 <= |base| {
        assert url == base + (ApiSegment + path);
        OccursInPrefix(base, ApiSegment + path, ApiSegment, j);
      } else if 0 <= j {
        SlashNotInsideApi(url, j, |base|);
      }
    }
    assert IndexOf(url, ApiSegment) == |base|;
  }

  /** Whether `pat` occurs at `j` is decided inside `s` when the occurrence would end within `s`. */
  lemma OccursInPrefix(s: string, t: string, pat: string, j: int)
    requires 0 <= j && j + |pat| <= |s|
    ensures OccursAt(s + t, pat, j) == OccursAt(s, pat, j)
  {
    assert (s + t)[j..j + |pat|] == s[j..j + |pat|];
  }

  /** "/api" cannot occur at a position whose next three characters include a '/'. */
  lemma SlashNotInsideApi(s: string, j: int, slash: int)
    requires 0 <= j < slash < j + 4 && slash < |s| && s[slash] == '/'
    ensures !OccursAt(s, ApiSegment, j)
  {
    if j + 4 <= |s| {
      assert s[j..j + 4][slash - j] == s[slash];
    }
  }

  // ---------------------------------------------------------------------------
  // The login body

  const UserOpen: string := "{\"username\":\""
  const PasswordOpen: string := "\", \"password\":\""
  const BodyClose: string := "\"}"

  /** The credentials document posted to the session resource, built by concatenation (no escaping). */
  function LoginBody(user: string, password: string): string {
    UserOpen + user + PasswordOpen + password + BodyClose
  }

  predicate NoQuote(s: string) {
    forall i :: 0 <= i < |s| ==> s[i] != '"'
  }

  /**
   * A string that JSON writes between quotes exactly as it is: no double quote, no
   * backslash and no control character, so no escaping is needed.
   */
  predicate JsonPlain(s: string) {
    forall i :: 0 <= i < |s| ==> s[i] != '"' && s[i] != '\\' && s[i] >= ' '
  }

  /** Splits `s` at its first double quote: the text before it, and the rest from the quote on. */
  function SplitAtQuote(s: string): (r: (string, string))
    ensures r.0 + r.1 == s && NoQuote(r.0)
    ensures r.1 == [] || r.1[0] == '"'
  {
    if s == [] then ([], [])
    else if s[0] == '"' then ([], s)
    else
      var (before, rest) := SplitAtQuote(s[1..]);
      ([s[0]] + before, rest)
  }

  lemma {:induction false} SplitAtQuoteOf(text: string, rest: string)
    requires NoQuote(text)
    requires rest == [] || rest[0] == '"'
    ensures SplitAtQuote(text + rest) == (text, rest)
  {
    if text != [] {
      assert (text + rest)[0] == text[0] != '"';
      assert (text + rest)[1..] == text[1..] + rest;
      SplitAtQuoteOf(text[1..], rest);
      assert [text[0]] + text[1..] == text;
    } else {
      assert text + rest == rest;
    }
  }

  /**
   * How a JSON reader recovers the two credentials from a document of exactly the shape
   * the client builds: the string after `{"username":"` up to the next quote, then
   * `", "password":"`, the string up to the next quote, and `"}`. A string holding a
   * backslash or a control character is refused, because a JSON reader would read an
   * escape or an error there rather than the characters themselves.
   */
  function ParseLoginBody(body: string): Option<(string, string)> {
    if |body| < |UserOpen| || body[..|UserOpen|] != UserOpen then None
    else
      var (user, rest) := SplitAtQuote(body[|UserOpen|..]);
      if |rest| < |PasswordOpen| || rest[..|PasswordOpen|] != PasswordOpen then None
      else
        var (password, tail) := SplitAtQuote(rest[|PasswordOpen|..]);
        if tail == BodyClose && JsonPlain(user) && JsonPlain(password) then Some((user, password)) else None
  }

  /** The login body carries exactly the given credentials, provided they need no JSON escaping. */
  lemma {:induction false} LoginBodyRoundTrip(user: string, password: string)
    requires JsonPlain(user) && JsonPlain(password)
    ensures ParseLoginBody(LoginBody(user, password)) == Some((user, password))
  {
    var body := LoginBody(user, password);
    var afterUser := PasswordOpen + password + BodyClose;
    assert body == UserOpen + (user + afterUser);
    assert body[..|UserOpen|] == UserOpen;
    assert body[|UserOpen|..] == user + afterUser;
    SplitAtQuoteOf(user, afterUser);
    assert afterUser[..|PasswordOpen|] == PasswordOpen;
    assert afterUser[|PasswordOpen|..] == password + BodyClose;
    SplitAtQuoteOf(password, BodyClose);
  }
}
