/**
 * The typed HTTP client: the retry policy wrapped around every call (which failures are
 * retried, and how often), the per-call mapping from HTTP status to a result or an
 * exception, and the query string of the list call.
 */
module Client {
  import opened Wrappers
  import opened Strings
  import opened Entities

  const StatusOk: int := 200
  const StatusNoContent: int := 204
  const StatusNotFound: int := 404
  const StatusRequestTimeout: int := 408
  const StatusBadGateway: int := 502
  const StatusGatewayTimeout: int := 504

  /** The number of retries after the first attempt. */
  const RetryCount: nat := 5

  /** The default page size the client asks for. */
  const DefaultLimit: int := 25

  // ---------------------------------------------------------------------------
  // Retry policy
  // ---------------------------------------------------------------------------

  /** Whether a client exception with this status is retried: any server error, a timeout, or not-found. */
  predicate ShouldRetry(status: int) {
    status >= 500
      || status == StatusRequestTimeout
      || status == StatusGatewayTimeout
      || status == StatusNotFound
      || status == StatusBadGateway
  }

  /** Below 500 exactly 404 and 408 are retried; the 502 and 504 cases add nothing. */
  lemma RetriedStatuses(status: int)
    ensures ShouldRetry(status) <==> status >= 500 || status == 404 || status == 408
    ensures status < 500 && ShouldRetry(status) ==> status == 404 || status == 408
  {
  }

  /** One attempt: the call's result, or the client exception carrying the status and body. */
  datatype Attempt<T> = Returned(value: T) | Thrown(status: int, content: string)

  predicate Retried<T>(a: Attempt<T>) {
    a.Thrown? && ShouldRetry(a.status)
  }

  /**
   * The retry policy from attempt `i` on with `retriesLeft` retries to spend: the final
   * outcome and the number of attempts made so far. `attempt(j)` is the outcome of attempt j.
   * Waiting between attempts is not modelled.
   */
  function Run<T>(attempt: nat -> Attempt<T>, retriesLeft: nat, i: nat): (r: (Attempt<T>, nat))
    ensures i + 1 <= r.1 <= i + retriesLeft + 1
    ensures r.0 == attempt(r.1 - 1)
    ensures forall j :: i <= j < r.1 - 1 ==> Retried(attempt(j))
    ensures !Retried(r.0) || r.1 == i + retriesLeft + 1
    decreases retriesLeft
  {
    var a := attempt(i);
    if Retried(a) && retriesLeft > 0 then
      Run(attempt, retriesLeft - 1, i + 1)
    else (a, i + 1)
  }

  /**
   * A call under the policy: at most six attempts; it stops at the first attempt that returns
   * or throws a status the policy does not retry, and otherwise rethrows the sixth exception.
   */
  function Execute<T>(attempt: nat -> Attempt<T>): (r: (Attempt<T>, nat))
    ensures 1 <= r.1 <= RetryCount + 1
    ensures r.0 == attempt(r.1 - 1)
    ensures forall j :: 0 <= j < r.1 - 1 ==> Retried(attempt(j))
    ensures !Retried(r.0) || r.1 == RetryCount + 1
  {
    Run(attempt, RetryCount, 0)
  }

  /** The call ends with the first attempt the policy does not retry, when that comes within six attempts. */
  lemma {:induction false} ExecuteStopsAtFirstFinalAttempt<T>(attempt: nat -> Attempt<T>, k: nat)
    requires k <= RetryCount
    requires forall j :: 0 <= j < k ==> Retried(attempt(j))
    requires !Retried(attempt(k))
    ensures Execute(attempt) == (attempt(k), k + 1)
  {
    var r := Execute(attempt);
  }

  // ---------------------------------------------------------------------------
  // Status switches
  // ---------------------------------------------------------------------------

  /** Create, Update and List: 200 returns the body, anything else throws with status and body. */
  function SuccessOnly(status: int, content: string): (a: Attempt<string>)
    ensures a.Returned? <==> status == StatusOk
    ensures a.Thrown? ==> a == Thrown(status, content)
  {
    if status == StatusOk then Returned(content) else Thrown(status, content)
  }

  /** Delete: 204 is true, 404 is false, anything else throws. */
  function DeleteSwitch(status: int, content: string): (a: Attempt<bool>)
    ensures a == Returned(true) <==> status == StatusNoContent
    ensures a == Returned(false) <==> status == StatusNotFound
    ensures a.Thrown? ==> a == Thrown(status, content)
  {
    if status == StatusNoContent then Returned(true)
    else if status == StatusNotFound then Returned(false)
    else Thrown(status, content)
  }

  /** Get: 200 is the body, 404 is null, anything else throws. */
  function GetSwitch(status: int, content: string): (a: Attempt<Option<string>>)
    ensures a == Returned(Some(content)) <==> status == StatusOk
    ensures a == Returned(None) <==> status == StatusNotFound
    ensures a.Thrown? ==> a == Thrown(status, content)
  {
    if status == StatusOk then Returned(Some(content))
    else if status == StatusNotFound then Returned(None)
    else Thrown(status, content)
  }

  /** An HTTP response: status and body text. `responses(j)` answers attempt j. */
  type Responses = nat -> (int, string)

  function SuccessOnlyAttempts(responses: Responses): nat -> Attempt<string> {
    (j: nat) => SuccessOnly(responses(j).0, responses(j).1)
  }

  function DeleteAttempts(responses: Responses): nat -> Attempt<bool> {
    (j: nat) => DeleteSwitch(responses(j).0, responses(j).1)
  }

  function GetAttempts(responses: Responses): nat -> Attempt<Option<string>> {
    (j: nat) => GetSwitch(responses(j).0, responses(j).1)
  }

  /**
   * Delete and Get turn 404 into a result before the policy sees an exception, so a 404 ends
   * the call at once: the not-found arm of the policy never applies to them.
   */
  lemma NotFoundEndsDeleteAndGet(responses: Responses)
    requires responses(0).0 == StatusNotFound
    ensures Execute(DeleteAttempts(responses)) == (Returned(false), 1)
    ensures Execute(GetAttempts(responses)) == (Returned(None), 1)
  {
    ExecuteStopsAtFirstFinalAttempt(DeleteAttempts(responses), 0);
    ExecuteStopsAtFirstFinalAttempt(GetAttempts(responses), 0);
  }

  /** Create, Update and List retry a 404 like a server error: six 404s end in the sixth exception. */
  lemma NotFoundRetriedForOthers(responses: Responses)
    requires forall j :: 0 <= j <= RetryCount ==> responses(j).0 == StatusNotFound
    ensures Execute(SuccessOnlyAttempts(responses)) == (Thrown(StatusNotFound, responses(RetryCount).1), RetryCount + 1)
  {
    var attempt := SuccessOnlyAttempts(responses);
    assert forall j :: 0 <= j <= RetryCount ==> attempt(j) == Thrown(StatusNotFound, responses(j).1);
  }

  /** A 400 (a rejected request) is never retried by any call. */
  lemma BadRequestNotRetried(responses: Responses)
    requires responses(0).0 == 400
    ensures Execute(SuccessOnlyAttempts(responses)) == (Thrown(400, responses(0).1), 1)
    ensures Execute(DeleteAttempts(responses)) == (Thrown(400, responses(0).1), 1)
    ensures Execute(GetAttempts(responses)) == (Thrown(400, responses(0).1), 1)
  {
    ExecuteStopsAtFirstFinalAttempt(SuccessOnlyAttempts(responses), 0);
    ExecuteStopsAtFirstFinalAttempt(DeleteAttempts(responses), 0);
    ExecuteStopsAtFirstFinalAttempt(GetAttempts(responses), 0);
  }

  // ---------------------------------------------------------------------------
  // The list URL
  // ---------------------------------------------------------------------------

  /** How C# renders a `bool` in an interpolated string. */
  function BoolText(b: bool): string {
    if b then "True" else "False"
  }

  /** The query parameters of the list call, in the order the URL carries them. */
  function ListQuery(limit: Option<int>, paginationToken: Option<string>, isCompleted: Option<bool>): seq<(string, string)> {
    [("limit", IntToString(limit.GetOr(DefaultLimit)))]
      + (if paginationToken.Some? then [("paginationToken", paginationToken.value)] else [])
      + (if isCompleted.Some? then [("isCompleted", BoolText(isCompleted.value))] else [])
  }

  function RenderParam(p: (string, string)): string {
    p.0 + "=" + p.1
  }

  /** Parameters joined with `&`. */
  function RenderQuery(ps: seq<(string, string)>): string
    decreases |ps|
  {
    if ps == [] then ""
    else if |ps| == 1 then RenderParam(ps[0])
    else RenderParam(ps[0]) + "&" + RenderQuery(ps[1..])
  }

  function ListPath(tenantId: Ulid): string {
    "v1/api/" + tenantId + "/todo/"
  }

  /** Builds the list URL as the client does, one optional parameter at a time. */
  method BuildListUrl(tenantId: Ulid, limit: Option<int>, paginationToken: Option<string>, isCompleted: Option<bool>)
    returns (url: string)
    ensures url == ListPath(tenantId) + "?" + RenderQuery(ListQuery(limit, paginationToken, isCompleted))
  {
    ghost var path := ListPath(tenantId) + "?";
    ghost var ps := [("limit", IntToString(limit.GetOr(DefaultLimit)))];
    url := "v1/api/" + tenantId + "/todo/?limit=" + IntToString(limit.GetOr(DefaultLimit));
    FirstParam(url, tenantId, IntToString(limit.GetOr(DefaultLimit)));
    if paginationToken.Some? {
      AppendParam(url, path, ps, "&paginationToken=", "paginationToken", paginationToken.value);
      url := url + "&paginationToken=" + paginationToken.value;
      ps := ps + [("paginationToken", paginationToken.value)];
    }
    if isCompleted.Some? {
      AppendParam(url, path, ps, "&isCompleted=", "isCompleted", BoolText(isCompleted.value));
      url := url + "&isCompleted=" + BoolText(isCompleted.value);
      ps := ps + [("isCompleted", BoolText(isCompleted.value))];
    }
  }

  /** The builder's first step renders the path and the limit parameter. */
  lemma FirstParam(url: string, tenantId: Ulid, limitText: string)
    requires url == "v1/api/" + tenantId + "/todo/?limit=" + limitText
    ensures url == ListPath(tenantId) + "?" + RenderQuery([("limit", limitText)])
  {
  }

  /** One `url +=` step of the builder appends one parameter to the rendered query. */
  lemma AppendParam(url: string, path: string, ps: seq<(string, string)>, separator: string, name: string, value: string)
    requires ps != [] && url == path + RenderQuery(ps) && separator == "&" + name + "="
    ensures url + separator + value == path + RenderQuery(ps + [(name, value)])
  {
    RenderAppend(ps, [(name, value)]);
  }

  /** Appending parameters appends `&` and their rendering. */
  lemma {:induction false} RenderAppend(ps: seq<(string, string)>, qs: seq<(string, string)>)
    requires ps != []
    ensures RenderQuery(ps + qs) == RenderQuery(ps) + (if qs == [] then "" else "&" + RenderQuery(qs))
    decreases |ps|
  {
    if qs == [] {
      assert ps + qs == ps;
    } else if |ps| == 1 {
      assert (ps + qs)[1..] == qs;
    } else {
      assert (ps + qs)[1..] == ps[1..] + qs;
      RenderAppend(ps[1..], qs);
    }
  }

  // ---------------------------------------------------------------------------
  // Reading the query back
  // ---------------------------------------------------------------------------

  /** The position of the first `c` in `s`. */
  function IndexOf(s: string, c: char): (i: nat)
    requires c in s
    ensures i < |s| && s[i] == c && c !in s[..i]
    decreases |s|
  {
    if s[0] == c then 0
    else
      var i := IndexOf(s[1..], c);
      assert s[1..][..i] == s[1..i + 1];
      1 + i
  }

  lemma IndexOfAfter(a: string, c: char, b: string)
    requires c !in a
    ensures IndexOf(a + [c] + b, c) == |a|
  {
    var s := a + [c] + b;
    assert s[|a|] == c;
    assert forall j :: 0 <= j < |a| ==> s[j] == a[j];
  }

  /** The pieces of `s` between occurrences of `sep`. */
  function Split(s: string, sep: char): (parts: seq<string>)
    ensures |parts| >= 1
    decreases |s|
  {
    if sep !in s then [s]
    else
      var i := IndexOf(s, sep);
      [s[..i]] + Split(s[i + 1..], sep)
  }

  /** A parameter's name runs up to its first `=`; the value is the rest. */
  function ParseParam(s: string): (string, string) {
    if '=' in s then
      var i := IndexOf(s, '=');
      (s[..i], s[i + 1..])
    else (s, "")
  }

  function ParseQuery(q: string): seq<(string, string)> {
    var parts := Split(q, '&');
    seq(|parts|, i requires 0 <= i < |parts| => ParseParam(parts[i]))
  }

  /** Names free of `=` and `&`, values free of `&`: what a query string can carry unambiguously. */
  predicate Unambiguous(ps: seq<(string, string)>) {
    forall i :: 0 <= i < |ps| ==> '=' !in ps[i].0 && '&' !in ps[i].0 && '&' !in ps[i].1
  }

  lemma ParseRenderParam(p: (string, string))
    requires '=' !in p.0
    ensures ParseParam(RenderParam(p)) == p
  {
    IndexOfAfter(p.0, '=', p.1);
    assert (p.0 + ['='] + p.1)[..|p.0|] == p.0;
    assert (p.0 + ['='] + p.1)[|p.0| + 1..] == p.1;
  }

  lemma {:induction false} SplitRender(ps: seq<(string, string)>)
    requires ps != [] && Unambiguous(ps)
    ensures |Split(RenderQuery(ps), '&')| == |ps|
    ensures forall i :: 0 <= i < |ps| ==> Split(RenderQuery(ps), '&')[i] == RenderParam(ps[i])
    decreases |ps|
  {
    var head := RenderParam(ps[0]);
    assert '&' !in head by {
      assert head == ps[0].0 + "=" + ps[0].1;
    }
    if |ps| == 1 {
    } else {
      var rest := RenderQuery(ps[1..]);
      assert RenderQuery(ps) == head + ['&'] + rest;
      IndexOfAfter(head, '&', rest);
      assert (head + ['&'] + rest)[..|head|] == head;
      assert (head + ['&'] + rest)[|head| + 1..] == rest;
      assert Unambiguous(ps[1..]) by {
        assert forall i :: 0 <= i < |ps[1..]| ==> ps[1..][i] == ps[i + 1];
      }
      SplitRender(ps[1..]);
    }
  }

  /** Rendering and reading back a query gives the same parameters, in the same order. */
  lemma QueryRoundTrip(ps: seq<(string, string)>)
    requires ps != [] && Unambiguous(ps)
    ensures ParseQuery(RenderQuery(ps)) == ps
  {
    SplitRender(ps);
    forall i | 0 <= i < |ps|
      ensures ParseQuery(RenderQuery(ps))[i] == ps[i]
    {
      ParseRenderParam(ps[i]);
    }
  }

  /**
   * The server reads back from the list URL the limit (25 when none was given), the token only
   * when one was given, and the completion flag only when one was given, as long as the token
   * holds no `&`.
   */
  lemma ListUrlReadsBack(limit: Option<int>, paginationToken: Option<string>, isCompleted: Option<bool>)
    requires paginationToken.Some? ==> '&' !in paginationToken.value
    ensures var ps := ParseQuery(RenderQuery(ListQuery(limit, paginationToken, isCompleted)));
      && ps[0] == ("limit", IntToString(limit.GetOr(DefaultLimit)))
      && |ps| == 1 + (if paginationToken.Some? then 1 else 0) + (if isCompleted.Some? then 1 else 0)
      && (paginationToken.Some? ==> ps[1] == ("paginationToken", paginationToken.value))
      && (isCompleted.Some? ==> ps[|ps| - 1] == ("isCompleted", if isCompleted.value then "True" else "False"))
  {
    var q := ListQuery(limit, paginationToken, isCompleted);
    IntToStringRoundTrip(limit.GetOr(DefaultLimit));
    var limitText := IntToString(limit.GetOr(DefaultLimit));
    assert forall i :: 0 <= i < |limitText| ==> limitText[i] == '-' || IsDigit(limitText[i]);
    assert Unambiguous(q);
    QueryRoundTrip(q);
  }
}
