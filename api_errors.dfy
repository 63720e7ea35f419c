/**
 * The error body every failed request returns, its three factories, and the exception
 * handler that turns an escaped exception into a status code and an error body, grouping
 * validation failures by property.
 */
module ApiErrors {
  import opened Wrappers

  datatype ApiError = ApiError(key: string, errors: seq<string>)

  /**
   * The error body. A value: each factory call yields a body of its own, so adding errors to
   * one body never shows up in another.
   */
  datatype ApiErrorResponse = ApiErrorResponse(errorCode: string, errorMessage: string, statusCode: int, errors: seq<ApiError>)

  function NotFound(): ApiErrorResponse {
    ApiErrorResponse("NotFoundError", "Not found", 404, [])
  }

  function ValidationError(): ApiErrorResponse {
    ApiErrorResponse("ValidationError", "Validation error", 400, [])
  }

  function InternalServerError(): ApiErrorResponse {
    ApiErrorResponse("InternalServerError", "Internal server error", 500, [])
  }

  /** The three factories give three different codes and statuses, each with no errors yet. */
  lemma FactoriesDistinct()
    ensures NotFound().statusCode == 404 && ValidationError().statusCode == 400 && InternalServerError().statusCode == 500
    ensures NotFound().errorCode != ValidationError().errorCode
    ensures ValidationError().errorCode != InternalServerError().errorCode
    ensures InternalServerError().errorCode != NotFound().errorCode
    ensures NotFound().errors == ValidationError().errors == InternalServerError().errors == []
  {
  }

  // ---------------------------------------------------------------------------
  // Grouping validation failures by property
  // ---------------------------------------------------------------------------

  datatype ValidationFailure = ValidationFailure(propertyName: string, errorMessage: string)

  predicate Distinct(s: seq<string>) {
    forall i, j :: 0 <= i < j < |s| ==> s[i] != s[j]
  }

  /** The indices of the failures of property `name`, in increasing order (all of them: `PositionsComplete`). */
  function Positions(fs: seq<ValidationFailure>, name: string): (ps: seq<nat>)
    ensures forall k :: 0 <= k < |ps| ==> ps[k] < |fs| && fs[ps[k]].propertyName == name
    ensures forall k1, k2 :: 0 <= k1 < k2 < |ps| ==> ps[k1] < ps[k2]
    decreases |fs|
  {
    if fs == [] then []
    else
      var init := fs[..|fs| - 1];
      var last := fs[|fs| - 1];
      assert forall i :: 0 <= i < |init| ==> init[i] == fs[i];
      Positions(init, name) + if last.propertyName == name then [|fs| - 1] else []
  }

  /** Every failure of property `name` has its index among `Positions(fs, name)`. */
  lemma {:induction false} PositionsComplete(fs: seq<ValidationFailure>, name: string, i: nat)
    requires i < |fs| && fs[i].propertyName == name
    ensures i in Positions(fs, name)
    decreases |fs|
  {
    var init := fs[..|fs| - 1];
    if i < |init| {
      assert init[i] == fs[i];
      PositionsComplete(init, name, i);
    }
  }

  /** The property names of `fs`, each once, in order of first appearance: the keys of the groups. */
  function GroupKeys(fs: seq<ValidationFailure>): (keys: seq<string>)
    ensures Distinct(keys)
    ensures forall name :: name in keys <==> exists i :: 0 <= i < |fs| && fs[i].propertyName == name
    decreases |fs|
  {
    if fs == [] then []
    else
      var init := fs[..|fs| - 1];
      var last := fs[|fs| - 1];
      var keys := GroupKeys(init);
      assert forall i :: 0 <= i < |init| ==> init[i] == fs[i];
      if last.propertyName in keys then keys else keys + [last.propertyName]
  }

  /** The messages of the failures of property `name`, in their original order. */
  function MessagesOf(fs: seq<ValidationFailure>, name: string): (ms: seq<string>)
    ensures |ms| <= |fs|
    ensures forall m :: m in ms ==> exists i :: 0 <= i < |fs| && fs[i] == ValidationFailure(name, m)
    decreases |fs|
  {
    if fs == [] then []
    else
      var init := fs[..|fs| - 1];
      var last := fs[|fs| - 1];
      assert forall i :: 0 <= i < |init| ==> init[i] == fs[i];
      MessagesOf(init, name) + if last.propertyName == name then [last.errorMessage] else []
  }

  /** The index of the first failure of property `name`, or `|fs|` when it never fails. */
  function FirstIndex(fs: seq<ValidationFailure>, name: string): (r: nat)
    ensures r <= |fs|
    ensures r < |fs| ==> fs[r].propertyName == name
    decreases |fs|
  {
    if fs == [] then 0
    else
      var init := fs[..|fs| - 1];
      var f := FirstIndex(init, name);
      if f < |init| then assert init[f] == fs[f]; f
      else if fs[|fs| - 1].propertyName == name then |fs| - 1
      else |fs|
  }

  /** No failure before `FirstIndex(fs, name)` is one of property `name`. */
  lemma {:induction false} FirstIndexIsFirst(fs: seq<ValidationFailure>, name: string, i: nat)
    requires i < FirstIndex(fs, name)
    ensures fs[i].propertyName != name
    decreases |fs|
  {
    var init := fs[..|fs| - 1];
    if i < |init| {
      FirstIndexIsFirst(init, name, i);
      assert init[i] == fs[i];
    }
  }

  /**
   * The keys come in the order grouping a sequence produces: each key fails somewhere, and
   * the keys are ordered by the index at which each property first fails.
   */
  lemma {:induction false} GroupKeysByFirstAppearance(fs: seq<ValidationFailure>)
    ensures var keys := GroupKeys(fs);
      && (forall j :: 0 <= j < |keys| ==> FirstIndex(fs, keys[j]) < |fs|)
      && (forall j1, j2 :: 0 <= j1 < j2 < |keys| ==> FirstIndex(fs, keys[j1]) < FirstIndex(fs, keys[j2]))
    decreases |fs|
  {
    if fs != [] {
      var init := fs[..|fs| - 1];
      var name := fs[|fs| - 1].propertyName;
      var prev := GroupKeys(init);
      GroupKeysByFirstAppearance(init);
      forall j | 0 <= j < |prev|
        ensures FirstIndex(fs, prev[j]) == FirstIndex(init, prev[j]) < |init|
      {
        assert FirstIndex(init, GroupKeys(init)[j]) < |init|;
      }
      if name !in prev {
        assert FirstIndex(fs, name) == |init|;
        var keys := GroupKeys(fs);
        assert keys == prev + [name];
        forall j1, j2 | 0 <= j1 < j2 < |keys|
          ensures FirstIndex(fs, keys[j1]) < FirstIndex(fs, keys[j2])
        {
          assert keys[j1] == prev[j1];
          if j2 < |prev| {
            assert keys[j2] == prev[j2];
          }
        }
      }
    }
  }

  /** Property `name`'s messages are those of its failures, one per failure, in index order. */
  lemma {:induction false} MessagesOfInOrder(fs: seq<ValidationFailure>, name: string)
    ensures var ms := MessagesOf(fs, name);
      && |ms| == |Positions(fs, name)|
      && forall k :: 0 <= k < |ms| ==> ms[k] == fs[Positions(fs, name)[k]].errorMessage
    decreases |fs|
  {
    if fs != [] {
      var init := fs[..|fs| - 1];
      var last := fs[|fs| - 1];
      MessagesOfInOrder(init, name);
      var ms, ps := MessagesOf(init, name), Positions(init, name);
      if last.propertyName == name {
        assert MessagesOf(fs, name) == ms + [last.errorMessage];
        assert Positions(fs, name) == ps + [|fs| - 1];
      } else {
        assert MessagesOf(fs, name) == ms;
        assert Positions(fs, name) == ps;
      }
      forall k | 0 <= k < |ms|
        ensures ms[k] == fs[ps[k]].errorMessage
      {
        assert init[ps[k]] == fs[ps[k]];
      }
    }
  }

  /** One error entry per property, in order of first appearance, listing that property's messages. */
  function GroupErrors(fs: seq<ValidationFailure>): (groups: seq<ApiError>)
    ensures |groups| == |GroupKeys(fs)|
    ensures forall i :: 0 <= i < |groups| ==> groups[i] == ApiError(GroupKeys(fs)[i], MessagesOf(fs, GroupKeys(fs)[i]))
  {
    var keys := GroupKeys(fs);
    seq(|keys|, i requires 0 <= i < |keys| => ApiError(keys[i], MessagesOf(fs, keys[i])))
  }

  /** A property that failed no rule has no messages. */
  lemma {:induction false} MessagesOfAbsent(fs: seq<ValidationFailure>, name: string)
    requires forall i :: 0 <= i < |fs| ==> fs[i].propertyName != name
    ensures MessagesOf(fs, name) == []
    decreases |fs|
  {
    if fs != [] {
      var init := fs[..|fs| - 1];
      assert forall i :: 0 <= i < |init| ==> init[i] == fs[i];
      MessagesOfAbsent(init, name);
    }
  }

  /** The number of messages filed under `keys`. */
  function MessageCount(fs: seq<ValidationFailure>, keys: seq<string>): nat
    decreases |keys|
  {
    if keys == [] then 0
    else MessageCount(fs, keys[..|keys| - 1]) + |MessagesOf(fs, keys[|keys| - 1])|
  }

  /** Appending one failure adds one message under its own property and none under any other. */
  lemma {:induction false} MessageCountAppend(fs: seq<ValidationFailure>, f: ValidationFailure, keys: seq<string>)
    requires Distinct(keys)
    ensures MessageCount(fs + [f], keys) == MessageCount(fs, keys) + if f.propertyName in keys then 1 else 0
    decreases |keys|
  {
    if keys != [] {
      var init := keys[..|keys| - 1];
      var k := keys[|keys| - 1];
      assert (fs + [f])[..|fs + [f]| - 1] == fs;
      MessageCountAppend(fs, f, init);
      assert f.propertyName in keys <==> f.propertyName in init || f.propertyName == k;
      assert forall i :: 0 <= i < |init| ==> init[i] == keys[i];
      assert k !in init;
    }
  }

  /**
   * Every failure lands in exactly one group: the groups' message lists add up to the
   * number of failures (together with `GroupErrors`' contract, nothing is lost or repeated).
   */
  lemma {:induction false} GroupingKeepsEveryFailure(fs: seq<ValidationFailure>)
    ensures MessageCount(fs, GroupKeys(fs)) == |fs|
    decreases |fs|
  {
    if fs != [] {
      var init := fs[..|fs| - 1];
      var last := fs[|fs| - 1];
      assert fs == init + [last];
      GroupingKeepsEveryFailure(init);
      var keys := GroupKeys(init);
      MessageCountAppend(init, last, keys);
      if last.propertyName !in keys {
        assert forall i :: 0 <= i < |init| ==> init[i].propertyName != last.propertyName;
        MessagesOfAbsent(init, last.propertyName);
        assert (keys + [last.propertyName])[..|keys|] == keys;
        assert MessagesOf(fs, last.propertyName) == [last.errorMessage];
      }
    }
  }

  /** Each failure's message is listed under its property's entry. */
  lemma {:induction false} EveryMessageListed(fs: seq<ValidationFailure>, i: nat)
    requires i < |fs|
    ensures fs[i].errorMessage in MessagesOf(fs, fs[i].propertyName)
    decreases |fs|
  {
    var init := fs[..|fs| - 1];
    if i < |fs| - 1 {
      assert init[i] == fs[i];
      EveryMessageListed(init, i);
    }
  }

  // ---------------------------------------------------------------------------
  // The exception handler
  // ---------------------------------------------------------------------------

  /** The exceptions the handler tells apart. */
  datatype HandledException =
    | JsonException(message: string)
    | ValidationFailureException(failures: Option<seq<ValidationFailure>>)
    | OtherException

  /** The HTTP response the handler writes: a status code and a JSON body. */
  class HttpResponse {
    var statusCode: int
    var body: Option<ApiErrorResponse>

    constructor ()
      ensures statusCode == 200 && body.None?
    {
      statusCode := 200;
      body := None;
    }
  }

  /**
   * Malformed JSON and failed validation answer 400 with a validation body (the JSON error
   * under key "JsonException", the failures grouped by property); anything else answers 500.
   * The exception always counts as handled.
   */
  method TryHandle(response: HttpResponse, exception: HandledException) returns (handled: bool)
    modifies response
    ensures handled
    ensures response.body.Some? && response.statusCode == response.body.value.statusCode
    ensures exception.OtherException? ==> response.body == Some(InternalServerError())
    ensures exception.JsonException? ==>
      response.body == Some(ValidationError().(errors := [ApiError("JsonException", [exception.message])]))
    ensures exception.ValidationFailureException? ==>
      response.body == Some(ValidationError().(errors :=
        if exception.failures.None? then [] else GroupErrors(exception.failures.value)))
  {
    match exception {
      case JsonException(message) =>
        var errorResponse := ValidationError();
        response.statusCode := errorResponse.statusCode;
        errorResponse := errorResponse.(errors := errorResponse.errors + [ApiError("JsonException", [message])]);
        assert errorResponse.errors == [ApiError("JsonException", [message])];
        response.body := Some(errorResponse);
      case ValidationFailureException(failures) =>
        var errorResponse := ValidationError();
        response.statusCode := errorResponse.statusCode;
        if failures.Some? {
          var groups := GroupErrors(failures.value);
          var i := 0;
          while i < |groups|
            invariant 0 <= i <= |groups|
            invariant errorResponse == ValidationError().(errors := groups[..i])
          {
            errorResponse := errorResponse.(errors := errorResponse.errors + [groups[i]]);
            i := i + 1;
          }
          assert groups[..i] == groups;
        }
        response.body := Some(errorResponse);
      case OtherException =>
        var apiErrorResponse := InternalServerError();
        response.statusCode := apiErrorResponse.statusCode;
        response.body := Some(apiErrorResponse);
    }
    handled := true;
  }

  /** Grouping a create request's two missing-field failures gives two entries, one per field. */
  lemma TwoPropertiesTwoEntries(titleMessage: string, notesMessage: string)
    ensures GroupErrors([ValidationFailure("Title", titleMessage), ValidationFailure("Notes", notesMessage)])
      == [ApiError("Title", [titleMessage]), ApiError("Notes", [notesMessage])]
  {
    var fs := [ValidationFailure("Title", titleMessage), ValidationFailure("Notes", notesMessage)];
    assert fs[..1] == [ValidationFailure("Title", titleMessage)];
    assert fs[..1][..0] == [];
    assert GroupKeys(fs[..1]) == ["Title"];
    assert GroupKeys(fs) == ["Title", "Notes"];
    assert MessagesOf(fs, "Title") == [titleMessage];
    assert MessagesOf(fs, "Notes") == [notesMessage];
  }
}
