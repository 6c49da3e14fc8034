/** `fetch_pictures`: `count` GET requests to a fixed image URL; every answer
    with status 200 adds that URL to the result, every other outcome is
    dropped. The network is replaced by the outcome of each attempt. */
module Fetcher {

  const PlaceDogURL: string := "https://place.dog/200/300"

  /** What the i-th `requests.get(url, timeout=5)` produced: a response with a
      status code, or a `RequestException` (timeout, connection error, ...). */
  datatype Attempt = Response(statusCode: int) | RequestFailed

  predicate Succeeded(a: Attempt) {
    a.Response? && a.statusCode == 200
  }

  /** Number of successful attempts among the first `n` (none when `n <= 0`,
      as `range(n)` is then empty). */
  function Successes(n: int, outcome: nat -> Attempt): (k: nat)
    ensures k <= if n > 0 then n else 0
  {
    if n <= 0 then 0
    else Successes(n - 1, outcome) + (if Succeeded(outcome(n - 1)) then 1 else 0)
  }

  /** The indices of the attempts among the first `n` that succeeded. */
  ghost function SucceededAttempts(n: nat, outcome: nat -> Attempt): set<nat> {
    set i: nat | i < n && Succeeded(outcome(i))
  }

  /** `Successes` counts exactly the attempts that got status 200. */
  lemma {:induction false} SuccessesCountsSucceeded(n: nat, outcome: nat -> Attempt)
    ensures Successes(n, outcome) == |SucceededAttempts(n, outcome)|
  {
    if n > 0 {
      SuccessesCountsSucceeded(n - 1, outcome);
      var before := SucceededAttempts(n - 1, outcome);
      if Succeeded(outcome(n - 1)) {
        assert SucceededAttempts(n, outcome) == before + {n - 1};
      } else {
        assert SucceededAttempts(n, outcome) == before;
      }
    } else {
      assert SucceededAttempts(n, outcome) == {};
    }
  }

  /** The result is empty exactly when every attempt failed (or there were none). */
  lemma {:induction false} NoImagesIffAllFailed(n: int, outcome: nat -> Attempt)
    ensures Successes(n, outcome) == 0 <==> forall i: nat :: i < n ==> !Succeeded(outcome(i))
  {
    if n > 0 {
      NoImagesIffAllFailed(n - 1, outcome);
    }
  }

  /** Every attempt succeeding yields exactly `count` images. */
  lemma {:induction false} AllImagesWhenAllSucceed(n: int, outcome: nat -> Attempt)
    requires forall i: nat :: i < n ==> Succeeded(outcome(i))
    ensures Successes(n, outcome) == if n > 0 then n else 0
  {
    if n > 0 {
      AllImagesWhenAllSucceed(n - 1, outcome);
    }
  }

  method FetchPictures(count: int, outcome: nat -> Attempt) returns (images: seq<string>)
    ensures |images| == Successes(count, outcome)
    ensures |images| <= if count > 0 then count else 0
    ensures forall i :: 0 <= i < |images| ==> images[i] == PlaceDogURL
  {
    var url := PlaceDogURL;
    images := [];
    var attempt := 0;
    while attempt < count
      invariant count > 0 ==> 0 <= attempt <= count
      invariant count <= 0 ==> attempt == 0
      invariant |images| == Successes(attempt, outcome)
      invariant forall i :: 0 <= i < |images| ==> images[i] == url
    {
      var response := outcome(attempt);
      if response.Response? && response.statusCode == 200 {
        images := images + [url];
      }
      attempt := attempt + 1;
    }
  }
}
