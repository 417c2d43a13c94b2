/**
  The two places where the router consults the hosted chat model: one call
  for an image, and up to five calls with exponential back-off for a
  document question. The model itself is outside the model: `oracle(i)` is
  what the `i`-th call (counting from 0) returns or raises.
 */
module Generation {
  import opened Wrappers
  import opened Text

  /** The result of one chat-completion call: the message content, or the
      text of the exception it raised. */
  datatype Outcome = Fail(error: string) | Ok(content: string)

  /** How many calls the retry loop makes at most. */
  const MaxAttempts: nat := 5

  /** The sleeps between failed calls, in seconds. */
  const Backoffs: seq<nat> := [1, 2, 4, 8]

  const NoImageText: string := "No clear text could be extracted from the image."
  const ImageErrorPrefix: string := "Error analyzing image: "
  const NoClearAnswer: string := "No clear answer found."
  const TemporaryIssue: string := "Temporary issue with the AI model. Please try again."

  /** Two to the power `n`. */
  function Pow2(n: nat): (p: nat)
    ensures p >= 1
  {
    if n == 0 then 1 else Pow2(n - 1) + Pow2(n - 1)
  }

  /** The reply with surrounding whitespace removed, or the fallback when
      nothing but whitespace came back. */
  function AnswerOr(content: string, fallback: string): (r: string)
    ensures AllSpace(content) ==> r == fallback
    ensures !AllSpace(content) ==> r == Strip(content) && r != ""
  {
    StripEmptyIffAllSpace(content);
    var answer := Strip(content);
    if answer != "" then answer else fallback
  }

  /** The answer for an image: the stripped reply of the single call, the
      fallback for a blank reply, the error text for a failed call. */
  function ImageAnswer(outcome: Outcome): (r: string)
    ensures outcome.Ok? && !AllSpace(outcome.content) ==> r == Strip(outcome.content)
    ensures outcome.Ok? && AllSpace(outcome.content) ==> r == NoImageText
    ensures outcome.Fail? ==> r == ImageErrorPrefix + outcome.error
    ensures r != ""
  {
    match outcome
    case Ok(content) => AnswerOr(content, NoImageText)
    case Fail(e) => ImageErrorPrefix + e
  }

  /** The calls of the retry loop from attempt `attempt` on, with attempts
      numbered below `limit`: the content of the successful call, if any, how
      many calls were made in all, and the sleeps taken between them, in
      order. */
  datatype Calls = Calls(success: Option<string>, count: nat, delays: seq<nat>)

  function CallsFrom(oracle: nat -> Outcome, attempt: nat, limit: nat): (r: Calls)
    requires attempt < limit
    ensures attempt < r.count <= limit
    ensures forall i :: attempt <= i < r.count - 1 ==> oracle(i).Fail?
    ensures r.success.Some? ==> oracle(r.count - 1) == Ok(r.success.value)
    ensures r.success.None? ==> r.count == limit && oracle(r.count - 1).Fail?
    ensures |r.delays| == r.count - 1 - attempt
    ensures forall k :: 0 <= k < |r.delays| ==> r.delays[k] == Pow2(attempt + k)
    decreases limit - attempt
  {
    match oracle(attempt)
    case Ok(content) => Calls(Some(content), attempt + 1, [])
    case Fail(_) =>
      if attempt < limit - 1 then
        var rest := CallsFrom(oracle, attempt + 1, limit);
        var delays := [Pow2(attempt)] + rest.delays;
        assert forall k :: 1 <= k < |delays| ==> delays[k] == rest.delays[k - 1];
        rest.(delays := delays)
      else Calls(None, limit, [])
  }

  /** The sleep after failed attempt `a` is the listed back-off. */
  lemma Pow2IsBackoff(a: nat)
    requires a < |Backoffs|
    ensures Pow2(a) == Backoffs[a]
  {
    if a == 0 {
    } else if a == 1 {
    } else if a == 2 {
    } else {
      assert Pow2(3) == Pow2(2) + Pow2(2);
    }
  }

  /** What the retry loop leaves behind: the answer, how many calls it made
      and the sleeps it took between them, in order. */
  datatype Attempts = Attempts(reply: string, calls: nat, delays: seq<nat>)

  /** The retry loop: the calls stop at the first success, whose reply
      becomes the answer; five failures give the apology. Every failure but
      the last is followed by a sleep of two to the power of the attempt
      number, in seconds. */
  function Retry(oracle: nat -> Outcome): (r: Attempts)
    ensures 1 <= r.calls <= MaxAttempts
    ensures forall i :: 0 <= i < r.calls - 1 ==> oracle(i).Fail?
    ensures oracle(r.calls - 1).Ok? ==> r.reply == AnswerOr(oracle(r.calls - 1).content, NoClearAnswer)
    ensures oracle(r.calls - 1).Fail? ==> r.calls == MaxAttempts && r.reply == TemporaryIssue
    ensures |r.delays| == r.calls - 1
    ensures forall k :: 0 <= k < |r.delays| ==> r.delays[k] == Pow2(k)
    ensures r.reply != ""
  {
    var c := CallsFrom(oracle, 0, MaxAttempts);
    var reply := match c.success
      case Some(content) => AnswerOr(content, NoClearAnswer)
      case None => TemporaryIssue;
    Attempts(reply, c.count, c.delays)
  }

  /** The sleeps are 1, 2, 4 and 8 seconds, as many as there were failed
      calls before the last one. */
  lemma RetryDelays(oracle: nat -> Outcome)
    ensures Retry(oracle).delays == Backoffs[..Retry(oracle).calls - 1]
  {
    var r := Retry(oracle);
    forall k | 0 <= k < |r.delays| ensures r.delays[k] == Backoffs[k] {
      Pow2IsBackoff(k);
    }
  }

  /** The first successful call among the first `n`, if any. */
  function FirstOk(oracle: nat -> Outcome, n: nat): (r: Option<nat>)
    ensures r.Some? ==> r.value < n && oracle(r.value).Ok? && forall i :: 0 <= i < r.value ==> oracle(i).Fail?
    ensures r.None? ==> forall i :: 0 <= i < n ==> oracle(i).Fail?
  {
    if n == 0 then None
    else
      match FirstOk(oracle, n - 1)
      case Some(i) => Some(i)
      case None => if oracle(n - 1).Ok? then Some(n - 1) else None
  }

  /** The loop answers with the reply of the first successful call among the
      first five, made as call number `i + 1`; with no success among them it
      gives up after five calls and four sleeps. */
  lemma RetryAnswersFirstSuccess(oracle: nat -> Outcome)
    ensures var r := Retry(oracle);
            match FirstOk(oracle, MaxAttempts)
            case Some(i) => r.calls == i + 1 && r.reply == AnswerOr(oracle(i).content, NoClearAnswer)
            case None => r.calls == MaxAttempts && r.reply == TemporaryIssue && r.delays == Backoffs
  {
    var r := Retry(oracle);
    var last := r.calls - 1;
    match FirstOk(oracle, MaxAttempts)
    case Some(i) =>
    case None =>
      assert oracle(last).Fail?;
      RetryDelays(oracle);
      assert Backoffs[..4] == Backoffs;
  }

  /** The loop never sleeps more than 15 seconds in total. */
  lemma RetryWaitsAtMost15(oracle: nat -> Outcome)
    ensures Sum(Retry(oracle).delays) <= 15
  {
    ShortDoublings(Retry(oracle).delays);
  }

  /** At most four doubling sleeps add up to at most 15 seconds. */
  lemma ShortDoublings(xs: seq<nat>)
    requires |xs| <= 4
    requires forall k :: 0 <= k < |xs| ==> xs[k] == Pow2(k)
    ensures Sum(xs) <= 15
  {
    var n := |xs|;
    SumOfDoublings(xs);
    if n == 4 {
      assert Pow2(4) == 16;
    } else if n == 3 {
      assert Pow2(3) == 8;
    } else if n == 2 {
      assert Pow2(2) == 4;
    } else if n == 1 {
      assert Pow2(1) == 2;
    }
  }

  /** Total of a list of numbers. */
  function Sum(xs: seq<nat>): nat {
    if |xs| == 0 then 0 else Sum(xs[..|xs| - 1]) + xs[|xs| - 1]
  }

  /** 1 + 2 + ... + 2^(n-1) == 2^n - 1 */
  lemma {:induction false} SumOfDoublings(xs: seq<nat>)
    requires forall k :: 0 <= k < |xs| ==> xs[k] == Pow2(k)
    ensures Sum(xs) == Pow2(|xs|) - 1
    decreases |xs|
  {
    if |xs| > 0 {
      var front := xs[..|xs| - 1];
      assert forall k :: 0 <= k < |front| ==> front[k] == xs[k];
      SumOfDoublings(front);
    }
  }
}
