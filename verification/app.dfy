/**
  The chat front end around the router: short social messages are answered
  directly, every other question goes to the router, and the router's
  answer may get a closing sentence. The chat history keeps at most the
  last 50 messages.
 */
module App {
  import opened Wrappers
  import opened Text
  import VectorStore
  import Generation
  import RagPipeline

  // ---------------------------------------------------------------- classifier

  const GreetingWords: seq<string> :=
    ["hi", "hello", "hey", "hii", "heyy", "helloo", "good morning", "good afternoon", "good evening"]
  const ThanksBlockers: seq<string> := ["what", "how", "why", "is", "describe"]
  const GoodbyeWords: seq<string> := ["bye", "goodbye", "see you", "tata", "take care"]

  /** The tokens a greeting may hold besides greeting entries. */
  const Punctuation: seq<string> := [",", "!"]

  /** A greeting: the whole normalised query is a greeting entry, or it has
      at most three tokens, some token is a greeting entry and every other
      token is a greeting entry, a comma or an exclamation mark. */
  predicate IsPureGreeting(ql: string) {
    var words := Words(ql);
    || ql in GreetingWords
    || (&& |words| <= 3
        && (exists k :: 0 <= k < |words| && words[k] in GreetingWords)
        && (forall k :: 0 <= k < |words| && words[k] !in GreetingWords ==> words[k] in GreetingWords + Punctuation))
  }

  /** A thank-you: "thank" or "thanks" is a token, there are at most five
      tokens, and no question word occurs anywhere in the query. */
  predicate IsPureThanks(ql: string) {
    var words := Words(ql);
    && ("thank" in words || "thanks" in words)
    && |words| <= 5
    && !ContainsAny(ql, ThanksBlockers)
  }

  /** A goodbye: at most four tokens, one of them a farewell entry. */
  predicate IsPureGoodbye(ql: string) {
    var words := Words(ql);
    |words| <= 4 && exists k :: 0 <= k < |words| && words[k] in GoodbyeWords
  }

  datatype Kind = Greeting | Thanks | Goodbye | Question

  /** The class of a chat message, tried in the order greeting, thanks,
      goodbye. */
  function Classify(query: string): (k: Kind)
    ensures var ql := Strip(Lower(query));
            && (k == Greeting <==> IsPureGreeting(ql))
            && (k == Thanks <==> !IsPureGreeting(ql) && IsPureThanks(ql))
            && (k == Goodbye <==> !IsPureGreeting(ql) && !IsPureThanks(ql) && IsPureGoodbye(ql))
  {
    var ql := Strip(Lower(query));
    if IsPureGreeting(ql) then Greeting
    else if IsPureThanks(ql) then Thanks
    else if IsPureGoodbye(ql) then Goodbye
    else Question
  }

  /** No token of `split()` holds a space, so the greeting entries of two
      words can only match the whole query. */
  lemma TokensHaveNoSpace(ql: string, k: nat)
    requires k < |Words(ql)|
    ensures Words(ql)[k] != "good morning" && Words(ql)[k] != "good afternoon" && Words(ql)[k] != "good evening"
    ensures Words(ql)[k] != "see you" && Words(ql)[k] != "take care"
  {
    var w := Words(ql)[k];
    assert IsWord(w);
    if |w| == 12 || |w| == 14 || |w| == 7 || |w| == 9 {
      assert !IsSpace(w[4]);
      assert !IsSpace(w[3]);
    }
  }

  /** A greeting: the whole query is a greeting entry, or it has at most
      three tokens, one of them a one-word greeting and the rest greetings,
      commas or exclamation marks. */
  lemma GreetingIff(ql: string)
    ensures var words := Words(ql);
            IsPureGreeting(ql) <==>
              || ql in GreetingWords
              || (&& |words| <= 3
                  && (exists k :: 0 <= k < |words| && words[k] in GreetingWords[..6])
                  && (forall k :: 0 <= k < |words| ==> words[k] in GreetingWords[..6] + Punctuation))
  {
    var words := Words(ql);
    forall k | 0 <= k < |words|
      ensures words[k] in GreetingWords <==> words[k] in GreetingWords[..6]
      ensures words[k] in GreetingWords + Punctuation <==> words[k] in GreetingWords[..6] + Punctuation
    {
      TokensHaveNoSpace(ql, k);
    }
  }

  /** A goodbye: at most four tokens, one of them "bye", "goodbye" or
      "tata"; "see you" and "take care" never match a token. */
  lemma GoodbyeIff(ql: string)
    ensures var words := Words(ql);
            IsPureGoodbye(ql) <==> |words| <= 4 && exists k :: 0 <= k < |words| && words[k] in ["bye", "goodbye", "tata"]
  {
    var words := Words(ql);
    forall k | 0 <= k < |words|
      ensures words[k] in GoodbyeWords <==> words[k] in ["bye", "goodbye", "tata"]
    {
      TokensHaveNoSpace(ql, k);
    }
  }

  /** The blockers are matched as substrings: a thank-you that contains
      "this" contains "is" and is not taken for thanks. */
  lemma ThisBlocksThanks(ql: string)
    requires Contains(ql, "this")
    ensures !IsPureThanks(ql)
  {
    ContainsSlice(ql, "this", 2, 4);
    assert "this"[2..4] == "is";
    assert ThanksBlockers[3] == "is";
  }

  // ---------------------------------------------------------------- replies

  const GreetingReply: string := "Greetings. How may I assist you with the document today?"
  const ThanksReply: string := "You are welcome. Is there anything else I can help with?"
  const GoodbyeReply: string := "Goodbye. Have a productive day."

  const ClarificationSuffix: string := "\n\nPlease let me know if you require further clarification."
  const SuffixBlockers: seq<string> := ["not found", "error", "please upload", "no relevant"]

  /** The closing sentence is added unless the lower-cased answer reads as a
      failure. */
  function WithSuffix(response: string): (r: string)
    ensures ContainsAny(Lower(response), SuffixBlockers) ==> r == response
    ensures !ContainsAny(Lower(response), SuffixBlockers) ==> r == response + ClarificationSuffix
  {
    if ContainsAny(Lower(response), SuffixBlockers) then response else response + ClarificationSuffix
  }

  /** The reply to one non-empty chat message; an empty message gets no
      reply at all. */
  function Respond(s: RagPipeline.Session, query: string, labels: seq<VectorStore.Label>, oracle: nat -> Generation.Outcome): (r: string)
    requires query != ""
    ensures Classify(query) == Greeting ==> r == GreetingReply
    ensures Classify(query) == Thanks ==> r == ThanksReply
    ensures Classify(query) == Goodbye ==> r == GoodbyeReply
    ensures Classify(query) == Question ==> r == WithSuffix(RagPipeline.GetAnswer(s, query, labels, oracle).text)
  {
    match Classify(query)
    case Greeting => GreetingReply
    case Thanks => ThanksReply
    case Goodbye => GoodbyeReply
    case Question => WithSuffix(RagPipeline.GetAnswer(s, query, labels, oracle).text)
  }

  /** A social message never reaches the router: its reply does not depend
      on the document, the search or the model, and carries no closing
      sentence. */
  lemma SocialRepliesSkipRouter(s1: RagPipeline.Session, s2: RagPipeline.Session, query: string,
                                l1: seq<VectorStore.Label>, l2: seq<VectorStore.Label>,
                                o1: nat -> Generation.Outcome, o2: nat -> Generation.Outcome)
    requires query != ""
    ensures Classify(query) != Question ==> Respond(s1, query, l1, o1) == Respond(s2, query, l2, o2)
    ensures Classify(query) != Question ==> Respond(s1, query, l1, o1) in [GreetingReply, ThanksReply, GoodbyeReply]
  {
  }

  /** An answer that starts with a blocker, in any letter case, is left as
      it is. */
  lemma BlockedByPrefix(response: string, p: string, k: nat)
    requires k < |SuffixBlockers| && |p| <= |response| && response[..|p|] == p && Lower(p) == SuffixBlockers[k]
    ensures WithSuffix(response) == response
  {
    var low := Lower(response);
    assert low[..|p|] == Lower(p);
    assert MatchesAt(low, SuffixBlockers[k], 0);
  }

  /** With no document loaded, every question gets exactly the request for
      one: "Please upload a document first." carries "please upload", so no
      closing sentence is added. */
  lemma NoSuffixWithoutDocument(s: RagPipeline.Session, query: string, labels: seq<VectorStore.Label>, oracle: nat -> Generation.Outcome)
    requires query != ""
    ensures Classify(query) == Question && s.fullText.None? ==>
              Respond(s, query, labels, oracle) == RagPipeline.NoDocumentMessage
  {
    var p := "Please upload";
    assert Lower(p) == SuffixBlockers[2];
    BlockedByPrefix(RagPipeline.NoDocumentMessage, p, 2);
  }

  /** When the model fails on an image, the question gets exactly the error
      text: it carries "error", so no closing sentence is added. */
  lemma NoSuffixOnImageError(s: RagPipeline.Session, query: string, labels: seq<VectorStore.Label>, oracle: nat -> Generation.Outcome)
    requires query != ""
    ensures Classify(query) == Question && s.fullText.Some? && RagPipeline.IsImage(s.metadata) && oracle(0).Fail? ==>
              Respond(s, query, labels, oracle) == Generation.ImageErrorPrefix + oracle(0).error
  {
    if oracle(0).Fail? {
      var p := "Error";
      assert Lower(p) == SuffixBlockers[1];
      BlockedByPrefix(Generation.ImageErrorPrefix + oracle(0).error, p, 1);
    }
  }

  /** When the search finds nothing, the question gets exactly the
      no-content message: it carries "no relevant", so no closing sentence
      is added. */
  lemma NoSuffixOnNoContent(s: RagPipeline.Session, query: string, labels: seq<VectorStore.Label>, oracle: nat -> Generation.Outcome)
    requires query != ""
    ensures Classify(query) == Question && RagPipeline.GetAnswer(s, query, labels, oracle).route == RagPipeline.NoContent ==>
              Respond(s, query, labels, oracle) == RagPipeline.NoContentMessage
  {
    var p := "No relevant";
    assert Lower(p) == SuffixBlockers[3];
    BlockedByPrefix(RagPipeline.NoContentMessage, p, 3);
  }

  // ---------------------------------------------------------------- history

  /** The history cap, used for the display as well. */
  const MaxMessages: nat := 50

  datatype Role = User | Assistant
  datatype Message = Message(role: Role, content: string)

  /** The last `n` elements of `xs`, or all of them when there are fewer. */
  function LastN<T>(xs: seq<T>, n: nat): (r: seq<T>)
    ensures |r| == Min(|xs|, n)
    ensures forall k :: 0 <= k < |r| ==> r[k] == xs[|xs| - |r| + k]
  {
    if |xs| <= n then xs else xs[|xs| - n..]
  }

  function Min(a: nat, b: nat): nat {
    if a <= b then a else b
  }

  /** One exchange: the question and the reply are appended, then the
      history is cut back to the last 50 messages. */
  function AppendTurn(history: seq<Message>, query: string, response: string): (h: seq<Message>)
    ensures |h| == Min(|history| + 2, MaxMessages)
    ensures h == LastN(history + [Message(User, query), Message(Assistant, response)], MaxMessages)
    ensures h[|h| - 2] == Message(User, query) && h[|h| - 1] == Message(Assistant, response)
  {
    var full := history + [Message(User, query), Message(Assistant, response)];
    if |full| > MaxMessages then full[|full| - MaxMessages..] else full
  }

  /** The messages of a run of exchanges, in order. */
  function Transcript(turns: seq<(string, string)>): (msgs: seq<Message>)
    ensures |msgs| == 2 * |turns|
  {
    if |turns| == 0 then []
    else Transcript(turns[..|turns| - 1]) + [Message(User, turns[|turns| - 1].0), Message(Assistant, turns[|turns| - 1].1)]
  }

  /** The history after a run of exchanges: after at least one exchange, or
      from a history within the cap, it holds at most 50 messages. */
  function Replay(history: seq<Message>, turns: seq<(string, string)>): (h: seq<Message>)
    ensures |turns| > 0 || |history| <= MaxMessages ==> |h| <= MaxMessages
    ensures |turns| == 0 ==> h == history
  {
    if |turns| == 0 then history
    else
      var last := turns[|turns| - 1];
      AppendTurn(Replay(history, turns[..|turns| - 1]), last.0, last.1)
  }

  /** Starting from a history within the cap, the history after any number
      of exchanges is exactly the last 50 messages of everything said, in
      order. */
  lemma {:induction false} ReplayKeepsLastMessages(history: seq<Message>, turns: seq<(string, string)>)
    requires |history| <= MaxMessages
    ensures Replay(history, turns) == LastN(history + Transcript(turns), MaxMessages)
    decreases |turns|
  {
    if |turns| > 0 {
      var front := turns[..|turns| - 1];
      var last := turns[|turns| - 1];
      var pair := [Message(User, last.0), Message(Assistant, last.1)];
      ReplayKeepsLastMessages(history, front);
      var all := history + Transcript(front);
      assert history + Transcript(turns) == all + pair;
      LastNOfLastN(all, pair, MaxMessages);
    }
  }

  /** Cutting before appending a few elements changes nothing once the
      result is cut again. */
  lemma LastNOfLastN<T>(xs: seq<T>, ys: seq<T>, n: nat)
    requires |ys| <= n
    ensures LastN(LastN(xs, n) + ys, n) == LastN(xs + ys, n)
  {
    var front := LastN(xs, n);
    var all := xs + ys;
    var a := LastN(front + ys, n);
    var b := LastN(all, n);
    assert |front + ys| == Min(|xs|, n) + |ys|;
    assert |a| == |b|;
    forall k | 0 <= k < |a| ensures a[k] == b[k] {
      var i := |front| + |ys| - |a| + k;
      assert a[k] == (front + ys)[i];
      assert b[k] == all[|xs| - |front| + i];
      if i < |front| {
        assert (front + ys)[i] == front[i] == xs[|xs| - |front| + i];
      } else {
        assert (front + ys)[i] == ys[i - |front|];
      }
    }
  }
}
