/**
 * `format_pdf_links` (content_sourcing_updated.py:146-173): ask the LLM, at
 * most three times, to turn a list of PDF URLs into JSON; return the first
 * reply that parses as JSON, otherwise serialise the list directly.
 */
module LinkFormatting {
  import opened Wrappers
  import opened PyStr
  import opened JsonText

  /** What one LLM call gave back: an exception, or a message with text content. */
  datatype LlmReply = Raised | Replied(content: string)

  /** `max_retries` */
  const MaxRetries: nat := 3

  /**
   * The text one attempt returns: the stripped content of the reply, when
   * `parse` (standing for `json.loads`) accepts it; None when the call raised
   * or the text is not JSON, and the loop goes on.
   */
  function Accepted(reply: LlmReply, parse: string -> Option<Json>): (r: Option<string>)
    ensures r.Some? ==> reply.Replied? && r.value == Strip(reply.content) && parse(r.value).Some?
    ensures r.None? ==> reply.Raised? || parse(Strip(reply.content)).None?
  {
    if reply.Replied? && parse(Strip(reply.content)).Some? then Some(Strip(reply.content)) else None
  }

  /** What attempt `k` (counting from 0) of a run whose first LLM call has number `firstCall` returns. */
  function AttemptResult(llm: nat -> LlmReply, parse: string -> Option<Json>, firstCall: nat, k: nat): Option<string> {
    Accepted(llm(firstCall + k), parse)
  }

  /**
   * What `format_pdf_links` returns when its attempts are numbered from
   * `k`: the JSON text and the number of LLM calls made by then. Attempt
   * `k` (below `MaxRetries`) returns its text when it was accepted and
   * otherwise the run goes on with attempt `k + 1`.
   */
  function FormattedFrom(links: seq<string>, llm: nat -> LlmReply, parse: string -> Option<Json>, firstCall: nat, k: nat)
    : (r: (string, nat))
    requires k <= MaxRetries
    ensures k < r.1 <= MaxRetries || (k == r.1 == MaxRetries)
    ensures r.0 == FallbackJson(links) || parse(r.0).Some?
    decreases MaxRetries - k
  {
    if k == MaxRetries then (FallbackJson(links), MaxRetries)
    else
      var accepted := AttemptResult(llm, parse, firstCall, k);
      if accepted.Some? then (accepted.value, k + 1)
      else FormattedFrom(links, llm, parse, firstCall, k + 1)
  }

  /** The text `format_pdf_links(links)` returns and the number of LLM calls it makes. */
  function Formatted(links: seq<string>, llm: nat -> LlmReply, parse: string -> Option<Json>, firstCall: nat)
    : (r: (string, nat))
    ensures 1 <= r.1 <= MaxRetries
    ensures r.0 == FallbackJson(links) || parse(r.0).Some?
  {
    FormattedFrom(links, llm, parse, firstCall, 0)
  }

  /** The four ways the three attempts can go. */
  lemma FormattedCases(links: seq<string>, llm: nat -> LlmReply, parse: string -> Option<Json>, firstCall: nat)
    ensures var r := Formatted(links, llm, parse, firstCall);
      var a0, a1, a2 := AttemptResult(llm, parse, firstCall, 0), AttemptResult(llm, parse, firstCall, 1),
                        AttemptResult(llm, parse, firstCall, 2);
      || (a0.Some? && r == (a0.value, 1))
      || (a0.None? && a1.Some? && r == (a1.value, 2))
      || (a0.None? && a1.None? && a2.Some? && r == (a2.value, 3))
      || (a0.None? && a1.None? && a2.None? && r == (FallbackJson(links), 3))
  {
    var f1 := FormattedFrom(links, llm, parse, firstCall, 1);
    var f2 := FormattedFrom(links, llm, parse, firstCall, 2);
    assert FormattedFrom(links, llm, parse, firstCall, 3) == (FallbackJson(links), 3);
  }

  /**
   * `Formatted` as the loop of lines 149-173 runs: every attempt before the
   * last failed; a successful last attempt gives the text; when the last
   * one failed too, all three did and the text is the fallback.
   */
  lemma FormattedAttempts(links: seq<string>, llm: nat -> LlmReply, parse: string -> Option<Json>, firstCall: nat)
    ensures var r := Formatted(links, llm, parse, firstCall);
      && (forall k: nat :: k < r.1 - 1 ==> AttemptResult(llm, parse, firstCall, k).None?)
      && (AttemptResult(llm, parse, firstCall, r.1 - 1).Some? ==> r.0 == AttemptResult(llm, parse, firstCall, r.1 - 1).value)
      && (AttemptResult(llm, parse, firstCall, r.1 - 1).None? ==> r.1 == MaxRetries && r.0 == FallbackJson(links))
  {
    FormattedCases(links, llm, parse, firstCall);
    var r := Formatted(links, llm, parse, firstCall);
    var a0, a1, a2 := AttemptResult(llm, parse, firstCall, 0), AttemptResult(llm, parse, firstCall, 1),
                      AttemptResult(llm, parse, firstCall, 2);
    forall k: nat | k < r.1 - 1
      ensures AttemptResult(llm, parse, firstCall, k).None?
    {
      assert k == 0 || (k == 1 && r.1 == 3);
    }
  }

  /**
   * Calls the LLM with the call numbers `firstCall`, `firstCall + 1`, ... and
   * returns the JSON text together with the number of calls made, as
   * `Formatted` describes them.
   */
  method FormatPdfLinks(links: seq<string>, llm: nat -> LlmReply, parse: string -> Option<Json>, firstCall: nat)
    returns (json: string, attempts: nat)
    ensures (json, attempts) == Formatted(links, llm, parse, firstCall)
  {
    for attempt := 0 to MaxRetries
      invariant Formatted(links, llm, parse, firstCall) == FormattedFrom(links, llm, parse, firstCall, attempt)
    {
      var accepted := AttemptResult(llm, parse, firstCall, attempt);
      if accepted.Some? {
        return accepted.value, attempt + 1;
      }
    }
    return FallbackJson(links), MaxRetries;
  }
}
