/**
 * The steps of `ZhihuQuestion.__init__` that decide what is collected
 * (main.py:70-90): the answer count read from the page snapshot, then the
 * answer collection of `get_json`. Fetching the page, the title and the
 * files written are I/O and are not modelled.
 */
module Question {
  import opened Common
  import opened Text
  import opened Metadata
  import opened Pagination

  /** A page without an answer count ends the run with `exit(-1)`; otherwise the
      answers are collected up to the ceiling `ansNumLimit`. */
  method ProcessQuestion(html: string, includeText: string, ansNumLimit: int,
                         fetch: Params -> Option<seq<Answer>>)
    returns (out: Outcome)
    ensures FindAnswerCount(html).None? ==> out == Fatal
    ensures FindAnswerCount(html).Some? ==>
              var m := MaxNum(ansNumLimit, FindAnswerCount(html).value);
              if m < 0 then out == Fatal
              else
                var requests := LaggedRequests(IncludeParam(includeText), Windows(m));
                out == Completed(Windows(m), requests, Aggregate(fetch, requests))
  {
    var count := FindAnswerCount(html);
    match count {
      case None =>
        return Fatal;
      case Some(ansCount) =>
        out := CollectAnswers(includeText, ansNumLimit, ansCount, fetch);
    }
  }
}
