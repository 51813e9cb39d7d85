/**
 * The answer collection of `ZhihuQuestion.get_json` and `get_ans_data`
 * (main.py:112-184): the effective target, the loop that walks the answers in
 * windows of at most 20, the query parameters each request carries, and the
 * answers gathered from the responses.
 *
 * The HTTP request is a parameter `fetch`: given the query parameters sent, it
 * answers `Some(answers)` for a status-200 response (its `data` array) and
 * `None` for any other status or an exception. The thread pool is not
 * modelled: `get_ans_data` is called, synchronously, before `submit`
 * (main.py:157), so the requests run one after another in window order.
 */
module Pagination {
  import opened Common
  import opened Text

  /** Initial `params['limit']`: the server's page size. */
  const PageSize: nat := 20

  /** The local `(offset, limit)` pair of one loop iteration. */
  datatype Window = Window(offset: int, limit: int)

  /** The `params` dict sent with a request. */
  datatype Params = Params(includeFields: string, platform: string, sortBy: string, limit: int, offset: int)

  /** How the run ends: `exit(-1)` on a bookkeeping error, or the windows walked,
      the parameters sent with each request and the answers gathered. */
  datatype Outcome =
    | Fatal
    | Completed(windows: seq<Window>, requests: seq<Params>, data: seq<Answer>)

  /** The effective target `max_num` (main.py:135-138): `ans_num_limit` of -1
      means no ceiling. */
  function MaxNum(ansNumLimit: int, ansCount: nat): (m: int)
    ensures ansNumLimit == -1 ==> m == ansCount
    ensures ansNumLimit != -1 ==> m <= ansCount && m <= ansNumLimit && (m == ansCount || m == ansNumLimit)
    ensures m < 0 <==> ansNumLimit < -1
  {
    if ansNumLimit == -1 then ansCount else Min(ansNumLimit, ansCount)
  }

  // ----- The windows, as a reference definition -----

  /** `ceil(m / 20)` */
  function NumWindows(m: nat): nat
  {
    (m + PageSize - 1) / PageSize
  }

  /** The windows the loop is meant to walk for a target `m`: full pages of 20
      from offset 0, the last one cut at `m`. */
  function Windows(m: nat): (ws: seq<Window>)
    ensures |ws| == NumWindows(m)
    ensures forall i :: 0 <= i < |ws| ==> ws[i].limit <= PageSize
  {
    seq(NumWindows(m), i requires 0 <= i < NumWindows(m) => Window(PageSize * i, Min(PageSize, m - PageSize * i)))
  }

  /** `ws` covers `[0, m)` from offset 0, each window starting where the one
      before ends, with no empty window. */
  ghost predicate Tiles(ws: seq<Window>, m: int)
  {
    (forall i :: 0 <= i < |ws| ==> ws[i].limit > 0) &&
    (forall i :: 0 <= i < |ws| ==> ws[i].offset == if i == 0 then 0 else ws[i - 1].offset + ws[i - 1].limit) &&
    (if ws == [] then m == 0 else ws[|ws| - 1].offset + ws[|ws| - 1].limit == m)
  }

  /** The windows tile the target; all are full pages but the last, which holds
      the remainder `m % 20` when there is one. */
  lemma WindowsShape(m: nat)
    ensures Tiles(Windows(m), m)
    ensures |Windows(m)| == NumWindows(m) && (m == 0 <==> Windows(m) == [])
    ensures forall i :: 0 <= i < |Windows(m)| - 1 ==> Windows(m)[i].limit == PageSize
    ensures m % PageSize != 0 ==> Windows(m)[|Windows(m)| - 1].limit == m % PageSize
    ensures m != 0 && m % PageSize == 0 ==> Windows(m)[|Windows(m)| - 1].limit == PageSize
  {
    var n: int := NumWindows(m);
    assert PageSize * (n - 1) < m <= PageSize * n;
  }

  /** The window after the first `k`, while the offset `20 * k` is short of the target. */
  lemma WindowsNext(m: nat, k: nat)
    requires PageSize * k < m
    ensures k < NumWindows(m)
    ensures Windows(m)[k] == Window(PageSize * k, Min(PageSize, m - PageSize * k))
  {
  }

  lemma WindowsPrefixSnoc(m: nat, k: nat)
    requires k < NumWindows(m)
    ensures Windows(m)[..k + 1] == Windows(m)[..k] + [Windows(m)[k]]
  {
  }

  /** Once `k` windows reach the target, they are all of them. */
  lemma WindowsDone(m: nat, k: nat)
    requires k <= NumWindows(m) && m <= PageSize * k
    ensures k == NumWindows(m)
  {
  }

  /** A target of 45 gives two full pages and a last window of 5. */
  lemma WindowsExample()
    ensures Windows(45) == [Window(0, 20), Window(20, 20), Window(40, 5)]
  {
  }

  // ----- Requests and responses -----

  /** The parameters sent with each request as the loop is written: the
      offset is the window's, but the limit is the previous window's (20 for
      the first), because `params['limit']` is only updated after the call
      (main.py:157-161). */
  function LaggedRequests(includeFields: string, ws: seq<Window>): (rs: seq<Params>)
    ensures |rs| == |ws|
  {
    seq(|ws|, i requires 0 <= i < |ws| =>
      Params(includeFields, "desktop", "default", if i == 0 then PageSize else ws[i - 1].limit, ws[i].offset))
  }

  lemma LaggedRequestsSnoc(includeFields: string, ws: seq<Window>, w: Window)
    ensures LaggedRequests(includeFields, ws + [w]) ==
            LaggedRequests(includeFields, ws) +
            [Params(includeFields, "desktop", "default", if ws == [] then PageSize else ws[|ws| - 1].limit, w.offset)]
  {
  }

  /** The answers one response contributes: its `data` array on status 200, nothing otherwise. */
  function Received(response: Option<seq<Answer>>): seq<Answer>
  {
    if response.Some? then response.value else []
  }

  /** The answers gathered from a series of requests, in the order they were sent. */
  function Aggregate(fetch: Params -> Option<seq<Answer>>, requests: seq<Params>): (data: seq<Answer>)
    ensures (forall i :: 0 <= i < |requests| ==> fetch(requests[i]).None?) ==> data == []
  {
    if requests == [] then []
    else Aggregate(fetch, requests[..|requests| - 1]) + Received(fetch(requests[|requests| - 1]))
  }

  /** `get_ans_data` (main.py:171-184): a status-200 response extends `data`
      with its answers, in order; a failed request leaves `data` as it was. */
  method GetAnsData(fetch: Params -> Option<seq<Answer>>, params: Params, data: seq<Answer>)
    returns (data': seq<Answer>)
    ensures fetch(params).Some? ==> data' == data + fetch(params).value
    ensures fetch(params).None? ==> data' == data
  {
    var response := fetch(params);
    match response {
      case Some(answers) =>
        data' := data + answers;
      case None =>
        data' := data;
    }
  }

  /** Where the loop stands at the head of an iteration: the windows walked so
      far are the first ones of the reference definition, `offset` is where
      they end, and `limit` is the last one's (20 before the first). */
  ghost predicate Walked(m: int, ws: seq<Window>, offset: int, limit: int)
  {
    0 < limit <= PageSize &&
    limit == (if ws == [] then PageSize else ws[|ws| - 1].limit) &&
    (offset < m ==> limit == PageSize) &&
    (m < 0 ==> offset == 0 && ws == []) &&
    (m >= 0 ==> 0 <= offset <= m && |ws| <= NumWindows(m) && ws == Windows(m)[..|ws|] &&
                offset == Min(PageSize * |ws|, m))
  }

  /** One iteration short of the target: the window, with the limit cut to what
      is left, is the next reference window, and the walk goes on from its end. */
  lemma WalkStep(m: int, ws: seq<Window>, offset: int, limit: int)
    requires Walked(m, ws, offset, limit) && offset < m
    ensures var limit' := if offset + limit > m then m - offset else limit;
            0 < limit' && Walked(m, ws + [Window(offset, limit')], offset + limit', limit')
  {
    var limit' := if offset + limit > m then m - offset else limit;
    WindowsNext(m, |ws|);
    WindowsPrefixSnoc(m, |ws|);
  }

  /** The walk has reached the target: every reference window has been walked. */
  lemma WalkDone(m: int, ws: seq<Window>, offset: int, limit: int)
    requires Walked(m, ws, offset, limit) && offset == m
    ensures m >= 0 && ws == Windows(m)
  {
    WindowsDone(m, |ws|);
  }

  lemma AggregateSnoc(fetch: Params -> Option<seq<Answer>>, requests: seq<Params>, p: Params)
    ensures Aggregate(fetch, requests + [p]) == Aggregate(fetch, requests) + Received(fetch(p))
  {
    assert (requests + [p])[..|requests|] == requests;
  }

  /** The body of `get_json` (main.py:112-168) past the skip-if-exists check:
      the loop from offset 0, shrinking the last window, stopping at the
      target, and `exit(-1)` when the offset has passed it. */
  method CollectAnswers(includeText: string, ansNumLimit: int, ansCount: nat,
                        fetch: Params -> Option<seq<Answer>>)
    returns (out: Outcome)
    ensures out.Fatal? <==> MaxNum(ansNumLimit, ansCount) < 0
    ensures out.Completed? ==>
              var m := MaxNum(ansNumLimit, ansCount);
              var requests := LaggedRequests(IncludeParam(includeText), Windows(m));
              out == Completed(Windows(m), requests, Aggregate(fetch, requests))
  {
    var includeFields := IncludeParam(includeText);
    var params := Params(includeFields, "desktop", "default", PageSize, 0);
    var maxNum := MaxNum(ansNumLimit, ansCount);
    var offset := params.offset;
    var limit := params.limit;
    var data: seq<Answer> := [];
    var windows: seq<Window> := [];
    var requests: seq<Params> := [];
    while true
      invariant Walked(maxNum, windows, offset, limit)
      invariant params == Params(includeFields, "desktop", "default", limit, offset)
      invariant requests == LaggedRequests(includeFields, windows)
      invariant data == Aggregate(fetch, requests)
      decreases if offset <= maxNum then maxNum - offset else 0
    {
      ghost var limitBefore := limit;
      if offset + limit > maxNum {
        limit := maxNum - offset;
      }
      if offset == maxNum {
        WalkDone(maxNum, windows, offset, limitBefore);
        break;
      } else if offset > maxNum {
        return Fatal;
      }
      WalkStep(maxNum, windows, offset, limitBefore);
      LaggedRequestsSnoc(includeFields, windows, Window(offset, limit));
      AggregateSnoc(fetch, requests, params);
      data := GetAnsData(fetch, params, data);
      requests := requests + [params];
      windows := windows + [Window(offset, limit)];
      offset := offset + limit;
      params := params.(offset := offset);
      params := params.(limit := limit);
    }
    out := Completed(windows, requests, data);
  }

  // ----- What the requests bring back from a server that honours them -----

  /** A server holding the question's answers `all` in order: a request gets
      the answers from `offset` on, at most `limit` of them. */
  function Serve(all: seq<Answer>, p: Params): Option<seq<Answer>>
  {
    if p.offset < 0 || p.limit < 0 then None
    else Some(all[Min(p.offset, |all|)..Min(p.offset + p.limit, |all|)])
  }

  /** Requests that walk the answers from offset 0, each starting where the
      one before asked to stop. */
  ghost predicate Contiguous(requests: seq<Params>)
  {
    (forall i :: 0 <= i < |requests| ==> requests[i].limit >= 0) &&
    (|requests| > 0 ==> requests[0].offset == 0) &&
    (forall i :: 0 < i < |requests| ==> requests[i].offset == requests[i - 1].offset + requests[i - 1].limit)
  }

  /** Where the last request asks to stop. */
  function End(requests: seq<Params>): int
  {
    if requests == [] then 0 else requests[|requests| - 1].offset + requests[|requests| - 1].limit
  }

  /** Contiguous requests to an honouring server bring back the answers up to
      where the last request asks to stop, in order, each exactly once. */
  lemma {:induction false} ContiguousCollect(all: seq<Answer>, requests: seq<Params>)
    requires Contiguous(requests)
    ensures End(requests) >= 0
    ensures Aggregate(p => Serve(all, p), requests) == all[..Min(End(requests), |all|)]
    decreases |requests|
  {
    if requests != [] {
      var front := requests[..|requests| - 1];
      assert Contiguous(front) by {
        forall i | 0 <= i < |front| ensures front[i] == requests[i] { }
      }
      ContiguousCollect(all, front);
      var last := requests[|requests| - 1];
      assert last.offset == End(front) by {
        var n := |requests| - 1;
        if n > 0 {
          assert requests[n].offset == requests[n - 1].offset + requests[n - 1].limit;
          assert front[n - 1] == requests[n - 1];
        }
      }
      var a, b := Min(End(front), |all|), Min(End(requests), |all|);
      assert all[..a] + all[a..b] == all[..b];
    }
  }

  /** As the loop is written, every request asks for a full page of 20: the
      lagging limit is the previous window's, and only the last window is short. */
  lemma LaggedRequestsFullPages(includeFields: string, m: nat)
    ensures var rs := LaggedRequests(includeFields, Windows(m));
            |rs| == NumWindows(m) &&
            forall i :: 0 <= i < |rs| ==> rs[i].offset == PageSize * i && rs[i].limit == PageSize
  {
    WindowsShape(m);
  }

  /** With no ceiling and every request answered, the loop gathers exactly the
      question's answers, in order: the lagging limit of the last request is
      harmless when the target is the answer count. */
  lemma CollectsAllAnswers(includeFields: string, all: seq<Answer>)
    ensures Aggregate(p => Serve(all, p), LaggedRequests(includeFields, Windows(|all|))) == all
  {
    var rs := LaggedRequests(includeFields, Windows(|all|));
    LaggedRequestsFullPages(includeFields, |all|);
    assert Contiguous(rs);
    ContiguousCollect(all, rs);
    assert End(rs) == PageSize * NumWindows(|all|);
  }

  /** As written, with a ceiling `m` below the answer count, the last request
      still asks for 20 answers: the loop gathers every answer up to the next
      multiple of 20, not up to `m`. */
  lemma LaggedCollectsRoundedUp(includeFields: string, all: seq<Answer>, m: nat)
    ensures Aggregate(p => Serve(all, p), LaggedRequests(includeFields, Windows(m))) ==
            all[..Min(PageSize * NumWindows(m), |all|)]
  {
    var rs := LaggedRequests(includeFields, Windows(m));
    LaggedRequestsFullPages(includeFields, m);
    assert Contiguous(rs);
    ContiguousCollect(all, rs);
    assert End(rs) == PageSize * NumWindows(m);
  }

  /** The input that shows it: a ceiling of 45 on a question with 100 answers
      gathers 60 answers. */
  lemma LaggedLimitOverfetches(includeFields: string, all: seq<Answer>)
    requires |all| == 100
    ensures |Aggregate(p => Serve(all, p), LaggedRequests(includeFields, Windows(MaxNum(45, |all|))))| == 60
  {
    LaggedCollectsRoundedUp(includeFields, all, 45);
  }

  /** The parameters as evidently intended: each request carries its own
      window's offset and limit. */
  function ExactRequests(includeFields: string, ws: seq<Window>): (rs: seq<Params>)
    ensures |rs| == |ws|
    ensures forall i :: 0 <= i < |ws| ==> rs[i].offset == ws[i].offset && rs[i].limit == ws[i].limit
  {
    seq(|ws|, i requires 0 <= i < |ws| => Params(includeFields, "desktop", "default", ws[i].limit, ws[i].offset))
  }

  /** With the parameters set before the call, the answers gathered from an
      honouring server are exactly the first `m`, or all of them when there are fewer. */
  lemma ExactRequestsCollectTarget(includeFields: string, all: seq<Answer>, m: nat)
    ensures Aggregate(p => Serve(all, p), ExactRequests(includeFields, Windows(m))) == all[..Min(m, |all|)]
  {
    var ws := Windows(m);
    var rs := ExactRequests(includeFields, ws);
    WindowsShape(m);
    assert Contiguous(rs);
    ContiguousCollect(all, rs);
    assert End(rs) == m;
  }

  /** A server that never sends more answers than a request asks for; it may
      fail any request. */
  ghost predicate HonoursLimit(fetch: Params -> Option<seq<Answer>>)
  {
    forall p :: fetch(p).Some? ==> |fetch(p).value| <= p.limit
  }

  /** The number of answers a series of requests asks for. */
  function LimitSum(requests: seq<Params>): int
  {
    if requests == [] then 0 else LimitSum(requests[..|requests| - 1]) + requests[|requests| - 1].limit
  }

  lemma {:induction false} AggregateWithinLimits(fetch: Params -> Option<seq<Answer>>, requests: seq<Params>)
    requires HonoursLimit(fetch)
    requires forall i :: 0 <= i < |requests| ==> requests[i].limit >= 0
    ensures |Aggregate(fetch, requests)| <= LimitSum(requests)
    decreases |requests|
  {
    if requests != [] {
      AggregateWithinLimits(fetch, requests[..|requests| - 1]);
      var last := requests[|requests| - 1];
      assert |Received(fetch(last))| <= last.limit;
    }
  }

  lemma {:induction false} ContiguousLimitSum(requests: seq<Params>)
    requires Contiguous(requests)
    ensures LimitSum(requests) == End(requests)
    decreases |requests|
  {
    if requests != [] {
      var front := requests[..|requests| - 1];
      var n := |requests| - 1;
      assert Contiguous(front) by {
        forall i | 0 <= i < |front| ensures front[i] == requests[i] { }
      }
      ContiguousLimitSum(front);
      if n > 0 {
        assert requests[n].offset == requests[n - 1].offset + requests[n - 1].limit;
        assert front[n - 1] == requests[n - 1];
      }
    }
  }

  /** With the parameters as intended, no server that honours the limit, failing
      or not, makes the run gather more answers than the target. */
  lemma ExactRequestsWithinTarget(includeFields: string, fetch: Params -> Option<seq<Answer>>, m: nat)
    requires HonoursLimit(fetch)
    ensures |Aggregate(fetch, ExactRequests(includeFields, Windows(m)))| <= m
  {
    var rs := ExactRequests(includeFields, Windows(m));
    WindowsShape(m);
    assert Contiguous(rs);
    ContiguousLimitSum(rs);
    AggregateWithinLimits(fetch, rs);
  }
}
