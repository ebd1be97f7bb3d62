/** src/rate_limit_patterns/algorithms/sliding_window.py */
module SlidingWindow {
  import opened Numbers
  import opened Models

  datatype State = State(requests: seq<real>, count: nat)

  function InitialState(c: Config): State {
    State([], 0)
  }

  /** `[t for t in requests if t > cutoff]` */
  function Live(requests: seq<real>, cutoff: real): (live: seq<real>)
    ensures |live| <= |requests|
  {
    if requests == [] then []
    else
      var rest := Live(requests[..|requests| - 1], cutoff);
      if requests[|requests| - 1] > cutoff then rest + [requests[|requests| - 1]] else rest
  }

  function Compute(s: State, c: Config, now: real): Decision<State> {
    var period := c.period as real;
    var valid := Live(s.requests, now - period);
    if |valid| < c.limit then
      var kept := valid + [now];
      Decision(
        true,
        State(kept, |kept|),
        Meta(c.limit - |kept|, kept[0] + period, |kept|, None))
    else
      var oldest := valid[0];
      Decision(
        false,
        State(valid, |valid|),
        Meta(0, oldest + period, |valid|, Some(MaxInt(1, Ceil(oldest + period - now)))))
  }
}
