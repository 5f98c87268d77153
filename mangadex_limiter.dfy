/**
 * The request spacing of `MangaDex._request` (src/mangadlmao/apis/mangadex.py).
 * Time is an integer millisecond monotonic clock; `time.sleep` advances it
 * to the wake-up time and the request itself takes `duration`, which covers
 * everything the caller does inside the `with` block.
 */
module MangaDexLimiter {
  import opened Common

  const GlobalKey := "global"
  const AtHomeRoute := "/at-home/server/"
  /** 5 requests per second per IP, with room to spare. */
  const GlobalSpacing := 500
  /** 40 requests per minute for the at-home route, with room to spare. */
  const AtHomeSpacing := 2000

  /** Where `time.sleep(max(0, last + spacing - now))` leaves the clock. */
  function WakeTime(now: int, last: int, spacing: nat): (t: int)
    ensures t >= now && t >= last + spacing
    ensures t == now || t == last + spacing
  {
    Max(now, last + spacing)
  }

  class RateLimiter {
    var now: int
    var lastRequests: map<string, int>

    /** No request made yet: every key reads as time 0. */
    constructor (start: int)
      ensures now == start && lastRequests == map[]
    {
      now := start;
      lastRequests := map[];
    }

    /** `last_requests.get(key, 0.0)`. */
    function Last(key: string): int
      reads this
    {
      if key in lastRequests then lastRequests[key] else 0
    }

    /** Every recorded time lies in the past of the clock. */
    predicate Valid()
      reads this
    {
      forall k :: k in lastRequests ==> lastRequests[k] <= now
    }

    /**
     * One wrapped request. The `finally` block stamps the time whether the
     * request raises or not, so the bookkeeping is the same on both paths.
     */
    method Request(url: string, duration: nat) returns (sent: int)
      requires Valid()
      modifies this
      ensures Valid()
      ensures forall k :: k in old(lastRequests) ==> sent >= old(lastRequests)[k]
      ensures sent >= old(now) && sent >= old(Last(GlobalKey)) + GlobalSpacing
      ensures Contains(url, AtHomeRoute) ==> sent >= old(Last(AtHomeRoute)) + AtHomeSpacing
      ensures sent == old(now)
           || sent == old(Last(GlobalKey)) + GlobalSpacing
           || (Contains(url, AtHomeRoute) && sent == old(Last(AtHomeRoute)) + AtHomeSpacing)
      ensures now == sent + duration
      ensures lastRequests == if Contains(url, AtHomeRoute)
                              then old(lastRequests)[GlobalKey := now][AtHomeRoute := now]
                              else old(lastRequests)[GlobalKey := now]
    {
      now := WakeTime(now, Last(GlobalKey), GlobalSpacing);
      var atHome := Contains(url, AtHomeRoute);
      if atHome {
        now := WakeTime(now, Last(AtHomeRoute), AtHomeSpacing);
      }
      sent := now;
      now := now + duration;
      lastRequests := lastRequests[GlobalKey := now];
      if atHome {
        lastRequests := lastRequests[AtHomeRoute := now];
      }
    }
  }

  /** Two requests in a row are at least the global spacing apart, whatever the first one took. */
  method TwoRequests(limiter: RateLimiter, first: string, second: string, d1: nat, d2: nat)
    returns (t1: int, t2: int)
    requires limiter.Valid()
    modifies limiter
    ensures t2 >= t1 + d1 + GlobalSpacing
    ensures Contains(first, AtHomeRoute) && Contains(second, AtHomeRoute) ==> t2 >= t1 + d1 + AtHomeSpacing
  {
    t1 := limiter.Request(first, d1);
    t2 := limiter.Request(second, d2);
  }
}
