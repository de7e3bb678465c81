/** The gateway object: its two maps, updated in place, and what each call answers in terms of
    everything that happened before. */
module ApiGateway {
  import opened Sequences
  import RateLimit
  import CircuitBreaker

  class APIGateway {
    const limits: RateLimit.Limits
    const breakerConfig: CircuitBreaker.Config
    var requestCounts: map<string, int>
    var circuitBreakers: map<string, CircuitBreaker.Breaker>
    /** The timeouts this object has handed to the event loop and that have not fired yet. */
    var timers: seq<RateLimit.Timer>

    ghost var requests: seq<RateLimit.Event>
    ghost var calls: seq<CircuitBreaker.ServiceCall>

    ghost predicate Valid()
      reads this
    {
      && RateLimit.Monotone(requests)
      && requestCounts == RateLimit.Run(limits, requests).counts
      && timers == RateLimit.Run(limits, requests).timers
      && circuitBreakers == CircuitBreaker.RunAll(breakerConfig, calls)
    }

    /** `now` does not lie before the last rate-limiter event. */
    ghost predicate NotBefore(now: int)
      reads this
    {
      requests != [] ==> requests[|requests| - 1].now <= now
    }

    constructor (limits: RateLimit.Limits, breakerConfig: CircuitBreaker.Config)
      ensures Valid() && requests == [] && calls == []
      ensures this.limits == limits && this.breakerConfig == breakerConfig
    {
      this.limits, this.breakerConfig := limits, breakerConfig;
      requestCounts, circuitBreakers, timers := map[], map[], [];
      requests, calls := [], [];
    }

    /** One request: rejected iff `maxRequests` timers of its key are pending, and then never while
        fewer than `maxRequests` were admitted in the last `windowMs`. */
    method RateLimitMiddleware(key: string, now: int) returns (admitted: bool)
      requires Valid() && NotBefore(now)
      modifies this`requestCounts, this`timers, this`requests
      ensures Valid() && requests == old(requests) + [RateLimit.Request(key, now)]
      ensures admitted <==> Count(old(timers), RateLimit.PendingFor(key)) < limits.maxRequests
      ensures timers == old(timers) + if admitted then [RateLimit.Timer(key, now + limits.windowMs)] else []
      ensures admitted ==> Count(RateLimit.Run(limits, old(requests)).admitted,
                                 RateLimit.LiveAfter(limits, key, now)) < limits.maxRequests
    {
      hide RateLimit.Run, RateLimit.Monotone, Count;
      RateLimit.RunSnoc(limits, requests, RateLimit.Request(key, now));
      RateLimit.CounterIsPendingTimers(limits, requests, key);
      requests := requests + [RateLimit.Request(key, now)];
      var count := if key in requestCounts then requestCounts[key] else 0;
      if count >= limits.maxRequests {
        return false;
      }
      RateLimit.LateTimersOnlyRejectMore(limits, old(requests), key, now);
      requestCounts := requestCounts[key := count + 1];
      timers := timers + [RateLimit.Timer(key, now + limits.windowMs)];
      return true;
    }

    /** The event loop runs pending timer `i`: its key's counter goes down by exactly one. */
    method RunTimer(i: nat, now: int)
      requires Valid() && NotBefore(now)
      requires i < |timers| && timers[i].due <= now
      modifies this`requestCounts, this`timers, this`requests
      ensures Valid() && requests == old(requests) + [RateLimit.Expiry(i, now)]
      ensures timers == RemoveAt(old(timers), i)
      ensures var key := old(timers)[i].key;
              old(requestCounts.Keys) >= {key}
              && requestCounts == old(requestCounts)[key := old(requestCounts)[key] - 1]
    {
      hide RateLimit.Run, RateLimit.Monotone;
      RateLimit.RunSnoc(limits, requests, RateLimit.Expiry(i, now));
      RateLimit.ClampNeverBites(limits, requests, i);
      requests := requests + [RateLimit.Expiry(i, now)];
      var key := timers[i].key;
      var current := if key in requestCounts then requestCounts[key] else 0;
      requestCounts := requestCounts[key := Max(0, current - 1)];
      timers := RemoveAt(timers, i);
    }

    method GetCircuitBreaker(service: string) returns (breaker: CircuitBreaker.Breaker)
      modifies this`circuitBreakers
      ensures breaker == CircuitBreaker.BreakerOf(old(circuitBreakers), service)
      ensures circuitBreakers == old(circuitBreakers)[service := breaker]
    {
      if service !in circuitBreakers {
        circuitBreakers := circuitBreakers[service := CircuitBreaker.FRESH];
      }
      breaker := circuitBreakers[service];
      assert circuitBreakers == old(circuitBreakers)[service := breaker];
    }

    /** Open exactly when this service's own history has an unprobed trip and the last failure is at
        most `timeout` ago. */
    method IsCircuitOpen(service: string, now: int) returns (open: bool)
      requires Valid()
      modifies this`circuitBreakers, this`calls
      ensures Valid()
      ensures calls == old(calls) + [CircuitBreaker.ServiceCall(service, CircuitBreaker.Check(now))]
      ensures var h := CircuitBreaker.CallsOf(old(calls), service);
              open <==> CircuitBreaker.TrippedUnprobed(breakerConfig, h)
                        && now - CircuitBreaker.LastFailure(h) <= breakerConfig.timeout
    {
      hide CircuitBreaker.RunAll, CircuitBreaker.Replay, CircuitBreaker.CallsOf, RateLimit.Run, RateLimit.Monotone;
      CircuitBreaker.RunAllSnoc(breakerConfig, calls, CircuitBreaker.ServiceCall(service, CircuitBreaker.Check(now)));
      CircuitBreaker.ServicesAreIsolated(breakerConfig, calls, service);
      CircuitBreaker.RejectionExactly(breakerConfig, CircuitBreaker.CallsOf(calls, service), now);
      calls := calls + [CircuitBreaker.ServiceCall(service, CircuitBreaker.Check(now))];
      var breaker := GetCircuitBreaker(service);
      if breaker.phase == CircuitBreaker.Closed {
        return false;
      }
      if breaker.phase == CircuitBreaker.Open {
        var timeSinceFailure := now - breaker.lastFailureTime;
        if timeSinceFailure > breakerConfig.timeout {
          circuitBreakers := circuitBreakers[service := breaker.(phase := CircuitBreaker.HalfOpen)];
          return false;
        }
        return true;
      }
      return false;
    }

    /** Afterwards the stored failure count is this service's trailing run of failures, and no other
        service's breaker has changed. */
    method RecordServiceCall(service: string, success: bool, now: int)
      requires Valid()
      modifies this`circuitBreakers, this`calls
      ensures Valid()
      ensures calls == old(calls) + [CircuitBreaker.ServiceCall(service, CircuitBreaker.Record(success, now))]
      ensures service in circuitBreakers
              && circuitBreakers[service].failures
                 == CircuitBreaker.TrailingFailures(CircuitBreaker.CallsOf(calls, service))
      ensures circuitBreakers == old(circuitBreakers)[service := circuitBreakers[service]]
    {
      hide CircuitBreaker.RunAll, CircuitBreaker.Replay, CircuitBreaker.CallsOf, RateLimit.Run, RateLimit.Monotone;
      hide CircuitBreaker.TrailingFailures, CircuitBreaker.LastFailure;
      CircuitBreaker.RunAllSnoc(breakerConfig, calls,
                                CircuitBreaker.ServiceCall(service, CircuitBreaker.Record(success, now)));
      calls := calls + [CircuitBreaker.ServiceCall(service, CircuitBreaker.Record(success, now))];
      var breaker := GetCircuitBreaker(service);
      if success {
        breaker := breaker.(failures := 0);
        if breaker.phase == CircuitBreaker.HalfOpen {
          breaker := breaker.(phase := CircuitBreaker.Closed);
        }
      } else {
        breaker := breaker.(failures := breaker.failures + 1, lastFailureTime := now);
        if breaker.failures >= breakerConfig.threshold {
          breaker := breaker.(phase := CircuitBreaker.Open);
        }
      }
      circuitBreakers := circuitBreakers[service := breaker];
      assert circuitBreakers == CircuitBreaker.RunAll(breakerConfig, calls);
      CircuitBreaker.ServicesAreIsolated(breakerConfig, calls, service);
      CircuitBreaker.CountersAreHistory(breakerConfig, CircuitBreaker.CallsOf(calls, service));
    }
  }
}
