/** Requests of clients by address, with the sweeps that run between them: the input of both the attack
    detection and the throttle. */
module Requests {
  import opened Sequences

  datatype Event = Request(ip: string, now: int) | Sweep(now: int)

  function IsRequest(): Event -> bool {
    (e: Event) => e.Request?
  }

  ghost predicate Monotone(es: seq<Event>) {
    forall i, j :: 0 <= i < j < |es| ==> es[i].now <= es[j].now
  }

  lemma MonotonePrefix(es: seq<Event>)
    requires Monotone(es) && es != []
    ensures Monotone(es[..|es| - 1])
    ensures |es| >= 2 ==> es[|es| - 2].now <= es[|es| - 1].now
  {
  }

  /** All request times of one address so far, whatever was pruned or swept. */
  function TimesOf(es: seq<Event>, ip: string): seq<int> {
    if es == [] then []
    else
      var e := es[|es| - 1];
      TimesOf(es[..|es| - 1], ip) + if e.Request? && e.ip == ip then [e.now] else []
  }

  lemma {:induction false} TimesAreSorted(es: seq<Event>, ip: string, clock: int)
    requires Monotone(es) && (es != [] ==> es[|es| - 1].now <= clock)
    ensures Sorted(TimesOf(es, ip))
    ensures forall t :: t in TimesOf(es, ip) ==> t <= clock
  {
    if es != [] {
      TimesAreSorted(es[..|es| - 1], ip, es[|es| - 1].now);
      var ts := TimesOf(es[..|es| - 1], ip);
      forall i | 0 <= i < |ts| ensures ts[i] <= es[|es| - 1].now { assert ts[i] in ts; }
    }
  }

  lemma {:induction false} RequestsKeepTimes(es: seq<Event>, ip: string)
    ensures TimesOf(Filter(es, IsRequest()), ip) == TimesOf(es, ip)
  {
    if es != [] {
      var init, e := es[..|es| - 1], es[|es| - 1];
      RequestsKeepTimes(init, ip);
      assert es == init + [e];
      var requests := Filter(init, IsRequest());
      if e.Request? {
        assert (requests + [e])[..|requests|] == requests;
      } else {
        assert TimesOf(init, ip) + [] == TimesOf(init, ip);
      }
    }
  }

  lemma {:induction false} RequestsStayMonotone(es: seq<Event>, clock: int)
    requires Monotone(es) && (es != [] ==> es[|es| - 1].now <= clock)
    ensures Monotone(Filter(es, IsRequest()))
    ensures forall e :: e in Filter(es, IsRequest()) ==> e.now <= clock
  {
    if es != [] {
      var init := es[..|es| - 1];
      RequestsStayMonotone(init, es[|es| - 1].now);
      var kept := Filter(init, IsRequest());
      forall i | 0 <= i < |kept| ensures kept[i].now <= es[|es| - 1].now {
        assert kept[i] in kept;
      }
    }
  }
}
