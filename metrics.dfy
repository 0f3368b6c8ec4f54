/**
 * The hit counter of main.go: the `fileserverHits` field of `apiConfig`
 * (an `atomic.Int32`), the middleware that adds one to it before handing
 * the request on, the admin page that prints it and the admin endpoint
 * that sets it back to zero.
 */
module Metrics {
  import opened Wrappers
  import opened Decimal

  const TwoTo31: int := 0x8000_0000
  const TwoTo32: int := 0x1_0000_0000

  newtype int32 = x: int | -0x8000_0000 <= x < 0x8000_0000

  /** Two's-complement wrap-around, as `atomic.Int32.Add` does on overflow. */
  function Wrap32(x: int): (r: int32)
    ensures (r as int - x) % TwoTo32 == 0
  {
    ((x + TwoTo31) % TwoTo32 - TwoTo31) as int32
  }

  /** The wrap is the only int32 congruent to its argument. */
  lemma Wrap32Unique(x: int, r: int32)
    requires (r as int - x) % TwoTo32 == 0
    ensures Wrap32(x) == r
  {
    var w := Wrap32(x);
    var d := w as int - r as int;
    assert d % TwoTo32 == 0 by {
      var k1 := (w as int - x) / TwoTo32;
      var k2 := (r as int - x) / TwoTo32;
      assert w as int - x == k1 * TwoTo32;
      assert r as int - x == k2 * TwoTo32;
      assert d == (k1 - k2) * TwoTo32;
    }
    assert -TwoTo32 < d < TwoTo32;
  }

  /** Below 2^31 nothing wraps. */
  lemma Wrap32Identity(x: int)
    requires -TwoTo31 <= x < TwoTo31
    ensures Wrap32(x) as int == x
  {
    Wrap32Unique(x, x as int32);
  }

  /** Adding one to a wrapped value is wrapping the sum. */
  lemma Wrap32AddOne(x: int)
    ensures Wrap32(Wrap32(x) as int + 1) == Wrap32(x + 1)
  {
    var w := Wrap32(x);
    var v := Wrap32(w as int + 1);
    assert (v as int - (x + 1)) % TwoTo32 == 0 by {
      var k1 := (v as int - (w as int + 1)) / TwoTo32;
      var k2 := (w as int - x) / TwoTo32;
      assert v as int - (w as int + 1) == k1 * TwoTo32;
      assert w as int - x == k2 * TwoTo32;
      assert v as int - (x + 1) == (k1 + k2) * TwoTo32;
    }
    Wrap32Unique(x + 1, v);
  }

  /** The 2^31-th hit since a reset turns the counter negative. */
  lemma Wrap32Overflow()
    ensures Wrap32(TwoTo31) as int == -TwoTo31
  {
    Wrap32Unique(TwoTo31, (-TwoTo31) as int32);
  }

  /** A request as far as the counter is concerned. */
  datatype Request = Request(verb: string, path: string)

  /** The status written and the body text. */
  datatype Response = Response(status: int, body: string)

  /** What happened to the counter, in order: an increment, a reset, a hand-off to the wrapped handler. */
  datatype Event = Hit | Cleared | Delegated(request: Request)

  /** The number of increments since the last reset (or since the start). */
  function HitsSinceReset(trace: seq<Event>): (n: nat)
    ensures n <= multiset(trace)[Hit]
    ensures Cleared !in trace ==> n == multiset(trace)[Hit]
  {
    if trace == [] then 0
    else
      var earlier := trace[..|trace| - 1];
      assert trace == earlier + [trace[|trace| - 1]];
      match trace[|trace| - 1]
      case Hit => HitsSinceReset(earlier) + 1
      case Cleared => 0
      case Delegated(_) => HitsSinceReset(earlier)
  }

  /** Every further increment without a reset counts one. */
  lemma {:induction false} HitsAfterIncrements(trace: seq<Event>, n: nat)
    ensures HitsSinceReset(trace + seq(n, _ => Hit)) == HitsSinceReset(trace) + n
  {
    var longer := trace + seq(n, _ => Hit);
    if n == 0 {
      assert longer == trace;
    } else {
      assert longer[|longer| - 1] == Hit;
      assert longer[..|longer| - 1] == trace + seq(n - 1, _ => Hit);
      HitsAfterIncrements(trace, n - 1);
    }
  }

  /** After a reset, only the increments that follow it count. */
  lemma {:induction false} HitsAfterReset(trace: seq<Event>, later: seq<Event>)
    requires Cleared !in later
    ensures HitsSinceReset(trace + [Cleared] + later) == multiset(later)[Hit]
  {
    var all := trace + [Cleared] + later;
    if later == [] {
      assert all == trace + [Cleared];
    } else {
      var front := later[..|later| - 1];
      assert all[..|all| - 1] == trace + [Cleared] + front;
      assert later == front + [later[|later| - 1]];
      assert Cleared !in front by { assert forall e :: e in front ==> e in later; }
      HitsAfterReset(trace, front);
    }
  }

  /** With fewer than 2^31 increments since a reset, the counter reads their number. */
  lemma CountAfterReset(trace: seq<Event>, n: nat)
    requires n < TwoTo31
    ensures Wrap32(HitsSinceReset(trace + [Cleared] + seq(n, _ => Hit))) as int == n
  {
    HitsAfterIncrements(trace + [Cleared], n);
    assert HitsSinceReset(trace + [Cleared]) == 0;
    Wrap32Identity(n);
  }

  const PagePrefix: string := "<html>\n<body>\n<h1>\nWelcome, Chirpy Admin</h1>\n<p>Chirpy has been visited "
  const PageSuffix: string := " times!</p>\n</body>\n</html>"

  /** The HTML that `metricsHandler` writes for a count. */
  function MetricsPage(count: int): (page: string)
    ensures |page| > |PagePrefix| + |PageSuffix|
    ensures page[..|PagePrefix|] == PagePrefix
    ensures page[|page| - |PageSuffix|..] == PageSuffix
  {
    PagePrefix + FormatInt(count) + PageSuffix
  }

  /** Reads the count back out of a metrics page. */
  function ParseReport(page: string): Option<int> {
    if |page| >= |PagePrefix| + |PageSuffix| &&
       page[..|PagePrefix|] == PagePrefix &&
       page[|page| - |PageSuffix|..] == PageSuffix
    then ParseInt(page[|PagePrefix|..|page| - |PageSuffix|])
    else None
  }

  /** The page carries the exact count. */
  lemma ReportRoundTrip(count: int)
    ensures ParseReport(MetricsPage(count)) == Some(count)
  {
    var page := MetricsPage(count);
    var digits := FormatInt(count);
    assert page[..|PagePrefix|] == PagePrefix;
    assert page[|page| - |PageSuffix|..] == PageSuffix;
    assert page[|PagePrefix|..|page| - |PageSuffix|] == digits;
    FormatIntRoundTrip(count);
  }

  const ResetReply: string := "Reset successful"

  /**
   * `apiConfig`, reduced to its counter. The ghost `trace` records every
   * increment, reset and hand-off in order; `Valid` says the counter is the
   * number of increments since the last reset, wrapped to 32 bits.
   */
  class ApiConfig {
    var fileserverHits: int32
    ghost var trace: seq<Event>

    ghost predicate Valid()
      reads this
      ensures Valid() ==> (fileserverHits as int - HitsSinceReset(trace)) % TwoTo32 == 0
    {
      fileserverHits == Wrap32(HitsSinceReset(trace))
    }

    /** The zero value the composite literal in `main` leaves the counter at. */
    constructor ()
      ensures Valid() && fileserverHits == 0 && trace == []
    {
      fileserverHits := 0;
      trace := [];
    }

    /** `fileserverHits.Add(1)`. */
    method Inc()
      requires Valid()
      modifies this
      ensures Valid()
      ensures fileserverHits == Wrap32(old(fileserverHits) as int + 1)
      ensures trace == old(trace) + [Hit]
    {
      Wrap32AddOne(HitsSinceReset(trace));
      fileserverHits := Wrap32(fileserverHits as int + 1);
      trace := trace + [Hit];
    }

    /** `fileserverHits.Load()`: the increments since the last reset, wrapped. */
    method Load() returns (v: int32)
      requires Valid()
      ensures v == fileserverHits
      ensures v == Wrap32(HitsSinceReset(trace))
    {
      v := fileserverHits;
    }

    /** `fileserverHits.Store(0)`. */
    method Reset()
      requires Valid()
      modifies this
      ensures Valid()
      ensures fileserverHits == 0
      ensures trace == old(trace) + [Cleared]
    {
      fileserverHits := 0;
      trace := trace + [Cleared];
    }

    /**
     * A request served through `middlewareMetricsInc(next)`: one increment,
     * then one call of `next`, whose response is passed on unchanged.
     */
    method MiddlewareMetricsInc(next: Request -> Response, r: Request) returns (resp: Response)
      requires Valid()
      modifies this
      ensures Valid()
      ensures fileserverHits == Wrap32(old(fileserverHits) as int + 1)
      ensures trace == old(trace) + [Hit, Delegated(r)]
      ensures resp == next(r)
    {
      Inc();
      trace := trace + [Delegated(r)];
      resp := next(r);
    }

    /** `metricsHandler`: status 200 and a page from which the count reads back. */
    method MetricsHandler() returns (resp: Response)
      requires Valid()
      ensures resp == Response(200, MetricsPage(fileserverHits as int))
      ensures ParseReport(resp.body) == Some(Wrap32(HitsSinceReset(trace)) as int)
    {
      var currentHitcount := Load();
      ReportRoundTrip(currentHitcount as int);
      resp := Response(200, MetricsPage(currentHitcount as int));
    }

    /** `resetHandler`: the counter back to zero, then a fixed confirmation. */
    method ResetHandler() returns (resp: Response)
      requires Valid()
      modifies this
      ensures Valid()
      ensures fileserverHits == 0
      ensures trace == old(trace) + [Cleared]
      ensures resp == Response(200, ResetReply)
    {
      Reset();
      resp := Response(200, ResetReply);
    }
  }
}
