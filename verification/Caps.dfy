/**
 * The caps on loading source maps in one resolve pass, and the mutable budget that
 * tracks them. Every method of the budget is tied to a function on its counters, and the
 * functions carry the facts about whole passes.
 */
module Caps {
  import opened Prelude

  datatype MapCaps = MapCaps(maxMaps: int, maxBytesPerMap: int, maxBytesTotal: int, fetchTimeoutMs: int, wallClockMs: int)

  datatype Counters = Counters(mapsLoaded: nat, totalBytes: nat, truncated: bool)

  const FRESH := Counters(0, 0, false)

  /** May another map be requested, `elapsed` milliseconds into the pass? */
  predicate MayStart(c: Counters, caps: MapCaps, elapsed: int) {
    !c.truncated && c.mapsLoaded < caps.maxMaps && elapsed < caps.wallClockMs
  }

  /** Does a body of `n` bytes fit? Neither the count nor `truncated` is asked here. */
  predicate Fits(c: Counters, caps: MapCaps, n: nat) {
    n <= caps.maxBytesPerMap && c.totalBytes + n <= caps.maxBytesTotal
  }

  function AfterStart(c: Counters, caps: MapCaps, elapsed: int): Counters {
    c.(truncated := !MayStart(c, caps, elapsed))
  }

  function AfterBody(c: Counters, caps: MapCaps, n: nat): Counters {
    if Fits(c, caps, n) then c.(mapsLoaded := c.mapsLoaded + 1, totalBytes := c.totalBytes + n)
    else c.(truncated := true)
  }

  class CapBudget {
    var mapsLoaded: nat
    var totalBytes: nat
    const startedAt: int
    var truncated: bool

    constructor (startedAt: int)
      ensures Counts() == FRESH && this.startedAt == startedAt
    {
      mapsLoaded, totalBytes, truncated := 0, 0, false;
      this.startedAt := startedAt;
    }

    function Counts(): Counters
      reads this
    {
      Counters(mapsLoaded, totalBytes, truncated)
    }

    method CanStartMapFetch(caps: MapCaps, nowMs: int) returns (ok: bool)
      modifies this
      ensures ok == old(MayStart(Counts(), caps, nowMs - startedAt))
      ensures Counts() == old(AfterStart(Counts(), caps, nowMs - startedAt))
    {
      if truncated {
        return false;
      }
      if mapsLoaded >= caps.maxMaps {
        truncated := true;
        return false;
      }
      if nowMs - startedAt >= caps.wallClockMs {
        truncated := true;
        return false;
      }
      return true;
    }

    method AcceptMapBytes(caps: MapCaps, byteLength: nat) returns (ok: bool)
      modifies this
      ensures ok == old(Fits(Counts(), caps, byteLength))
      ensures Counts() == old(AfterBody(Counts(), caps, byteLength))
    {
      if byteLength > caps.maxBytesPerMap {
        truncated := true;
        return false;
      }
      if totalBytes + byteLength > caps.maxBytesTotal {
        truncated := true;
        return false;
      }
      mapsLoaded := mapsLoaded + 1;
      totalBytes := totalBytes + byteLength;
      return true;
    }
  }

  // ---------------------------------------------------------------- whole passes

  /** One counted request: when it is made, and the size of the body if one arrives. */
  datatype Request = Request(elapsed: int, body: Option<nat>)

  predicate Accepted(c: Counters, caps: MapCaps, r: Request) {
    MayStart(c, caps, r.elapsed) && r.body.Some? && Fits(c, caps, r.body.value)
  }

  /** The order of the checks: start first, and the body only after a granted start. */
  function Serve(c: Counters, caps: MapCaps, r: Request): Counters {
    var started := AfterStart(c, caps, r.elapsed);
    if MayStart(c, caps, r.elapsed) && r.body.Some? then AfterBody(started, caps, r.body.value)
    else started
  }

  function ServeAll(c: Counters, caps: MapCaps, rs: seq<Request>): Counters {
    if rs == [] then c else Serve(ServeAll(c, caps, rs[..|rs| - 1]), caps, rs[|rs| - 1])
  }

  /** The sizes of the accepted bodies, in order. */
  function AcceptedSizes(c: Counters, caps: MapCaps, rs: seq<Request>): seq<nat> {
    if rs == [] then []
    else
      var n := |rs| - 1;
      AcceptedSizes(c, caps, rs[..n])
      + if Accepted(ServeAll(c, caps, rs[..n]), caps, rs[n]) then [rs[n].body.value] else []
  }

  function Sum(ns: seq<nat>): nat {
    if ns == [] then 0 else Sum(ns[..|ns| - 1]) + ns[|ns| - 1]
  }

  /** What holds of the counters at every moment of a pass. */
  ghost predicate WithinCaps(c: Counters, caps: MapCaps) {
    && (c.mapsLoaded == 0 || c.mapsLoaded <= caps.maxMaps)
    && (c.totalBytes == 0 || c.totalBytes <= caps.maxBytesTotal)
    && c.totalBytes <= c.mapsLoaded * (if caps.maxBytesPerMap < 0 then 0 else caps.maxBytesPerMap)
  }

  /** Once `truncated` is set, a request changes nothing. */
  lemma ServeWhenTruncated(c: Counters, caps: MapCaps, r: Request)
    requires c.truncated
    ensures Serve(c, caps, r) == c
  {
  }

  lemma ServeKeepsCaps(c: Counters, caps: MapCaps, r: Request)
    requires WithinCaps(c, caps)
    ensures WithinCaps(Serve(c, caps, r), caps)
  {
    if Accepted(c, caps, r) {
      var limit := caps.maxBytesPerMap;
      assert (c.mapsLoaded + 1) * limit == c.mapsLoaded * limit + limit;
    }
  }

  /**
   * Over any run of requests the caps hold, the counters count exactly the accepted
   * bodies, and once `truncated` is set nothing changes any more.
   */
  lemma {:induction false} PassKeepsCaps(c: Counters, caps: MapCaps, rs: seq<Request>)
    requires WithinCaps(c, caps)
    ensures var sizes := AcceptedSizes(c, caps, rs);
            var end := ServeAll(c, caps, rs);
            && WithinCaps(end, caps)
            && end.mapsLoaded == c.mapsLoaded + |sizes|
            && end.totalBytes == c.totalBytes + Sum(sizes)
            && (forall k :: 0 <= k < |sizes| ==> sizes[k] <= caps.maxBytesPerMap)
            && (c.truncated ==> end == c && sizes == [])
  {
    hide WithinCaps;
    if rs != [] {
      var n := |rs| - 1;
      PassKeepsCaps(c, caps, rs[..n]);
      ServeKeepsCaps(ServeAll(c, caps, rs[..n]), caps, rs[n]);
      if c.truncated {
        ServeWhenTruncated(c, caps, rs[n]);
      }
      var before := AcceptedSizes(c, caps, rs[..n]);
      if Accepted(ServeAll(c, caps, rs[..n]), caps, rs[n]) {
        var sizes := before + [rs[n].body.value];
        assert sizes[..|sizes| - 1] == before;
        assert AcceptedSizes(c, caps, rs) == sizes;
      } else {
        assert before + [] == before;
      }
    }
  }

  // ---------------------------------------------------------------- where a pass is cut off

  /** The sizes of all bodies that arrive. */
  function Bodies(rs: seq<Request>): seq<nat> {
    if rs == [] then []
    else Bodies(rs[..|rs| - 1]) + match rs[|rs| - 1].body { case None => [] case Some(n) => [n] }
  }

  /**
   * Request `i` comes before the time is up, when fewer maps than allowed have arrived, and its body, if
   * one arrives, is within the limit for one map and, together with all before it, within the total.
   */
  ghost predicate Granted(caps: MapCaps, rs: seq<Request>, i: nat)
    requires i < |rs|
  {
    && rs[i].elapsed < caps.wallClockMs
    && |Bodies(rs[..i])| < caps.maxMaps
    && (rs[i].body.Some? ==> rs[i].body.value <= caps.maxBytesPerMap && Sum(Bodies(rs[..i + 1])) <= caps.maxBytesTotal)
  }

  lemma BodiesOneMore(rs: seq<Request>, i: nat)
    requires i < |rs|
    ensures |Bodies(rs[..i + 1])| == |Bodies(rs[..i])| + (if rs[i].body.Some? then 1 else 0)
    ensures Sum(Bodies(rs[..i + 1])) == Sum(Bodies(rs[..i])) + rs[i].body.GetOr(0)
  {
    assert rs[..i + 1][..i] == rs[..i];
    var before := Bodies(rs[..i]);
    match rs[i].body
    case None =>
      assert before + [] == before;
    case Some(n) =>
      assert (before + [n])[..|before|] == before;
  }

  /** As long as requests are granted, the counters count every body that arrived. */
  lemma {:induction false} GrantedRun(caps: MapCaps, rs: seq<Request>, k: nat)
    requires k <= |rs| && forall i :: 0 <= i < k ==> Granted(caps, rs, i)
    ensures ServeAll(FRESH, caps, rs[..k]) == Counters(|Bodies(rs[..k])|, Sum(Bodies(rs[..k])), false)
  {
    if k > 0 {
      GrantedRun(caps, rs, k - 1);
      BodiesOneMore(rs, k - 1);
      ServedOneMore(caps, rs, k - 1);
      assert Granted(caps, rs, k - 1);
      hide Bodies, Sum, ServeAll;
    } else {
      assert rs[..0] == [] && Bodies([]) == [];
    }
  }

  lemma ServedOneMore(caps: MapCaps, rs: seq<Request>, k: nat)
    requires k < |rs|
    ensures ServeAll(FRESH, caps, rs[..k + 1]) == Serve(ServeAll(FRESH, caps, rs[..k]), caps, rs[k])
  {
    hide Serve;
    assert rs[..k + 1][..k] == rs[..k];
  }

  lemma {:induction false} TruncatedForGood(c: Counters, caps: MapCaps, rs: seq<Request>, k: nat)
    requires k <= |rs| && ServeAll(c, caps, rs[..k]).truncated
    ensures ServeAll(c, caps, rs) == ServeAll(c, caps, rs[..k])
    decreases |rs|
  {
    if k == |rs| {
      assert rs[..k] == rs;
    } else {
      var n := |rs| - 1;
      assert rs[..n][..k] == rs[..k];
      TruncatedForGood(c, caps, rs[..n], k);
      ServeWhenTruncated(ServeAll(c, caps, rs[..n]), caps, rs[n]);
    }
  }

  /**
   * A pass counts every body up to the first request that is not granted, and nothing from there on;
   * it is truncated exactly if there is such a request.
   */
  lemma PassExactly(caps: MapCaps, rs: seq<Request>, k: nat)
    requires k <= |rs| && forall i :: 0 <= i < k ==> Granted(caps, rs, i)
    requires k == |rs| || !Granted(caps, rs, k)
    ensures ServeAll(FRESH, caps, rs) == Counters(|Bodies(rs[..k])|, Sum(Bodies(rs[..k])), k < |rs|)
  {
    GrantedRun(caps, rs, k);
    if k < |rs| {
      BodiesOneMore(rs, k);
      hide Bodies, Sum;
      assert rs[..k + 1][..k] == rs[..k] && rs[..k + 1][k] == rs[k];
      TruncatedForGood(FRESH, caps, rs, k + 1);
    } else {
      assert rs[..k] == rs;
    }
  }

  lemma TruncatedExactly(caps: MapCaps, rs: seq<Request>)
    ensures !ServeAll(FRESH, caps, rs).truncated <==> forall i :: 0 <= i < |rs| ==> Granted(caps, rs, i)
  {
    hide Granted;
    var k := 0;
    while k < |rs| && Granted(caps, rs, k)
      invariant k <= |rs| && forall i :: 0 <= i < k ==> Granted(caps, rs, i)
    {
      k := k + 1;
    }
    PassExactly(caps, rs, k);
  }

  /** The body check on its own lets a full budget grow: the count holds through the order of the checks only. */
  lemma BodyCheckIgnoresTheCount(caps: MapCaps, totalBytes: nat, n: nat)
    requires caps.maxMaps >= 0 && n <= caps.maxBytesPerMap && totalBytes + n <= caps.maxBytesTotal
    ensures var full := Counters(caps.maxMaps, totalBytes, true);
            AfterBody(full, caps, n).mapsLoaded > caps.maxMaps
  {
  }
}
