/**
 * Probe assignment of the stand-alone temperature demo
 * (main/teplota-demo.cpp): probes with a configured address take it when
 * it was detected; every probe still unavailable then takes the lowest
 * detected address nobody has taken, so with nothing configured the water
 * probe gets the lowest ROM and the air probe the next one.
 *
 * The demo marks taken addresses by their index in the detected list;
 * the detected addresses are distinct, so the model keeps the set of
 * taken addresses instead.
 */
module TeplotaDemo {
  import opened Wrappers
  import opened Chars
  import opened Ds18b20

  /** The index of the first detected address from `i` on that is not yet taken. */
  function FirstFree(detected: seq<Addr>, used: set<Addr>, i: nat): (r: Option<nat>)
    requires i <= |detected|
    ensures r.Some? ==> i <= r.value < |detected| && detected[r.value] !in used
    ensures r.Some? ==> forall j :: i <= j < r.value ==> detected[j] in used
    ensures r.None? <==> forall j :: i <= j < |detected| ==> detected[j] in used
    decreases |detected| - i
  {
    if i == |detected| then None
    else if detected[i] !in used then Some(i)
    else FirstFree(detected, used, i + 1)
  }

  /** A probe given a free address has taken a detected one nobody else holds. */
  predicate Newly(before: Probe, after: Probe) {
    !before.available && after.available
  }

  /**
   * The second loop: each probe that is still unavailable takes the first
   * free detected address, if any, which is then taken.
   */
  function FreePass(ps: seq<Probe>, detected: seq<Addr>, used: set<Addr>): (r: seq<Probe>)
    ensures |r| == |ps|
    ensures forall k :: 0 <= k < |ps| ==> r[k].kind == ps[k].kind && r[k].configured == ps[k].configured
    ensures forall k :: 0 <= k < |ps| && (ps[k].available || !r[k].available) ==> r[k] == ps[k]
    ensures forall k :: 0 <= k < |ps| && Newly(ps[k], r[k]) ==> r[k].resolved in detected && r[k].resolved !in used
    ensures forall j, k :: 0 <= j < k < |ps| && Newly(ps[j], r[j]) && Newly(ps[k], r[k]) ==> r[j].resolved != r[k].resolved
  {
    if ps == [] then []
    else if ps[0].available then [ps[0]] + FreePass(ps[1..], detected, used)
    else match FirstFree(detected, used, 0)
      case None => [ps[0]] + FreePass(ps[1..], detected, used)
      case Some(k) =>
        var a := detected[k];
        var rest := FreePass(ps[1..], detected, used + {a});
        [ps[0].(resolved := a, available := true)] + rest
  }

  /** Every probe's address is its configured one or NONE, and it is unavailable. */
  function Reset(probes: seq<Probe>): (r: seq<Probe>)
    ensures |r| == |probes|
    ensures forall k :: 0 <= k < |r| ==> r[k] == probes[k].(resolved := NoAddr, available := false)
  {
    seq(|probes|, k requires 0 <= k < |probes| => probes[k].(resolved := NoAddr, available := false))
  }

  /** The addresses the configured pass takes. */
  function Taken(ps: seq<Probe>): (r: set<Addr>)
    ensures forall k :: 0 <= k < |ps| && ps[k].available ==> ps[k].resolved in r
    ensures forall a :: a in r ==> exists k :: 0 <= k < |ps| && ps[k].available && ps[k].resolved == a
  {
    set k | 0 <= k < |ps| && ps[k].available :: ps[k].resolved
  }

  /** The configured pass, which resolves each probe as main/teplota.cpp does. */
  function ConfiguredPass(probes: seq<Probe>, detected: seq<Addr>): (r: seq<Probe>)
    ensures |r| == |probes|
    ensures forall k :: 0 <= k < |r| ==> r[k] == Resolve(probes[k], detected)
  {
    seq(|probes|, k requires 0 <= k < |probes| => Resolve(probes[k], detected))
  }

  /** Both passes over the detected addresses. */
  function Assign(probes: seq<Probe>, detected: seq<Addr>): (r: seq<Probe>)
    ensures |r| == |probes|
    ensures forall k :: 0 <= k < |probes| ==> r[k].kind == probes[k].kind && r[k].configured == probes[k].configured
    ensures forall k :: 0 <= k < |probes| && r[k].available ==> r[k].resolved in detected
    ensures forall k :: 0 <= k < |probes| && probes[k].configured != NoAddr && probes[k].configured in detected ==>
      r[k].available && r[k].resolved == probes[k].configured
  {
    var configured := ConfiguredPass(probes, detected);
    FreePass(configured, detected, Taken(configured))
  }

  /**
   * `discover_ds18b20_sensors` of the demo: no probes is a failure that
   * changes nothing; every probe is reset; nothing detected is a failure;
   * then the configured pass, as in main/teplota.cpp, and the free pass.
   */
  function DemoDiscover(crc8: seq<Byte> -> Byte, probes: seq<Probe>, found: seq<Addr>): (r: (bool, seq<Probe>))
    ensures probes == [] ==> r == (false, probes)
    ensures |r.1| == |probes|
    ensures r.0 <==> probes != [] && Detect(crc8, found) != []
    ensures probes != [] && !r.0 ==> r.1 == Reset(probes)
    ensures forall k :: 0 <= k < |probes| ==> r.1[k].kind == probes[k].kind && r.1[k].configured == probes[k].configured
    ensures forall k :: 0 <= k < |probes| && r.1[k].available ==> IsValid(crc8, r.1[k].resolved) && r.1[k].resolved in found
    ensures forall k :: 0 <= k < |probes| && probes[k].configured != NoAddr && probes[k].configured in Detect(crc8, found) ==>
      r.1[k].available && r.1[k].resolved == probes[k].configured
  {
    if probes == [] then (false, probes)
    else
      var detected := Detect(crc8, found);
      if detected == [] then (false, Reset(probes))
      else
        var r := Assign(probes, detected);
        forall k | 0 <= k < |probes| && r[k].available
          ensures IsValid(crc8, r[k].resolved) && r[k].resolved in found
        {
          var j :| 0 <= j < |detected| && detected[j] == r[k].resolved;
          assert r[k].resolved in BeforeNone(found);
        }
        (true, r)
  }

  /** No two available probes share an address. */
  predicate NoSharedAddress(ps: seq<Probe>) {
    forall j, k :: 0 <= j < k < |ps| && ps[j].available && ps[k].available ==> ps[j].resolved != ps[k].resolved
  }

  /** No two probes are configured with the same address other than NONE. */
  predicate DistinctConfigured(ps: seq<Probe>) {
    forall j, k :: 0 <= j < k < |ps| && ps[j].configured != NoAddr ==> ps[j].configured != ps[k].configured
  }

  /**
   * With distinct configured addresses no detected address is assigned to
   * two probes: the free pass only hands out addresses nobody holds.
   */
  lemma DemoDiscoverNoShared(crc8: seq<Byte> -> Byte, probes: seq<Probe>, found: seq<Addr>)
    requires DistinctConfigured(probes)
    ensures NoSharedAddress(DemoDiscover(crc8, probes, found).1)
  {
    var detected := Detect(crc8, found);
    if probes != [] && detected != [] {
      var configured := ConfiguredPass(probes, detected);
      var used := Taken(configured);
      var r := FreePass(configured, detected, used);
      assert r == Assign(probes, detected) == DemoDiscover(crc8, probes, found).1;
      forall j, k | 0 <= j < k < |r| && r[j].available && r[k].available
        ensures r[j].resolved != r[k].resolved
      {
        if configured[j].available && configured[k].available {
          assert r[j].resolved == probes[j].configured && r[k].resolved == probes[k].configured;
        } else if configured[j].available {
          assert r[j].resolved in used;
        } else if configured[k].available {
          assert r[k].resolved in used;
        }
      }
    }
  }

  /**
   * Without the distinctness both probes configured with the same detected
   * address are given it: the configured pass does not look at what is
   * already taken.
   */
  lemma SharedConfiguredAddress(crc8: seq<Byte> -> Byte, a: Addr, b: Addr)
    requires IsValid(crc8, a)
    ensures var probes := [Probe(Water, a, NoAddr, false), Probe(Air, a, NoAddr, false)];
      var r := DemoDiscover(crc8, probes, [a, b]).1;
      r[0].available && r[1].available && r[0].resolved == a && r[1].resolved == a
  {
    var d := Detect(crc8, [a, b]);
    assert BeforeNone([a, b]) == [a] + BeforeNone([b]);
    assert a in d;
  }

  /**
   * With nothing configured, the probes take the detected addresses in
   * ascending order, starting at `i`, as long as there are enough.
   */
  /** Probe `k` holds the `(i + k)`-th detected address, or nothing when there is none. */
  predicate TakesAt(r: seq<Probe>, detected: seq<Addr>, i: nat, k: nat)
    requires k < |r|
  {
    (r[k].available <==> i + k < |detected|) && (r[k].available ==> r[k].resolved == detected[i + k])
  }

  predicate InOrderFrom(r: seq<Probe>, detected: seq<Addr>, i: nat) {
    forall k :: 0 <= k < |r| ==> TakesAt(r, detected, i, k)
  }

  /** Exactly the detected addresses before `i` are taken. */
  predicate TakenBefore(detected: seq<Addr>, i: nat, used: set<Addr>) {
    (forall j :: 0 <= j < i && j < |detected| ==> detected[j] in used)
    && (forall j :: i <= j < |detected| ==> detected[j] !in used)
  }

  /** Taking the next address in an ascending list keeps the taken ones a prefix. */
  lemma TakeNext(detected: seq<Addr>, i: nat, used: set<Addr>)
    requires StrictlyAscending(detected) && i < |detected| && TakenBefore(detected, i, used)
    ensures TakenBefore(detected, i + 1, used + {detected[i]})
  {
    forall j | i + 1 <= j < |detected| ensures detected[j] != detected[i] {
      assert detected[i] < detected[j];
    }
  }

  /** With a taken prefix, the first free address is the one right after it. */
  lemma {:induction false} FirstFreeIsNext(detected: seq<Addr>, used: set<Addr>, i: nat, k: nat)
    requires i < |detected| && TakenBefore(detected, i, used) && k <= i
    ensures FirstFree(detected, used, k) == Some(i)
    decreases i - k
  {
    if k < i {
      assert detected[k] in used;
      FirstFreeIsNext(detected, used, i, k + 1);
    }
  }

  /** A probe holding the `i`-th address, followed by probes in order from the next one. */
  lemma InOrderCons(p: Probe, rest: seq<Probe>, detected: seq<Addr>, i: nat, next: nat)
    requires (p.available <==> i < |detected|) && (p.available ==> p.resolved == detected[i])
    requires InOrderFrom(rest, detected, next)
    requires next == i + 1 || (next == i && |detected| <= i)
    ensures InOrderFrom([p] + rest, detected, i)
  {
    var r := [p] + rest;
    forall k | 0 <= k < |r| ensures TakesAt(r, detected, i, k) {
      if k > 0 {
        assert r[k] == rest[k - 1];
        assert TakesAt(rest, detected, next, k - 1);
      }
    }
  }

  /** An unavailable probe takes the first free address, when there is one. */
  lemma FreePassTakes(ps: seq<Probe>, detected: seq<Addr>, used: set<Addr>, i: nat)
    requires ps != [] && !ps[0].available && FirstFree(detected, used, 0) == Some(i)
    ensures FreePass(ps, detected, used)
      == [ps[0].(resolved := detected[i], available := true)] + FreePass(ps[1..], detected, used + {detected[i]})
  {}

  /** An unavailable probe stays as it is when every detected address is taken. */
  lemma FreePassSkips(ps: seq<Probe>, detected: seq<Addr>, used: set<Addr>)
    requires ps != [] && !ps[0].available && FirstFree(detected, used, 0).None?
    ensures FreePass(ps, detected, used) == [ps[0]] + FreePass(ps[1..], detected, used)
  {}

  /** The step of `FreePassInOrder` for a probe that takes the `i`-th address. */
  lemma TakeInOrder(ps: seq<Probe>, detected: seq<Addr>, i: nat, used: set<Addr>)
    requires ps != [] && !ps[0].available && i < |detected| && TakenBefore(detected, i, used)
    requires InOrderFrom(FreePass(ps[1..], detected, used + {detected[i]}), detected, i + 1)
    ensures InOrderFrom(FreePass(ps, detected, used), detected, i)
  {
    assert FirstFree(detected, used, 0) == Some(i) by { FirstFreeIsNext(detected, used, i, 0); }
    var rest := FreePass(ps[1..], detected, used + {detected[i]});
    var p := ps[0].(resolved := detected[i], available := true);
    assert FreePass(ps, detected, used) == [p] + rest by { FreePassTakes(ps, detected, used, i); }
    InOrderCons(p, rest, detected, i, i + 1);
  }

  /** The step of `FreePassInOrder` once every detected address is taken. */
  lemma SkipInOrder(ps: seq<Probe>, detected: seq<Addr>, i: nat, used: set<Addr>)
    requires ps != [] && !ps[0].available && i == |detected| && TakenBefore(detected, i, used)
    requires InOrderFrom(FreePass(ps[1..], detected, used), detected, i)
    ensures InOrderFrom(FreePass(ps, detected, used), detected, i)
  {
    assert FirstFree(detected, used, 0).None?;
    var rest := FreePass(ps[1..], detected, used);
    assert FreePass(ps, detected, used) == [ps[0]] + rest by { FreePassSkips(ps, detected, used); }
    InOrderCons(ps[0], rest, detected, i, i);
  }

  lemma {:induction false} FreePassInOrder(ps: seq<Probe>, detected: seq<Addr>, i: nat, used: set<Addr>)
    requires StrictlyAscending(detected) && i <= |detected|
    requires TakenBefore(detected, i, used)
    requires forall k :: 0 <= k < |ps| ==> !ps[k].available
    ensures InOrderFrom(FreePass(ps, detected, used), detected, i)
    decreases |ps|
  {
    if ps != [] {
      if i < |detected| {
        TakeNext(detected, i, used);
        FreePassInOrder(ps[1..], detected, i + 1, used + {detected[i]});
        TakeInOrder(ps, detected, i, used);
      } else {
        FreePassInOrder(ps[1..], detected, i, used);
        SkipInOrder(ps, detected, i, used);
      }
    }
  }

  /**
   * With no address configured, probe k gets the k-th lowest detected ROM
   * when there is one: the water probe, listed first, gets the lowest.
   */
  lemma NothingConfiguredTakesInOrder(crc8: seq<Byte> -> Byte, probes: seq<Probe>, found: seq<Addr>)
    requires forall k :: 0 <= k < |probes| ==> probes[k].configured == NoAddr
    ensures InOrderFrom(DemoDiscover(crc8, probes, found).1, Detect(crc8, found), 0)
  {
    var detected := Detect(crc8, found);
    if probes != [] && detected != [] {
      var configured := ConfiguredPass(probes, detected);
      assert Taken(configured) == {};
      assert DemoDiscover(crc8, probes, found).1 == Assign(probes, detected) == FreePass(configured, detected, {});
      FreePassInOrder(configured, detected, 0, {});
    }
  }
}
