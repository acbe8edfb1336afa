/**
 * The service address cache: a set of addresses refreshed once per tick from
 * the cluster's service list by an upsert-then-evict pass, and the extraction
 * of those addresses from the listed services.
 */
module ServiceIpManager {
  import opened Optional

  /** The addresses a snapshot lists, as a set. */
  function Addresses(snapshot: seq<string>): set<string>
  {
    set ip | ip in snapshot
  }

  /**
   * What one refresh cycle leaves in the cache: exactly the snapshot's
   * addresses, or the held set untouched when the provider failed.
   */
  function Refreshed(held: set<string>, snapshot: Option<seq<string>>): set<string>
  {
    match snapshot
    case None => held
    case Some(ips) => Addresses(ips)
  }

  /** After a successful refresh an address is held exactly when the snapshot lists it, whatever was held before. */
  lemma RefreshedMembership(held: set<string>, ips: seq<string>, ip: string)
    ensures ip in Refreshed(held, Some(ips)) <==> ip in ips
    ensures ip in held && ip in ips ==> ip in Refreshed(held, Some(ips))
    ensures ip in held && ip !in ips ==> ip !in Refreshed(held, Some(ips))
  {
  }

  /** Refreshing twice with the same snapshot leaves what the first refresh left. */
  lemma RefreshIdempotent(held: set<string>, snapshot: Option<seq<string>>)
    ensures Refreshed(Refreshed(held, snapshot), snapshot) == Refreshed(held, snapshot)
  {
  }

  /** Repeating an address, or listing the addresses in another order, changes nothing. */
  lemma {:induction false} RefreshIgnoresDuplicatesAndOrder(held: set<string>, ips: seq<string>, other: seq<string>)
    requires forall ip :: ip in ips <==> ip in other
    ensures Refreshed(held, Some(ips)) == Refreshed(held, Some(other))
  {
    assert Addresses(ips) == Addresses(other);
  }

  class Manager {
    var serviceIPs: set<string>

    constructor ()
      ensures serviceIPs == {}
    {
      serviceIPs := {};
    }

    /** Whether an address is a known service address; a pure read of the set. */
    predicate IsServiceIP(ip: string)
      reads this
    {
      ip in serviceIPs
    }

    /**
     * One refresh cycle. A failed provider call (None) leaves the set alone;
     * otherwise every snapshot address is stored, and then every held address
     * the snapshot does not list is deleted. `observed` lists every state of
     * the set a concurrent reader could see during the pass: up to `peak` it
     * only grows, to the old addresses together with the snapshot's, and after
     * `peak` it only shrinks. So a stored snapshot address is never deleted
     * during the pass, an evicted address never comes back, and no state holds
     * anything but old or snapshot addresses.
     */
    method Refresh(snapshot: Option<seq<string>>) returns (ghost observed: seq<set<string>>, ghost peak: nat)
      modifies this
      ensures serviceIPs == Refreshed(old(serviceIPs), snapshot)
      ensures forall ip :: IsServiceIP(ip) <==> ip in Refreshed(old(serviceIPs), snapshot)
      ensures peak < |observed| && observed[0] == old(serviceIPs) && observed[|observed| - 1] == serviceIPs
      ensures observed[peak] == old(serviceIPs) + Refreshed(old(serviceIPs), snapshot)
      ensures forall i, j | 0 <= i <= j <= peak :: observed[i] <= observed[j]
      ensures forall i, j | peak <= i <= j < |observed| :: observed[j] <= observed[i]
      ensures forall i | 0 <= i < |observed| ::
        && (old(serviceIPs) <= observed[i] || Refreshed(old(serviceIPs), snapshot) <= observed[i])
        && observed[i] <= old(serviceIPs) + Refreshed(old(serviceIPs), snapshot)
    {
      observed, peak := [serviceIPs], 0;
      if snapshot.None? {
        // the provider error is logged and the cycle skipped
        return;
      }
      var ips := snapshot.value;
      ghost var before := serviceIPs;
      ghost var after := Addresses(ips);

      for i := 0 to |ips|
        invariant serviceIPs == before + Addresses(ips[..i])
        invariant |observed| > 0 && observed[0] == before && observed[|observed| - 1] == serviceIPs
        invariant forall j | 0 <= j < |observed| :: before <= observed[j] <= serviceIPs <= before + after
        invariant forall j, k | 0 <= j <= k < |observed| :: observed[j] <= observed[k]
      {
        serviceIPs := serviceIPs + {ips[i]};
        observed := observed + [serviceIPs];
      }
      assert ips[..|ips|] == ips;
      peak := |observed| - 1;

      var pending := serviceIPs;
      while pending != {}
        invariant pending <= serviceIPs
        invariant after <= serviceIPs <= before + after
        invariant forall ip | ip in serviceIPs && ip !in pending :: ip in ips
        invariant peak < |observed| && observed[0] == before && observed[|observed| - 1] == serviceIPs
        invariant observed[peak] == before + after
        invariant forall j, k | 0 <= j <= k <= peak :: observed[j] <= observed[k]
        invariant forall j | peak <= j < |observed| :: serviceIPs <= observed[j]
        invariant forall j, k | peak <= j <= k < |observed| :: observed[k] <= observed[j]
        invariant forall j | 0 <= j < |observed| ::
          (before <= observed[j] || after <= observed[j]) && observed[j] <= before + after
        decreases pending
      {
        var key :| key in pending;
        var listed := Listed(ips, key);
        if !listed {
          serviceIPs := serviceIPs - {key};
          observed := observed + [serviceIPs];
        }
        pending := pending - {key};
      }
    }
  }

  /**
   * A lookup reflects the latest successful refresh: an address one cycle
   * stored is found, and a later cycle whose snapshot omits it makes the
   * lookup fail; a failed cycle in between changes nothing.
   */
  lemma IsServiceIPAfterRefresh(m: Manager, held: set<string>, first: seq<string>, second: Option<seq<string>>, ip: string)
    requires m.serviceIPs == Refreshed(Refreshed(held, Some(first)), second)
    ensures second.None? ==> (m.IsServiceIP(ip) <==> ip in first)
    ensures second.Some? ==> (m.IsServiceIP(ip) <==> ip in second.value)
  {
  }

  /** The evict pass's inner loop: does the snapshot list this address? */
  method Listed(ips: seq<string>, key: string) returns (found: bool)
    ensures found <==> key in ips
  {
    for i := 0 to |ips|
      invariant key !in ips[..i]
    {
      if key == ips[i] {
        return true;
      }
    }
    assert ips[..|ips|] == ips;
    return false;
  }

  // ---------------------------------------------------------------------------
  // Extracting the addresses from the listed services

  /** A listed service, reduced to its ClusterIP ("" when unset, "None" for a headless service). */
  datatype Service = Service(clusterIP: string)

  predicate HasClusterIP(svc: Service)
  {
    svc.clusterIP != "" && svc.clusterIP != "None"
  }

  /** The services' ClusterIPs in list order, skipping services without one. */
  function ClusterIPs(services: seq<Service>): seq<string>
  {
    if services == [] then []
    else
      var last := services[|services| - 1];
      ClusterIPs(services[..|services| - 1]) + if HasClusterIP(last) then [last.clusterIP] else []
  }

  /** An address is extracted exactly when some listed service has it as a real ClusterIP. */
  lemma {:induction false} ClusterIPsMembership(services: seq<Service>, ip: string)
    ensures ip in ClusterIPs(services) <==> exists i | 0 <= i < |services| :: services[i].clusterIP == ip && HasClusterIP(services[i])
  {
    if services != [] {
      var init := services[..|services| - 1];
      ClusterIPsMembership(init, ip);
      if exists i | 0 <= i < |init| :: init[i].clusterIP == ip && HasClusterIP(init[i]) {
        var i :| 0 <= i < |init| && init[i].clusterIP == ip && HasClusterIP(init[i]);
        assert services[i] == init[i];
      }
      if exists i | 0 <= i < |services| :: services[i].clusterIP == ip && HasClusterIP(services[i]) {
        var i :| 0 <= i < |services| && services[i].clusterIP == ip && HasClusterIP(services[i]);
        if i < |init| {
          assert init[i] == services[i];
        }
      }
    }
  }

  /** Extraction keeps list order: the addresses of two lists one after the other are those of their concatenation. */
  lemma {:induction false} ClusterIPsAppend(front: seq<Service>, back: seq<Service>)
    ensures ClusterIPs(front + back) == ClusterIPs(front) + ClusterIPs(back)
  {
    if back != [] {
      var init := back[..|back| - 1];
      assert (front + back)[..|front + back| - 1] == front + init;
      ClusterIPsAppend(front, init);
    } else {
      assert front + back == front;
    }
  }

  /** No extracted address is empty or "None". */
  lemma {:induction false} ClusterIPsAreReal(services: seq<Service>)
    ensures forall ip | ip in ClusterIPs(services) :: ip != "" && ip != "None"
  {
    forall ip | ip in ClusterIPs(services)
      ensures ip != "" && ip != "None"
    {
      ClusterIPsMembership(services, ip);
    }
  }

  /**
   * The provider: a failed cluster query (configuration, client or listing)
   * is an error; otherwise the ClusterIPs of the listed services, in order.
   */
  method GetServiceIPs(listed: Option<seq<Service>>) returns (serviceIPs: Option<seq<string>>)
    ensures listed.None? ==> serviceIPs.None?
    ensures listed.Some? ==> serviceIPs == Some(ClusterIPs(listed.value))
  {
    if listed.None? {
      return None;
    }
    var services := listed.value;
    var ips: seq<string> := [];
    for i := 0 to |services|
      invariant ips == ClusterIPs(services[..i])
    {
      assert services[..i + 1][..i] == services[..i];
      if services[i].clusterIP != "" && services[i].clusterIP != "None" {
        ips := ips + [services[i].clusterIP];
      }
    }
    assert services[..|services|] == services;
    return Some(ips);
  }
}
