// src/qos_profiles.cpp and apply_profile of src/dds_transport.cpp: validation of a profile and its
// translation into the limits of a DDS endpoint.
module Qos {
  import opened Arithmetic

  datatype Reliability = BestEffort | Reliable
  datatype Durability = Volatile | TransientLocal
  datatype Liveliness = Automatic | ManualByTopic
  datatype History = KeepLast | KeepAll

  datatype QosProfile = QosProfile(
    reliability: Reliability,
    durability: Durability,
    liveliness: Liveliness,
    deadlineMs: u32,
    livelinessLeaseMs: u32,
    historyDepth: u32,
    history: History,
    maxSamples: u32,
    maxBlockingMs: u32,
    maxInstances: u32)

  // ---------------------------------------------------------------- validation

  datatype Complaint = NoHistory | NoLease | UnreliableReplay | UnboundedWriter

  predicate Objects(p: QosProfile, c: Complaint) {
    match c
    case NoHistory => p.historyDepth == 0
    case NoLease => p.liveliness == ManualByTopic && p.livelinessLeaseMs == 0
    case UnreliableReplay => p.durability == TransientLocal && p.reliability != Reliable
    case UnboundedWriter => p.history == KeepAll && p.reliability == Reliable && p.maxSamples == 0
  }

  /** Reports every complaint that applies, each once, in a fixed order. */
  method Validate(p: QosProfile) returns (errors: seq<Complaint>)
    ensures forall c :: c in errors <==> Objects(p, c)
    ensures NoHistory in errors <==> p.historyDepth == 0
    ensures NoLease in errors <==> p.liveliness == ManualByTopic && p.livelinessLeaseMs == 0
    ensures UnreliableReplay in errors <==> p.durability == TransientLocal && p.reliability == BestEffort
    ensures UnboundedWriter in errors <==> p.history == KeepAll && p.reliability == Reliable && p.maxSamples == 0
    ensures forall i, j :: 0 <= i < j < |errors| ==> Order(errors[i]) < Order(errors[j])
  {
    errors := [];
    if p.historyDepth == 0 { errors := errors + [NoHistory]; }
    if p.liveliness == ManualByTopic && p.livelinessLeaseMs == 0 { errors := errors + [NoLease]; }
    if p.durability == TransientLocal && p.reliability != Reliable { errors := errors + [UnreliableReplay]; }
    if p.history == KeepAll && p.reliability == Reliable && p.maxSamples == 0 {
      errors := errors + [UnboundedWriter];
    }
  }

  function Order(c: Complaint): nat {
    match c
    case NoHistory => 0
    case NoLease => 1
    case UnreliableReplay => 2
    case UnboundedWriter => 3
  }

  ghost predicate Acceptable(p: QosProfile) {
    forall c :: !Objects(p, c)
  }

  // ---------------------------------------------------------------- translation

  datatype Duration = Duration(seconds: i32, nanosec: u32)

  function MsToDuration(ms: u32): (d: Duration)
    ensures d.seconds * 1_000_000_000 + d.nanosec == ms * 1_000_000
    ensures d.nanosec < 1_000_000_000
  {
    Duration(ms / 1000, ms % 1000 * 1_000_000)
  }

  /** An unsigned 32-bit value read as a signed one. */
  function ToI32(x: u32): i32 {
    if x < 0x8000_0000 then x else x - 0x1_0000_0000
  }

  /** The low 32 bits of a product, read as a signed value. */
  function Times32(a: i32, b: i32): i32 {
    ToI32(a * b % 0x1_0000_0000)
  }

  datatype Limits = Limits(maxSamples: i32, maxInstances: i32, maxSamplesPerInstance: i32)

  /** The consistency rule of the middleware, which rejects an endpoint that breaks it. */
  predicate Consistent(l: Limits) {
    l.maxSamples >= l.maxInstances * l.maxSamplesPerInstance
  }

  class EndpointQos {
    var reliability: Reliability
    var maxBlockingTime: Duration
    var durability: Durability
    var history: History
    var depth: i32
    var limits: Limits
    var deadline: Duration
    var liveliness: Liveliness
    var lease: Duration
    var announcement: Duration

    constructor (limits: Limits, deadline: Duration, lease: Duration, announcement: Duration)
      ensures this.limits == limits && this.deadline == deadline
      ensures this.lease == lease && this.announcement == announcement
    {
      reliability, durability, history, liveliness := Reliable, Volatile, KeepLast, Automatic;
      maxBlockingTime, depth := Duration(0, 0), 1;
      this.limits := limits;
      this.deadline := deadline;
      this.lease := lease;
      this.announcement := announcement;
    }

    method ApplyLimits(p: QosProfile)
      modifies this`limits
      ensures limits == Limited(p, old(limits))
    {
      var instances: i32 := if p.maxInstances > 0 then ToI32(p.maxInstances) else 0;
      if instances > 0 {
        limits := limits.(maxInstances := instances);
        if p.maxSamples == 0 {
          var perInstance := ToI32(p.historyDepth);
          limits := limits.(maxSamplesPerInstance := perInstance);
          limits := limits.(maxSamples := Times32(instances, perInstance));
        }
      }
      if p.maxSamples > 0 {
        var n: i32 := if instances > 0 then instances else 1;
        var perInstance := TruncDiv(ToI32(p.maxSamples), n);
        ShareFits(ToI32(p.maxSamples), n);
        limits := limits.(maxSamples := ToI32(p.maxSamples));
        if instances == 0 { limits := limits.(maxInstances := 1); }
        limits := limits.(maxSamplesPerInstance := if perInstance > 0 then perInstance else 1);
      }
    }

    method ApplyProfile(p: QosProfile)
      modifies this
      ensures reliability == p.reliability && durability == p.durability
      ensures history == p.history && liveliness == p.liveliness && depth == ToI32(p.historyDepth)
      ensures maxBlockingTime == MsToDuration(p.maxBlockingMs)
      ensures limits == Limited(p, old(limits))
      ensures deadline == if p.deadlineMs > 0 then MsToDuration(p.deadlineMs) else old(deadline)
      ensures (lease, announcement) ==
              if p.livelinessLeaseMs > 0
              then (MsToDuration(p.livelinessLeaseMs), MsToDuration(p.livelinessLeaseMs / 2))
              else (old(lease), old(announcement))
    {
      reliability := p.reliability;
      maxBlockingTime := MsToDuration(p.maxBlockingMs);
      durability := p.durability;
      history := p.history;
      depth := ToI32(p.historyDepth);
      ApplyLimits(p);
      if p.deadlineMs > 0 {
        deadline := MsToDuration(p.deadlineMs);
      }
      liveliness := p.liveliness;
      if p.livelinessLeaseMs > 0 {
        lease := MsToDuration(p.livelinessLeaseMs);
        announcement := MsToDuration(p.livelinessLeaseMs / 2);
      }
    }
  }

  lemma ShareFits(a: int, n: int)
    requires n > 0 && -0x8000_0000 <= a < 0x8000_0000
    ensures -0x8000_0000 <= TruncDiv(a, n) < 0x8000_0000
  {
    if a >= 0 { QuotientAtMost(a, n); } else { QuotientAtMost(-a, n); }
  }

  lemma QuotientAtMost(a: nat, n: nat)
    requires n > 0
    ensures 0 <= a / n <= a
  {
    var q := a / n;
    assert a == q * n + a % n;
    assert q * n >= q by { MulMonotone(1, n, q); }
  }

  /** The share of each instance in a pool, at least one. */
  function Share(pool: i32, instances: i32): i32
    requires instances > 0
  {
    ShareFits(pool, instances);
    var share := TruncDiv(pool, instances);
    if share > 0 then share else 1
  }

  /** The casts keep the low 32 bits. */
  lemma CastsExactly(x: u32, a: i32, b: i32)
    ensures (x - ToI32(x)) % 0x1_0000_0000 == 0 && (a * b - Times32(a, b)) % 0x1_0000_0000 == 0
  {
    hide ToI32;
    CastKeeps(x);
    CastKeeps(a * b);
  }

  lemma CastKeeps(y: int)
    ensures (y - ToI32(y % 0x1_0000_0000)) % 0x1_0000_0000 == 0
  {
  }

  /** The limits a profile leaves an endpoint with. */
  function Limited(p: QosProfile, l: Limits): Limits {
    var instances, pool := ToI32(p.maxInstances), ToI32(p.maxSamples);
    if p.maxSamples > 0 then
      if instances > 0 then Limits(pool, instances, Share(pool, instances))
      else Limits(pool, if instances == 0 then 1 else l.maxInstances, Share(pool, 1))
    else if instances > 0 then
      Limits(Times32(instances, ToI32(p.historyDepth)), instances, ToI32(p.historyDepth))
    else l
  }

  /** The limits, for every profile: which defaults stay, a pool derived from the history depth of every
      instance if there is none, and else an even share of it for each instance, at least one. */
  lemma LimitsExactly(p: QosProfile, l: Limits, share: int)
    requires Truncates(ToI32(p.maxSamples), if ToI32(p.maxInstances) > 0 then ToI32(p.maxInstances) else 1, share)
    ensures var (r, instances, depth) := (Limited(p, l), ToI32(p.maxInstances), ToI32(p.historyDepth));
            && r.maxInstances == (if instances > 0 then instances
                                  else if p.maxSamples > 0 && instances == 0 then 1 else l.maxInstances)
            && r.maxSamples == (if p.maxSamples > 0 then ToI32(p.maxSamples)
                                else if instances > 0 then Times32(instances, depth) else l.maxSamples)
            && r.maxSamplesPerInstance == (if p.maxSamples > 0 then if share > 0 then share else 1
                                           else if instances > 0 then depth else l.maxSamplesPerInstance)
  {
    TruncDivExactly(ToI32(p.maxSamples), if ToI32(p.maxInstances) > 0 then ToI32(p.maxInstances) else 1, share);
  }

  /** In range the derived pool has room for the history of every instance. */
  lemma DerivedPoolFits(p: QosProfile, l: Limits)
    requires InRange(p) && p.maxSamples == 0 && p.maxInstances > 0
    ensures var r := Limited(p, l);
            && r.maxSamples == p.maxInstances * p.historyDepth
            && r.maxInstances == p.maxInstances && r.maxSamplesPerInstance == p.historyDepth
  {
    ProductNotNegative(p.maxInstances, p.historyDepth);
  }

  // ---------------------------------------------------------------- consistency

  /** The values an endpoint can represent, the size of a derived pool included. */
  ghost predicate InRange(p: QosProfile) {
    && p.maxInstances < 0x8000_0000 && p.maxSamples < 0x8000_0000 && p.historyDepth < 0x8000_0000
    && (p.maxSamples == 0 ==> p.maxInstances * p.historyDepth < 0x8000_0000)
  }

  lemma SharesFitThePool(pool: nat, instances: nat)
    requires instances > 0
    ensures pool / instances > 0 ==> instances * (pool / instances) <= pool
    ensures pool / instances > 0 <==> pool >= instances
  {
    var q := pool / instances;
    assert pool == q * instances + pool % instances;
    if q > 0 { MulMonotone(1, q, instances); }
    if q == 0 { assert pool < instances; }
  }

  /** Exactly when the derived limits satisfy the middleware's rule: validation does not look at the
      relation of max_samples to max_instances, and the rule fails whenever there are fewer samples
      than instances. */
  lemma LimitsConsistentExactly(p: QosProfile, l: Limits)
    requires InRange(p) && p.historyDepth > 0 && (p.maxSamples > 0 || p.maxInstances > 0)
    ensures Consistent(Limited(p, l)) <==> p.maxSamples == 0 || p.maxSamples >= p.maxInstances
  {
    if p.maxSamples > 0 {
      if p.maxInstances > 0 {
        SharesFitThePool(p.maxSamples, p.maxInstances);
      } else {
        SharesFitThePool(p.maxSamples, 1);
      }
    } else {
      ProductNotNegative(p.maxInstances, p.historyDepth);
    }
  }

  lemma ProductNotNegative(a: nat, b: nat)
    ensures a * b >= 0
  {
  }

  /** A profile validation accepts and the middleware rejects. */
  lemma AcceptedButRejected(l: Limits)
    ensures exists p :: Acceptable(p) && InRange(p) && !Consistent(Limited(p, l))
  {
    var p := QosProfile(Reliable, TransientLocal, Automatic, 250, 1000, 32, KeepAll, 4, 100, 8);
    assert Acceptable(p);
    LimitsConsistentExactly(p, l);
  }

  /** No accepted reliable keep-all profile leaves the writer's history unbounded. */
  lemma KeepAllIsBounded(p: QosProfile, l: Limits)
    requires Acceptable(p) && InRange(p) && p.history == KeepAll && p.reliability == Reliable
    ensures 0 < Limited(p, l).maxSamples == p.maxSamples
  {
    assert !Objects(p, UnboundedWriter);
  }
}
