// src/metrics.cpp and the counter names the DDS adapter builds.
module Metrics {
  import opened Arithmetic
  import opened Telemetry

  type Counters = map<string, u64>

  function Value(counters: Counters, name: string): u64 {
    if name in counters then counters[name] else 0
  }

  function Bump(counters: Counters, name: string, value: u64): Counters {
    counters[name := Add64(Value(counters, name), value)]
  }

  class MetricsRegistry {
    var counters: Counters

    constructor ()
      ensures counters == map[]
    {
      counters := map[];
    }

    method Increment(name: string, value: u64)
      modifies this
      ensures counters == Bump(old(counters), name, value)
    {
      if name !in counters {
        counters := counters[name := 0];
      }
      counters := counters[name := Add64(counters[name], value)];
    }
  }

  // ---------------------------------------------------------------- names

  datatype Metric =
    | ReceivedTotal
    | ReceivedByKey(id: string)
    | AnomalyTotal(kind: AnomalyKind)
    | AnomalyByKey(kind: AnomalyKind, id: string)
    | DeadlineTotal
    | LivelinessTotal
    | IncompatibleTotal
    | MiddlewareLostTotal

  const RECEIVED_TOTAL := "rdtf_samples_received_total"
  const RECEIVED_BY_KEY := "rdtf_samples_received_by_key{key=\""
  const ANOMALY := "rdtf_anomaly_"
  const TOTAL := "_total"
  const ANOMALY_BY_KEY := "rdtf_anomaly_by_key{kind=\""
  const KEY := ",key=\""
  const CLOSE := "\"}"
  const DEADLINE_TOTAL := "rdtf_deadline_missed_total"
  const LIVELINESS_TOTAL := "rdtf_liveliness_lost_total"
  const INCOMPATIBLE_TOTAL := "rdtf_incompatible_qos_total"
  const MIDDLEWARE_LOST_TOTAL := "rdtf_middleware_sample_lost_total"

  function Name(m: Metric): string {
    match m
    case ReceivedTotal => RECEIVED_TOTAL
    case ReceivedByKey(id) => RECEIVED_BY_KEY + id + CLOSE
    case AnomalyTotal(kind) => ANOMALY + KindName(kind) + TOTAL
    case AnomalyByKey(kind, id) => ANOMALY_BY_KEY + KindName(kind) + ['"'] + (KEY + id + CLOSE)
    case DeadlineTotal => DEADLINE_TOTAL
    case LivelinessTotal => LIVELINESS_TOTAL
    case IncompatibleTotal => INCOMPATIBLE_TOTAL
    case MiddlewareLostTotal => MIDDLEWARE_LOST_TOTAL
  }

  /** The names, as they appear in the rendered metrics. */
  lemma NamesExactly(m: Metric)
    ensures Name(m) == match m
                       case ReceivedTotal => "rdtf_samples_received_total"
                       case ReceivedByKey(id) => "rdtf_samples_received_by_key{key=\"" + id + "\"}"
                       case AnomalyTotal(kind) => "rdtf_anomaly_" + KindName(kind) + "_total"
                       case AnomalyByKey(kind, id) =>
                         "rdtf_anomaly_by_key{kind=\"" + KindName(kind) + "\",key=\"" + id + "\"}"
                       case DeadlineTotal => "rdtf_deadline_missed_total"
                       case LivelinessTotal => "rdtf_liveliness_lost_total"
                       case IncompatibleTotal => "rdtf_incompatible_qos_total"
                       case MiddlewareLostTotal => "rdtf_middleware_sample_lost_total"
  {
    hide KindName;
    if m.AnomalyByKey? {
      assert ['"'] + KEY == "\",key=\"";
      assert ANOMALY_BY_KEY + KindName(m.kind) + ['"'] + (KEY + m.id + CLOSE)
             == ANOMALY_BY_KEY + KindName(m.kind) + (['"'] + KEY) + m.id + CLOSE;
    }
  }

  /** An increment adds to one counter, modulo its width, and touches no other. */
  lemma BumpExactly(counters: Counters, name: string, value: u64, other: string)
    ensures Value(Bump(counters, name, value), other)
            == (Value(counters, other) + if other == name then value else 0) % 0x1_0000_0000_0000_0000
    ensures Bump(counters, name, value).Keys == counters.Keys + {name}
  {
    Add64IsModulo(Value(counters, name), value);
  }

  lemma Wrapped(before: string, s: string, t: string, after: string)
    requires before + s + after == before + t + after
    ensures s == t
  {
    var u := before + s + after;
    assert |s| == |t|;
    assert u[|before|..][..|s|] == s;
    assert u[|before|..][..|s|] == t;
  }

  lemma QuotedFirst(before: string, s: string, x: string, t: string, y: string)
    requires before + s + ['"'] + x == before + t + ['"'] + y
    requires '"' !in s && '"' !in t
    ensures s == t && x == y
  {
    var u := (before + s + ['"'] + x)[|before|..];
    assert u == s + ['"'] + x && u == t + ['"'] + y;
    assert u[|s|] == '"' && u[|t|] == '"';
    assert |s| == |t|;
    assert u[..|s|] == s && u[..|s|] == t;
    assert u[|s| + 1..] == x && u[|s| + 1..] == y;
  }

  lemma KindNamesUnquoted(kind: AnomalyKind)
    ensures '"' !in KindName(kind) && KindName(kind) != [] && KindName(kind)[0] != 'b'
  {
  }

  /** The characters that tell the families of names apart: the sixth, and one after the shared prefix. */
  function Family(m: Metric): (char, char) {
    match m
    case ReceivedTotal => ('s', 't')
    case ReceivedByKey(_) => ('s', 'b')
    case AnomalyTotal(kind) => ('a', if KindName(kind) == [] then ' ' else KindName(kind)[0])
    case AnomalyByKey(_, _) => ('a', 'b')
    case DeadlineTotal => ('d', ' ')
    case LivelinessTotal => ('l', ' ')
    case IncompatibleTotal => ('i', ' ')
    case MiddlewareLostTotal => ('m', ' ')
  }

  lemma NameShowsFamily(m: Metric)
    ensures |Name(m)| > 13 && Name(m)[5] == Family(m).0
    ensures Family(m).0 == 'a' ==> Name(m)[13] == Family(m).1
    ensures Family(m).0 == 's' ==> |Name(m)| > 22 && Name(m)[22] == Family(m).1
  {
    match m
    case ReceivedTotal => assert RECEIVED_TOTAL[5] == 's' && RECEIVED_TOTAL[22] == 't';
    case ReceivedByKey(_) => assert RECEIVED_BY_KEY[5] == 's' && RECEIVED_BY_KEY[22] == 'b';
    case AnomalyTotal(kind) =>
      KindNamesUnquoted(kind);
      assert |ANOMALY| == 13 && ANOMALY[5] == 'a';
    case AnomalyByKey(_, _) => assert ANOMALY_BY_KEY[5] == 'a' && ANOMALY_BY_KEY[13] == 'b';
    case DeadlineTotal => assert DEADLINE_TOTAL[5] == 'd';
    case LivelinessTotal => assert LIVELINESS_TOTAL[5] == 'l';
    case IncompatibleTotal => assert INCOMPATIBLE_TOTAL[5] == 'i';
    case MiddlewareLostTotal => assert MIDDLEWARE_LOST_TOTAL[5] == 'm';
  }

  /** No two counters share a name, whatever the source ids are, quotes and braces included. */
  lemma NamesInjective(m: Metric, n: Metric)
    requires Name(m) == Name(n)
    ensures m == n
  {
    NameShowsFamily(m);
    NameShowsFamily(n);
    match m
    case ReceivedByKey(id) => Wrapped(RECEIVED_BY_KEY, id, n.id, CLOSE);
    case AnomalyTotal(kind) =>
      KindNamesUnquoted(kind);
      Wrapped(ANOMALY, KindName(kind), KindName(n.kind), TOTAL);
      KindNamesInjective(kind, n.kind);
    case AnomalyByKey(kind, id) => ByKeyInjective(kind, id, n);
    case _ =>
  }

  lemma ByKeyInjective(kind: AnomalyKind, id: string, n: Metric)
    requires Name(AnomalyByKey(kind, id)) == Name(n)
    ensures n == AnomalyByKey(kind, id)
  {
    NameShowsFamily(AnomalyByKey(kind, id));
    NameShowsFamily(n);
    assert n.AnomalyByKey? by {
      if n.AnomalyTotal? { KindNamesUnquoted(n.kind); }
    }
    KindNamesUnquoted(kind);
    KindNamesUnquoted(n.kind);
    QuotedFirst(ANOMALY_BY_KEY, KindName(kind), KEY + id + CLOSE, KindName(n.kind), KEY + n.id + CLOSE);
    KindNamesInjective(kind, n.kind);
    Wrapped(KEY, id, n.id, CLOSE);
  }
}
