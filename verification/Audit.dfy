// src/audit_sink.cpp: one JSON object per anomaly, appended to a log. A character stands for one byte.
module Audit {
  import opened Telemetry
  import opened Decimal

  datatype Record = Record(event: AnomalyEvent, observedNs: int)

  // ---------------------------------------------------------------- specification

  function HexDigit(d: nat): char
    requires d < 16
  {
    if d < 10 then '0' + d as char else 'a' + (d - 10) as char
  }

  /** Four lower-case hexadecimal digits. */
  function Hex4(v: nat): (s: string)
    requires v < 0x1_0000
  {
    [HexDigit(v / 4096), HexDigit(v / 256 % 16), HexDigit(v / 16 % 16), HexDigit(v % 16)]
  }

  function EscapedChar(c: char): string {
    if c == '\\' then ['\\', '\\']
    else if c == '"' then ['\\', '"']
    else if c == '\n' then ['\\', 'n']
    else if c == '\r' then ['\\', 'r']
    else if c == '\t' then ['\\', 't']
    else if c < ' ' then ['\\', 'u'] + Hex4(c as nat)
    else [c]
  }

  function Escaped(s: string): string {
    if s == [] then [] else EscapedChar(s[0]) + Escaped(s[1..])
  }

  const OBSERVED_KEY := "{\"observed_at_ns\":"
  const SOURCE_KEY := ",\"source_id\":\""
  const SEQUENCE_KEY := ",\"sequence\":"
  const KIND_KEY := ",\"kind\":\""
  const MISSING_KEY := ",\"missing_samples\":"
  const AGE_KEY := ",\"age_ms\":"
  const DETAIL_KEY := ",\"detail\":\""
  const QUOTE := ['"']
  const END := ['}']

  // The line of a record, from its last field to its first.

  function FromDetail(e: AnomalyEvent): string {
    DETAIL_KEY + Escaped(e.detail) + (QUOTE + END)
  }

  function FromAge(e: AnomalyEvent): string {
    AGE_KEY + IntText(e.ageMs) + FromDetail(e)
  }

  function FromMissing(e: AnomalyEvent): string {
    MISSING_KEY + NatText(e.missingSamples) + FromAge(e)
  }

  function FromKind(e: AnomalyEvent): string {
    KIND_KEY + KindName(e.kind) + (QUOTE + FromMissing(e))
  }

  function FromSequence(e: AnomalyEvent): string {
    SEQUENCE_KEY + NatText(e.sequence) + FromKind(e)
  }

  function FromSource(e: AnomalyEvent): string {
    SOURCE_KEY + Escaped(e.sourceId) + (QUOTE + FromSequence(e))
  }

  function Line(r: Record): string {
    OBSERVED_KEY + IntText(r.observedNs) + FromSource(r.event)
  }

  function Joined(lines: seq<string>): string {
    if lines == [] then [] else lines[0] + ['\n'] + Joined(lines[1..])
  }

  lemma {:induction false} JoinedSnoc(lines: seq<string>, line: string)
    ensures Joined(lines + [line]) == Joined(lines) + line + ['\n']
    decreases |lines|
  {
    if lines == [] {
      assert [line][1..] == [];
    } else {
      assert (lines + [line])[1..] == lines[1..] + [line];
      JoinedSnoc(lines[1..], line);
    }
  }

  function Lines(rs: seq<Record>): seq<string> {
    seq(|rs|, i requires 0 <= i < |rs| => Line(rs[i]))
  }

  /** The log after the records `rs`. */
  function LogText(rs: seq<Record>): string {
    Joined(Lines(rs))
  }

  lemma LogTextSnoc(rs: seq<Record>, r: Record)
    ensures LogText(rs + [r]) == LogText(rs) + Line(r) + ['\n']
  {
    assert Lines(rs + [r]) == Lines(rs) + [Line(r)];
    JoinedSnoc(Lines(rs), Line(r));
  }

  // ---------------------------------------------------------------- the sink

  lemma EscapedNext(s: string, i: nat, out: string)
    requires i < |s|
    ensures out + Escaped(s[i..]) == (out + EscapedChar(s[i])) + Escaped(s[i + 1..])
  {
    assert s[i..][1..] == s[i + 1..];
  }

  method EscapeJson(input: string) returns (out: string)
    ensures out == Escaped(input)
  {
    out := [];
    for i := 0 to |input|
      invariant out + Escaped(input[i..]) == Escaped(input)
    {
      var ch := input[i];
      ghost var before := out;
      EscapedNext(input, i, out);
      match ch {
        case '\\' => out := out + ['\\', '\\'];
        case '"' => out := out + ['\\', '"'];
        case '\n' => out := out + ['\\', 'n'];
        case '\r' => out := out + ['\\', 'r'];
        case '\t' => out := out + ['\\', 't'];
        case _ =>
          if ch < ' ' {
            out := out + ['\\', 'u'] + Hex4(ch as nat);
          } else {
            out := out + [ch];
          }
      }
      assert out == before + EscapedChar(ch);
    }
  }

  lemma Regroup(out: string, key: string, value: string, rest: string)
    ensures out + (key + value + rest) == (out + key + value) + rest
  {
  }

  lemma RegroupQuoted(out: string, key: string, value: string, rest: string)
    ensures out + (key + value + (QUOTE + rest)) == (out + key + value + QUOTE) + rest
  {
  }

  class AuditSink {
    var stream: string
    var good: bool

    /** Opens the log for appending to its `content`; `usable` says whether that succeeded. */
    constructor (content: string, usable: bool)
      ensures stream == content && good == usable
    {
      stream := content;
      good := usable;
    }

    method Write(event: AnomalyEvent, observedNs: int)
      modifies this
      ensures good == old(good)
      ensures stream == if good then old(stream) + Line(Record(event, observedNs)) + ['\n'] else old(stream)
    {
      hide IntText;
      hide NatText;
      hide Escaped;
      hide KindName;
      if !good {
        return;
      }
      ghost var all := stream + Line(Record(event, observedNs));
      Regroup(stream, OBSERVED_KEY, IntText(observedNs), FromSource(event));
      stream := stream + OBSERVED_KEY + IntText(observedNs);
      var source := EscapeJson(event.sourceId);
      RegroupQuoted(stream, SOURCE_KEY, source, FromSequence(event));
      stream := stream + SOURCE_KEY + source + QUOTE;
      Regroup(stream, SEQUENCE_KEY, NatText(event.sequence), FromKind(event));
      stream := stream + SEQUENCE_KEY + NatText(event.sequence);
      RegroupQuoted(stream, KIND_KEY, KindName(event.kind), FromMissing(event));
      stream := stream + KIND_KEY + KindName(event.kind) + QUOTE;
      Regroup(stream, MISSING_KEY, NatText(event.missingSamples), FromAge(event));
      stream := stream + MISSING_KEY + NatText(event.missingSamples);
      Regroup(stream, AGE_KEY, IntText(event.ageMs), FromDetail(event));
      stream := stream + AGE_KEY + IntText(event.ageMs);
      var detail := EscapeJson(event.detail);
      RegroupQuoted(stream, DETAIL_KEY, detail, END);
      stream := stream + DETAIL_KEY + detail + QUOTE;
      stream := stream + END;
      assert stream == all;
      stream := stream + ['\n'];
    }
  }
}
