// The inverse of the audit log printer: a reader of the lines src/audit_sink.cpp writes, with JSON
// strings decoded as section 7 of RFC 8259 says.
module AuditParser {
  import opened Arithmetic
  import opened Telemetry
  import opened Decimal
  import opened Audit

  /** A parsed value and what follows it. */
  datatype Parsed<+T> = Failed | Done(value: T, rest: string) {
    predicate IsFailure() { Failed? }

    function PropagateFailure<U>(): Parsed<U>
      requires Failed?
    {
      Failed
    }

    function Extract(): (T, string)
      requires Done?
    {
      (value, rest)
    }
  }

  // ---------------------------------------------------------------- the parser

  function Expect(s: string, literal: string): Parsed<()> {
    if literal <= s then Done((), s[|literal|..]) else Failed
  }

  function ReadNat(s: string): Parsed<nat> {
    var n := DigitSpan(s);
    if n == 0 then Failed else Done(NatValue(s[..n]), s[n..])
  }

  function ReadInt(s: string): Parsed<int> {
    if s != [] && s[0] == '-' then
      var (n, rest) :- ReadNat(s[1..]);
      Done(-(n as int), rest)
    else
      var (n, rest) :- ReadNat(s);
      Done(n, rest)
  }

  function ReadU64(s: string): Parsed<u64> {
    var (n, rest) :- ReadNat(s);
    if n < 0x1_0000_0000_0000_0000 then Done(n, rest) else Failed
  }

  predicate IsHex(c: char) {
    '0' <= c <= '9' || 'a' <= c <= 'f' || 'A' <= c <= 'F'
  }

  function HexValue(c: char): (d: nat)
    requires IsHex(c)
    ensures d < 16
  {
    if c <= '9' then (c - '0') as nat
    else if c <= 'F' then (c - 'A') as nat + 10
    else (c - 'a') as nat + 10
  }

  /** The character a backslash introduces. */
  function ReadEscape(s: string): Parsed<char> {
    if s == [] then Failed
    else if s[0] == '"' || s[0] == '\\' || s[0] == '/' then Done(s[0], s[1..])
    else if s[0] == 'b' then Done(8 as char, s[1..])
    else if s[0] == 'f' then Done(12 as char, s[1..])
    else if s[0] == 'n' then Done('\n', s[1..])
    else if s[0] == 'r' then Done('\r', s[1..])
    else if s[0] == 't' then Done('\t', s[1..])
    else if s[0] == 'u' && |s| >= 5 && IsHex(s[1]) && IsHex(s[2]) && IsHex(s[3]) && IsHex(s[4]) then
      var v := 4096 * HexValue(s[1]) + 256 * HexValue(s[2]) + 16 * HexValue(s[3]) + HexValue(s[4]);
      if v < 0xD800 || 0xE000 <= v then Done(v as char, s[5..]) else Failed
    else Failed
  }

  /** The text of a string whose opening quote has been read. */
  function ReadString(s: string): Parsed<string>
    decreases |s|
  {
    if s == [] || s[0] < ' ' then Failed
    else if s[0] == '"' then Done([], s[1..])
    else if s[0] == '\\' then
      var (c, after) :- ReadEscape(s[1..]);
      if |after| >= |s| then Failed
      else
        var (text, rest) :- ReadString(after);
        Done([c] + text, rest)
    else
      var (text, rest) :- ReadString(s[1..]);
      Done([s[0]] + text, rest)
  }

  function KindNamed(name: string): Parsed<AnomalyKind> {
    if name == KindName(Duplicate) then Done(Duplicate, [])
    else if name == KindName(SequenceGap) then Done(SequenceGap, [])
    else if name == KindName(OutOfOrder) then Done(OutOfOrder, [])
    else if name == KindName(Stale) then Done(Stale, [])
    else if name == KindName(FutureTimestamp) then Done(FutureTimestamp, [])
    else if name == KindName(SchemaMismatch) then Done(SchemaMismatch, [])
    else Failed
  }

  // A field: its key, then its value.

  function IntField(s: string, key: string): Parsed<int> {
    var (_, after) :- Expect(s, key);
    ReadInt(after)
  }

  function U64Field(s: string, key: string): Parsed<u64> {
    var (_, after) :- Expect(s, key);
    ReadU64(after)
  }

  function TextField(s: string, key: string): Parsed<string> {
    var (_, after) :- Expect(s, key);
    ReadString(after)
  }

  function KindField(s: string): Parsed<AnomalyKind> {
    var (name, rest) :- TextField(s, KIND_KEY);
    var (kind, _) :- KindNamed(name);
    Done(kind, rest)
  }

  function ReadRecord(s: string): Parsed<Record> {
    var (observed, s1) :- IntField(s, OBSERVED_KEY);
    var (source, s2) :- TextField(s1, SOURCE_KEY);
    var (sequence, s3) :- U64Field(s2, SEQUENCE_KEY);
    var (kind, s4) :- KindField(s3);
    var (missing, s5) :- U64Field(s4, MISSING_KEY);
    var (age, s6) :- IntField(s5, AGE_KEY);
    var (detail, s7) :- TextField(s6, DETAIL_KEY);
    var (_, rest) :- Expect(s7, END);
    Done(Record(AnomalyEvent(kind, source, sequence, missing, age, detail), observed), rest)
  }

  /** Where the first line of a text ends. */
  function LineEnd(s: string): (n: nat)
    ensures n <= |s|
  {
    if s == [] || s[0] == '\n' then 0 else 1 + LineEnd(s[1..])
  }

  datatype Log = Unreadable | Records(records: seq<Record>)

  /** Splits a log at its newlines and reads every line as one record. */
  function ReadLog(s: string): Log
    decreases |s|
  {
    if s == [] then Records([])
    else
      var n := LineEnd(s);
      var first := ReadRecord(s[..n]);
      if n == |s| || first.Failed? || first.rest != [] then Unreadable
      else
        match ReadLog(s[n + 1..])
        case Unreadable => Unreadable
        case Records(others) => Records([first.value] + others)
  }

  // ---------------------------------------------------------------- numbers and literals

  lemma ExpectReads(literal: string, rest: string)
    ensures Expect(literal + rest, literal) == Done((), rest)
  {
  }

  lemma NatReads(n: nat, rest: string)
    requires rest != [] && !IsDigit(rest[0])
    ensures ReadNat(NatText(n) + rest) == Done(n, rest)
  {
    DigitSpanStops(NatText(n), rest);
    NatTextValue(n);
    assert (NatText(n) + rest)[..|NatText(n)|] == NatText(n);
  }

  lemma MinusReads(digits: string, n: nat, rest: string)
    requires ReadNat(digits + rest) == Done(n, rest)
    ensures ReadInt(['-'] + digits + rest) == Done(-(n as int), rest)
  {
    assert (['-'] + digits + rest)[1..] == digits + rest;
  }

  lemma PlusReads(digits: string, n: nat, rest: string)
    requires digits != [] && IsDigit(digits[0]) && ReadNat(digits + rest) == Done(n, rest)
    ensures ReadInt(digits + rest) == Done(n, rest)
  {
  }

  lemma IntReads(n: int, rest: string)
    requires rest != [] && !IsDigit(rest[0])
    ensures ReadInt(IntText(n) + rest) == Done(n, rest)
  {
    if n < 0 {
      NatReads(-n, rest);
      MinusReads(NatText(-n), -n, rest);
    } else {
      NatReads(n, rest);
      PlusReads(NatText(n), n, rest);
    }
  }

  // ---------------------------------------------------------------- strings

  lemma HexReads(v: nat, rest: string)
    requires v < 0x20
    ensures ReadEscape(['u'] + Hex4(v) + rest) == Done(v as char, rest)
  {
    var s := ['u'] + Hex4(v) + rest;
    assert s[1] == '0' && s[2] == '0' && s[3] == HexDigit(v / 16 % 16) && s[4] == HexDigit(v % 16);
    assert s[5..] == rest;
  }

  lemma EscapedCharReads(c: char, rest: string)
    ensures ReadString(EscapedChar(c) + rest)
            == match ReadString(rest)
               case Failed => Failed
               case Done(text, after) => Done([c] + text, after)
  {
    var e := EscapedChar(c);
    var s := e + rest;
    if |e| == 1 {
      assert s[1..] == rest;
    } else if |e| == 2 {
      assert s[1..][0] == e[1] && s[1..][1..] == rest;
    } else {
      assert s[1..] == ['u'] + Hex4(c as nat) + rest;
      HexReads(c as nat, rest);
    }
  }

  lemma EscapedCons(text: string, tail: string)
    requires text != []
    ensures Escaped(text) + tail == EscapedChar(text[0]) + (Escaped(text[1..]) + tail)
  {
  }

  /** Decoding an escaped text gives the text back and stops at the quote that closes it. */
  lemma {:induction false} EscapedReads(text: string, rest: string)
    ensures ReadString(Escaped(text) + (['"'] + rest)) == Done(text, rest)
    decreases |text|
  {
    if text == [] {
      QuoteReads(rest);
    } else {
      EscapedReads(text[1..], rest);
      EscapedCharReads(text[0], Escaped(text[1..]) + (['"'] + rest));
      EscapedCons(text, ['"'] + rest);
      assert [text[0]] + text[1..] == text;
    }
  }

  lemma QuoteReads(rest: string)
    ensures ReadString([] + (['"'] + rest)) == Done([], rest)
  {
    assert [] + (['"'] + rest) == ['"'] + rest;
  }

  ghost predicate NoControl(s: string) {
    forall i :: 0 <= i < |s| ==> s[i] >= ' '
  }

  /** How many backslashes stand in a row just before a position. */
  function Backslashes(s: string, i: nat): (n: nat)
    requires i <= |s|
    ensures n <= i
  {
    if i == 0 || s[i - 1] != '\\' then 0 else Backslashes(s, i - 1) + 1
  }

  lemma {:induction false} BackslashesConcat(e: string, t: string, i: nat)
    requires i <= |t|
    ensures Backslashes(e + t, |e| + i)
            == Backslashes(t, i) + if Backslashes(t, i) == i then Backslashes(e, |e|) else 0
    decreases i
  {
    if i == 0 {
      BackslashesPrefix(e, t, |e|);
    } else {
      assert (e + t)[|e| + i - 1] == t[i - 1];
      BackslashesConcat(e, t, i - 1);
    }
  }

  lemma {:induction false} BackslashesPrefix(e: string, t: string, i: nat)
    requires i <= |e|
    ensures Backslashes(e + t, i) == Backslashes(e, i)
    decreases i
  {
    if i == 0 {
    } else {
      BackslashesPrefix(e, t, i - 1);
    }
  }

  /** No control character, and every quote has an odd number of backslashes before it: it is escaped. */
  ghost predicate Clean(s: string) {
    && NoControl(s)
    && forall i :: 0 <= i < |s| && s[i] == '"' ==> Backslashes(s, i) % 2 == 1
  }

  lemma EscapedCharIsClean(c: char)
    ensures Clean(EscapedChar(c)) && Backslashes(EscapedChar(c), |EscapedChar(c)|) % 2 == 0
  {
    var e := EscapedChar(c);
    if |e| == 2 {
      assert Backslashes(e, 1) == 1;
    }
  }

  lemma CleanConcat(e: string, t: string)
    requires Clean(e) && Clean(t) && Backslashes(e, |e|) % 2 == 0
    ensures Clean(e + t)
  {
    hide Backslashes;
    forall i | 0 <= i < |e + t| && (e + t)[i] == '"' ensures Backslashes(e + t, i) % 2 == 1 {
      if i < |e| {
        BackslashesPrefix(e, t, i);
      } else {
        var b, k := Backslashes(t, i - |e|), Backslashes(e, |e|);
        BackslashesConcat(e, t, i - |e|);
        assert t[i - |e|] == '"' && b % 2 == 1;
        OddPlusEven(b, k);
      }
    }
  }

  lemma OddPlusEven(a: nat, b: nat)
    requires a % 2 == 1 && b % 2 == 0
    ensures (a + b) % 2 == 1
  {
  }

  /** Every quote of an escaped text is escaped, and no control character is left. */
  lemma {:induction false} EscapedIsClean(text: string)
    ensures Clean(Escaped(text))
    decreases |text|
  {
    if text == [] {
    } else {
      hide Clean;
      EscapedIsClean(text[1..]);
      EscapedCharIsClean(text[0]);
      CleanConcat(EscapedChar(text[0]), Escaped(text[1..]));
    }
  }

  lemma {:induction false} PlainTextIsUnchanged(s: string)
    requires forall i :: 0 <= i < |s| ==> s[i] >= ' ' && s[i] != '"' && s[i] != '\\'
    ensures Escaped(s) == s
    decreases |s|
  {
    if s == [] {
    } else {
      PlainTextIsUnchanged(s[1..]);
    }
  }

  lemma KindNameReads(kind: AnomalyKind)
    ensures KindNamed(KindName(kind)) == Done(kind, [])
  {
    forall other | KindName(other) == KindName(kind) ensures other == kind { KindNamesInjective(other, kind); }
  }

  // ---------------------------------------------------------------- the text itself

  /** How each character is written: five short forms, six characters for other control characters, and
      everything else as it is. */
  lemma EscapedExactly(c: char)
    ensures EscapedChar(c) ==
            if c == '\\' then "\\\\"
            else if c == '"' then "\\\""
            else if c == '\n' then "\\n"
            else if c == '\r' then "\\r"
            else if c == '\t' then "\\t"
            else if c as int < 32 then
              "\\u00" + (if c as int < 16 then "0" else "1") + ["0123456789abcdef"[c as int % 16]]
            else [c]
  {
    hide Hex4;
    if c as int < 32 {
      HexExactly(c as int);
    }
  }

  lemma HexExactly(v: nat)
    requires v < 32
    ensures Hex4(v) == "00" + (if v < 16 then "0" else "1") + ["0123456789abcdef"[v % 16]]
  {
    assert v / 4096 == 0 && v / 256 % 16 == 0 && v / 16 % 16 == (if v < 16 then 0 else 1);
    HexDigitExactly(v % 16);
  }

  lemma HexDigitExactly(d: nat)
    requires d < 16
    ensures HexDigit(d) == "0123456789abcdef"[d]
  {
  }

  /** A text is escaped character by character. */
  lemma {:induction false} EscapedConcat(s: string, t: string)
    ensures Escaped(s + t) == Escaped(s) + Escaped(t)
    decreases |s|
  {
    hide EscapedChar;
    if s == [] {
      assert s + t == t;
    } else {
      EscapedConcat(s[1..], t);
      assert (s + t)[1..] == s[1..] + t;
    }
  }

  lemma EscapedOne(c: char)
    ensures Escaped([c]) == EscapedChar(c)
  {
    assert [c][1..] == [];
  }

  /** The line of a record, with every name and every quote in its place. */
  lemma LineExactly(r: Record)
    ensures var e := r.event;
            Line(r) == "{\"observed_at_ns\":" + IntText(r.observedNs)
                       + ",\"source_id\":\"" + Escaped(e.sourceId)
                       + "\",\"sequence\":" + NatText(e.sequence)
                       + ",\"kind\":\"" + KindName(e.kind)
                       + "\",\"missing_samples\":" + NatText(e.missingSamples)
                       + ",\"age_ms\":" + IntText(e.ageMs)
                       + ",\"detail\":\"" + Escaped(e.detail) + "\"}"
  {
    hide IntText;
    hide NatText;
    hide Escaped;
    hide KindName;
    var e := r.event;
    LineFrom(IntText(r.observedNs), Escaped(e.sourceId), NatText(e.sequence), KindName(e.kind),
             NatText(e.missingSamples), IntText(e.ageMs), Escaped(e.detail));
  }

  lemma LineFrom(observed: string, source: string, sequence: string, kind: string, missing: string, age: string,
                 detail: string)
    ensures OBSERVED_KEY + observed
            + (SOURCE_KEY + source
               + (QUOTE + (SEQUENCE_KEY + sequence
                           + (KIND_KEY + kind
                              + (QUOTE + (MISSING_KEY + missing
                                          + (AGE_KEY + age + (DETAIL_KEY + detail + (QUOTE + END)))))))))
            == "{\"observed_at_ns\":" + observed
               + ",\"source_id\":\"" + source
               + "\",\"sequence\":" + sequence
               + ",\"kind\":\"" + kind
               + "\",\"missing_samples\":" + missing
               + ",\"age_ms\":" + age
               + ",\"detail\":\"" + detail + "\"}"
  {
    var end := QUOTE + (MISSING_KEY + missing + (AGE_KEY + age + (DETAIL_KEY + detail + (QUOTE + END))));
    var start := "{\"observed_at_ns\":" + observed + ",\"source_id\":\"" + source + "\",\"sequence\":" + sequence
                 + ",\"kind\":\"" + kind;
    LineStart(observed, source, sequence, kind, end);
    LineEndFrom(start, missing, age, detail);
  }

  lemma LineStart(observed: string, source: string, sequence: string, kind: string, end: string)
    ensures OBSERVED_KEY + observed + (SOURCE_KEY + source + (QUOTE + (SEQUENCE_KEY + sequence + (KIND_KEY + kind + end))))
            == "{\"observed_at_ns\":" + observed + ",\"source_id\":\"" + source + "\",\"sequence\":" + sequence
               + ",\"kind\":\"" + kind + end
  {
    assert QUOTE + SEQUENCE_KEY == "\",\"sequence\":";
  }

  lemma LineEndFrom(start: string, missing: string, age: string, detail: string)
    ensures start + (QUOTE + (MISSING_KEY + missing + (AGE_KEY + age + (DETAIL_KEY + detail + (QUOTE + END)))))
            == start + "\",\"missing_samples\":" + missing + ",\"age_ms\":" + age + ",\"detail\":\"" + detail + "\"}"
  {
    assert QUOTE + END == "\"}";
    assert QUOTE + MISSING_KEY == "\",\"missing_samples\":";
  }

  // ---------------------------------------------------------------- fields

  lemma IntFieldReads(key: string, n: int, rest: string)
    requires rest != [] && rest[0] == ','
    ensures IntField(key + IntText(n) + rest, key) == Done(n, rest)
  {
    hide IntText;
    hide ReadInt;
    hide Expect;
    IntReads(n, rest);
    ExpectReads(key, IntText(n) + rest);
    assert key + IntText(n) + rest == key + (IntText(n) + rest);
  }

  lemma U64FieldReads(key: string, n: u64, rest: string)
    requires rest != [] && rest[0] == ','
    ensures U64Field(key + NatText(n) + rest, key) == Done(n, rest)
  {
    hide NatText;
    hide ReadNat;
    hide Expect;
    NatReads(n, rest);
    ExpectReads(key, NatText(n) + rest);
    assert key + NatText(n) + rest == key + (NatText(n) + rest);
  }

  lemma TextFieldReads(key: string, text: string, rest: string)
    ensures TextField(key + Escaped(text) + (QUOTE + rest), key) == Done(text, rest)
  {
    hide Escaped;
    hide ReadString;
    hide Expect;
    EscapedReads(text, rest);
    ExpectReads(key, Escaped(text) + (QUOTE + rest));
    assert key + Escaped(text) + (QUOTE + rest) == key + (Escaped(text) + (QUOTE + rest));
  }

  lemma KindFieldReads(kind: AnomalyKind, rest: string)
    ensures KindField(KIND_KEY + KindName(kind) + (QUOTE + rest)) == Done(kind, rest)
  {
    PlainTextIsUnchanged(KindName(kind));
    TextFieldReads(KIND_KEY, KindName(kind), rest);
    KindNameReads(kind);
  }

  // ---------------------------------------------------------------- records and logs

  lemma FieldStarts(e: AnomalyEvent)
    ensures FromSource(e) != [] && FromSource(e)[0] == ','
    ensures FromKind(e) != [] && FromKind(e)[0] == ','
    ensures FromAge(e) != [] && FromAge(e)[0] == ','
    ensures FromDetail(e) != [] && FromDetail(e)[0] == ','
  {
  }

  /** Every field of every record comes back, negative ages and control characters included. */
  lemma RecordReads(r: Record)
    ensures ReadRecord(Line(r)) == Done(r, [])
  {
    var e := r.event;
    FieldStarts(e);
    IntFieldReads(OBSERVED_KEY, r.observedNs, FromSource(e));
    TextFieldReads(SOURCE_KEY, e.sourceId, FromSequence(e));
    U64FieldReads(SEQUENCE_KEY, e.sequence, FromKind(e));
    KindFieldReads(e.kind, FromMissing(e));
    U64FieldReads(MISSING_KEY, e.missingSamples, FromAge(e));
    IntFieldReads(AGE_KEY, e.ageMs, FromDetail(e));
    TextFieldReads(DETAIL_KEY, e.detail, END);
    ExpectReads(END, []);
    assert END + [] == END;
  }

  lemma NoControlNumbers(n: int)
    ensures NoControl(IntText(n))
    ensures n >= 0 ==> NoControl(NatText(n))
  {
  }

  lemma NoControlField(key: string, value: string, rest: string)
    requires NoControl(key) && NoControl(value) && NoControl(rest)
    ensures NoControl(key + value + rest)
    ensures NoControl(key + value + (QUOTE + rest))
  {
  }

  lemma NoControlKeys()
    ensures NoControl(OBSERVED_KEY) && NoControl(SOURCE_KEY) && NoControl(SEQUENCE_KEY) && NoControl(KIND_KEY)
    ensures NoControl(AGE_KEY) && NoControl(DETAIL_KEY) && NoControl(END)
  {
  }

  lemma NoControlMissing()
    ensures NoControl(MISSING_KEY)
  {
  }

  lemma NoControlKind(kind: AnomalyKind)
    ensures NoControl(KindName(kind))
  {
  }

  /** A record is one line: whatever its texts hold, no byte below 0x20 is written. */
  lemma LineIsClean(r: Record)
    ensures NoControl(Line(r))
  {
    var e := r.event;
    NoControlKeys();
    NoControlMissing();
    NoControlKind(e.kind);
    EscapedIsClean(e.detail);
    NoControlField(DETAIL_KEY, Escaped(e.detail), END);
    NoControlNumbers(e.ageMs);
    NoControlField(AGE_KEY, IntText(e.ageMs), FromDetail(e));
    NoControlNumbers(e.missingSamples);
    NoControlField(MISSING_KEY, NatText(e.missingSamples), FromAge(e));
    NoControlField(KIND_KEY, KindName(e.kind), FromMissing(e));
    NoControlNumbers(e.sequence);
    NoControlField(SEQUENCE_KEY, NatText(e.sequence), FromKind(e));
    EscapedIsClean(e.sourceId);
    NoControlField(SOURCE_KEY, Escaped(e.sourceId), FromSequence(e));
    NoControlNumbers(r.observedNs);
    NoControlField(OBSERVED_KEY, IntText(r.observedNs), FromSource(e));
  }

  lemma {:induction false} LineEndFound(line: string, rest: string)
    requires NoControl(line)
    ensures LineEnd(line + (['\n'] + rest)) == |line|
    decreases |line|
  {
    if line == [] {
      assert line + (['\n'] + rest) == ['\n'] + rest;
    } else {
      assert (line + (['\n'] + rest))[1..] == line[1..] + (['\n'] + rest);
      LineEndFound(line[1..], rest);
    }
  }

  ghost predicate IsLineOf(line: string, r: Record) {
    NoControl(line) && ReadRecord(line) == Done(r, [])
  }

  lemma FirstLineReads(line: string, r: Record, rest: string)
    requires IsLineOf(line, r)
    ensures ReadLog(line + ['\n'] + rest) == match ReadLog(rest)
                                             case Unreadable => Unreadable
                                             case Records(others) => Records([r] + others)
  {
    hide ReadRecord;
    hide NoControl;
    var s := line + ['\n'] + rest;
    LineEndFound(line, rest);
    hide LineEnd;
    assert s == line + (['\n'] + rest);
    assert s[..|line|] == line && s[|line| + 1..] == rest;
  }

  lemma {:induction false} JoinedReads(lines: seq<string>, rs: seq<Record>)
    requires |lines| == |rs|
    requires forall i :: 0 <= i < |rs| ==> IsLineOf(lines[i], rs[i])
    ensures ReadLog(Joined(lines)) == Records(rs)
    decreases |rs|
  {
    hide ReadLog;
    hide IsLineOf;
    if rs == [] {
      NothingReads();
    } else {
      JoinedReads(lines[1..], rs[1..]);
      FirstLineReads(lines[0], rs[0], Joined(lines[1..]));
      assert [rs[0]] + rs[1..] == rs;
    }
  }

  lemma NothingReads()
    ensures ReadLog(Joined([])) == Records([])
  {
  }

  /** The audit log round trip: reading a whole log returns exactly the records written to it. */
  lemma LogReads(rs: seq<Record>)
    ensures ReadLog(LogText(rs)) == Records(rs)
  {
    forall i | 0 <= i < |rs| ensures IsLineOf(Lines(rs)[i], rs[i]) {
      LineIsClean(rs[i]);
      RecordReads(rs[i]);
    }
    JoinedReads(Lines(rs), rs);
  }
}
