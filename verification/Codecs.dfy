/** Printing ids and cursors, and reading them back. */
module Codecs {
  import opened Wrappers
  import opened Printing

  // ---- text ----

  predicate StartsWith(s: string, p: string) {
    |p| <= |s| && s[..|p|] == p
  }

  /** `lastIndexOf`: where the mark last occurs. */
  function LastIndex(s: string, mark: char): Option<nat> {
    if s == [] then None
    else if s[|s| - 1] == mark then Some(|s| - 1)
    else LastIndex(s[..|s| - 1], mark)
  }

  lemma {:induction false} LastIndexAt(x: string, mark: char, t: string)
    requires mark !in t
    ensures LastIndex(x + [mark] + t, mark) == Some(|x|)
  {
    var s := x + [mark] + t;
    if t != [] {
      assert s[|s| - 1] == t[|t| - 1] && t[|t| - 1] in t;
      assert s[..|s| - 1] == x + [mark] + t[..|t| - 1];
      LastIndexAt(x, mark, t[..|t| - 1]);
    }
  }

  lemma {:induction false} LastIndexIs(s: string, mark: char)
    ensures LastIndex(s, mark).None? <==> mark !in s
    ensures LastIndex(s, mark).Some? ==>
              var i := LastIndex(s, mark).value; i < |s| && s[i] == mark && mark !in s[i + 1..]
  {
    if s != [] {
      var front := s[..|s| - 1];
      assert s == front + [s[|s| - 1]];
      LastIndexIs(front, mark);
      if s[|s| - 1] != mark && LastIndex(front, mark).Some? {
        var i := LastIndex(front, mark).value;
        assert s[i + 1..] == front[i + 1..] + [s[|s| - 1]];
      }
    }
  }

  function PrintInt(n: int): string {
    if n < 0 then "-" + Decimal(-n) else Decimal(n)
  }

  /** The text is an optional minus and at least one digit. */
  predicate IsInteger(s: string) {
    var digits := if s != [] && s[0] == '-' then s[1..] else s;
    digits != [] && AllDigits(digits)
  }

  function ReadInteger(s: string): int
    requires IsInteger(s)
  {
    if s[0] == '-' then 0 - Number(s[1..]) else Number(s)
  }

  lemma DigitsRead(d: string)
    requires d != "" && AllDigits(d)
    ensures IsInteger(d) && ReadInteger(d) == Number(d) && ':' !in d && '.' !in d
    ensures IsInteger("-" + d) && ReadInteger("-" + d) == 0 - Number(d) && ':' !in "-" + d && '.' !in "-" + d
  {
    assert ("-" + d)[1..] == d;
    assert d[0] != '-';
  }

  lemma IntReads(n: int)
    ensures IsInteger(PrintInt(n)) && ReadInteger(PrintInt(n)) == n
    ensures ':' !in PrintInt(n) && '.' !in PrintInt(n)
  {
    var d := Decimal(if n < 0 then -n else n);
    DecimalReads(if n < 0 then -n else n);
    DigitsRead(d);
  }

  /** How many digits the text starts with. */
  function DigitRun(s: string): nat {
    if s == [] || !('0' <= s[0] <= '9') then 0 else 1 + DigitRun(s[1..])
  }

  lemma {:induction false} RunOfDigits(s: string)
    ensures DigitRun(s) <= |s| && AllDigits(s[..DigitRun(s)])
    ensures AllDigits(s) ==> DigitRun(s) == |s|
  {
    if s != [] && '0' <= s[0] <= '9' {
      RunOfDigits(s[1..]);
      assert s[..DigitRun(s)] == [s[0]] + s[1..][..DigitRun(s[1..])];
    }
  }

  /** `parseInt`: a leading integer, whatever follows it. */
  function ParseInt(s: string): Option<int> {
    if s != [] && s[0] == ' ' then ParseInt(s[1..])
    else
      var signed := s != [] && (s[0] == '-' || s[0] == '+');
      var digits := if signed then s[1..] else s;
      RunOfDigits(digits);
      if DigitRun(digits) == 0 then None
      else
        var n: int := Number(digits[..DigitRun(digits)]);
        Some(if signed && s[0] == '-' then 0 - n else n)
  }

  /** Whatever follows the digits is left; a space before is skipped and a sign taken. */
  lemma ParseShows(d: string, rest: string)
    requires d != "" && AllDigits(d) && (rest == "" || !('0' <= rest[0] <= '9'))
    ensures ParseInt(d + rest) == Some(Number(d))
    ensures ParseInt("+" + (d + rest)) == Some(Number(d)) && ParseInt("-" + (d + rest)) == Some(0 - Number(d))
  {
    RunStops(d, rest);
    var text := d + rest;
    assert text[..|d|] == d && text[0] == d[0];
    SignParses(text);
  }

  lemma SignParses(text: string)
    requires DigitRun(text) > 0 && DigitRun(text) <= |text| && AllDigits(text[..DigitRun(text)])
    ensures ParseInt("+" + text) == Some(Number(text[..DigitRun(text)]))
    ensures ParseInt("-" + text) == Some(0 - Number(text[..DigitRun(text)]))
  {
    assert ("+" + text)[1..] == text && ("-" + text)[1..] == text;
  }

  lemma SpaceSkips(text: string)
    ensures ParseInt(" " + text) == ParseInt(text)
  {
    assert (" " + text)[1..] == text;
  }

  lemma {:induction false} RunStops(d: string, rest: string)
    requires AllDigits(d) && (rest == "" || !('0' <= rest[0] <= '9'))
    ensures DigitRun(d + rest) == |d|
  {
    if d == "" {
      assert d + rest == rest;
    } else {
      RunStops(d[1..], rest);
      assert (d + rest)[1..] == d[1..] + rest;
    }
  }

  /** Without digits there is no number. */
  lemma NothingParses(rest: string)
    requires rest == "" || !('0' <= rest[0] <= '9' || rest[0] in " +-")
    ensures ParseInt(rest) == None && ParseInt("+" + rest) == None && ParseInt("-" + rest) == None
  {
    assert ("+" + rest)[1..] == rest && ("-" + rest)[1..] == rest;
  }

  lemma DigitsParse(d: string)
    requires d != "" && AllDigits(d)
    ensures ParseInt(d) == Some(Number(d))
    ensures ParseInt("-" + d) == Some(0 - Number(d))
  {
    RunOfDigits(d);
    assert d[..|d|] == d;
    assert ("-" + d)[1..] == d;
  }

  lemma ParsesPrinted(n: int)
    ensures ParseInt(PrintInt(n)) == Some(n)
  {
    DecimalReads(if n < 0 then -n else n);
    DigitsParse(Decimal(if n < 0 then -n else n));
  }

  // ---- cursors ----

  datatype Cursor = Cursor(connection: string, index: int)

  datatype CursorCodec = CursorCodec(encode: Cursor -> string, decode: string -> Option<Cursor>)

  function Encode(codec: CursorCodec, c: Cursor): string {
    codec.encode(c)
  }

  function Decode(codec: CursorCodec, value: string): Option<Cursor> {
    codec.decode(value)
  }

  function PlainEncode(c: Cursor): string {
    c.connection + [':'] + PrintInt(c.index)
  }

  function PlainDecode(value: string): Option<Cursor> {
    LastIndexIs(value, ':');
    match LastIndex(value, ':')
    case None => None
    case Some(split) =>
      if split == 0 || !IsInteger(value[split + 1..]) then None
      else Some(Cursor(value[..split], ReadInteger(value[split + 1..])))
  }

  /** A plain cursor returns if and only if its connection has a name, colons and all. */
  lemma PlainRoundTripIff(c: Cursor)
    ensures PlainDecode(PlainEncode(c)) == (if c.connection != "" then Some(c) else None)
  {
    IntReads(c.index);
    LastIndexAt(c.connection, ':', PrintInt(c.index));
    var value := PlainEncode(c);
    assert value[|c.connection| + 1..] == PrintInt(c.index);
    assert value[..|c.connection|] == c.connection;
  }

  /** A signing key: the signature of a payload, in hex digits. */
  datatype Signer = Signer(sign: string -> string)

  function Sign(k: Signer, payload: string): string {
    k.sign(payload)
  }

  ghost predicate SignsInHex(k: Signer) {
    forall payload: string, c {:trigger c in Sign(k, payload)} | c in Sign(k, payload) :: '0' <= c <= '9' || 'a' <= c <= 'f'
  }

  function SignedEncode(k: Signer, c: Cursor): string {
    var payload := PlainEncode(c);
    payload + ['.'] + Sign(k, payload)
  }

  function SignedDecode(k: Signer, value: string): Option<Cursor> {
    LastIndexIs(value, '.');
    match LastIndex(value, '.')
    case None => None
    case Some(split) =>
      if split == 0 || value[split + 1..] != Sign(k, value[..split]) then None
      else ReadPayload(value[..split])
  }

  function ReadPayload(payload: string): Option<Cursor> {
    LastIndexIs(payload, ':');
    match LastIndex(payload, ':')
    case None => None
    case Some(at) =>
      if at == 0 || ParseInt(payload[at + 1..]).None? then None
      else Some(Cursor(payload[..at], ParseInt(payload[at + 1..]).value))
  }

  /** A signed cursor returns if and only if its connection has a name, dots and colons and all. */
  lemma SignedRoundTripIff(k: Signer, c: Cursor)
    requires SignsInHex(k)
    ensures SignedDecode(k, SignedEncode(k, c)) == (if c.connection != "" then Some(c) else None)
  {
    SignatureReads(k, PlainEncode(c));
    PayloadReads(c);
  }

  /** Cut at its last dot, a signed value is its payload and the signature. */
  lemma SignatureReads(k: Signer, payload: string)
    requires SignsInHex(k) && payload != ""
    ensures SignedDecode(k, payload + ['.'] + Sign(k, payload)) == ReadPayload(payload)
  {
    var sign := Sign(k, payload);
    assert '.' !in sign;
    LastIndexAt(payload, '.', sign);
    var value := payload + ['.'] + sign;
    assert value[..|payload|] == payload && value[|payload| + 1..] == sign;
  }

  lemma PayloadReads(c: Cursor)
    ensures ReadPayload(PlainEncode(c)) == (if c.connection != "" then Some(c) else None)
  {
    IntReads(c.index);
    CutReads(c.connection, PrintInt(c.index));
    ParsesPrinted(c.index);
  }

  /** A payload is cut at its last colon. */
  lemma CutReads(a: string, t: string)
    requires ':' !in t
    ensures ReadPayload(a + [':'] + t) == (if a == "" || ParseInt(t).None? then None else Some(Cursor(a, ParseInt(t).value)))
  {
    LastIndexAt(a, ':', t);
    var payload := a + [':'] + t;
    assert payload[..|a|] == a && payload[|a| + 1..] == t;
  }

  /** The two formats as they are written, and what only looks like them. */
  lemma CursorShows(k: Signer, c: Cursor)
    ensures PlainEncode(c) == c.connection + ":" + PrintInt(c.index) && PrintInt(7) == "7" && PrintInt(-7) == "-7"
    ensures SignedEncode(k, c) == PlainEncode(c) + "." + k.sign(PlainEncode(c))
    ensures PlainDecode("C:") == None && PlainDecode(":7") == None && PlainDecode("C7") == None && PlainDecode("C:7x") == None
  {
    LastIndexAt("C", ':', "");
    LastIndexAt("", ':', "7");
    LastIndexAt("C", ':', "7x");
    assert "C:" == "C" + [':'] + "" && ":7" == "" + [':'] + "7" && "C:7x" == "C" + [':'] + "7x";
    assert "C:7x"[2..] == "7x" && "7x"[1] == 'x';
    LastIndexIs("C7", ':');
  }

  /** Only a value carrying its own payload's signature is read. */
  lemma SignedIsAuthentic(k: Signer, value: string)
    requires SignedDecode(k, value).Some?
    ensures exists payload: string :: value == payload + ['.'] + Sign(k, payload) && SignedDecode(k, value) == ReadPayload(payload)
  {
    LastIndexIs(value, '.');
    var split := LastIndex(value, '.').value;
    var payload := value[..split];
    assert value == payload + ['.'] + Sign(k, payload);
  }

  lemma MarkAfterLast(x: string, t: string, split: nat)
    requires ':' !in t && '.' !in t
    requires LastIndex(x + [':'] + t, '.') == Some(split)
    ensures split < |x + [':'] + t| && ':' in (x + [':'] + t)[split + 1..]
  {
    var s := x + [':'] + t;
    LastIndexIs(s, '.');
    assert forall j | |x| < j < |s| :: s[j] == t[j - |x| - 1];
    assert s[split + 1..][|x| - split - 1] == ':';
  }

  lemma SignedRejects(k: Signer, x: string, t: string)
    requires SignsInHex(k) && ':' !in t && '.' !in t
    ensures SignedDecode(k, x + [':'] + t).None?
  {
    var s := x + [':'] + t;
    if LastIndex(s, '.').Some? {
      var split := LastIndex(s, '.').value;
      MarkAfterLast(x, t, split);
      assert ':' !in Sign(k, s[..split]);
    }
  }

  /** A plain cursor never passes for a signed one. */
  lemma PlainIsNotSigned(k: Signer, c: Cursor)
    requires SignsInHex(k)
    ensures SignedDecode(k, PlainEncode(c)).None?
  {
    IntReads(c.index);
    SignedRejects(k, c.connection, PrintInt(c.index));
  }

  lemma DottedIsNoInteger(a: string, b: string)
    requires a != ""
    ensures !IsInteger(a + ['.'] + b)
  {
    var s := a + ['.'] + b;
    assert s[|a|] == '.';
    assert s[0] == '-' ==> s[1..][|a| - 1] == '.';
  }

  lemma PlainRejectsDots(x: string, a: string, b: string)
    requires a != "" && ':' !in a && ':' !in b
    ensures PlainDecode(x + [':'] + (a + ['.'] + b)).None?
  {
    var tail := a + ['.'] + b;
    LastIndexAt(x, ':', tail);
    DottedIsNoInteger(a, b);
    assert (x + [':'] + tail)[|x| + 1..] == tail;
  }

  /** A signed cursor never passes for a plain one. */
  lemma SignedIsNotPlain(k: Signer, c: Cursor)
    requires SignsInHex(k)
    ensures PlainDecode(SignedEncode(k, c)).None?
  {
    IntReads(c.index);
    var sign := Sign(k, PlainEncode(c));
    assert ':' !in sign;
    PlainRejectsDots(c.connection, PrintInt(c.index), sign);
    assert SignedEncode(k, c) == c.connection + [':'] + (PrintInt(c.index) + ['.'] + sign);
  }

  /** Read with the first codec that accepts the value. */
  function FallbackDecode(codecs: seq<CursorCodec>, value: string): Option<Cursor> {
    if codecs == [] then None
    else if Decode(codecs[0], value).Some? then Decode(codecs[0], value)
    else FallbackDecode(codecs[1..], value)
  }

  /** A value the earlier codecs reject is read as the first codec after them reads it. */
  lemma {:induction false} FallbackReads(codecs: seq<CursorCodec>, n: nat, value: string)
    requires n < |codecs| && forall i | 0 <= i < n :: Decode(codecs[i], value).None?
    ensures Decode(codecs[n], value).Some? ==> FallbackDecode(codecs, value) == Decode(codecs[n], value)
    ensures n + 1 == |codecs| ==> FallbackDecode(codecs, value) == Decode(codecs[n], value)
  {
    if n > 0 {
      FallbackReads(codecs[1..], n - 1, value);
    } else if n + 1 == |codecs| {
      assert FallbackDecode(codecs[1..], value) == None;
    }
  }

  const PLAIN: CursorCodec := CursorCodec(c => PlainEncode(c), v => PlainDecode(v))

  function Signed(k: Signer): CursorCodec {
    CursorCodec(c => SignedEncode(k, c), v => SignedDecode(k, v))
  }

  /** Moving between plain and signed cursors, in either order, both formats stay readable. */
  lemma MigrationReadsBoth(k: Signer, c: Cursor, codecs: seq<CursorCodec>)
    requires SignsInHex(k) && c.connection != ""
    requires codecs == [PLAIN, Signed(k)] || codecs == [Signed(k), PLAIN]
    ensures FallbackDecode(codecs, Encode(PLAIN, c)) == Some(c)
    ensures FallbackDecode(codecs, Encode(Signed(k), c)) == Some(c)
  {
    PlainRoundTripIff(c);
    SignedRoundTripIff(k, c);
    PlainIsNotSigned(k, c);
    SignedIsNotPlain(k, c);
    FallbackReads(codecs, if codecs[0] == PLAIN then 0 else 1, PlainEncode(c)) by {
      assert Decode(codecs[0], PlainEncode(c)) == if codecs == [PLAIN, Signed(k)] then PlainDecode(PlainEncode(c)) else SignedDecode(k, PlainEncode(c));
    }
  }

  // ---- prefixed ids ----

  datatype Entry = Entry(typeName: string, prefix: string)

  /** The prefixes in the order written, and the width keys are padded to; 0 means no padding. */
  datatype PrefixCodec = PrefixCodec(entries: seq<Entry>, pad: nat)

  datatype GlobalId = GlobalId(typeName: string, id: string)

  /** Put an entry behind every one whose prefix is at least as long. */
  function Insert(e: Entry, s: seq<Entry>): seq<Entry> {
    if s == [] || |s[|s| - 1].prefix| >= |e.prefix| then s + [e]
    else Insert(e, s[..|s| - 1]) + [s[|s| - 1]]
  }

  /** The entries, longest prefix first, ties in the order written. */
  function ByPrefix(entries: seq<Entry>): seq<Entry> {
    if entries == [] then [] else Insert(entries[|entries| - 1], ByPrefix(entries[..|entries| - 1]))
  }

  ghost predicate LongestFirst(s: seq<Entry>) {
    forall i, j | 0 <= i < j < |s| :: |s[i].prefix| >= |s[j].prefix|
  }

  lemma {:induction false} InsertSorted(e: Entry, s: seq<Entry>)
    requires LongestFirst(s)
    ensures LongestFirst(Insert(e, s))
    ensures forall x :: x in Insert(e, s) <==> x == e || x in s
  {
    if s != [] && |s[|s| - 1].prefix| < |e.prefix| {
      var front, last := s[..|s| - 1], s[|s| - 1];
      InsertSorted(e, front);
      assert s == front + [last];
      assert forall x | x in Insert(e, front) :: |x.prefix| >= |last.prefix|;
    }
  }

  lemma {:induction false} ByPrefixSorted(entries: seq<Entry>)
    ensures LongestFirst(ByPrefix(entries))
    ensures forall x :: x in ByPrefix(entries) <==> x in entries
  {
    if entries != [] {
      var front, last := entries[..|entries| - 1], entries[|entries| - 1];
      ByPrefixSorted(front);
      InsertSorted(last, ByPrefix(front));
      assert entries == front + [last];
    }
  }

  predicate Matches(e: Entry, value: string) {
    e.prefix != "" && StartsWith(value, e.prefix)
  }

  function FirstMatch(s: seq<Entry>, value: string): Option<Entry> {
    if s == [] then None
    else if Matches(s[0], value) then Some(s[0])
    else FirstMatch(s[1..], value)
  }

  /** The first match of a longest-first list is a longest match. */
  lemma {:induction false} FirstIsLongest(s: seq<Entry>, value: string)
    requires LongestFirst(s)
    ensures FirstMatch(s, value).None? <==> forall e | e in s :: !Matches(e, value)
    ensures FirstMatch(s, value).Some? ==>
              var m := FirstMatch(s, value).value;
              m in s && Matches(m, value) && forall e | e in s && Matches(e, value) :: |e.prefix| <= |m.prefix|
  {
    if s != [] {
      assert s == [s[0]] + s[1..];
      assert forall e | e in s[1..] :: |e.prefix| <= |s[0].prefix|;
      FirstIsLongest(s[1..], value);
    }
  }

  function Zeros(n: nat): string {
    if n == 0 then "" else ['0'] + Zeros(n - 1)
  }

  function PadStart(s: string, width: nat): string {
    if |s| >= width then s else Zeros(width - |s|) + s
  }

  /** Leading zeros off, leaving at least one digit. */
  function StripZeros(s: string): string {
    if |s| > 1 && s[0] == '0' && '0' <= s[1] <= '9' then StripZeros(s[1..]) else s
  }

  function EncodeId(codec: PrefixCodec, e: Entry, key: string): string {
    e.prefix + if codec.pad > 0 then PadStart(key, codec.pad) else key
  }

  function DecodeId(codec: PrefixCodec, value: string): Option<GlobalId> {
    var m := FirstMatch(ByPrefix(codec.entries), value);
    if m.None? then None
    else
      ByPrefixSorted(codec.entries);
      FirstIsLongest(ByPrefix(codec.entries), value);
      var id := value[|m.value.prefix|..];
      if id == "" then None
      else Some(GlobalId(m.value.typeName, if codec.pad > 0 && AllDigits(id) then StripZeros(id) else id))
  }

  lemma {:induction false} NoLeadingZero(n: nat)
    ensures n > 0 ==> Decimal(n)[0] != '0'
  {
    if n >= 10 {
      NoLeadingZero(n / 10);
      assert Decimal(n)[0] == Decimal(n / 10)[0];
    }
  }

  lemma {:induction false} ZerosAreDigits(k: nat)
    ensures |Zeros(k)| == k && AllDigits(Zeros(k))
  {
    if k > 0 {
      ZerosAreDigits(k - 1);
    }
  }

  lemma StripOne(rest: string)
    requires rest != "" && '0' <= rest[0] <= '9'
    ensures StripZeros(['0'] + rest) == StripZeros(rest)
  {
    assert (['0'] + rest)[1..] == rest;
  }

  lemma DigitsAppend(a: string, b: string)
    requires AllDigits(a) && AllDigits(b)
    ensures AllDigits(a + b)
  {}

  lemma PadStep(z: string, d: string)
    requires AllDigits(z) && AllDigits(d) && d != ""
    ensures StripZeros((['0'] + z) + d) == StripZeros(z + d)
  {
    DigitsAppend(z, d);
    assert (['0'] + z) + d == ['0'] + (z + d);
    StripOne(z + d);
  }

  lemma {:induction false} StripsPadding(d: string, k: nat)
    requires d != "" && AllDigits(d) && (|d| == 1 || d[0] != '0')
    ensures StripZeros(Zeros(k) + d) == d
  {
    if k == 0 {
      assert Zeros(0) + d == d;
    } else {
      StripsPadding(d, k - 1);
      ZerosAreDigits(k - 1);
      PadStep(Zeros(k - 1), d);
    }
  }

  lemma OneDigit(n: nat)
    ensures n < 10 ==> |Decimal(n)| == 1
  {}

  /** The text after the prefix of any key, and the key read back from it. */
  function TextAfter(codec: PrefixCodec, key: string): string {
    if codec.pad > 0 then PadStart(key, codec.pad) else key
  }

  function KeyRead(codec: PrefixCodec, text: string): string {
    if codec.pad > 0 && AllDigits(text) then StripZeros(text) else text
  }

  /** What follows the prefix in the printed id of a number. */
  function KeyText(codec: PrefixCodec, n: nat): string {
    TextAfter(codec, Decimal(n))
  }

  /** A text of digits, written without a leading zero. */
  predicate Plainly(d: string) {
    d != "" && AllDigits(d) && (|d| == 1 || d[0] != '0')
  }

  /** The text is digits and reads as `d`. */
  predicate ReadsAs(t: string, d: string) {
    t != "" && AllDigits(t) && StripZeros(t) == d
  }

  lemma PaddedReads(d: string, width: nat)
    requires Plainly(d)
    ensures ReadsAs(PadStart(d, width), d) && ReadsAs(d, d)
  {
    PlainReads(d);
    if width > |d| {
      ZerosReads(d, width - |d|);
    }
  }

  lemma PlainReads(d: string)
    requires Plainly(d)
    ensures ReadsAs(d, d)
  {}

  lemma ZerosReads(d: string, k: nat)
    requires Plainly(d)
    ensures ReadsAs(Zeros(k) + d, d)
  {
    StripsPadding(d, k);
    ZerosAreDigits(k);
    DigitsAppend(Zeros(k), d);
  }

  lemma KeyTextReads(codec: PrefixCodec, n: nat)
    ensures KeyText(codec, n) != "" && AllDigits(KeyText(codec, n))
    ensures (if codec.pad > 0 then StripZeros(KeyText(codec, n)) else KeyText(codec, n)) == Decimal(n)
  {
    DecimalReads(n);
    NoLeadingZero(n);
    OneDigit(n);
    PaddedReads(Decimal(n), codec.pad);
  }

  /** Types and prefixes are told apart by the map, and each type has a prefix of its own. */
  ghost predicate WellFormed(codec: PrefixCodec) {
    forall i, j | 0 <= i < j < |codec.entries| ::
      codec.entries[i].typeName != codec.entries[j].typeName && codec.entries[i].prefix != codec.entries[j].prefix
  }

  lemma MatchedBy(codec: PrefixCodec, value: string, e: Entry)
    requires WellFormed(codec) && e in codec.entries && StartsWith(value, e.prefix)
    ensures FirstMatch(ByPrefix(codec.entries), value) == Some(e) <==>
            e.prefix != "" && forall q | q in codec.entries && |q.prefix| > |e.prefix| :: !StartsWith(value, q.prefix)
    ensures var m := FirstMatch(ByPrefix(codec.entries), value);
            m.Some? && m != Some(e) ==> m.value.typeName != e.typeName
  {
    ByPrefixSorted(codec.entries);
    FirstIsLongest(ByPrefix(codec.entries), value);
    var m := FirstMatch(ByPrefix(codec.entries), value);
    if m.Some? {
      SameLengthSamePrefix(value, m.value.prefix, e.prefix);
    }
  }

  /**
   An id of a decimal key returns if and only if its type's prefix is not empty
   and no longer prefix in the map starts the printed id.
   */
  lemma PrefixRoundTripIff(codec: PrefixCodec, e: Entry, n: nat)
    requires WellFormed(codec) && e in codec.entries
    ensures var value := EncodeId(codec, e, Decimal(n));
            DecodeId(codec, value) == Some(GlobalId(e.typeName, Decimal(n))) <==>
            e.prefix != "" && forall q | q in codec.entries && |q.prefix| > |e.prefix| :: !StartsWith(value, q.prefix)
  {
    var value := EncodeId(codec, e, Decimal(n));
    assert value == e.prefix + KeyText(codec, n);
    MatchedBy(codec, value, e);
    KeyTextReads(codec, n);
    assert value[|e.prefix|..] == KeyText(codec, n);
  }

  /** Whatever its digits, a text is stripped to itself exactly when it has no leading zero. */
  lemma {:induction false} StripsLess(s: string)
    requires AllDigits(s) && s != ""
    ensures StripZeros(s) == s <==> |s| == 1 || s[0] != '0'
    ensures |StripZeros(s)| <= |s|
  {
    if |s| > 1 && s[0] == '0' {
      StripsLess(s[1..]);
    }
  }

  lemma {:induction false} ZerosStrip(d: string, k: nat)
    requires d != "" && AllDigits(d)
    ensures StripZeros(Zeros(k) + d) == StripZeros(d)
  {
    if k == 0 {
      assert Zeros(0) + d == d;
    } else {
      ZerosStrip(d, k - 1);
      ZerosAreDigits(k - 1);
      PadStep(Zeros(k - 1), d);
    }
  }

  lemma {:induction false} AllZeros(k: nat)
    ensures k > 0 ==> StripZeros(Zeros(k)) == "0"
    ensures |Zeros(k)| == k && forall i | 0 <= i < k :: Zeros(k)[i] == '0'
  {
    if k > 1 {
      AllZeros(k - 1);
      assert Zeros(k)[1..] == Zeros(k - 1);
    }
  }

  /** A key comes back from its text: every key without padding; with it, digits with no leading zero, and others long enough not to be padded. */
  lemma TextReturnsIff(codec: PrefixCodec, key: string)
    ensures TextAfter(codec, key) != "" && KeyRead(codec, TextAfter(codec, key)) == key <==>
            key != "" && (codec.pad == 0 || if AllDigits(key) then Plainly(key) else |key| >= codec.pad)
  {
    if codec.pad > 0 {
      if key == "" {
        AllZeros(codec.pad);
        assert Zeros(codec.pad) + key == Zeros(codec.pad);
      } else {
        PaddedReturnsIff(key, codec.pad);
      }
    }
  }

  lemma PaddedReturnsIff(key: string, pad: nat)
    requires key != ""
    ensures var text := PadStart(key, pad);
            (if AllDigits(text) then StripZeros(text) else text) == key <==> if AllDigits(key) then Plainly(key) else |key| >= pad
  {
    var k := if |key| >= pad then 0 else pad - |key|;
    AllZeros(k);
    if k > 0 {
      PaddedDigits(key, k);
    }
    if AllDigits(key) {
      StripsLess(key);
      if k > 0 {
        ZerosStrip(key, k);
      }
    }
  }

  lemma PaddedDigits(key: string, k: nat)
    ensures AllDigits(Zeros(k) + key) <==> AllDigits(key)
    ensures |Zeros(k) + key| == k + |key|
  {
    AllZeros(k);
    var text := Zeros(k) + key;
    assert forall i | 0 <= i < |key| :: text[k + i] == key[i];
  }

  /**
   Any key of any type returns if and only if its type's prefix is not empty, no
   longer prefix in the map starts the printed id, the key is not empty, and, with
   padding, it is digits without a leading zero or at least as long as the padding.
   */
  lemma KeyReturnsIff(codec: PrefixCodec, e: Entry, key: string)
    requires WellFormed(codec) && e in codec.entries
    ensures var value := EncodeId(codec, e, key);
            DecodeId(codec, value) == Some(GlobalId(e.typeName, key)) <==>
            && e.prefix != "" && (forall q | q in codec.entries && |q.prefix| > |e.prefix| :: !StartsWith(value, q.prefix))
            && key != "" && (codec.pad == 0 || if AllDigits(key) then |key| == 1 || key[0] != '0' else |key| >= codec.pad)
  {
    var value := EncodeId(codec, e, key);
    assert value == e.prefix + TextAfter(codec, key);
    MatchedBy(codec, value, e);
    TextReturnsIff(codec, key);
    assert value[|e.prefix|..] == TextAfter(codec, key);
  }

  /** A value is not one of ours if and only if no prefix starts it, or the longest that does is the whole of it. */
  lemma ForeignIff(codec: PrefixCodec, value: string)
    ensures DecodeId(codec, value).None? <==>
            (forall q | q in codec.entries && q.prefix != "" :: !StartsWith(value, q.prefix)) ||
            (value != "" && exists q :: q in codec.entries && q.prefix == value)
  {
    ByPrefixSorted(codec.entries);
    var sorted := ByPrefix(codec.entries);
    FirstIsLongest(sorted, value);
    var m := FirstMatch(sorted, value);
    if m.Some? {
      assert StartsWith(value, m.value.prefix);
      if q :| q in codec.entries && q.prefix == value && value != "" {
        assert q in sorted && Matches(q, value);
      }
      if value[|m.value.prefix|..] == "" {
        assert m.value.prefix == value;
      }
    }
  }

  lemma SameLengthSamePrefix(value: string, p: string, q: string)
    requires StartsWith(value, p) && StartsWith(value, q)
    ensures |p| == |q| ==> p == q
  {}

  /** Where no prefix extends another by digits, every decimal key returns. */
  lemma PrefixRoundTrips(codec: PrefixCodec, e: Entry, n: nat)
    requires WellFormed(codec) && e in codec.entries && e.prefix != ""
    requires forall q | q in codec.entries && |q.prefix| > |e.prefix| && StartsWith(q.prefix, e.prefix) :: !AllDigits(q.prefix[|e.prefix|..])
    ensures DecodeId(codec, EncodeId(codec, e, Decimal(n))) == Some(GlobalId(e.typeName, Decimal(n)))
  {
    KeyTextReads(codec, n);
    var value := EncodeId(codec, e, Decimal(n));
    assert value == e.prefix + KeyText(codec, n);
    forall q | q in codec.entries && |q.prefix| > |e.prefix| ensures !StartsWith(value, q.prefix) {
      if StartsWith(value, q.prefix) {
        DigitTail(e.prefix, KeyText(codec, n), q.prefix);
      }
    }
    PrefixRoundTripIff(codec, e, n);
  }

  lemma DigitTail(p: string, tail: string, q: string)
    requires StartsWith(p + tail, q) && |q| > |p| && AllDigits(tail)
    ensures StartsWith(q, p) && AllDigits(q[|p|..])
  {
    assert q[..|p|] == (p + tail)[..|q|][..|p|] == p;
    assert q[|p|..] == tail[..|q| - |p|];
  }
}
